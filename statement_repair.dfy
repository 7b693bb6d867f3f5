/**
 * The bookkeeping Statement.repair does before any rule runs again: the edits are
 * spliced into a copy of the raw text, every statement position and region of
 * interest is shifted past each deletion and insertion, every node whose region of
 * interest an edit touches is marked content-modified, and after each step every
 * position must still lie inside its region of interest.
 *
 * The source walks an identity map of (statement, information) pairs for every
 * edit; the nodes are independent of each other, so the model shifts the two
 * trees node by node with functions, and CollectedShift shows that this is the
 * same as shifting every collected pair.
 */
module StatementRepair {
  import opened Wrappers
  import opened Regions
  import opened CharSequences
  import opened Statements
  import opened Reparation

  // ----- shifting one region -----

  /** applyRegionDelete: the region after `length` characters at `offset` are deleted. */
  function ShiftForDelete(r: Span, offset: int, length: int): Span {
    var overlap := r.OverlapLength(offset, length);
    if overlap > 0 then
      if offset < r.offset then Span(offset, r.length - overlap)
      else Span(r.offset, r.length - overlap)
    else if offset < r.offset then Span(r.offset - Min(r.offset - offset, length), r.length)
    else r
  }

  /** Where the character at `x` lands when [offset, offset + length) is deleted; deleted ones collapse onto `offset`. */
  function DeletePoint(x: int, offset: int, length: int): int {
    if x <= offset then x else if x <= offset + length then offset else x - length
  }

  /** applyRegionDelete maps both ends of the region through DeletePoint. */
  lemma ShiftForDeleteIsPointMap(r: Span, offset: int, length: int)
    requires r.length >= 0 && length > 0
    ensures ShiftForDelete(r, offset, length).offset == DeletePoint(r.offset, offset, length)
    ensures ShiftForDelete(r, offset, length).End() == DeletePoint(r.End(), offset, length)
  {
  }

  /** After a deletion the region holds exactly the new places of its characters that were not deleted. */
  lemma DeleteKeepsExactlySurvivors(r: Span, offset: int, length: int, y: int)
    requires r.length >= 0 && length > 0
    ensures ShiftForDelete(r, offset, length).ContainsOffset(y) <==>
      exists x :: r.ContainsOffset(x) && !(offset <= x < offset + length) && DeletePoint(x, offset, length) == y
  {
    ShiftForDeleteIsPointMap(r, offset, length);
    var s := ShiftForDelete(r, offset, length);
    if s.ContainsOffset(y) {
      var x := if y < offset then y else y + length;
      assert r.ContainsOffset(x) && !(offset <= x < offset + length) && DeletePoint(x, offset, length) == y;
    }
    if exists x :: r.ContainsOffset(x) && !(offset <= x < offset + length) && DeletePoint(x, offset, length) == y {
      var x :| r.ContainsOffset(x) && !(offset <= x < offset + length) && DeletePoint(x, offset, length) == y;
      assert s.ContainsOffset(y);
    }
  }

  /** applyRegionInsert as written: an insertion strictly inside the region grows it by the overlap only. */
  function ShiftForInsertAsWritten(r: Span, offset: int, length: int): Span {
    if offset <= r.offset then Span(r.offset + length, r.length)
    else
      var overlap := r.OverlapLength(offset, length);
      if overlap > 0 then Span(r.offset, r.length + overlap) else r
  }

  /** applyRegionInsert as intended: an insertion strictly inside the region grows it by the inserted length. */
  function ShiftForInsert(r: Span, offset: int, length: int): Span {
    if offset <= r.offset then Span(r.offset + length, r.length)
    else if offset < r.End() then Span(r.offset, r.length + length)
    else r
  }

  /** Where the character at `x` lands when `length` characters are inserted at `offset`. */
  function InsertPoint(x: int, offset: int, length: int): int {
    if offset <= x then x + length else x
  }

  /**
   * After an insertion the region holds exactly the new places of its own
   * characters, plus the inserted text when it went strictly inside.
   */
  lemma InsertKeepsExactlyItsCharacters(r: Span, offset: int, length: int, y: int)
    requires r.length >= 0 && length > 0
    ensures ShiftForInsert(r, offset, length).ContainsOffset(y) <==>
      (exists x :: r.ContainsOffset(x) && InsertPoint(x, offset, length) == y)
      || (r.offset < offset < r.End() && offset <= y < offset + length)
  {
    var s := ShiftForInsert(r, offset, length);
    if s.ContainsOffset(y) && !(r.offset < offset < r.End() && offset <= y < offset + length) {
      var x := if offset <= r.offset || y >= offset + length then y - length else y;
      if offset <= r.offset {
        assert r.ContainsOffset(x) && InsertPoint(x, offset, length) == y;
      } else if offset < r.End() {
        assert r.ContainsOffset(x) && InsertPoint(x, offset, length) == y;
      } else {
        assert r.ContainsOffset(y) && InsertPoint(y, offset, length) == y;
      }
    }
    if exists x :: r.ContainsOffset(x) && InsertPoint(x, offset, length) == y {
      var x :| r.ContainsOffset(x) && InsertPoint(x, offset, length) == y;
      assert s.ContainsOffset(y);
    }
  }

  /** The region grows by the inserted length exactly when the insertion is strictly inside it. */
  lemma InsertGrowsByInsertedLength(r: Span, offset: int, length: int)
    requires r.length >= 0 && length > 0
    ensures ShiftForInsert(r, offset, length).length == r.length + (if r.offset < offset < r.End() then length else 0)
  {
  }

  /** The two agree unless the inserted text reaches past the end of the region it went into. */
  lemma InsertAsWrittenAgreesWhenTextFits(r: Span, offset: int, length: int)
    requires r.length >= 0 && length > 0
    ensures ShiftForInsertAsWritten(r, offset, length) == ShiftForInsert(r, offset, length)
      <==> !(r.offset < offset < r.End() && offset + length > r.End())
  {
  }

  /** [0, 10) with five characters inserted at 8: as written it becomes [0, 12) and loses its last two characters. */
  lemma InsertAsWrittenLosesCharacters()
    ensures ShiftForInsertAsWritten(Span(0, 10), 8, 5) == Span(0, 12)
    ensures Span(0, 10).ContainsOffset(9) && InsertPoint(9, 8, 5) == 14
    ensures !ShiftForInsertAsWritten(Span(0, 10), 8, 5).ContainsOffset(14)
    ensures ShiftForInsert(Span(0, 10), 8, 5) == Span(0, 15)
  {
  }

  // ----- a position and its region of interest -----

  /**
   * A position that starts where its region of interest starts and ends no later.
   * Parsing produces only such pairs: a region of interest starts where the rule began.
   */
  predicate Aligned(roi: Span, position: Span) {
    roi.offset == position.offset && 0 <= position.length && position.End() <= roi.End()
  }

  lemma DeleteKeepsAligned(roi: Span, position: Span, offset: int, length: int)
    requires Aligned(roi, position) && length > 0
    ensures Aligned(ShiftForDelete(roi, offset, length), ShiftForDelete(position, offset, length))
    ensures Inside(ShiftForDelete(roi, offset, length), ShiftForDelete(position, offset, length))
  {
    ShiftForDeleteIsPointMap(roi, offset, length);
    ShiftForDeleteIsPointMap(position, offset, length);
  }

  lemma InsertKeepsAligned(roi: Span, position: Span, offset: int, length: int)
    requires Aligned(roi, position) && length > 0
    ensures Aligned(ShiftForInsert(roi, offset, length), ShiftForInsert(position, offset, length))
    ensures Aligned(ShiftForInsertAsWritten(roi, offset, length), ShiftForInsertAsWritten(position, offset, length))
  {
  }

  /** Without alignment the check can fail: an empty position at the end of its region of interest, with text inserted there. */
  lemma MisalignedPositionCanLeaveInterest()
    ensures Inside(Span(0, 5), Span(5, 0))
    ensures !Inside(ShiftForInsert(Span(0, 5), 5, 3), ShiftForInsert(Span(5, 0), 5, 3))
    ensures !Inside(ShiftForInsertAsWritten(Span(0, 5), 5, 3), ShiftForInsertAsWritten(Span(5, 0), 5, 3))
  {
  }

  // ----- the changes an edit makes -----

  /** One region change: a deletion or an insertion of `length` characters at `offset`. */
  datatype Change = Delete(offset: int, length: int) | Insert(offset: int, length: int)

  function ShiftRegion(r: Span, c: Change): Span {
    match c
    case Delete(offset, length) => ShiftForDelete(r, offset, length)
    case Insert(offset, length) => ShiftForInsertAsWritten(r, offset, length)
  }

  /** The content-modified test: the change overlaps the region of interest as it was before the change. */
  predicate Touches(roi: Span, c: Change) {
    roi.OverlapLength(c.offset, c.length) > 0
  }

  /** An edit deletes first and inserts second; an empty part changes nothing. */
  function ChangesOf(e: Edit): seq<Change> {
    (if e.length > 0 then [Delete(e.offset, e.length)] else [])
    + (if |e.text| > 0 then [Insert(e.offset, |e.text|)] else [])
  }

  /** The changes of the first `n` edits, in the order repairImpl applies them. */
  function Changes(edits: seq<Edit>, n: nat): seq<Change>
    requires n <= |edits|
  {
    if n == 0 then [] else Changes(edits, n - 1) + ChangesOf(edits[n - 1])
  }

  predicate ValidEdits(edits: seq<Edit>) {
    forall e :: e in edits ==> e.offset >= 0 && e.length >= 0
  }

  // ----- the two trees -----

  /** collectAllInformation succeeds exactly when every statement has as many children as its information. */
  predicate Matching(s: Statement, i: Info)
    decreases s
  {
    |DirectChildren(s)| == |InfoChildren(i)|
    && forall k :: 0 <= k < |DirectChildren(s)| ==> Matching(DirectChildren(s)[k], InfoChildren(i)[k])
  }

  /** A collected pair: a statement's position and its region of interest. */
  type Entry = (Span, Span)

  /** collectAllInformation: the (position, region of interest) pairs in preorder, or IllegalStateException. */
  function CollectAllInformation(s: Statement, i: Info): (r: Result<seq<Entry>>)
    ensures r.Ok? <==> Matching(s, i)
    ensures r.Err? ==> r.error == IllegalState
    ensures r.Ok? ==> |r.value| > 0 && r.value[0] == (s.position, i.roi)
  {
    if Matching(s, i) then Ok(Collect(s, i)) else Err(IllegalState)
  }

  function Collect(s: Statement, i: Info): (r: seq<Entry>)
    requires Matching(s, i)
    ensures |r| > 0 && r[0] == (s.position, i.roi)
    decreases s, 1
  {
    [(s.position, i.roi)] + CollectChildren(s, i, 0)
  }

  function CollectChildren(s: Statement, i: Info, k: nat): seq<Entry>
    requires Matching(s, i) && k <= |DirectChildren(s)|
    decreases s, 0, |DirectChildren(s)| - k
  {
    if k == |DirectChildren(s)| then []
    else Collect(DirectChildren(s)[k], InfoChildren(i)[k]) + CollectChildren(s, i, k + 1)
  }

  function ShiftStatement(s: Statement, c: Change): (r: Statement)
    ensures r.position == ShiftRegion(s.position, c) && Name(r) == Name(s)
    ensures |DirectChildren(r)| == |DirectChildren(s)|
    decreases s
  {
    match s
    case Consumed(position, value) => Consumed(ShiftRegion(position, c), value)
    case Collection(position, raw, children) =>
      Collection(ShiftRegion(position, c), raw,
        seq(|children|, k requires 0 <= k < |children| => ShiftStatement(children[k], c)))
    case Valued(position, name, value, sub) => Valued(ShiftRegion(position, c), name, value, ShiftStatement(sub, c))
  }

  function ShiftInfo(i: Info, c: Change): (r: Info)
    ensures r.roi == ShiftRegion(i.roi, c) && r.rule == i.rule
    ensures |InfoChildren(r)| == |InfoChildren(i)|
    decreases i
  {
    match i
    case Plain(rule, roi) => Plain(rule, ShiftRegion(roi, c))
    case Listing(rule, roi, children) =>
      Listing(rule, ShiftRegion(roi, c), seq(|children|, k requires 0 <= k < |children| => ShiftInfo(children[k], c)))
    case Chosen(rule, roi, children, alternative) =>
      Chosen(rule, ShiftRegion(roi, c), seq(|children|, k requires 0 <= k < |children| => ShiftInfo(children[k], c)), alternative)
    case Wrapped(rule, roi, sub) => Wrapped(rule, ShiftRegion(roi, c), ShiftInfo(sub, c))
  }

  lemma ShiftStatementChild(s: Statement, c: Change, k: nat)
    requires k < |DirectChildren(s)|
    ensures DirectChildren(ShiftStatement(s, c))[k] == ShiftStatement(DirectChildren(s)[k], c)
  {
  }

  lemma ShiftInfoChild(i: Info, c: Change, k: nat)
    requires k < |InfoChildren(i)|
    ensures InfoChildren(ShiftInfo(i, c))[k] == ShiftInfo(InfoChildren(i)[k], c)
  {
  }

  lemma {:induction false} ShiftKeepsMatching(s: Statement, i: Info, c: Change)
    requires Matching(s, i)
    ensures Matching(ShiftStatement(s, c), ShiftInfo(i, c))
    decreases s
  {
    forall k | 0 <= k < |DirectChildren(s)|
      ensures Matching(DirectChildren(ShiftStatement(s, c))[k], InfoChildren(ShiftInfo(i, c))[k])
    {
      ShiftStatementChild(s, c, k);
      ShiftInfoChild(i, c, k);
      ShiftKeepsMatching(DirectChildren(s)[k], InfoChildren(i)[k], c);
    }
  }

  lemma ShiftRegionKeepsAligned(roi: Span, position: Span, c: Change)
    requires Aligned(roi, position) && c.length > 0
    ensures Aligned(ShiftRegion(roi, c), ShiftRegion(position, c))
  {
    match c
    case Delete(offset, length) => DeleteKeepsAligned(roi, position, offset, length);
    case Insert(offset, length) => InsertKeepsAligned(roi, position, offset, length);
  }

  /** Shifting the trees shifts every collected pair: the per-pair loop of the source and the tree map agree. */
  lemma {:induction false} CollectedShift(s: Statement, i: Info, c: Change)
    requires Matching(s, i)
    ensures Matching(ShiftStatement(s, c), ShiftInfo(i, c))
    ensures Collect(ShiftStatement(s, c), ShiftInfo(i, c)) == ShiftPairs(Collect(s, i), c)
    decreases s, 1
  {
    ShiftKeepsMatching(s, i, c);
    CollectedShiftChildren(s, i, c, 0);
    var head := [(s.position, i.roi)];
    assert ShiftPairs(head, c) == [(ShiftRegion(s.position, c), ShiftRegion(i.roi, c))];
    ShiftPairsAppend(head, CollectChildren(s, i, 0), c);
  }

  lemma {:induction false} CollectedShiftChildren(s: Statement, i: Info, c: Change, k: nat)
    requires Matching(s, i) && Matching(ShiftStatement(s, c), ShiftInfo(i, c)) && k <= |DirectChildren(s)|
    ensures CollectChildren(ShiftStatement(s, c), ShiftInfo(i, c), k) == ShiftPairs(CollectChildren(s, i, k), c)
    decreases s, 0, |DirectChildren(s)| - k
  {
    if k < |DirectChildren(s)| {
      var child, sub := DirectChildren(s)[k], InfoChildren(i)[k];
      ShiftStatementChild(s, c, k);
      ShiftInfoChild(i, c, k);
      CollectedShift(child, sub, c);
      CollectedShiftChildren(s, i, c, k + 1);
      ShiftPairsAppend(Collect(child, sub), CollectChildren(s, i, k + 1), c);
    }
  }

  function ShiftPairs(ps: seq<Entry>, c: Change): (r: seq<Entry>)
    ensures |r| == |ps|
    ensures forall k :: 0 <= k < |ps| ==> r[k] == (ShiftRegion(ps[k].0, c), ShiftRegion(ps[k].1, c))
  {
    seq(|ps|, k requires 0 <= k < |ps| => (ShiftRegion(ps[k].0, c), ShiftRegion(ps[k].1, c)))
  }

  lemma ShiftPairsAppend(a: seq<Entry>, b: seq<Entry>, c: Change)
    ensures ShiftPairs(a + b, c) == ShiftPairs(a, c) + ShiftPairs(b, c)
  {
  }

  // ----- sequences of changes -----

  function ShiftStatementAll(s: Statement, cs: seq<Change>): Statement {
    if cs == [] then s else ShiftStatement(ShiftStatementAll(s, cs[..|cs| - 1]), cs[|cs| - 1])
  }

  function ShiftInfoAll(i: Info, cs: seq<Change>): Info {
    if cs == [] then i else ShiftInfo(ShiftInfoAll(i, cs[..|cs| - 1]), cs[|cs| - 1])
  }

  /** Every collected pair shifted by each change in turn. */
  function ShiftPairsAll(ps: seq<Entry>, cs: seq<Change>): (r: seq<Entry>)
    ensures |r| == |ps|
  {
    if cs == [] then ps else ShiftPairs(ShiftPairsAll(ps, cs[..|cs| - 1]), cs[|cs| - 1])
  }

  /** Shifting the two trees by a sequence of changes shifts every collected pair by it. */
  lemma {:induction false} CollectedShiftAll(s: Statement, i: Info, cs: seq<Change>)
    requires Matching(s, i)
    ensures Matching(ShiftStatementAll(s, cs), ShiftInfoAll(i, cs))
    ensures Collect(ShiftStatementAll(s, cs), ShiftInfoAll(i, cs)) == ShiftPairsAll(Collect(s, i), cs)
    decreases |cs|
  {
    if cs != [] {
      var pre := cs[..|cs| - 1];
      CollectedShiftAll(s, i, pre);
      CollectedShift(ShiftStatementAll(s, pre), ShiftInfoAll(i, pre), cs[|cs| - 1]);
    }
  }

  /**
   * The content-modified entries after the changes `cs`: those whose region of
   * interest, as it stood when some change was applied, that change overlaps.
   */
  function Modified(ps: seq<Entry>, cs: seq<Change>): set<int> {
    set j | 0 <= j < |ps| && TouchedOnce(ps, cs, j)
  }

  /** Some change of `cs` overlaps the `j`-th region of interest as it stood when that change came. */
  predicate TouchedOnce(ps: seq<Entry>, cs: seq<Change>, j: int)
    requires 0 <= j < |ps|
  {
    exists k :: 0 <= k < |cs| && Touches(ShiftPairsAll(ps, cs[..k])[j].1, cs[k])
  }

  // ----- lengths and text -----

  /** The sum of |text| - length over the edits. */
  function TotalDiff(edits: seq<Edit>): int {
    if edits == [] then 0 else TotalDiff(edits[..|edits| - 1]) + |edits[|edits| - 1].text| - edits[|edits| - 1].length
  }

  /** The sum of the positive differences only: how far the text ever grows beyond its original length. */
  function GrowthSum(edits: seq<Edit>): (r: int)
    ensures r >= 0 && r >= TotalDiff(edits)
  {
    if edits == [] then 0
    else
      var diff := |edits[|edits| - 1].text| - edits[|edits| - 1].length;
      GrowthSum(edits[..|edits| - 1]) + (if diff > 0 then diff else 0)
  }

  lemma {:induction false} GrowthSumOfPrefix(edits: seq<Edit>, k: nat)
    requires k <= |edits|
    ensures TotalDiff(edits[..k]) <= GrowthSum(edits[..k]) <= GrowthSum(edits)
    decreases |edits| - k
  {
    if k < |edits| {
      GrowthSumOfPrefix(edits, k + 1);
      assert edits[..k + 1][..k] == edits[..k];
    } else {
      assert edits[..k] == edits;
    }
  }

  /** getFinalLength: the length after all edits, and the sum of the positive differences. */
  method GetFinalLength(original: int, edits: seq<Edit>) returns (newlen: int, diffsum: int)
    ensures newlen == original + TotalDiff(edits) && diffsum == GrowthSum(edits)
    ensures diffsum >= 0 && newlen <= original + diffsum
  {
    newlen, diffsum := original, 0;
    var k := 0;
    while k < |edits|
      invariant 0 <= k <= |edits|
      invariant newlen == original + TotalDiff(edits[..k]) && diffsum == GrowthSum(edits[..k])
    {
      var e := edits[k];
      var diff := |e.text| - e.length;
      newlen := newlen + diff;
      if diff > 0 {
        diffsum := diffsum + diff;
      }
      assert edits[..k + 1][..k] == edits[..k];
      k := k + 1;
    }
    assert edits[..k] == edits;
  }

  /** The text after applying the edits one after another, each to the result of the previous ones. */
  function SpliceAll(text: seq<char>, edits: seq<Edit>): (r: Option<seq<char>>)
    ensures r.Some? ==> |r.value| == |text| + TotalDiff(edits)
  {
    if edits == [] then Some(text)
    else
      match SpliceAll(text, edits[..|edits| - 1])
      case None => None
      case Some(t) =>
        var e := edits[|edits| - 1];
        if 0 <= e.offset && 0 <= e.length && e.offset + e.length <= |t| then Some(Splice(t, e.offset, e.length, e.text))
        else None
  }

  lemma {:induction false} SpliceAllOfPrefix(text: seq<char>, edits: seq<Edit>, k: nat)
    requires k <= |edits| && SpliceAll(text, edits).Some?
    ensures SpliceAll(text, edits[..k]).Some?
    decreases |edits| - k
  {
    if k < |edits| {
      SpliceAllOfPrefix(text, edits, k + 1);
      assert edits[..k + 1][..k] == edits[..k];
    } else {
      assert edits[..k] == edits;
    }
  }

  lemma SpliceAllStep(text: seq<char>, edits: seq<Edit>, k: nat)
    requires k < |edits| && SpliceAll(text, edits[..k + 1]).Some?
    ensures SpliceAll(text, edits[..k]).Some?
    ensures var t, e := SpliceAll(text, edits[..k]).value, edits[k];
      0 <= e.offset && 0 <= e.length && e.offset + e.length <= |t|
      && SpliceAll(text, edits[..k + 1]).value == Splice(t, e.offset, e.length, e.text)
  {
    assert edits[..k + 1][..k] == edits[..k];
  }

  /** Arrays.copyOfRange: the cells [from, to) of the data, padded with '\0' past its end. */
  function CopyOfRange(data: seq<char>, from: int, to: int): (r: Result<seq<char>>)
    ensures r.Ok? <==> 0 <= from <= |data| && from <= to
    ensures r.Ok? ==> |r.value| == to - from
    ensures r.Ok? ==> forall k :: 0 <= k < to - from ==> r.value[k] == if from + k < |data| then data[from + k] else '\0'
  {
    if from < 0 || from > |data| then Err(IndexOutOfBounds)
    else if from > to then Err(IllegalArgument)
    else Ok(seq(to - from, k requires 0 <= k < to - from => if from + k < |data| then data[from + k] else '\0'))
  }

  /** The raw text of a root statement: a well-formed view from the start of its array. */
  predicate RootRaw(s: Statement) {
    RawSequence(s).WellFormed() && RawSequence(s).index == 0
  }

  /**
   * What repairImpl has before any rule runs: the shifted trees, their collected
   * entries, the indices of the content-modified entries, the new text and its length.
   */
  datatype Shifted = Shifted(statement: Statement, info: Info, entries: seq<Entry>, modified: set<int>,
                             text: seq<char>, length: int)

  /**
   * The first part of repairImpl (Statement.java 277-335): collect the pairs, copy
   * the raw text, then for every edit splice the text and apply its deletion and
   * insertion to every pair, marking the touched ones and checking containment.
   * The source updates the nodes in place through the pairs; the model returns
   * the shifted trees and shows that their pairs are the ones the loop computed.
   */
  method ShiftForEdits(stm: Statement, info: Info, edits: seq<Edit>) returns (r: Result<Shifted>)
    requires ValidEdits(edits)
    ensures !Matching(stm, info) ==> r == Err(IllegalState)
    ensures r.Err? ==> r.error in {IllegalState, IndexOutOfBounds, IllegalArgument}
    ensures r.Ok? ==> Matching(stm, info)
    ensures r.Ok? ==>
      var cs := Changes(edits, |edits|);
      r.value.statement == ShiftStatementAll(stm, cs) && r.value.info == ShiftInfoAll(info, cs)
      && Matching(r.value.statement, r.value.info)
      && r.value.entries == Collect(r.value.statement, r.value.info)
      && r.value.modified == Modified(Collect(stm, info), cs)
      && (cs != [] ==> AllEntriesInside(r.value.entries))
    ensures r.Ok? ==> r.value.length == RawSequence(stm).length + TotalDiff(edits)
    ensures r.Ok? && RootRaw(stm) && SpliceAll(RawSequence(stm).Chars(), edits).Some? ==>
      0 <= r.value.length <= |r.value.text|
      && r.value.text[..r.value.length] == SpliceAll(RawSequence(stm).Chars(), edits).value
    ensures (Matching(stm, info) && AllEntriesAligned(Collect(stm, info))
      && RootRaw(stm) && SpliceAll(RawSequence(stm).Chars(), edits).Some?) ==> r.Ok?
  {
    var all := CollectAllInformation(stm, info);
    if all.Err? {
      return Err(all.error);
    }
    var raw := RawSequence(stm);
    var copied, newlen, stages := CopyRawText(raw, edits);
    if copied.Err? {
      return Err(copied.error);
    }
    var chars := copied.value;
    ghost var fits := RootRaw(stm) && SpliceAll(raw.Chars(), edits).Some?;
    var progress := ShiftAllEdits(all.value, edits, chars, raw.length, stages, fits);
    assert progress.Ok? && fits ==> TextIs(chars, |stages[|edits|]|, stages[|edits|]);
    ReplayFailsOnlyOnContainment(all.value, edits, |edits|);
    if AllEntriesAligned(all.value) {
      ReplayAligned(all.value, edits, |edits|);
    }
    if progress.Err? {
      return Err(progress.error);
    }
    var cs := Changes(edits, |edits|);
    ReplayShifts(all.value, edits, |edits|);
    CollectedShiftAll(stm, info, cs);
    var p := progress.value;
    return Ok(Shifted(ShiftStatementAll(stm, cs), ShiftInfoAll(info, cs), p.entries, p.modified, chars[..], newlen));
  }

  // ----- the end of repairImpl, and repair -----

  /** A repair result that holds a statement reaching the end of the new text of length `newlen`. */
  predicate Covers(p: ParsingResult, newlen: int) {
    p.statement.Some? && p.statement.value.position.End() == newlen
  }

  /**
   * The end of repairImpl (Statement.java 336-348). When the root itself is
   * content-modified its rule repairs it over the new text, and anything but a
   * statement reaching the end of that text (no result, no statement, another end)
   * is a ParseFailedException; otherwise the shifted trees are the result, built by
   * the ParsingResult constructor with its containment check.
   * `repaired` is what the root rule's repairStatement returns, None for null.
   */
  function RepairTail(sh: Shifted, repaired: Result<Option<ParsingResult>>): (r: Result<ParsingResult>) {
    if 0 !in sh.modified then NewResult(Some(sh.statement), sh.info)
    else if repaired.Err? then Err(repaired.error)
    else if repaired.value.None? || !Covers(repaired.value.value, sh.length) then Err(ParseFailed)
    else Ok(repaired.value.value)
  }

  /**
   * A repair of a content-modified root succeeds exactly when its rule yields a
   * statement covering the whole new text, and then that result is returned; an
   * untouched root keeps the shifted trees, and fails only when its region of
   * interest does not contain its region.
   */
  lemma RepairTailCoversNewText(sh: Shifted, repaired: Result<Option<ParsingResult>>)
    ensures 0 !in sh.modified ==>
      (RepairTail(sh, repaired).Ok? <==> Inside(sh.info.roi, sh.statement.position))
    ensures 0 !in sh.modified && RepairTail(sh, repaired).Ok? ==>
      RepairTail(sh, repaired).value == ParsingResult(Some(sh.statement), sh.info)
    ensures 0 in sh.modified ==>
      (RepairTail(sh, repaired).Ok? <==> repaired.Ok? && repaired.value.Some? && Covers(repaired.value.value, sh.length))
    ensures 0 in sh.modified && RepairTail(sh, repaired).Ok? ==>
      Covers(RepairTail(sh, repaired).value, sh.length) && repaired == Ok(Some(RepairTail(sh, repaired).value))
    ensures 0 in sh.modified && repaired.Ok? && RepairTail(sh, repaired).Err? ==> RepairTail(sh, repaired).error == ParseFailed
  {
  }

  /**
   * repair (Statement.java 351-360): with no edits the same statement and
   * information come back; otherwise the statement and its information are
   * shifted for the edits and the tail of repairImpl runs on them. The source
   * works on clones, which values are already. `rerun` stands for the root rule's
   * repairStatement over the shifted trees and the new text.
   */
  method Repair(stm: Statement, info: Info, edits: seq<Edit>, rerun: Shifted -> Result<Option<ParsingResult>>)
    returns (r: Result<ParsingResult>)
    requires ValidEdits(edits)
    ensures edits == [] ==> r == NewResult(Some(stm), info)
    ensures edits != [] && !Matching(stm, info) ==> r == Err(IllegalState)
    ensures r.Ok? && edits != [] ==>
      && Matching(stm, info)
      && var cs := Changes(edits, |edits|);
      if 0 in Modified(Collect(stm, info), cs) then Covers(r.value, RawSequence(stm).length + TotalDiff(edits))
      else r.value == ParsingResult(Some(ShiftStatementAll(stm, cs)), ShiftInfoAll(info, cs))
  {
    if edits == [] {
      return NewResult(Some(stm), info);
    }
    var sh := ShiftForEdits(stm, info, edits);
    if sh.Err? {
      return Err(sh.error);
    }
    var repaired := if 0 in sh.value.modified then rerun(sh.value) else Ok(None);
    RepairTailCoversNewText(sh.value, repaired);
    if Changes(edits, |edits|) != [] {
      // The root is the first pair checked after every change, so the final constructor's check passes.
      assert sh.value.entries[0] == (sh.value.statement.position, sh.value.info.roi);
      assert Inside(sh.value.info.roi, sh.value.statement.position);
    }
    r := RepairTail(sh.value, repaired);
  }

  /**
   * The working copy of the raw text: Arrays.copyOfRange from the raw text's index,
   * long enough for the text at its longest, and the length after all edits. When
   * the raw text starts its array and every edit fits, `stages` holds the text after
   * each edit, the copy starts with the first and has room for all of them.
   */
  method CopyRawText(raw: ArrayRange, edits: seq<Edit>)
    returns (r: Result<array<char>>, newlen: int, ghost stages: seq<seq<char>>)
    ensures newlen == raw.length + TotalDiff(edits)
    ensures r.Err? ==> r.error in {IndexOutOfBounds, IllegalArgument}
    ensures raw.WellFormed() && raw.index == 0 && SpliceAll(raw.Chars(), edits).Some? ==> r.Ok?
    ensures r.Ok? && raw.WellFormed() && raw.index == 0 && SpliceAll(raw.Chars(), edits).Some? ==>
      Staged(stages, edits, r.value[..]) && stages[0] == raw.Chars()
      && stages[|edits|] == SpliceAll(raw.Chars(), edits).value && |stages[|edits|]| == newlen
    ensures r.Ok? ==> fresh(r.value)
  {
    var diffsum;
    newlen, diffsum := GetFinalLength(raw.length, edits);
    stages := [];
    var copied := CopyOfRange(raw.data, raw.index, Max(raw.length + diffsum, newlen));
    if copied.Err? {
      return Err(copied.error), newlen, stages;
    }
    var chars := SequenceToArray(copied.value);
    if raw.WellFormed() && raw.index == 0 && SpliceAll(raw.Chars(), edits).Some? {
      assert raw.length <= |copied.value| == chars.Length;
      forall j | 0 <= j < raw.length
        ensures chars[j] == raw.Chars()[j]
      {
        assert chars[j] == copied.value[j];
      }
      assert chars[..raw.length] == raw.Chars();
      stages := SpliceStages(raw.Chars(), edits);
    }
    return Ok(chars), newlen, stages;
  }

  /** The text after each edit, the first at the start of `chars` and each fitting in `chars`. */
  ghost predicate Staged(stages: seq<seq<char>>, edits: seq<Edit>, chars: seq<char>) {
    |stages| == |edits| + 1 && |stages[0]| <= |chars| && chars[..|stages[0]|] == stages[0]
    && (forall k :: 0 <= k <= |edits| ==> |stages[k]| <= |chars|)
    && (forall k :: 0 <= k < |edits| ==> StageStep(stages, edits, k))
  }

  /** The first `n` cells of the array hold `s`. */
  ghost predicate TextIs(chars: array<char>, n: int, s: seq<char>)
    reads chars
  {
    0 <= n <= chars.Length && chars[..n] == s
  }

  /** The loop of repairImpl over the edits: splice each edit into the text in the array, then shift and check the pairs. */
  method ShiftAllEdits(entries: seq<Entry>, edits: seq<Edit>, chars: array<char>, length: int,
                       ghost stages: seq<seq<char>>, ghost fits: bool)
    returns (r: Result<Progress>)
    requires ValidEdits(edits)
    requires fits ==> |stages| == |edits| + 1 && length == |stages[0]| <= chars.Length && chars[..length] == stages[0]
    requires fits ==> forall k :: 0 <= k <= |edits| ==> |stages[k]| <= chars.Length
    requires fits ==> forall k :: 0 <= k < |edits| ==> StageStep(stages, edits, k)
    modifies chars
    ensures r == Replay(entries, edits, |edits|) || (!fits && r == Err(IndexOutOfBounds))
    ensures r.Ok? && fits ==> TextIs(chars, |stages[|edits|]|, stages[|edits|])
  {
    var working := length;
    var progress := Progress(entries, {});
    var k := 0;
    while k < |edits|
      invariant 0 <= k <= |edits|
      invariant Replay(entries, edits, k) == Ok(progress)
      invariant fits ==> working == |stages[k]| && TextIs(chars, working, stages[k])
    {
      assert fits ==> StageStep(stages, edits, k) && |stages[k + 1]| <= chars.Length;
      var step;
      step, working := EditStep(entries, edits, k, progress, chars, working, stages, fits);
      if step.Err? {
        if step != Err(IndexOutOfBounds) || fits {
          ReplayStopsAtError(entries, edits, k + 1, |edits|);
        }
        return step;
      }
      progress := step.value;
      k := k + 1;
    }
    return Ok(progress);
  }

  /** One turn of the loop over the edits: splice the edit into the text, then apply its deletion and its insertion to the pairs. */
  method EditStep(entries: seq<Entry>, edits: seq<Edit>, k: nat, p: Progress, chars: array<char>, working: int,
                  ghost stages: seq<seq<char>>, ghost fits: bool)
    returns (r: Result<Progress>, newWorking: int)
    requires k < |edits| && ValidEdits(edits) && Replay(entries, edits, k) == Ok(p)
    requires fits ==> StageStep(stages, edits, k)
    requires fits ==> working == |stages[k]| <= chars.Length && |stages[k + 1]| <= chars.Length
    requires fits ==> TextIs(chars, working, stages[k])
    modifies chars
    ensures newWorking == working + |edits[k].text| - edits[k].length
    ensures r == Replay(entries, edits, k + 1) || (!fits && r == Err(IndexOutOfBounds))
    ensures fits && r.Ok? ==> TextIs(chars, newWorking, stages[k + 1])
  {
    var e := edits[k];
    assert e in edits;
    newWorking := working + |e.text| - e.length;
    var applied := SpliceText(e, chars, working, fits);
    if applied.Fail? {
      return Err(applied.error), newWorking;
    }
    r := Ok(p);
    if e.length > 0 {
      r := ApplyChange(p, Delete(e.offset, e.length));
    }
    if r.Ok? && |e.text| > 0 {
      r := ApplyChange(r.value, Insert(e.offset, |e.text|));
    }
  }

  /** One edit lies within the text before it and splicing it in gives the text after it. */
  predicate SplicedStage(before: seq<char>, e: Edit, after: seq<char>) {
    0 <= e.offset && 0 <= e.length && e.offset + e.length <= |before|
    && after == Splice(before, e.offset, e.length, e.text)
  }

  /** The `k`-th edit takes the `k`-th text to the next one. */
  predicate StageStep(stages: seq<seq<char>>, edits: seq<Edit>, k: int) {
    0 <= k < |edits| && k + 1 < |stages| && SplicedStage(stages[k], edits[k], stages[k + 1])
  }

  /** The text after each prefix of the edits, when all of them fit. */
  lemma SpliceStages(text: seq<char>, edits: seq<Edit>) returns (stages: seq<seq<char>>)
    requires SpliceAll(text, edits).Some?
    ensures |stages| == |edits| + 1 && stages[0] == text && stages[|edits|] == SpliceAll(text, edits).value
    ensures |stages[|edits|]| == |text| + TotalDiff(edits)
    ensures forall k :: 0 <= k <= |edits| ==> |stages[k]| <= |text| + GrowthSum(edits)
    ensures forall k :: 0 <= k < |edits| ==> StageStep(stages, edits, k)
  {
    forall k | 0 <= k <= |edits|
      ensures SpliceAll(text, edits[..k]).Some?
      ensures |SpliceAll(text, edits[..k]).value| <= |text| + GrowthSum(edits)
    {
      SpliceAllOfPrefix(text, edits, k);
      GrowthSumOfPrefix(edits, k);
    }
    stages := seq(|edits| + 1, k requires 0 <= k <= |edits| => SpliceAll(text, edits[..k]).value);
    assert edits[..0] == [] && edits[..|edits|] == edits;
    forall k | 0 <= k < |edits|
      ensures StageStep(stages, edits, k)
    {
      SpliceAllStep(text, edits, k);
    }
  }

  /** apply(char[], int) for one edit; when the edit lies within the text and the array has room it splices the text. */
  method SpliceText(e: Edit, chars: array<char>, working: int, ghost fits: bool) returns (r: Outcome)
    requires e.offset >= 0 && e.length >= 0
    requires fits ==> e.offset + e.length <= working <= chars.Length && working + |e.text| - e.length <= chars.Length
    modifies chars
    ensures r.Fail? ==> r.error == IndexOutOfBounds
    ensures fits ==> r.Pass? && chars[..working + |e.text| - e.length] == Splice(old(chars[..working]), e.offset, e.length, e.text)
  {
    ghost var before := chars[..];
    if fits {
      ApplyToArraySplices(e, before, working);
      assert before[..working] == old(chars[..working]);
    }
    r := ApplyToArray(e, chars, working);
  }


  // ----- the pairs through the edits -----

  /** What the loop carries from one change to the next: the shifted pairs and the indices of the content-modified ones. */
  datatype Progress = Progress(entries: seq<Entry>, modified: set<int>)

  /** The check made after each change: every position lies inside its region of interest. */
  predicate AllEntriesInside(ps: seq<Entry>) {
    forall j :: 0 <= j < |ps| ==> Inside(ps[j].1, ps[j].0)
  }

  predicate AllEntriesAligned(ps: seq<Entry>) {
    forall j :: 0 <= j < |ps| ==> Aligned(ps[j].1, ps[j].0)
  }

  /** The indices of the pairs whose region of interest the change overlaps. */
  function TouchedBy(ps: seq<Entry>, c: Change): set<int> {
    set j | 0 <= j < |ps| && Touches(ps[j].1, c)
  }

  /**
   * One change applied to every pair (applyRegionDelete or applyRegionInsert on the
   * position and on the region of interest), the touched pairs marked, then the
   * containment check: IllegalStateException when some position has left its region.
   */
  function Advance(p: Progress, c: Change): Result<Progress> {
    var shifted := ShiftPairs(p.entries, c);
    if AllEntriesInside(shifted) then Ok(Progress(shifted, p.modified + TouchedBy(p.entries, c)))
    else Err(IllegalState)
  }

  /** One edit: its deletion, then its insertion; an empty part is skipped. */
  function AdvanceEdit(p: Progress, e: Edit): Result<Progress> {
    var deleted := if e.length > 0 then Advance(p, Delete(e.offset, e.length)) else Ok(p);
    if deleted.Err? || |e.text| == 0 then deleted
    else Advance(deleted.value, Insert(e.offset, |e.text|))
  }

  /** The pairs after the first `k` edits, or the error of the first check that failed. */
  function Replay(entries: seq<Entry>, edits: seq<Edit>, k: nat): Result<Progress>
    requires k <= |edits|
  {
    if k == 0 then Ok(Progress(entries, {}))
    else
      var before := Replay(entries, edits, k - 1);
      if before.Err? then before else AdvanceEdit(before.value, edits[k - 1])
  }

  /** The loop over the identity map's entries for one change: mark, shift both regions, check. */
  method ApplyChange(p: Progress, c: Change) returns (r: Result<Progress>)
    ensures r == Advance(p, c)
  {
    var entries := p.entries;
    var modified := p.modified;
    var j := 0;
    while j < |entries|
      invariant 0 <= j <= |entries| == |p.entries|
      invariant forall q :: 0 <= q < j ==> entries[q] == (ShiftRegion(p.entries[q].0, c), ShiftRegion(p.entries[q].1, c))
      invariant forall q :: j <= q < |entries| ==> entries[q] == p.entries[q]
      invariant forall q :: 0 <= q < j ==> Inside(entries[q].1, entries[q].0)
      invariant modified == p.modified + set q | 0 <= q < j && Touches(p.entries[q].1, c)
    {
      var (position, roi) := entries[j];
      if Touches(roi, c) {
        modified := modified + {j};
      }
      var shifted := (ShiftRegion(position, c), ShiftRegion(roi, c));
      entries := entries[j := shifted];
      if !Inside(shifted.1, shifted.0) {
        assert !Inside(ShiftPairs(p.entries, c)[j].1, ShiftPairs(p.entries, c)[j].0);
        return Err(IllegalState);
      }
      j := j + 1;
    }
    assert entries == ShiftPairs(p.entries, c);
    return Ok(Progress(entries, modified));
  }

  /** Once a check has failed, the later edits are never reached. */
  lemma {:induction false} ReplayStopsAtError(entries: seq<Entry>, edits: seq<Edit>, j: nat, n: nat)
    requires j <= n <= |edits| && Replay(entries, edits, j).Err?
    ensures Replay(entries, edits, n) == Replay(entries, edits, j)
    decreases n - j
  {
    if j < n {
      ReplayStopsAtError(entries, edits, j + 1, n);
    }
  }

  /** The only failure of the shifting is the containment check. */
  lemma {:induction false} ReplayFailsOnlyOnContainment(entries: seq<Entry>, edits: seq<Edit>, k: nat)
    requires k <= |edits|
    ensures Replay(entries, edits, k).Err? ==> Replay(entries, edits, k).error == IllegalState
  {
    if k > 0 {
      ReplayFailsOnlyOnContainment(entries, edits, k - 1);
    }
  }

  /** One more change: the pairs shift once more and the pairs it touches join the modified ones. */
  lemma ModifiedStep(ps: seq<Entry>, cs: seq<Change>, c: Change)
    ensures ShiftPairsAll(ps, cs + [c]) == ShiftPairs(ShiftPairsAll(ps, cs), c)
    ensures Modified(ps, cs + [c]) == Modified(ps, cs) + TouchedBy(ShiftPairsAll(ps, cs), c)
  {
    var ext := cs + [c];
    assert ext[..|cs|] == cs;
    forall k | 0 <= k < |cs|
      ensures ext[..k] == cs[..k] && ext[k] == cs[k]
    {
    }
  }

  /** The pairs after the changes `cs`, as the loop has them. */
  predicate ProgressAfter(entries: seq<Entry>, cs: seq<Change>, p: Progress) {
    p.entries == ShiftPairsAll(entries, cs) && p.modified == Modified(entries, cs)
    && (cs != [] ==> AllEntriesInside(p.entries))
  }

  lemma AdvanceShifts(entries: seq<Entry>, cs: seq<Change>, p: Progress, c: Change)
    requires ProgressAfter(entries, cs, p)
    ensures Advance(p, c).Ok? ==> ProgressAfter(entries, cs + [c], Advance(p, c).value)
  {
    ModifiedStep(entries, cs, c);
  }

  lemma AdvanceEditShifts(entries: seq<Entry>, cs: seq<Change>, p: Progress, e: Edit)
    requires ProgressAfter(entries, cs, p)
    ensures AdvanceEdit(p, e).Ok? ==> ProgressAfter(entries, cs + ChangesOf(e), AdvanceEdit(p, e).value)
  {
    var mid := if e.length > 0 then cs + [Delete(e.offset, e.length)] else cs;
    if e.length > 0 {
      AdvanceShifts(entries, cs, p, Delete(e.offset, e.length));
    }
    var deleted := if e.length > 0 then Advance(p, Delete(e.offset, e.length)) else Ok(p);
    if deleted.Ok? && |e.text| > 0 {
      AdvanceShifts(entries, mid, deleted.value, Insert(e.offset, |e.text|));
    }
    ChangesOfSplit(cs, e);
  }

  /** The changes of one edit appended after `cs`: its deletion first, then its insertion. */
  lemma ChangesOfSplit(cs: seq<Change>, e: Edit)
    ensures var mid := if e.length > 0 then cs + [Delete(e.offset, e.length)] else cs;
      cs + ChangesOf(e) == if |e.text| > 0 then mid + [Insert(e.offset, |e.text|)] else mid
  {
  }

  /**
   * Replaying the edits edit by edit, with a check after every change, gives the
   * pairs shifted by all their changes and the modified set of those changes, with
   * every position inside its region of interest.
   */
  lemma {:induction false} ReplayShifts(entries: seq<Entry>, edits: seq<Edit>, k: nat)
    requires k <= |edits|
    ensures Replay(entries, edits, k).Ok? ==> ProgressAfter(entries, Changes(edits, k), Replay(entries, edits, k).value)
  {
    if k > 0 {
      ReplayShifts(entries, edits, k - 1);
      var before := Replay(entries, edits, k - 1);
      if before.Ok? {
        AdvanceEditShifts(entries, Changes(edits, k - 1), before.value, edits[k - 1]);
      }
    }
  }

  lemma AdvanceAligned(p: Progress, c: Change)
    requires AllEntriesAligned(p.entries) && c.length > 0
    ensures Advance(p, c).Ok? && AllEntriesAligned(Advance(p, c).value.entries)
  {
    forall j | 0 <= j < |p.entries|
      ensures Aligned(ShiftPairs(p.entries, c)[j].1, ShiftPairs(p.entries, c)[j].0)
    {
      ShiftRegionKeepsAligned(p.entries[j].1, p.entries[j].0, c);
    }
  }

  /** When every position starts aligned with its region of interest, no check ever fails. */
  lemma {:induction false} ReplayAligned(entries: seq<Entry>, edits: seq<Edit>, k: nat)
    requires k <= |edits| && ValidEdits(edits) && AllEntriesAligned(entries)
    ensures Replay(entries, edits, k).Ok? && AllEntriesAligned(Replay(entries, edits, k).value.entries)
  {
    if k > 0 {
      ReplayAligned(entries, edits, k - 1);
      var p := Replay(entries, edits, k - 1).value;
      var e := edits[k - 1];
      assert e in edits;
      if e.length > 0 {
        AdvanceAligned(p, Delete(e.offset, e.length));
      }
      var deleted := if e.length > 0 then Advance(p, Delete(e.offset, e.length)) else Ok(p);
      if |e.text| > 0 {
        AdvanceAligned(deleted.value, Insert(e.offset, |e.text|));
      }
    }
  }
}
