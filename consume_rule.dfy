/**
 * ConsumeRule and its two kinds, MatchesRule (which appends what it matches
 * to the current value consumer) and SkipRule (which does not): a regular
 * expression is searched for on the window through an access-tracking view,
 * the region of interest is set from what the search read, and a match that
 * starts at the window's front becomes a consumed leaf.
 *
 * The regular-expression engine is an oracle: for a window it reports the
 * indexes it read (in order; reads through sub-sequences already added to
 * their start), whether it found a match, the match's bounds, and hitEnd.
 */
module ConsumeRules {
  import opened Wrappers
  import opened Regions
  import opened CharSequences
  import opened Statements
  import opened Values
  import opened Rules

  /** What Matcher.find() does on the tracked window. */
  datatype Match = Match(inspected: seq<int>, found: bool, start: int, end: int, hitEnd: bool)

  /** A pattern's matcher, run on a window. */
  type Matcher = ArrayRange -> Match

  /** The largest of `m` and the indexes read, taken left to right as the tracker sees them. */
  function MaxOf(m: int, inspected: seq<int>): int
    decreases |inspected|
  {
    if |inspected| == 0 then m else MaxOf(Max(m, inspected[0]), inspected[1..])
  }

  /** MaxOf is the least upper bound of `m` and the indexes read. */
  lemma {:induction false} MaxOfIsLeastUpperBound(m: int, inspected: seq<int>)
    ensures m <= MaxOf(m, inspected)
    ensures forall k :: 0 <= k < |inspected| ==> inspected[k] <= MaxOf(m, inspected)
    ensures MaxOf(m, inspected) == m || exists k :: 0 <= k < |inspected| && inspected[k] == MaxOf(m, inspected)
    decreases |inspected|
  {
    if |inspected| > 0 {
      var rest := inspected[1..];
      MaxOfIsLeastUpperBound(Max(m, inspected[0]), rest);
      forall k | 0 <= k < |inspected|
        ensures inspected[k] <= MaxOf(m, inspected)
      {
        if k > 0 {
          assert inspected[k] == rest[k - 1];
        }
      }
      if MaxOf(m, inspected) != m && MaxOf(m, inspected) != inspected[0] {
        var k :| 0 <= k < |rest| && rest[k] == MaxOf(m, inspected);
        assert inspected[k + 1] == rest[k];
      }
    }
  }

  /** Every read lands inside the window, so none throws. */
  predicate Readable(v: ArrayRange, inspected: seq<int>) {
    forall k :: 0 <= k < |inspected| ==> CharSequences.CharAt(v, inspected[k]).Ok?
  }

  // ----- AccessTrackingCharSequence -----

  /** AccessTrackingCharSequence: a view that remembers the furthest index read through it. */
  class AccessTracker {
    const cs: ArrayRange
    var maxAccessIndex: int

    /** Nothing has been read yet: the furthest index is -1. */
    constructor (cs: ArrayRange)
      ensures this.cs == cs && maxAccessIndex == -1
    {
      this.cs := cs;
      maxAccessIndex := -1;
    }

    /** charAt: the furthest index is raised first, then the read is made, and may throw. */
    method CharAt(index: int) returns (r: Result<char>)
      modifies this
      ensures maxAccessIndex == Max(old(maxAccessIndex), index)
      ensures r == CharSequences.CharAt(cs, index)
    {
      if index > maxAccessIndex {
        maxAccessIndex := index;
      }
      r := CharSequences.CharAt(cs, index);
    }

    /**
     * SubCharSequence.charAt: a read at `index` of the sub-sequence from
     * `start` is a read at start + index of the whole; it is not checked
     * against the sub-sequence's own end.
     */
    method SubCharAt(start: int, index: int) returns (r: Result<char>)
      modifies this
      ensures maxAccessIndex == Max(old(maxAccessIndex), start + index)
      ensures r == CharSequences.CharAt(cs, start + index)
    {
      var realindex := start + index;
      if realindex > maxAccessIndex {
        maxAccessIndex := realindex;
      }
      r := CharSequences.CharAt(cs, realindex);
    }
  }

  /** The search: every read goes through the tracker, and the first that fails throws out of find(). */
  method Find(tracker: AccessTracker, m: Match) returns (r: Outcome)
    modifies tracker
    ensures r.Pass? <==> Readable(tracker.cs, m.inspected)
    ensures r.Fail? ==> r.error == IndexOutOfBounds
    ensures r.Pass? ==> tracker.maxAccessIndex == MaxOf(old(tracker.maxAccessIndex), m.inspected)
  {
    var i := 0;
    while i < |m.inspected|
      invariant 0 <= i <= |m.inspected|
      invariant forall k :: 0 <= k < i ==> CharSequences.CharAt(tracker.cs, m.inspected[k]).Ok?
      invariant MaxOf(tracker.maxAccessIndex, m.inspected[i..]) == MaxOf(old(tracker.maxAccessIndex), m.inspected)
    {
      ghost var before := tracker.maxAccessIndex;
      var c := tracker.CharAt(m.inspected[i]);
      if c.Err? {
        return Fail(IndexOutOfBounds);
      }
      assert m.inspected[i..][1..] == m.inspected[i + 1..];
      i := i + 1;
    }
    assert m.inspected[i..] == [];
    return Pass;
  }

  // ----- tryParse -----

  /**
   * The length tryParse gives the region of interest: one past the end of
   * the window when the search hit the end (so that an appended character
   * falls inside), otherwise one past the furthest index read.
   */
  function InterestLength(v: ArrayRange, m: Match): int {
    if m.hitEnd then v.length + 1 else MaxOf(-1, m.inspected) + 1
  }

  /** What tryParse leaves: the region of interest, the match (if it starts at the front) and the text appended for it. */
  datatype Scan = Scan(roi: Span, parsed: Option<ArrayRange>, text: seq<char>)

  /**
   * charactersConsumed: a matches rule appends the match to the current
   * consumer, when there is one (`sink`); a window outside its array throws
   * there. A skip rule appends nothing.
   */
  function Appended(p: ArrayRange, appends: bool, sink: bool): Result<seq<char>> {
    if !appends || !sink || p.length == 0 then Ok([])
    else if !p.WellFormed() then Err(IndexOutOfBounds)
    else Ok(p.Chars())
  }

  /**
   * tryParse on the window `v`: the search (whose reads may throw), the
   * region of interest from the window's offset, no match unless one was
   * found at index 0, an AssertionError when the match is longer than the
   * region, then the match as a new sub-sequence object `id` of the window.
   */
  function Scanned(v: ArrayRange, m: Match, appends: bool, sink: bool, id: Identity?): Result<Scan> {
    if !Readable(v, m.inspected) then Err(IndexOutOfBounds)
    else if v.index < 0 || InterestLength(v, m) < 0 then Err(IllegalArgument)
    else
      var roi := Span(v.index, InterestLength(v, m));
      if !m.found || m.start != 0 then Ok(Scan(roi, None, []))
      else if roi.length < m.end - m.start then Err(AssertionFailure)
      else match SubSequenceAsWritten(v, m.start, m.end)
        case Err(e) => Err(e)
        case Ok(p) =>
          var parsed := p.(identity := id);
          match Appended(parsed, appends, sink)
          case Err(e) => Err(e)
          case Ok(text) => Ok(Scan(roi, Some(parsed), text))
  }

  /** tryParse, with the consumer the context hands out (null when there is none). */
  method TryParse(matcher: Matcher, s: DocumentData, consumer: ValueConsumer?, appends: bool, roi: DocumentRegion,
                  ghost before: seq<char>)
    returns (r: Result<Option<ArrayRange>>, ghost id: Identity?)
    requires Rules.Holds(consumer, before)
    modifies roi, Sinks(consumer)
    ensures id != null ==> fresh(id)
    ensures var w := Scanned(s.View(), matcher(s.View()), appends, consumer != null, id);
      && (r.Ok? <==> w.Ok?)
      && (r.Err? ==> r.error == w.error)
      && (r.Ok? ==> r.value == w.value.parsed && roi.Value() == w.value.roi && Rules.Holds(consumer, before + w.value.text))
    ensures r.Ok? && r.value.Some? ==>
      roi.offset == s.index && 0 <= r.value.value.length <= s.length && r.value.value.length <= roi.length
  {
    id := null;
    var v := s.View();
    var m := matcher(v);
    var tracker := new AccessTracker(v);
    var found := Find(tracker, m);
    if found.Fail? {
      return Err(found.error), id;
    }
    MaxOfIsLeastUpperBound(-1, m.inspected);
    var placed := roi.SetOffset(s.DocumentOffset());
    if placed.Fail? {
      return Err(placed.error), id;
    }
    if m.hitEnd {
      placed := roi.SetLength(s.length + 1);
    } else {
      placed := roi.SetLength(tracker.maxAccessIndex + 1);
    }
    if placed.Fail? {
      return Err(placed.error), id;
    }
    if !m.found || m.start != 0 {
      assert before + [] == before;
      return Ok(None), id;
    }
    if roi.length < m.end - m.start {
      return Err(AssertionFailure), id;
    }
    var sub := SubSequenceAsWritten(v, m.start, m.end);
    if sub.Err? {
      return Err(sub.error), id;
    }
    var made := new Identity();
    id := made;
    var parsed := sub.value.(identity := made);
    if appends && consumer != null {
      var appended := consumer.AppendRange(parsed);
      if appended.Fail? {
        return Err(appended.error), id;
      }
    } else {
      assert before + [] == before;
    }
    return Ok(Some(parsed)), id;
  }

  // ----- parseStatementImpl -----

  /**
   * parseStatementImpl on the window `v` (repairStatementImpl is the same
   * fresh parse): a miss is a failure carrying the region of interest; a
   * match becomes a consumed leaf at the window's offset, and the window
   * moves past it.
   */
  function ConsumeEffect(v: ArrayRange, m: Match, rule: RuleId, appends: bool, sink: bool, id: Identity?): Result<Effect> {
    match Scanned(v, m, appends, sink, id)
    case Err(e) => Err(e)
    case Ok(scan) =>
      if scan.parsed.None? then Ok(Effect(ParsingResult(None, Plain(rule, scan.roi)), 0, []))
      else
        var p := scan.parsed.value;
        Ok(Effect(ParsingResult(Some(Consumed(Span(v.index, p.length), p)), Plain(rule, scan.roi)), p.length, scan.text))
  }

  method ParseStatementImpl(matcher: Matcher, rule: RuleId, s: DocumentData, consumer: ValueConsumer?, appends: bool,
                            ghost before: seq<char>)
    returns (r: Result<ParsingResult>, ghost id: Identity?)
    requires Rules.Holds(consumer, before)
    modifies s, Sinks(consumer)
    ensures id != null ==> fresh(id)
    ensures var w := ConsumeEffect(old(s.View()), matcher(old(s.View())), rule, appends, consumer != null, id);
      && (r.Ok? <==> w.Ok?)
      && (r.Err? ==> r.error == w.error && s.View() == old(s.View()))
      && (r.Ok? ==> r.value == w.value.result && s.View() == Advanced(old(s.View()), w.value.moved)
                    && Rules.Holds(consumer, before + w.value.text))
  {
    var startoffset := s.DocumentOffset();
    var roi := new DocumentRegion();
    var parsed;
    parsed, id := TryParse(matcher, s, consumer, appends, roi, before);
    ghost var w := Scanned(old(s.View()), matcher(old(s.View())), appends, consumer != null, id);
    if parsed.Err? {
      return Err(parsed.error), id;
    }
    if parsed.value.None? {
      return Ok(ParsingResult(None, Plain(rule, roi.Value()))), id;
    }
    var p := parsed.value.value;
    var position := new DocumentRegion();
    var placed := position.Set(startoffset, p.length);
    assert placed.Pass?;
    var moved := s.RemoveFromStart(p.length);
    assert moved.Pass?;
    var result := NewResult(Some(Consumed(position.Value(), p)), Plain(rule, roi.Value()));
    assert result.Ok?;
    assert ConsumeEffect(old(s.View()), matcher(old(s.View())), rule, appends, consumer != null, id)
      == Ok(Effect(result.value, p.length, w.value.text));
    return result, id;
  }

  // ----- what a consume rule promises -----

  /**
   * The region of interest covers every character the search read, and the
   * position just past the window when the search hit the end; otherwise it
   * ends exactly at the furthest read, so it is no larger than it must be.
   */
  lemma RegionCoversEveryRead(v: ArrayRange, m: Match, appends: bool, sink: bool, id: Identity?)
    requires v.WellFormed()
    requires Scanned(v, m, appends, sink, id).Ok?
    ensures var roi := Scanned(v, m, appends, sink, id).value.roi;
      && roi.offset == v.index
      && (forall k :: 0 <= k < |m.inspected| ==> roi.ContainsOffset(v.index + m.inspected[k]))
      && (m.hitEnd ==> roi.ContainsOffset(v.index + v.length))
      && (!m.hitEnd ==> roi.length == 0 || exists k :: 0 <= k < |m.inspected| && v.index + m.inspected[k] == roi.End() - 1)
  {
    MaxOfIsLeastUpperBound(-1, m.inspected);
  }

  /**
   * The AssertionError is thrown exactly when a match found at the front is
   * longer than the region of interest.
   */
  lemma AssertionIffMatchOutrunsRegion(v: ArrayRange, m: Match, appends: bool, sink: bool, id: Identity?)
    requires v.WellFormed()
    ensures Scanned(v, m, appends, sink, id) == Err(AssertionFailure) <==>
      Readable(v, m.inspected) && m.found && m.start == 0 && m.end > InterestLength(v, m)
  {
    MaxOfIsLeastUpperBound(-1, m.inspected);
  }

  /**
   * A search that read every character of its match never trips the
   * AssertionError: the region already reaches the match's end.
   */
  lemma ReadMatchNeverAsserts(v: ArrayRange, m: Match, appends: bool, sink: bool, id: Identity?)
    requires v.WellFormed()
    requires m.found && m.start == 0 && m.end <= v.length
    requires forall j :: 0 <= j < m.end ==> j in m.inspected
    ensures Scanned(v, m, appends, sink, id) != Err(AssertionFailure)
  {
    MaxOfIsLeastUpperBound(-1, m.inspected);
    if m.end > 0 && !m.hitEnd {
      assert m.end - 1 in m.inspected;
      var k :| 0 <= k < |m.inspected| && m.inspected[k] == m.end - 1;
    }
  }

  /**
   * On a window inside its array, a consume rule throws only when a read
   * falls outside the window, or when a match found at the front is longer
   * than the region or ends outside the window.
   */
  lemma ConsumeFailsOnlyWhen(v: ArrayRange, m: Match, rule: RuleId, appends: bool, sink: bool, id: Identity?)
    requires v.WellFormed()
    ensures ConsumeEffect(v, m, rule, appends, sink, id).Err? <==>
      !Readable(v, m.inspected)
      || (m.found && m.start == 0 && (m.end > InterestLength(v, m) || m.end < 0 || m.end > v.length))
  {
    MaxOfIsLeastUpperBound(-1, m.inspected);
  }

  /**
   * What a consume rule does is what the containers assume of a child: it
   * stays in its window, places its leaf at the window's offset inside its
   * region, moves by exactly the match, and moves nothing when it misses;
   * the leaf's value is the matched prefix of the window, and only a matches
   * rule with a consumer appends, exactly that prefix.
   */
  lemma ConsumeBehaves(v: ArrayRange, m: Match, rule: RuleId, appends: bool, sink: bool, id: Identity?)
    requires v.WellFormed()
    requires ConsumeEffect(v, m, rule, appends, sink, id).Ok?
    ensures var e := ConsumeEffect(v, m, rule, appends, sink, id).value;
      && EffectBehaves(e, v.index, v.length)
      && e.result.info == Plain(rule, e.result.info.roi)
      && (!IsSucceeded(e.result) ==> e.moved == 0 && e.text == [])
      && (IsSucceeded(e.result) ==>
            e.result.statement.value.Consumed?
            && e.result.statement.value.value.WellFormed()
            && e.result.statement.value.value.Chars() == v.Chars()[..e.moved]
            && e.result.statement.value.value.identity == id)
      && e.text == (if appends && sink then v.Chars()[..e.moved] else [])
  {
    MaxOfIsLeastUpperBound(-1, m.inspected);
    ConsumedLeaf(v, m, rule, appends, sink, id);
  }

  /** The leaf of a successful consume rule shows the matched prefix of the window, and only that is appended. */
  lemma ConsumedLeaf(v: ArrayRange, m: Match, rule: RuleId, appends: bool, sink: bool, id: Identity?)
    requires v.WellFormed()
    requires ConsumeEffect(v, m, rule, appends, sink, id).Ok?
    ensures var e := ConsumeEffect(v, m, rule, appends, sink, id).value;
      && 0 <= e.moved <= v.length
      && (IsSucceeded(e.result) ==>
            e.result.statement.value.Consumed?
            && e.result.statement.value.value.WellFormed()
            && e.result.statement.value.value.Chars() == v.Chars()[..e.moved]
            && e.result.statement.value.value.identity == id)
      && e.text == (if appends && sink then v.Chars()[..e.moved] else [])
  {
    var w := Scanned(v, m, appends, sink, id);
    if w.value.parsed.Some? {
      var p := w.value.parsed.value;
      assert p.data == v.data && p.index == v.index && p.length == m.end && 0 <= m.end <= v.length;
      assert v.data[v.index..v.index + m.end] == v.Chars()[..m.end];
    }
  }
}
