/**
 * What the container rules (in-order, first-order, any-order) share: the child
 * parse they call, the loop that retries one child while its occurrence counter
 * accepts more, and the forcing of a zero-length match up to the count the
 * policy still requires.
 *
 * A child's Rule.parseStatement is a call into the rest of the grammar; the
 * model takes it as a function of the child's index and the document offset
 * (the parse cache makes repeated calls agree), returning the result and how
 * far the child moved the cursor.
 */
module Containers {
  import opened Wrappers
  import opened Regions
  import opened Occurrences
  import opened Counters
  import opened CharSequences
  import opened Statements

  /** One call of a child rule: its result and how many characters it consumed. */
  datatype Attempt = Attempt(result: ParsingResult, consumed: int)

  /** The child rules' parseStatement (or repairStatement): child index and document offset to attempt. */
  type Oracle = (nat, int) -> Attempt

  /**
   * What Rule.parseStatement guarantees about a call at `offset` with `remaining`
   * characters left: a failure consumes nothing, a success consumes its statement,
   * which starts at the offset and lies inside the result's region of interest.
   */
  predicate Behaves(a: Attempt, offset: int, remaining: int) {
    && 0 <= a.consumed <= remaining
    && a.result.info.roi.length >= 0
    && (IsSucceeded(a.result) ==>
          a.result.statement.value.position == Span(offset, a.consumed)
          && Inside(a.result.info.roi, a.result.statement.value.position))
    && (!IsSucceeded(a.result) ==> a.consumed == 0)
  }

  /** Every call at an offset up to `end` behaves. */
  ghost predicate WellBehaved(parse: Oracle, end: int) {
    forall k: nat, off: int :: off <= end ==> Behaves(parse(k, off), off, end - off)
  }

  /** The loop state of a container: cursor, region of interest, gathered results, and the current child's count. */
  datatype Tally = Tally(offset: int, roi: Span, results: seq<ParsingResult>, count: int)

  /** Java's `for (added = ...; added-- > 0;) add(r)`: `n` copies, none when `n` is not positive. */
  function Copies(r: ParsingResult, n: int): (rs: seq<ParsingResult>)
    ensures |rs| == Max(n, 0)
    ensures forall i :: 0 <= i < |rs| ==> rs[i] == r
    decreases n
  {
    if n <= 0 then [] else Copies(r, n - 1) + [r]
  }

  predicate AllSucceeded(rs: seq<ParsingResult>) {
    forall i :: 0 <= i < |rs| ==> IsSucceeded(rs[i])
  }

  /**
   * The inner loop of the containers: while the counter accepts more, parse the
   * child again; the region of interest takes in every attempt; a failure stops;
   * a success that consumed nothing stops after adding the copies the count still
   * requires (when it is not valid yet); any other success is counted and added.
   */
  function Repetitions(parse: Oracle, k: nat, occ: Occurrence, t: Tally, end: int): (r: Tally)
    requires WellBehaved(parse, end) && t.offset <= end
    ensures t.offset <= r.offset <= end
    decreases end - t.offset
  {
    if !CanAcceptMore(occ, t.count) then t
    else
      var a := parse(k, t.offset);
      var roi := Hull(t.roi, a.result.info.roi);
      if !IsSucceeded(a.result) then t.(roi := roi)
      else if a.consumed == 0 then
        if IsValid(occ, t.count) then t.(roi := roi)
        else
          var added := RequiredMore(occ, t.count);
          Tally(t.offset, roi, t.results + Copies(a.result, added), t.count + added)
      else Repetitions(parse, k, occ, Tally(t.offset + a.consumed, roi, t.results + [a.result], t.count + 1), end)
  }

  /** Where a container's run ended: matched or not, cursor, region of interest, results, and the final count of each child tried. */
  datatype Run = Run(matched: bool, offset: int, roi: Span, results: seq<ParsingResult>, counts: seq<int>)

  /** The statements of the successful results, in order. */
  function StatementsOf(rs: seq<ParsingResult>): (r: seq<Statement>)
    ensures AllSucceeded(rs) ==> |r| == |rs| && forall i :: 0 <= i < |r| ==> Some(r[i]) == rs[i].statement
  {
    if |rs| == 0 then []
    else
      var last := rs[|rs| - 1];
      StatementsOf(rs[..|rs| - 1]) + if last.statement.Some? then [last.statement.value] else []
  }

  /** The information of results, in order. */
  function InfosOf(rs: seq<ParsingResult>): (r: seq<Info>)
    ensures |r| == |rs| && forall i :: 0 <= i < |r| ==> r[i] == rs[i].info
  {
    if |rs| == 0 then [] else InfosOf(rs[..|rs| - 1]) + [rs[|rs| - 1].info]
  }

  /**
   * The result of a container run that started at `start` over `data`: a
   * collection of the gathered statements spanning [start, cursor), or a failure
   * that only carries the region of interest.
   */
  function Finish(id: RuleId, data: seq<char>, start: int, run: Run, info: Info): Result<ParsingResult>
  {
    if run.matched then
      var position := Span(start, run.offset - start);
      NewResult(Some(Collection(position, ArrayRange(data, start, run.offset - start), StatementsOf(run.results))), info)
    else Ok(FailedResult(Plain(id, run.roi)))
  }

  // ----- what the loop guarantees -----

  /**
   * The loop only moves forward and stays in the document, keeps every earlier
   * result, adds only successful ones, and its region of interest still holds the
   * one it started with and reaches the new cursor.
   */
  lemma RepetitionsProgress(parse: Oracle, k: nat, occ: Occurrence, t: Tally, end: int)
    requires WellBehaved(parse, end) && t.offset <= end && t.roi.length >= 0
    requires t.roi.offset <= t.offset <= t.roi.End()
    ensures var r := Repetitions(parse, k, occ, t, end);
      && t.offset <= r.offset <= end
      && r.roi.length >= 0
      && r.roi.Encloses(t.roi.offset, t.roi.length)
      && r.roi.offset <= r.offset <= r.roi.End()
      && |t.results| <= |r.results| && r.results[..|t.results|] == t.results
      && AllSucceeded(r.results[|t.results|..])
  {
    RepetitionsRegion(parse, k, occ, t, end);
    RepetitionsResults(parse, k, occ, t, end);
  }

  /** The region of interest of the loop keeps the one it started with and reaches the cursor. */
  lemma {:induction false} RepetitionsRegion(parse: Oracle, k: nat, occ: Occurrence, t: Tally, end: int)
    requires WellBehaved(parse, end) && t.offset <= end && t.roi.length >= 0
    requires t.roi.offset <= t.offset <= t.roi.End()
    ensures var r := Repetitions(parse, k, occ, t, end);
      && r.roi.length >= 0
      && r.roi.Encloses(t.roi.offset, t.roi.length)
      && r.roi.offset <= r.offset <= r.roi.End()
    decreases end - t.offset
  {
    if CanAcceptMore(occ, t.count) {
      var a := parse(k, t.offset);
      var roi := Hull(t.roi, a.result.info.roi);
      HullIsLeastEnclosing(t.roi, a.result.info.roi, roi);
      if IsSucceeded(a.result) && a.consumed != 0 {
        var next := Tally(t.offset + a.consumed, roi, t.results + [a.result], t.count + 1);
        assert roi.End() >= t.offset + a.consumed;
        RepetitionsRegion(parse, k, occ, next, end);
      }
    }
  }

  /** The loop keeps every earlier result and adds only successful ones. */
  lemma {:induction false} RepetitionsResults(parse: Oracle, k: nat, occ: Occurrence, t: Tally, end: int)
    requires WellBehaved(parse, end) && t.offset <= end
    ensures var r := Repetitions(parse, k, occ, t, end);
      && |t.results| <= |r.results| && r.results[..|t.results|] == t.results
      && AllSucceeded(r.results[|t.results|..])
    decreases end - t.offset
  {
    var r := Repetitions(parse, k, occ, t, end);
    if CanAcceptMore(occ, t.count) {
      var a := parse(k, t.offset);
      var roi := Hull(t.roi, a.result.info.roi);
      if IsSucceeded(a.result) && a.consumed != 0 {
        var next := Tally(t.offset + a.consumed, roi, t.results + [a.result], t.count + 1);
        RepetitionsResults(parse, k, occ, next, end);
        assert r.results[..|next.results|] == next.results;
        assert r.results[..|t.results|] == next.results[..|t.results|];
        forall i | |t.results| <= i < |r.results| ensures IsSucceeded(r.results[i]) {
          if i == |t.results| {
            assert r.results[i] == next.results[i];
          } else {
            assert r.results[i] == r.results[|next.results|..][i - |next.results|];
          }
        }
      } else if IsSucceeded(a.result) && !IsValid(occ, t.count) {
        assert r.results == t.results + Copies(a.result, RequiredMore(occ, t.count));
      }
    }
  }


  /**
   * When the policy never asks for a negative number of copies, every result the
   * loop adds is one more on the count: the results and the count grow together.
   */
  lemma {:induction false} RepetitionsCountsResults(parse: Oracle, k: nat, occ: Occurrence, t: Tally, end: int)
    requires WellBehaved(parse, end) && t.offset <= end
    requires forall c :: RequiredMore(occ, c) >= 0
    ensures var r := Repetitions(parse, k, occ, t, end);
      |r.results| - |t.results| == r.count - t.count
    decreases end - t.offset
  {
    if CanAcceptMore(occ, t.count) {
      var a := parse(k, t.offset);
      if IsSucceeded(a.result) && a.consumed != 0 {
        var next := Tally(t.offset + a.consumed, Hull(t.roi, a.result.info.roi), t.results + [a.result], t.count + 1);
        RepetitionsCountsResults(parse, k, occ, next, end);
      }
    }
  }

  /**
   * Why the loop stopped: the counter accepts no more, or the attempt at the final
   * cursor failed or consumed nothing. When the cursor did not move, all the loop
   * added are copies of that one attempt, as many as the count grew.
   */
  lemma {:induction false} RepetitionsStops(parse: Oracle, k: nat, occ: Occurrence, t: Tally, end: int)
    requires WellBehaved(parse, end) && t.offset <= end
    ensures var r := Repetitions(parse, k, occ, t, end);
      var a := parse(k, r.offset);
      !CanAcceptMore(occ, r.count) || !IsSucceeded(a.result) || a.consumed == 0
    ensures var r := Repetitions(parse, k, occ, t, end);
      r.offset == t.offset ==> r.results == t.results + Copies(parse(k, t.offset).result, r.count - t.count)
    decreases end - t.offset
  {
    if CanAcceptMore(occ, t.count) {
      var a := parse(k, t.offset);
      if IsSucceeded(a.result) && a.consumed != 0 {
        var next := Tally(t.offset + a.consumed, Hull(t.roi, a.result.info.roi), t.results + [a.result], t.count + 1);
        RepetitionsStops(parse, k, occ, next, end);
      } else if IsSucceeded(a.result) && !IsValid(occ, t.count) {
        var r := Repetitions(parse, k, occ, t, end);
        assert r.count - t.count == RequiredMore(occ, t.count);
      } else {
        assert Repetitions(parse, k, occ, t, end).results == t.results + [];
      }
    } else {
      assert Repetitions(parse, k, occ, t, end).results == t.results + [];
    }
  }

  /**
   * The region of interest only collects: the cursor, the results and the count
   * the loop reaches do not depend on the region it started with.
   */
  lemma {:induction false} RepetitionsIgnoresRoi(parse: Oracle, k: nat, occ: Occurrence, offset: int, roi1: Span, roi2: Span,
                                                 results: seq<ParsingResult>, count: int, end: int)
    requires WellBehaved(parse, end) && offset <= end
    ensures var a := Repetitions(parse, k, occ, Tally(offset, roi1, results, count), end);
      var b := Repetitions(parse, k, occ, Tally(offset, roi2, results, count), end);
      a.offset == b.offset && a.results == b.results && a.count == b.count
    decreases end - offset
  {
    if CanAcceptMore(occ, count) {
      var a := parse(k, offset);
      if IsSucceeded(a.result) && a.consumed != 0 {
        RepetitionsIgnoresRoi(parse, k, occ, offset + a.consumed, Hull(roi1, a.result.info.roi), Hull(roi2, a.result.info.roi),
                              results + [a.result], count + 1, end);
      }
    }
  }

  // ----- the loop itself, over the source's objects -----

  /** The container state that the objects hold. */
  function Now(buf: DocumentData, roi: DocumentRegion, result: Builder, counter: OccurrenceCounter): Tally
    reads buf, roi, result, counter
  {
    Tally(buf.index, roi.Value(), result.children, counter.count)
  }

  /** Rule.parseStatement as the container sees it: the child runs and, on success, the cursor moves past what it consumed. */
  method ParseChild(parse: Oracle, k: nat, buf: DocumentData) returns (parsed: ParsingResult)
    requires WellBehaved(parse, buf.index + buf.length) && buf.length >= 0
    modifies buf
    ensures parsed == parse(k, old(buf.index)).result
    ensures buf.index == old(buf.index) + parse(k, old(buf.index)).consumed
    ensures buf.index + buf.length == old(buf.index + buf.length) && buf.length >= 0
  {
    var a := parse(k, buf.index);
    if IsSucceeded(a.result) {
      var _ := buf.RemoveFromStart(a.consumed);
    }
    return a.result;
  }

  /** `while (added-- > 0) result.add(r)`: `n` copies of `r` appended, none when `n` is not positive. */
  method AddCopies(result: Builder, r: ParsingResult, n: int)
    requires result.Valid() && IsSucceeded(r)
    modifies result
    ensures result.children == old(result.children) + Copies(r, n) && result.Valid()
  {
    var added := n;
    while added > 0
      invariant result.Valid() && added <= Max(n, 0)
      invariant result.children == old(result.children) + Copies(r, n - Max(added, 0))
    {
      added := added - 1;
      result.Add(r);
    }
  }

  /** `for (int added = counter.addAnyMoreRequired(); added-- > 0;) result.add(r)`. */
  method AddRequiredCopies(counter: OccurrenceCounter, result: Builder, r: ParsingResult)
    requires result.Valid() && IsSucceeded(r)
    modifies counter, result
    ensures counter.occurrence == old(counter.occurrence)
    ensures counter.count == old(counter.count) + RequiredMore(counter.occurrence, old(counter.count))
    ensures result.children == old(result.children) + Copies(r, RequiredMore(counter.occurrence, old(counter.count)))
    ensures result.Valid()
  {
    var added := counter.AddAnyMoreRequired();
    AddCopies(result, r, added);
  }

  /**
   * One round of the inner loop, from the tally `t` the objects hold: either the
   * loop stops there, at what Repetitions makes of `t`, or the cursor moved and
   * Repetitions of the new state is still that of `t`.
   */
  method RepeatOnce(parse: Oracle, k: nat, buf: DocumentData, roi: DocumentRegion, result: Builder, counter: OccurrenceCounter,
                    ghost end: int, ghost t: Tally) returns (stop: bool)
    requires WellBehaved(parse, end) && buf.index + buf.length == end && buf.length >= 0 && result.Valid()
    requires t == Now(buf, roi, result, counter) && CanAcceptMore(counter.occurrence, t.count)
    modifies buf, roi, result, counter
    ensures counter.occurrence == old(counter.occurrence) && result.Valid()
    ensures buf.index + buf.length == end && buf.length >= 0
    ensures stop ==> Now(buf, roi, result, counter) == Repetitions(parse, k, counter.occurrence, t, end)
    ensures !stop ==> buf.length < old(buf.length)
    ensures !stop ==> Repetitions(parse, k, counter.occurrence, Now(buf, roi, result, counter), end) == Repetitions(parse, k, counter.occurrence, t, end)
  {
    var buflen := buf.length;
    var parsed := ParseChild(parse, k, buf);
    roi.ExpandTo(parsed.info.roi.offset, parsed.info.roi.length);
    if !IsSucceeded(parsed) {
      return true;
    }
    if buflen == buf.length {
      if !counter.IsValidOccurrenceCount() {
        AddRequiredCopies(counter, result, parsed);
      }
      return true;
    }
    counter.AddOccurrence();
    result.Add(parsed);
    return false;
  }

  /** The inner loop, proved against Repetitions. */
  method Repeat(parse: Oracle, k: nat, buf: DocumentData, roi: DocumentRegion, result: Builder, counter: OccurrenceCounter)
    requires WellBehaved(parse, buf.index + buf.length) && buf.length >= 0 && result.Valid()
    modifies buf, roi, result, counter
    ensures counter.occurrence == old(counter.occurrence) && result.Valid()
    ensures buf.index + buf.length == old(buf.index + buf.length) && buf.length >= 0
    ensures Now(buf, roi, result, counter) ==
      Repetitions(parse, k, counter.occurrence, old(Now(buf, roi, result, counter)), buf.index + buf.length)
  {
    ghost var end := buf.index + buf.length;
    ghost var target := Repetitions(parse, k, counter.occurrence, Now(buf, roi, result, counter), end);
    while counter.CanOccurOnceMore()
      invariant buf.index + buf.length == end && buf.length >= 0 && result.Valid()
      invariant counter.occurrence == old(counter.occurrence)
      invariant Repetitions(parse, k, counter.occurrence, Now(buf, roi, result, counter), end) == target
      decreases buf.length
    {
      var stop := RepeatOnce(parse, k, buf, roi, result, counter, end, Now(buf, roi, result, counter));
      if stop {
        return;
      }
    }
  }

  /** What the builder builds at the end of a matched run is what Finish makes of that run. */
  lemma BuildFinishes(id: RuleId, result: Builder, s: DocumentData, start: int, roi: Span, counts: seq<int>, info: Info)
    requires result.Valid()
    ensures result.Infos() == InfosOf(result.children)
    ensures result.Build(s, Span(start, s.index - start), info) ==
      Finish(id, s.data, start, Run(true, s.index, roi, result.children, counts), info)
  {
    assert result.Statements() == StatementsOf(result.children);
    assert result.Infos() == InfosOf(result.children);
  }

  /**
   * The end of a matched run that worked on a copy `buf` of `s`: `s` catches up
   * with the copy, and the builder builds the collection.
   */
  method Conclude(id: RuleId, s: DocumentData, buf: DocumentData, startslen: int, start: int,
                  result: Builder, info: Info, ghost roi: Span, ghost counts: seq<int>)
    returns (r: Result<ParsingResult>)
    requires result.Valid() && s.data == buf.data && s.length == startslen
    requires s.index + s.length == buf.index + buf.length && buf.length >= 0
    modifies s
    ensures s.View() == buf.View() && result.Infos() == InfosOf(result.children)
    ensures r == Finish(id, s.data, start, Run(true, buf.index, roi, result.children, counts), info)
  {
    var _ := s.RemoveFromStart(startslen - buf.length);
    BuildFinishes(id, result, s, start, roi, counts, info);
    r := result.Build(s, Span(start, s.DocumentOffset() - start), info);
  }
}
