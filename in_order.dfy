/**
 * InOrderRule: the children are matched one after the other, each as many times
 * as its occurrence counter accepts; the rule fails as soon as one child ends
 * with an invalid count. Repair walks the previous children first, reusing the
 * unmodified ones found at the cursor, then goes on as a fresh parse would.
 */
module InOrder {
  import opened Wrappers
  import opened Regions
  import opened Occurrences
  import opened Counters
  import opened CharSequences
  import opened Statements
  import opened Containers

  /** The outer loop of parseChildren from child `k` on. */
  function ParseRun(parse: Oracle, occs: seq<Occurrence>, k: nat, offset: int, roi: Span,
                    results: seq<ParsingResult>, counts: seq<int>, end: int): (r: Run)
    requires k <= |occs| && WellBehaved(parse, end) && offset <= end
    decreases |occs| - k
  {
    if k == |occs| then Run(true, offset, roi, results, counts)
    else
      var t := Repetitions(parse, k, occs[k], Tally(offset, roi, results, 0), end);
      if !IsValid(occs[k], t.count) then Run(false, t.offset, t.roi, t.results, counts + [t.count])
      else ParseRun(parse, occs, k + 1, t.offset, t.roi, t.results, counts + [t.count], end)
  }

  /** InOrderRule.parseChildren over the document window `v`. */
  function InOrderParse(id: RuleId, parse: Oracle, occs: seq<Occurrence>, v: ArrayRange): Result<ParsingResult>
    requires WellBehaved(parse, v.index + v.length) && v.length >= 0
  {
    var run := ParseRun(parse, occs, 0, v.index, Span(v.index, 0), [], [], v.index + v.length);
    Finish(id, v.data, v.index, run, Listing(id, run.roi, InfosOf(run.results)))
  }

  // ----- what the run guarantees -----

  /**
   * The rule matches exactly when every child ends with a valid count; when it
   * fails, the children before the last one tried were valid and the last was not.
   */
  lemma {:induction false} RunMatchesIffAllValid(parse: Oracle, occs: seq<Occurrence>, k: nat, offset: int, roi: Span,
                                                 results: seq<ParsingResult>, counts: seq<int>, end: int)
    requires k <= |occs| && WellBehaved(parse, end) && offset <= end
    requires |counts| == k && forall j :: 0 <= j < k ==> IsValid(occs[j], counts[j])
    ensures var r := ParseRun(parse, occs, k, offset, roi, results, counts, end);
      && k <= |r.counts| <= |occs| && r.counts[..k] == counts
      && (r.matched <==> |r.counts| == |occs| && forall j :: 0 <= j < |occs| ==> IsValid(occs[j], r.counts[j]))
      && (!r.matched ==> k < |r.counts|)
      && (!r.matched ==> (forall j :: 0 <= j < |r.counts| - 1 ==> IsValid(occs[j], r.counts[j]))
                         && !IsValid(occs[|r.counts| - 1], r.counts[|r.counts| - 1]))
    decreases |occs| - k
  {
    if k < |occs| {
      var t := Repetitions(parse, k, occs[k], Tally(offset, roi, results, 0), end);
      if IsValid(occs[k], t.count) {
        RunMatchesIffAllValid(parse, occs, k + 1, t.offset, t.roi, t.results, counts + [t.count], end);
        var r := ParseRun(parse, occs, k, offset, roi, results, counts, end);
        assert r.counts[..k] == (counts + [t.count])[..k];
      }
    }
  }

  /**
   * The cursor only moves forward, and the region of interest, which starts as
   * the empty span at the start offset, ends up holding [start, cursor): so the
   * collection's containment check passes.
   */
  lemma {:induction false} RunProgress(parse: Oracle, occs: seq<Occurrence>, k: nat, offset: int, roi: Span,
                                       results: seq<ParsingResult>, counts: seq<int>, end: int)
    requires k <= |occs| && WellBehaved(parse, end) && offset <= end
    requires roi.length >= 0 && roi.offset <= offset <= roi.End()
    ensures var r := ParseRun(parse, occs, k, offset, roi, results, counts, end);
      && offset <= r.offset <= end
      && r.roi.length >= 0 && r.roi.Encloses(roi.offset, roi.length)
      && r.roi.offset <= r.offset <= r.roi.End()
    decreases |occs| - k
  {
    if k < |occs| {
      var t0 := Tally(offset, roi, results, 0);
      var t := Repetitions(parse, k, occs[k], t0, end);
      RepetitionsProgress(parse, k, occs[k], t0, end);
      if IsValid(occs[k], t.count) {
        RunProgress(parse, occs, k + 1, t.offset, t.roi, t.results, counts + [t.count], end);
      }
    }
  }

  /** Every result a run gathers is a success. */
  lemma {:induction false} RunGathersSuccesses(parse: Oracle, occs: seq<Occurrence>, k: nat, offset: int, roi: Span,
                                               results: seq<ParsingResult>, counts: seq<int>, end: int)
    requires k <= |occs| && WellBehaved(parse, end) && offset <= end
    requires AllSucceeded(results) && roi.length >= 0 && roi.offset <= offset <= roi.End()
    ensures AllSucceeded(ParseRun(parse, occs, k, offset, roi, results, counts, end).results)
    decreases |occs| - k
  {
    if k < |occs| {
      var t0 := Tally(offset, roi, results, 0);
      var t := Repetitions(parse, k, occs[k], t0, end);
      RepetitionsProgress(parse, k, occs[k], t0, end);
      assert t.results == t.results[..|results|] + t.results[|results|..];
      assert AllSucceeded(t.results);
      if IsValid(occs[k], t.count) {
        RunGathersSuccesses(parse, occs, k + 1, t.offset, t.roi, t.results, counts + [t.count], end);
      }
    }
  }

  /** A parse whose children behave never trips the containment check: its result is always Ok. */
  lemma InOrderParseNeverThrows(id: RuleId, parse: Oracle, occs: seq<Occurrence>, v: ArrayRange)
    requires WellBehaved(parse, v.index + v.length) && v.length >= 0
    ensures InOrderParse(id, parse, occs, v).Ok?
    ensures var run := ParseRun(parse, occs, 0, v.index, Span(v.index, 0), [], [], v.index + v.length);
      IsSucceeded(InOrderParse(id, parse, occs, v).value) <==> run.matched
  {
    var run := ParseRun(parse, occs, 0, v.index, Span(v.index, 0), [], [], v.index + v.length);
    RunProgress(parse, occs, 0, v.index, Span(v.index, 0), [], [], v.index + v.length);
    assert Inside(run.roi, Span(v.index, run.offset - v.index));
  }

  // ----- the source's loop -----

  /** One step of ParseRun, spelled out for the loop that follows it. */
  lemma ParseRunStep(parse: Oracle, occs: seq<Occurrence>, k: nat, offset: int, roi: Span,
                     results: seq<ParsingResult>, counts: seq<int>, end: int)
    requires k < |occs| && WellBehaved(parse, end) && offset <= end
    ensures var t := Repetitions(parse, k, occs[k], Tally(offset, roi, results, 0), end);
      ParseRun(parse, occs, k, offset, roi, results, counts, end) ==
        if !IsValid(occs[k], t.count) then Run(false, t.offset, t.roi, t.results, counts + [t.count])
        else ParseRun(parse, occs, k + 1, t.offset, t.roi, t.results, counts + [t.count], end)
  {
  }

  /** One pass of the outer loop: a fresh counter for the child, then the inner loop. */
  method RunChild(parse: Oracle, k: nat, occ: Occurrence, s: DocumentData, roi: DocumentRegion, result: Builder, ghost end: int)
    returns (counter: OccurrenceCounter)
    requires WellBehaved(parse, end) && end == s.index + s.length && s.length >= 0 && result.Valid()
    modifies s, roi, result
    ensures fresh(counter) && counter.occurrence == occ && result.Valid()
    ensures end == s.index + s.length && s.length >= 0
    ensures Tally(s.index, roi.Value(), result.children, counter.count) ==
      Repetitions(parse, k, occ, Tally(old(s.index), old(roi.Value()), old(result.children), 0), end)
  {
    counter := new OccurrenceCounter(occ);
    Repeat(parse, k, s, roi, result, counter);
  }

  /** The run from the start of the window is what InOrderParse finishes. */
  lemma InOrderParseFinishes(id: RuleId, parse: Oracle, occs: seq<Occurrence>, v: ArrayRange)
    requires WellBehaved(parse, v.index + v.length) && v.length >= 0
    ensures var run := ParseRun(parse, occs, 0, v.index, Span(v.index, 0), [], [], v.index + v.length);
      InOrderParse(id, parse, occs, v) == Finish(id, v.data, v.index, run, Listing(id, run.roi, InfosOf(run.results)))
  {
  }

  /**
   * The outer loop of parseChildren: each child in turn, until one ends with an
   * invalid count; the objects end up holding the run's final state.
   */
  method RunChildren(parse: Oracle, occs: seq<Occurrence>, s: DocumentData, roi: DocumentRegion, result: Builder, ghost end: int)
    returns (matched: bool, counts: seq<int>)
    requires WellBehaved(parse, end) && end == s.index + s.length && s.length >= 0 && result.Valid()
    modifies s, roi, result
    ensures result.Valid() && s.index + s.length == end && s.length >= 0
    ensures Run(matched, s.index, roi.Value(), result.children, counts) ==
      ParseRun(parse, occs, 0, old(s.index), old(roi.Value()), old(result.children), [], end)
  {
    ghost var target := ParseRun(parse, occs, 0, s.index, roi.Value(), result.children, [], end);
    counts := [];
    var k := 0;
    while k < |occs|
      invariant k <= |occs| && s.index + s.length == end && s.length >= 0
      invariant result.Valid()
      invariant ParseRun(parse, occs, k, s.index, roi.Value(), result.children, counts, end) == target
    {
      ParseRunStep(parse, occs, k, s.index, roi.Value(), result.children, counts, end);
      var counter := RunChild(parse, k, occs[k], s, roi, result, end);
      counts := counts + [counter.count];
      if !counter.IsValidOccurrenceCount() {
        return false, counts;
      }
      k := k + 1;
    }
    return true, counts;
  }

  /** InOrderRule.parseChildren: moves `s` past what the children matched (the caller works on a copy). */
  method ParseChildren(id: RuleId, parse: Oracle, occs: seq<Occurrence>, s: DocumentData) returns (r: Result<ParsingResult>)
    requires WellBehaved(parse, s.index + s.length) && s.length >= 0 && s.index >= 0
    modifies s
    ensures r == InOrderParse(id, parse, occs, old(s.View()))
    ensures s.index + s.length == old(s.index + s.length)
    ensures r.Ok? && IsSucceeded(r.value) ==> s.index == old(s.index) + r.value.statement.value.position.length
  {
    ghost var v := s.View();
    var result := new Builder();
    var start := s.DocumentOffset();
    var roi := new DocumentRegion();
    var _ := roi.SetOffset(start);
    InOrderParseFinishes(id, parse, occs, v);
    var matched, counts := RunChildren(parse, occs, s, roi, result, v.index + v.length);
    if !matched {
      return Ok(result.Fail(Plain(id, roi.Value())));
    }
    BuildFinishes(id, result, s, start, roi.Value(), counts, Listing(id, roi.Value(), result.Infos()));
    r := result.Build(s, Span(start, s.DocumentOffset() - start), Listing(id, roi.Value(), result.Infos()));
  }
}
