/**
 * InOrderRule.repairChildren: the previous children of the statement being
 * repaired are walked alongside the rule's children. A previous child that
 * belongs to the current rule child and sits at the cursor, unmodified, is
 * reused as it is; any other previous child of that rule is handed to the
 * child's repairStatement. Once a rule child has no previous statements left,
 * it goes on exactly as a fresh parse would.
 */
module InOrderRepair {
  import opened Wrappers
  import opened Regions
  import opened Occurrences
  import opened Counters
  import opened CharSequences
  import opened Statements
  import opened Containers
  import opened InOrder
  import opened PreviousChildren
  import opened Values
  import Rules

  /** One rule child in repair: a fresh counter, the walk over its previous statements, then the parsing loop. */
  function RepairChild(parse: Oracle, repair: Oracle, modified: Statement -> bool, hooks: Hooks, prev: Previous, rule: RuleId,
                       k: nat, occ: Occurrence, j: nat, t: Tally, text: seq<char>, end: int): (r: Result<Walk>)
    requires WellBehaved(parse, end) && WellBehaved(repair, end) && t.offset <= end && j <= |prev|
    ensures r.Ok? ==> j <= r.value.next <= |prev| && r.value.t.offset <= end
  {
    var w :- Reuse(repair, modified, hooks, prev, Some(rule), occ, j, t, text, end);
    Ok(Walk(w.next, Repetitions(parse, k, occ, w.t, end), w.text))
  }

  /** The outer loop of repairChildren from rule child `k` and previous child `j` on, with the consumer holding `text`. */
  function RepairRun(parse: Oracle, repair: Oracle, modified: Statement -> bool, hooks: Hooks, prev: Previous,
                     rules: seq<RuleId>, occs: seq<Occurrence>, k: nat, j: nat,
                     offset: int, roi: Span, results: seq<ParsingResult>, counts: seq<int>, text: seq<char>, end: int)
    : (r: Result<Replayed<Run>>)
    requires |rules| == |occs| && k <= |occs| && j <= |prev| && offset <= end
    requires WellBehaved(parse, end) && WellBehaved(repair, end)
    decreases |occs| - k
  {
    if k == |occs| then Ok(Replayed(Run(true, offset, roi, results, counts), text))
    else
      var w :- RepairChild(parse, repair, modified, hooks, prev, rules[k], k, occs[k], j, Tally(offset, roi, results, 0), text, end);
      var t := w.t;
      if !IsValid(occs[k], t.count) then Ok(Replayed(Run(false, t.offset, t.roi, t.results, counts + [t.count]), w.text))
      else RepairRun(parse, repair, modified, hooks, prev, rules, occs, k + 1, w.next, t.offset, t.roi, t.results, counts + [t.count],
                     w.text, end)
  }

  /**
   * InOrderRule.repairChildren over the document window `v`, with the
   * consumer holding `before` when it starts: the result, and the consumer's
   * text afterwards.
   */
  function InOrderRepair(id: RuleId, parse: Oracle, repair: Oracle, modified: Statement -> bool, hooks: Hooks, prev: Previous,
                         rules: seq<RuleId>, occs: seq<Occurrence>, v: ArrayRange, before: seq<char>): Result<Replayed<ParsingResult>>
    requires |rules| == |occs| && v.length >= 0
    requires WellBehaved(parse, v.index + v.length) && WellBehaved(repair, v.index + v.length)
  {
    Completed(id, v.data, v.index, RepairRun(parse, repair, modified, hooks, prev, rules, occs, 0, 0, v.index, Span(v.index, 0), [], [],
                                             before, v.index + v.length))
  }

  /** The result a finished repair run from `start` builds, and the text the consumer holds after it. */
  function Completed(id: RuleId, data: seq<char>, start: int, run: Result<Replayed<Run>>): (r: Result<Replayed<ParsingResult>>)
    ensures run.Err? ==> r == Err(run.error)
    ensures r.Ok? ==> run.Ok? && r.value.text == run.value.text
  {
    var run :- run;
    var r :- Finish(id, data, start, run.state, Listing(id, run.state.roi, InfosOf(run.state.results)));
    Ok(Replayed(r, run.text))
  }

  // ----- what repair guarantees -----

  /** Once the previous children are used up, the repair loop is the parse loop and the consumer is left alone. */
  lemma {:induction false} RepairRunWithoutPreviousIsParseRun(parse: Oracle, repair: Oracle, modified: Statement -> bool,
                                                               hooks: Hooks, prev: Previous, rules: seq<RuleId>,
                                                               occs: seq<Occurrence>, k: nat, offset: int, roi: Span,
                                                               results: seq<ParsingResult>, counts: seq<int>, text: seq<char>,
                                                               end: int)
    requires |rules| == |occs| && k <= |occs| && offset <= end
    requires WellBehaved(parse, end) && WellBehaved(repair, end)
    ensures RepairRun(parse, repair, modified, hooks, prev, rules, occs, k, |prev|, offset, roi, results, counts, text, end) ==
      Ok(Replayed(ParseRun(parse, occs, k, offset, roi, results, counts, end), text))
    decreases |occs| - k
  {
    if k < |occs| {
      var t := Repetitions(parse, k, occs[k], Tally(offset, roi, results, 0), end);
      if IsValid(occs[k], t.count) {
        RepairRunWithoutPreviousIsParseRun(parse, repair, modified, hooks, prev, rules, occs, k + 1, t.offset, t.roi, t.results,
                                           counts + [t.count], text, end);
      }
    }
  }

  /** With no previous children, repairing is parsing afresh, and no hook replays anything into the consumer. */
  lemma RepairWithoutPreviousIsParse(id: RuleId, parse: Oracle, repair: Oracle, modified: Statement -> bool, hooks: Hooks,
                                     rules: seq<RuleId>, occs: seq<Occurrence>, v: ArrayRange, before: seq<char>)
    requires |rules| == |occs| && v.length >= 0
    requires WellBehaved(parse, v.index + v.length) && WellBehaved(repair, v.index + v.length)
    ensures var p := InOrderParse(id, parse, occs, v);
      InOrderRepair(id, parse, repair, modified, hooks, [], rules, occs, v, before) ==
        if p.Err? then Err(p.error) else Ok(Replayed(p.value, before))
  {
    RepairRunWithoutPreviousIsParseRun(parse, repair, modified, hooks, [], rules, occs, 0, v.index, Span(v.index, 0), [], [],
                                       before, v.index + v.length);
  }

  // ----- the source's loops -----

  /** One step of RepairRun, spelled out for the loop that follows it. */
  lemma RepairRunStep(parse: Oracle, repair: Oracle, modified: Statement -> bool, hooks: Hooks, prev: Previous,
                      rules: seq<RuleId>, occs: seq<Occurrence>, k: nat, j: nat,
                      offset: int, roi: Span, results: seq<ParsingResult>, counts: seq<int>, text: seq<char>, end: int)
    requires |rules| == |occs| && k < |occs| && j <= |prev| && offset <= end
    requires WellBehaved(parse, end) && WellBehaved(repair, end)
    ensures var w := RepairChild(parse, repair, modified, hooks, prev, rules[k], k, occs[k], j, Tally(offset, roi, results, 0),
                                 text, end);
      RepairRun(parse, repair, modified, hooks, prev, rules, occs, k, j, offset, roi, results, counts, text, end) ==
        if w.Err? then Err(w.error)
        else if !IsValid(occs[k], w.value.t.count) then
          Ok(Replayed(Run(false, w.value.t.offset, w.value.t.roi, w.value.t.results, counts + [w.value.t.count]), w.value.text))
        else RepairRun(parse, repair, modified, hooks, prev, rules, occs, k + 1, w.value.next,
                       w.value.t.offset, w.value.t.roi, w.value.t.results, counts + [w.value.t.count], w.value.text, end)
  {
  }

  /** One rule child in repair: a fresh counter, the walk over its previous statements, then the inner loop. */
  method RepairRuleChild(parse: Oracle, repair: Oracle, modified: Statement -> bool, hooks: Hooks, prev: Previous, rule: RuleId,
                         k: nat, occ: Occurrence, j: nat, buf: DocumentData, roi: DocumentRegion, result: Builder,
                         counter: OccurrenceCounter, consumer: ValueConsumer?, ghost end: int, ghost text: seq<char>)
    returns (r: Result<nat>)
    requires WellBehaved(parse, end) && WellBehaved(repair, end) && end == buf.index + buf.length && buf.length >= 0
    requires result.Valid() && j <= |prev| && counter.occurrence == occ && counter.count == 0
    requires hooks.sink == (consumer != null) && Rules.Holds(consumer, text)
    modifies buf, roi, result, counter, Rules.Sinks(consumer)
    ensures counter.occurrence == occ
    ensures var w := RepairChild(parse, repair, modified, hooks, prev, rule, k, occ, j,
                                 Tally(old(buf.index), old(roi.Value()), old(result.children), 0), text, end);
      && (r.Err? <==> w.Err?) && (r.Err? ==> r.error == w.error)
      && (r.Ok? ==> r.value == w.value.next && Tally(buf.index, roi.Value(), result.children, counter.count) == w.value.t)
      && (r.Ok? ==> Rules.Holds(consumer, w.value.text))
    ensures r.Ok? ==> result.Valid() && end == buf.index + buf.length && buf.length >= 0
    ensures consumer != null ==> consumer.buf == old(consumer.buf) || fresh(consumer.buf)
  {
    r := WalkThenRepeat(parse, repair, modified, hooks, prev, Some(rule), k, j, buf, roi, result, counter, consumer, end, text);
  }

  /** The outer loop of repairChildren, proved against RepairRun. */
  method RepairRuleChildren(parse: Oracle, repair: Oracle, modified: Statement -> bool, hooks: Hooks, prev: Previous,
                            rules: seq<RuleId>, occs: seq<Occurrence>,
                            buf: DocumentData, roi: DocumentRegion, result: Builder, consumer: ValueConsumer?,
                            ghost end: int, ghost before: seq<char>)
    returns (r: Result<bool>, counts: seq<int>)
    requires |rules| == |occs| && WellBehaved(parse, end) && WellBehaved(repair, end)
    requires end == buf.index + buf.length && buf.length >= 0 && result.Valid()
    requires hooks.sink == (consumer != null) && Rules.Holds(consumer, before)
    modifies buf, roi, result, Rules.Sinks(consumer)
    ensures var target := RepairRun(parse, repair, modified, hooks, prev, rules, occs, 0, 0,
                                    old(buf.index), old(roi.Value()), old(result.children), [], before, end);
      && (r.Err? <==> target.Err?) && (r.Err? ==> r.error == target.error)
      && (r.Ok? ==> target.value.state == Run(r.value, buf.index, roi.Value(), result.children, counts))
      && (r.Ok? ==> Rules.Holds(consumer, target.value.text))
    ensures r.Ok? ==> result.Valid() && end == buf.index + buf.length && buf.length >= 0
    ensures consumer != null ==> consumer.buf == old(consumer.buf) || fresh(consumer.buf)
  {
    ghost var target := RepairRun(parse, repair, modified, hooks, prev, rules, occs, 0, 0, buf.index, roi.Value(), result.children,
                                  [], before, end);
    ghost var text := before;
    counts := [];
    var k: nat, j: nat := 0, 0;
    while k < |occs|
      invariant k <= |occs| && j <= |prev| && end == buf.index + buf.length && buf.length >= 0 && result.Valid()
      invariant Rules.Holds(consumer, text)
      invariant consumer != null ==> consumer.buf == old(consumer.buf) || fresh(consumer.buf)
      invariant RepairRun(parse, repair, modified, hooks, prev, rules, occs, k, j, buf.index, roi.Value(), result.children, counts,
                          text, end) == target
    {
      RepairRunStep(parse, repair, modified, hooks, prev, rules, occs, k, j, buf.index, roi.Value(), result.children, counts, text, end);
      ghost var w := RepairChild(parse, repair, modified, hooks, prev, rules[k], k, occs[k], j,
                                 Tally(buf.index, roi.Value(), result.children, 0), text, end);
      var counter := new OccurrenceCounter(occs[k]);
      var next := RepairRuleChild(parse, repair, modified, hooks, prev, rules[k], k, occs[k], j, buf, roi, result, counter,
                                  consumer, end, text);
      if next.Err? {
        return Err(next.error), counts;
      }
      text := w.value.text;
      counts := counts + [counter.count];
      if !counter.IsValidOccurrenceCount() {
        return Ok(false), counts;
      }
      k, j := k + 1, next.value;
    }
    return Ok(true), counts;
  }

  /** The start of repairChildren: a copy of `s` to work on, an empty result list and a region of interest empty at the cursor. */
  method Prepare(s: DocumentData) returns (buf: DocumentData, result: Builder, roi: DocumentRegion)
    requires s.index >= 0
    ensures fresh(buf) && fresh(result) && fresh(roi)
    ensures buf.View() == s.View() && result.Valid() && result.children == [] && roi.Value() == Span(s.index, 0)
  {
    buf := new DocumentData.Copy(s);
    result := new Builder();
    roi := new DocumentRegion();
    var _ := roi.SetOffset(buf.DocumentOffset());
  }

  /**
   * The end of repairChildren: the copy's run, built into the rule's result;
   * `s` moves to where the copy stopped only when the run matched.
   */
  method ConcludeRepair(id: RuleId, s: DocumentData, buf: DocumentData, startslen: int, start: int, result: Builder,
                        roi: DocumentRegion, run: Result<bool>, counts: seq<int>, ghost target: Result<Replayed<Run>>,
                        ghost consumer: ValueConsumer?)
    returns (r: Result<ParsingResult>)
    requires s != buf && s.length == startslen && start == s.index
    requires run.Ok? ==> result.Valid() && s.data == buf.data && s.index + s.length == buf.index + buf.length && buf.length >= 0
    requires (run.Err? <==> target.Err?) && (run.Err? ==> run.error == target.error)
    requires run.Ok? ==> target.value.state == Run(run.value, buf.index, roi.Value(), result.children, counts)
    requires run.Ok? ==> Rules.Holds(consumer, target.value.text)
    modifies s
    ensures var e := Completed(id, s.data, start, target);
      && (r.Err? <==> e.Err?) && (r.Err? ==> r.error == e.error)
      && (r.Ok? ==> r.value == e.value.state && Rules.Holds(consumer, e.value.text))
    ensures s.index + s.length == old(s.index + s.length)
    ensures r.Ok? && IsSucceeded(r.value) ==> s.index == old(s.index) + r.value.statement.value.position.length
    ensures r.Ok? && !IsSucceeded(r.value) ==> s.View() == old(s.View())
  {
    if run.Err? {
      return Err(run.error);
    }
    if !run.value {
      return Ok(result.Fail(Plain(id, roi.Value())));
    }
    r := Conclude(id, s, buf, startslen, start, result, Listing(id, roi.Value(), result.Infos()), roi.Value(), counts);
  }

  /**
   * InOrderRule.repairChildren: works on a copy of `s` and moves `s` only when
   * the repair succeeds, by what the copy consumed; the value consumer of the
   * rule context holds `before` when it starts and receives what the hooks of
   * the reused children replay.
   */
  method RepairChildren(id: RuleId, parse: Oracle, repair: Oracle, modified: Statement -> bool, hooks: Hooks, prev: Previous,
                        rules: seq<RuleId>, occs: seq<Occurrence>, s: DocumentData, consumer: ValueConsumer?,
                        ghost before: seq<char>)
    returns (r: Result<ParsingResult>)
    requires |rules| == |occs| && s.length >= 0 && s.index >= 0
    requires WellBehaved(parse, s.index + s.length) && WellBehaved(repair, s.index + s.length)
    requires hooks.sink == (consumer != null) && Rules.Holds(consumer, before)
    modifies s, Rules.Sinks(consumer)
    ensures var e := InOrderRepair(id, parse, repair, modified, hooks, prev, rules, occs, old(s.View()), before);
      && (r.Err? <==> e.Err?) && (r.Err? ==> r.error == e.error)
      && (r.Ok? ==> r.value == e.value.state && Rules.Holds(consumer, e.value.text))
    ensures s.index + s.length == old(s.index + s.length)
    ensures r.Ok? && IsSucceeded(r.value) ==> s.index == old(s.index) + r.value.statement.value.position.length
    ensures r.Ok? && !IsSucceeded(r.value) ==> s.View() == old(s.View())
  {
    ghost var v := s.View();
    assert InOrderRepair(id, parse, repair, modified, hooks, prev, rules, occs, v, before)
      == Completed(id, s.data, s.index, RepairRun(parse, repair, modified, hooks, prev, rules, occs, 0, 0, s.index, Span(s.index, 0),
                                                  [], [], before, s.index + s.length));
    r := RepairOnCopy(id, parse, repair, modified, hooks, prev, rules, occs, s, consumer, before);
  }

  /** The body of repairChildren: the children are repaired on a copy of `s`, then the result is concluded. */
  method RepairOnCopy(id: RuleId, parse: Oracle, repair: Oracle, modified: Statement -> bool, hooks: Hooks, prev: Previous,
                      rules: seq<RuleId>, occs: seq<Occurrence>, s: DocumentData, consumer: ValueConsumer?,
                      ghost before: seq<char>)
    returns (r: Result<ParsingResult>)
    requires |rules| == |occs| && s.length >= 0 && s.index >= 0
    requires WellBehaved(parse, s.index + s.length) && WellBehaved(repair, s.index + s.length)
    requires hooks.sink == (consumer != null) && Rules.Holds(consumer, before)
    modifies s, Rules.Sinks(consumer)
    ensures var e := Completed(id, s.data, old(s.index), RepairRun(parse, repair, modified, hooks, prev, rules, occs, 0, 0, old(s.index),
                                                                   Span(old(s.index), 0), [], [], before, old(s.index + s.length)));
      && (r.Err? <==> e.Err?) && (r.Err? ==> r.error == e.error)
      && (r.Ok? ==> r.value == e.value.state && Rules.Holds(consumer, e.value.text))
    ensures s.index + s.length == old(s.index + s.length)
    ensures r.Ok? && IsSucceeded(r.value) ==> s.index == old(s.index) + r.value.statement.value.position.length
    ensures r.Ok? && !IsSucceeded(r.value) ==> s.View() == old(s.View())
  {
    var buf, result, roi := Prepare(s);
    var startslen, start := buf.length, buf.DocumentOffset();
    ghost var end := s.index + s.length;
    ghost var roi0, index0, children0 := roi.Value(), buf.index, result.children;
    assert roi0 == Span(s.index, 0) && index0 == s.index && children0 == [];
    ghost var target := RepairRun(parse, repair, modified, hooks, prev, rules, occs, 0, 0, index0, roi0, children0, [], before, end);
    var run, counts := RepairRuleChildren(parse, repair, modified, hooks, prev, rules, occs, buf, roi, result, consumer, end, before);
    r := ConcludeRepair(id, s, buf, startslen, start, result, roi, run, counts, target, consumer);
  }
}
