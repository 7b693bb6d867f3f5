/**
 * FirstOrderRule: the children are alternatives. Each is tried from the same
 * start with a reset counter, a cleared builder and a fresh copy of the cursor;
 * the first whose count ends valid is the result, and only then is input
 * consumed. The region of interest takes in every alternative tried. Repair
 * replays the previous children only for the alternative chosen last time.
 */
module FirstOrder {
  import opened Wrappers
  import opened Regions
  import opened Occurrences
  import opened Counters
  import opened CharSequences
  import opened Statements
  import opened Containers
  import opened PreviousChildren
  import opened Values
  import Rules

  /** How the alternatives ended: the first valid one and its loop state, or none and the region of interest. */
  datatype Choice = Picked(k: nat, t: Tally) | NonePicked(roi: Span)

  /** The alternatives from the `k`-th on, each from `start`, the region of interest carried along. */
  function Alternatives(parse: Oracle, occs: seq<Occurrence>, k: nat, roi: Span, start: int, end: int): (c: Choice)
    requires k <= |occs| && WellBehaved(parse, end) && start <= end
    ensures c.Picked? ==> k <= c.k < |occs| && IsValid(occs[c.k], c.t.count)
    decreases |occs| - k
  {
    if k == |occs| then NonePicked(roi)
    else
      var t := Repetitions(parse, k, occs[k], Tally(start, roi, [], 0), end);
      if IsValid(occs[k], t.count) then Picked(k, t)
      else Alternatives(parse, occs, k + 1, t.roi, start, end)
  }

  /** What a choice makes of the rule: the picked alternative's results as a collection, or a failure. */
  function Settle(id: RuleId, data: seq<char>, start: int, c: Choice): (r: Result<ParsingResult>)
    ensures r.Ok? && IsSucceeded(r.value) <==> c.Picked? && r.Ok?
    ensures r.Ok? && IsSucceeded(r.value) ==> r.value.statement.value.position == Span(start, c.t.offset - start)
  {
    match c
    case Picked(k, t) =>
      Finish(id, data, start, Run(true, t.offset, t.roi, t.results, [t.count]), Chosen(id, t.roi, InfosOf(t.results), k))
    case NonePicked(roi) => Ok(FailedResult(Plain(id, roi)))
  }

  /** FirstOrderRule.parseChildren over the document window `v`. */
  function FirstOrderParse(id: RuleId, parse: Oracle, occs: seq<Occurrence>, v: ArrayRange): Result<ParsingResult>
    requires WellBehaved(parse, v.index + v.length) && v.length >= 0
  {
    Settle(id, v.data, v.index, Alternatives(parse, occs, 0, Span(v.index, 0), v.index, v.index + v.length))
  }

  // ----- what the choice guarantees -----

  /** One alternative on its own: its loop from `start` with an empty builder and a count of 0. */
  function Alone(parse: Oracle, occs: seq<Occurrence>, k: nat, start: int, end: int): Tally
    requires k < |occs| && WellBehaved(parse, end) && start <= end
  {
    Repetitions(parse, k, occs[k], Tally(start, Span(start, 0), [], 0), end)
  }

  /** The `k`-th alternative, on its own, ends with a valid count. */
  predicate ValidAlone(parse: Oracle, occs: seq<Occurrence>, k: nat, start: int, end: int)
    requires WellBehaved(parse, end) && start <= end
  {
    k < |occs| && IsValid(occs[k], Alone(parse, occs, k, start, end).count)
  }

  /**
   * The rule picks the first alternative that is valid on its own, with what
   * that alternative matched on its own; it picks none exactly when no
   * alternative is valid.
   */
  lemma {:induction false} PicksFirstValid(parse: Oracle, occs: seq<Occurrence>, k: nat, roi: Span, start: int, end: int)
    requires k <= |occs| && WellBehaved(parse, end) && start <= end
    ensures var c := Alternatives(parse, occs, k, roi, start, end);
      && (c.NonePicked? <==> forall i :: k <= i < |occs| ==> !ValidAlone(parse, occs, i, start, end))
      && (c.Picked? ==>
            && ValidAlone(parse, occs, c.k, start, end)
            && (forall i :: k <= i < c.k ==> !ValidAlone(parse, occs, i, start, end))
            && c.t.offset == Alone(parse, occs, c.k, start, end).offset
            && c.t.results == Alone(parse, occs, c.k, start, end).results)
    decreases |occs| - k
  {
    if k < |occs| {
      var t := Repetitions(parse, k, occs[k], Tally(start, roi, [], 0), end);
      RepetitionsIgnoresRoi(parse, k, occs[k], start, roi, Span(start, 0), [], 0, end);
      assert ValidAlone(parse, occs, k, start, end) <==> IsValid(occs[k], t.count);
      if !IsValid(occs[k], t.count) {
        PicksFirstValid(parse, occs, k + 1, t.roi, start, end);
      }
    }
  }

  /**
   * The region of interest only grows, and the picked alternative's region
   * reaches from the start to where that alternative stopped.
   */
  lemma {:induction false} AlternativesProgress(parse: Oracle, occs: seq<Occurrence>, k: nat, roi: Span, start: int, end: int)
    requires k <= |occs| && WellBehaved(parse, end) && start <= end
    requires roi.length >= 0 && roi.offset <= start <= roi.End()
    ensures var c := Alternatives(parse, occs, k, roi, start, end);
      && (c.NonePicked? ==> c.roi.Encloses(roi.offset, roi.length))
      && (c.Picked? ==> c.t.roi.Encloses(roi.offset, roi.length) && start <= c.t.offset <= end
                        && Inside(c.t.roi, Span(start, c.t.offset - start)) && AllSucceeded(c.t.results))
    decreases |occs| - k
  {
    if k < |occs| {
      var t0 := Tally(start, roi, [], 0);
      var t := Repetitions(parse, k, occs[k], t0, end);
      RepetitionsProgress(parse, k, occs[k], t0, end);
      assert t.results == t.results[|t0.results|..];
      if !IsValid(occs[k], t.count) {
        AlternativesProgress(parse, occs, k + 1, t.roi, start, end);
      }
    }
  }

  /** Some alternative is valid on its own. */
  predicate SomeValid(parse: Oracle, occs: seq<Occurrence>, start: int, end: int)
    requires WellBehaved(parse, end) && start <= end
  {
    exists i :: 0 <= i < |occs| && ValidAlone(parse, occs, i, start, end)
  }

  /**
   * A parse whose alternatives behave never trips the containment check, and it
   * succeeds exactly when some alternative is valid on its own.
   */
  lemma FirstOrderParseNeverThrows(id: RuleId, parse: Oracle, occs: seq<Occurrence>, v: ArrayRange)
    requires WellBehaved(parse, v.index + v.length) && v.length >= 0
    ensures FirstOrderParse(id, parse, occs, v).Ok?
    ensures IsSucceeded(FirstOrderParse(id, parse, occs, v).value) <==> SomeValid(parse, occs, v.index, v.index + v.length)
  {
    AlternativesProgress(parse, occs, 0, Span(v.index, 0), v.index, v.index + v.length);
    PicksFirstValid(parse, occs, 0, Span(v.index, 0), v.index, v.index + v.length);
  }

  // ----- repair -----

  /**
   * The alternatives in repair: the one chosen last time first walks every
   * previous child (reused when unmodified at the cursor, repaired otherwise),
   * then goes on with its parsing loop; every other alternative parses afresh.
   * `text` is what the value consumer holds; the reused children's hooks add
   * to it, and nothing takes it back when their alternative is not valid.
   */
  function RepairAlternatives(parse: Oracle, repair: Oracle, modified: Statement -> bool, hooks: Hooks, prev: Previous, chosen: int,
                              occs: seq<Occurrence>, k: nat, roi: Span, start: int, text: seq<char>, end: int)
    : (r: Result<Replayed<Choice>>)
    requires k <= |occs| && WellBehaved(parse, end) && WellBehaved(repair, end) && start <= end
    decreases |occs| - k
  {
    if k == |occs| then Ok(Replayed(NonePicked(roi), text))
    else
      var t0 := Tally(start, roi, [], 0);
      var w :- if k == chosen then Reuse(repair, modified, hooks, prev, None, occs[k], 0, t0, text, end) else Ok(Walk(0, t0, text));
      var t := Repetitions(parse, k, occs[k], w.t, end);
      if IsValid(occs[k], t.count) then Ok(Replayed(Picked(k, t), w.text))
      else RepairAlternatives(parse, repair, modified, hooks, prev, chosen, occs, k + 1, t.roi, start, w.text, end)
  }

  /**
   * FirstOrderRule.repairChildren over the window `v`, with the consumer
   * holding `before` when it starts; `previous` is the information the
   * statement was parsed with, which must be a first-order one.
   */
  function FirstOrderRepair(id: RuleId, parse: Oracle, repair: Oracle, modified: Statement -> bool, hooks: Hooks, prev: Previous,
                            previous: Info, occs: seq<Occurrence>, v: ArrayRange, before: seq<char>): Result<Replayed<ParsingResult>>
    requires WellBehaved(parse, v.index + v.length) && WellBehaved(repair, v.index + v.length) && v.length >= 0
  {
    if !previous.Chosen? then Err(ClassCast)
    else Settled(id, v.data, v.index, RepairAlternatives(parse, repair, modified, hooks, prev, previous.alternative, occs, 0,
                                                        Span(v.index, 0), v.index, before, v.index + v.length))
  }

  /** What a repaired choice makes of the rule, and the text the consumer holds after it. */
  function Settled(id: RuleId, data: seq<char>, start: int, c: Result<Replayed<Choice>>): (r: Result<Replayed<ParsingResult>>)
    ensures c.Err? ==> r == Err(c.error)
    ensures r.Ok? ==> c.Ok? && r.value.text == c.value.text
  {
    var c :- c;
    var r :- Settle(id, data, start, c.state);
    Ok(Replayed(r, c.text))
  }

  /** With no previous children, or no alternative chosen among these, the repair loop is the parse loop and replays nothing. */
  lemma {:induction false} RepairAlternativesAsParse(parse: Oracle, repair: Oracle, modified: Statement -> bool, hooks: Hooks,
                                                     prev: Previous, chosen: int, occs: seq<Occurrence>, k: nat, roi: Span,
                                                     start: int, text: seq<char>, end: int)
    requires k <= |occs| && WellBehaved(parse, end) && WellBehaved(repair, end) && start <= end
    requires prev == [] || !(k <= chosen < |occs|)
    ensures RepairAlternatives(parse, repair, modified, hooks, prev, chosen, occs, k, roi, start, text, end) ==
      Ok(Replayed(Alternatives(parse, occs, k, roi, start, end), text))
    decreases |occs| - k
  {
    if k < |occs| {
      var t := Repetitions(parse, k, occs[k], Tally(start, roi, [], 0), end);
      if !IsValid(occs[k], t.count) {
        RepairAlternativesAsParse(parse, repair, modified, hooks, prev, chosen, occs, k + 1, t.roi, start, text, end);
      }
    }
  }

  /** Repairing without previous children, or with a chosen alternative that is not among these, is parsing afresh. */
  lemma RepairAsParse(id: RuleId, parse: Oracle, repair: Oracle, modified: Statement -> bool, hooks: Hooks, prev: Previous,
                      previous: Info, occs: seq<Occurrence>, v: ArrayRange, before: seq<char>)
    requires WellBehaved(parse, v.index + v.length) && WellBehaved(repair, v.index + v.length) && v.length >= 0
    requires previous.Chosen? && (prev == [] || !(0 <= previous.alternative < |occs|))
    ensures var p := FirstOrderParse(id, parse, occs, v);
      FirstOrderRepair(id, parse, repair, modified, hooks, prev, previous, occs, v, before) ==
        if p.Err? then Err(p.error) else Ok(Replayed(p.value, before))
  {
    RepairAlternativesAsParse(parse, repair, modified, hooks, prev, previous.alternative, occs, 0, Span(v.index, 0),
                              v.index, before, v.index + v.length);
  }

  // ----- the source's loops -----

  /** The start of every alternative: the counter reset to its occurrence, the builder cleared, a fresh copy of the cursor. */
  method StartAlternative(occ: Occurrence, s: DocumentData, roi: DocumentRegion, result: Builder)
    returns (buf: DocumentData, counter: OccurrenceCounter)
    modifies result
    ensures fresh(buf) && fresh(counter) && counter.occurrence == occ && result.Valid()
    ensures buf.data == s.data && buf.length == s.length
    ensures Now(buf, roi, result, counter) == Tally(s.index, roi.Value(), [], 0)
  {
    counter := new OccurrenceCounter(occ);
    result.Clear();
    buf := new DocumentData.Copy(s);
  }

  /** One alternative in parseChildren: reset counter, cleared builder, fresh copy of the cursor, then the inner loop. */
  method TryAlternative(parse: Oracle, k: nat, occ: Occurrence, s: DocumentData, roi: DocumentRegion, result: Builder,
                        ghost end: int)
    returns (buf: DocumentData, counter: OccurrenceCounter)
    requires WellBehaved(parse, end) && end == s.index + s.length && s.length >= 0 && result.Valid()
    modifies roi, result
    ensures fresh(buf) && fresh(counter) && counter.occurrence == occ && result.Valid()
    ensures buf.data == s.data && buf.index + buf.length == end && buf.length >= 0
    ensures Tally(buf.index, roi.Value(), result.children, counter.count) ==
      Repetitions(parse, k, occ, Tally(s.index, old(roi.Value()), [], 0), end)
  {
    buf, counter := StartAlternative(occ, s, roi, result);
    ghost var t0 := Now(buf, roi, result, counter);
    Repeat(parse, k, buf, roi, result, counter);
    assert Now(buf, roi, result, counter) == Repetitions(parse, k, occ, t0, end);
  }

  /** One step of Alternatives, spelled out for the loop that follows it. */
  lemma AlternativesStep(parse: Oracle, occs: seq<Occurrence>, k: nat, roi: Span, start: int, end: int)
    requires k < |occs| && WellBehaved(parse, end) && start <= end
    ensures var t := Repetitions(parse, k, occs[k], Tally(start, roi, [], 0), end);
      Alternatives(parse, occs, k, roi, start, end) ==
        if IsValid(occs[k], t.count) then Picked(k, t) else Alternatives(parse, occs, k + 1, t.roi, start, end)
  {
  }

  /** The loop over the alternatives of parseChildren, proved against Alternatives; `s` does not move. */
  method TryAlternatives(parse: Oracle, occs: seq<Occurrence>, s: DocumentData, roi: DocumentRegion, result: Builder,
                         ghost end: int)
    returns (picked: bool, k: nat, buf: DocumentData?, counter: OccurrenceCounter?)
    requires WellBehaved(parse, end) && end == s.index + s.length && s.length >= 0 && result.Valid()
    modifies roi, result
    ensures result.Valid()
    ensures var c := Alternatives(parse, occs, 0, old(roi.Value()), s.index, end);
      && (picked <==> c.Picked?)
      && (!picked ==> c.roi == roi.Value())
      && (picked ==> buf != null && counter != null && fresh(buf) && c.k == k
                     && buf.data == s.data && buf.index + buf.length == end && buf.length >= 0
                     && c.t == Tally(buf.index, roi.Value(), result.children, counter.count))
  {
    ghost var target := Alternatives(parse, occs, 0, roi.Value(), s.index, end);
    k := 0;
    while k < |occs|
      invariant k <= |occs| && result.Valid()
      invariant Alternatives(parse, occs, k, roi.Value(), s.index, end) == target
    {
      AlternativesStep(parse, occs, k, roi.Value(), s.index, end);
      buf, counter := TryAlternative(parse, k, occs[k], s, roi, result, end);
      if counter.IsValidOccurrenceCount() {
        return true, k, buf, counter;
      }
      k := k + 1;
    }
    return false, k, null, null;
  }

  /** The picked alternative becomes the result: `s` catches up with its copy, and the builder builds the collection. */
  method TakePicked(id: RuleId, s: DocumentData, buf: DocumentData, start: int, result: Builder, k: nat,
                    roi: DocumentRegion, counter: OccurrenceCounter, ghost c: Choice)
    returns (r: Result<ParsingResult>)
    requires s != buf && result.Valid() && s.data == buf.data && s.index == start
    requires buf.index + buf.length == s.index + s.length && buf.length >= 0
    requires c == Picked(k, Tally(buf.index, roi.Value(), result.children, counter.count))
    modifies s
    ensures s.View() == buf.View()
    ensures r == Settle(id, s.data, start, c)
  {
    r := Conclude(id, s, buf, s.length, start, result, Chosen(id, roi.Value(), result.Infos(), k), roi.Value(), [counter.count]);
  }

  /**
   * FirstOrderRule.parseChildren: `s` moves past the picked alternative's
   * statements, and stays where it was when no alternative is valid.
   */
  method ParseChildren(id: RuleId, parse: Oracle, occs: seq<Occurrence>, s: DocumentData) returns (r: Result<ParsingResult>)
    requires WellBehaved(parse, s.index + s.length) && s.length >= 0 && s.index >= 0
    modifies s
    ensures r == FirstOrderParse(id, parse, occs, old(s.View()))
    ensures s.index + s.length == old(s.index + s.length)
    ensures r.Ok? && IsSucceeded(r.value) ==> s.index == old(s.index) + r.value.statement.value.position.length
    ensures r.Ok? && !IsSucceeded(r.value) ==> s.View() == old(s.View())
  {
    var result := new Builder();
    var start := s.DocumentOffset();
    var roi := new DocumentRegion();
    var _ := roi.SetOffset(start);
    ghost var c := Alternatives(parse, occs, 0, Span(start, 0), start, s.index + s.length);
    assert FirstOrderParse(id, parse, occs, s.View()) == Settle(id, s.data, start, c);
    var picked, k, buf, counter := TryAlternatives(parse, occs, s, roi, result, s.index + s.length);
    if !picked {
      return Ok(result.Fail(Plain(id, roi.Value())));
    }
    r := TakePicked(id, s, buf, start, result, k, roi, counter, c);
  }

  /**
   * The alternative chosen last time, in repairChildren: it starts like any
   * other, then walks the previous children (the walk is `w`) before its inner loop.
   */
  method TryChosenAlternative(parse: Oracle, repair: Oracle, modified: Statement -> bool, hooks: Hooks, prev: Previous, k: nat,
                              occ: Occurrence, s: DocumentData, roi: DocumentRegion, result: Builder, consumer: ValueConsumer?,
                              ghost end: int, ghost text: seq<char>, ghost w: Result<Walk>)
    returns (r: Outcome, buf: DocumentData, counter: OccurrenceCounter)
    requires WellBehaved(parse, end) && WellBehaved(repair, end) && end == s.index + s.length && s.length >= 0
    requires result.Valid() && hooks.sink == (consumer != null) && Rules.Holds(consumer, text)
    requires w == Reuse(repair, modified, hooks, prev, None, occ, 0, Tally(s.index, roi.Value(), [], 0), text, end)
    modifies roi, result, Rules.Sinks(consumer)
    ensures fresh(buf) && fresh(counter) && counter.occurrence == occ && buf.data == s.data
    ensures r.Fail? <==> w.Err?
    ensures r.Fail? ==> r.error == w.error
    ensures r.Pass? ==> result.Valid() && buf.index + buf.length == end && buf.length >= 0 && Rules.Holds(consumer, w.value.text)
    ensures r.Pass? ==> Tally(buf.index, roi.Value(), result.children, counter.count) == Repetitions(parse, k, occ, w.value.t, end)
    ensures consumer != null ==> consumer.buf == old(consumer.buf) || fresh(consumer.buf)
  {
    buf, counter := StartAlternative(occ, s, roi, result);
    var walked := WalkThenRepeat(parse, repair, modified, hooks, prev, None, k, 0, buf, roi, result, counter, consumer, end, text);
    r := if walked.Err? then Fail(walked.error) else Pass;
  }

  /** One step of RepairAlternatives, spelled out for the loop that follows it. */
  lemma RepairAlternativesStep(parse: Oracle, repair: Oracle, modified: Statement -> bool, hooks: Hooks, prev: Previous, chosen: int,
                               occs: seq<Occurrence>, k: nat, roi: Span, start: int, text: seq<char>, end: int)
    requires k < |occs| && WellBehaved(parse, end) && WellBehaved(repair, end) && start <= end
    ensures var t0 := Tally(start, roi, [], 0);
      var w := if k == chosen then Reuse(repair, modified, hooks, prev, None, occs[k], 0, t0, text, end) else Ok(Walk(0, t0, text));
      RepairAlternatives(parse, repair, modified, hooks, prev, chosen, occs, k, roi, start, text, end) ==
        if w.Err? then Err(w.error)
        else
          var t := Repetitions(parse, k, occs[k], w.value.t, end);
          if IsValid(occs[k], t.count) then Ok(Replayed(Picked(k, t), w.value.text))
          else RepairAlternatives(parse, repair, modified, hooks, prev, chosen, occs, k + 1, t.roi, start, w.value.text, end)
  {
  }

  /** The loop over the alternatives of repairChildren, proved against RepairAlternatives; `s` does not move. */
  method TryRepairAlternatives(parse: Oracle, repair: Oracle, modified: Statement -> bool, hooks: Hooks, prev: Previous, chosen: int,
                               occs: seq<Occurrence>, s: DocumentData, roi: DocumentRegion, result: Builder,
                               consumer: ValueConsumer?, ghost end: int, ghost before: seq<char>)
    returns (r: Result<bool>, k: nat, buf: DocumentData?, counter: OccurrenceCounter?)
    requires WellBehaved(parse, end) && WellBehaved(repair, end) && end == s.index + s.length && s.length >= 0
    requires result.Valid() && hooks.sink == (consumer != null) && Rules.Holds(consumer, before)
    modifies roi, result, Rules.Sinks(consumer)
    ensures var c := RepairAlternatives(parse, repair, modified, hooks, prev, chosen, occs, 0, old(roi.Value()), s.index, before, end);
      && (r.Err? <==> c.Err?) && (r.Err? ==> r.error == c.error)
      && (r.Ok? ==> result.Valid() && (r.value <==> c.value.state.Picked?) && Rules.Holds(consumer, c.value.text))
      && (r.Ok? && !r.value ==> c.value.state.roi == roi.Value())
      && (r.Ok? && r.value ==> buf != null && counter != null && fresh(buf) && c.value.state.k == k
                               && buf.data == s.data && buf.index + buf.length == end && buf.length >= 0
                               && c.value.state.t == Tally(buf.index, roi.Value(), result.children, counter.count))
    ensures consumer != null ==> consumer.buf == old(consumer.buf) || fresh(consumer.buf)
  {
    ghost var target := RepairAlternatives(parse, repair, modified, hooks, prev, chosen, occs, 0, roi.Value(), s.index, before, end);
    ghost var text := before;
    k := 0;
    while k < |occs|
      invariant k <= |occs| && result.Valid() && Rules.Holds(consumer, text)
      invariant consumer != null ==> consumer.buf == old(consumer.buf) || fresh(consumer.buf)
      invariant RepairAlternatives(parse, repair, modified, hooks, prev, chosen, occs, k, roi.Value(), s.index, text, end) == target
    {
      RepairAlternativesStep(parse, repair, modified, hooks, prev, chosen, occs, k, roi.Value(), s.index, text, end);
      if k == chosen {
        ghost var w := Reuse(repair, modified, hooks, prev, None, occs[k], 0, Tally(s.index, roi.Value(), [], 0), text, end);
        var tried;
        tried, buf, counter := TryChosenAlternative(parse, repair, modified, hooks, prev, k, occs[k], s, roi, result, consumer,
                                                    end, text, w);
        if tried.Fail? {
          return Err(tried.error), k, null, null;
        }
        text := w.value.text;
      } else {
        buf, counter := TryAlternative(parse, k, occs[k], s, roi, result, end);
      }
      if counter.IsValidOccurrenceCount() {
        return Ok(true), k, buf, counter;
      }
      k := k + 1;
    }
    return Ok(false), k, null, null;
  }

  /** The end of repairChildren: the outcome of the alternatives `c` made into the rule's result. */
  method TakeRepaired(id: RuleId, s: DocumentData, start: int, result: Builder, roi: DocumentRegion, picked: Result<bool>, k: nat,
                      buf: DocumentData?, counter: OccurrenceCounter?, ghost c: Result<Replayed<Choice>>,
                      ghost consumer: ValueConsumer?)
    returns (r: Result<ParsingResult>)
    requires s.index == start
    requires (picked.Err? <==> c.Err?) && (picked.Err? ==> picked.error == c.error)
    requires picked.Ok? ==> Rules.Holds(consumer, c.value.text)
    requires picked.Ok? ==> result.Valid() && (picked.value <==> c.value.state.Picked?)
    requires picked.Ok? && !picked.value ==> c.value.state.roi == roi.Value()
    requires picked.Ok? && picked.value ==>
      && buf != null && counter != null && buf != s && c.value.state.k == k
      && buf.data == s.data && buf.index + buf.length == s.index + s.length && buf.length >= 0
      && c.value.state.t == Tally(buf.index, roi.Value(), result.children, counter.count)
    modifies s
    ensures var e := Settled(id, s.data, start, c);
      && (r.Err? <==> e.Err?) && (r.Err? ==> r.error == e.error)
      && (r.Ok? ==> r.value == e.value.state && Rules.Holds(consumer, e.value.text))
    ensures s.index + s.length == old(s.index + s.length)
    ensures r.Ok? && IsSucceeded(r.value) ==> s.index == old(s.index) + r.value.statement.value.position.length
    ensures r.Ok? && !IsSucceeded(r.value) ==> s.View() == old(s.View())
  {
    if picked.Err? {
      return Err(picked.error);
    }
    if !picked.value {
      return Ok(result.Fail(Plain(id, roi.Value())));
    }
    r := TakePicked(id, s, buf, start, result, k, roi, counter, c.value.state);
  }

  /**
   * FirstOrderRule.repairChildren: `s` moves past the picked alternative's
   * statements, and stays where it was when no alternative is valid; the
   * value consumer of the rule context holds `before` when it starts and
   * receives what the hooks of the reused children replay.
   */
  method RepairChildren(id: RuleId, parse: Oracle, repair: Oracle, modified: Statement -> bool, hooks: Hooks, prev: Previous,
                        previous: Info, occs: seq<Occurrence>, s: DocumentData, consumer: ValueConsumer?, ghost before: seq<char>)
    returns (r: Result<ParsingResult>)
    requires WellBehaved(parse, s.index + s.length) && WellBehaved(repair, s.index + s.length)
    requires s.length >= 0 && s.index >= 0
    requires hooks.sink == (consumer != null) && Rules.Holds(consumer, before)
    modifies s, Rules.Sinks(consumer)
    ensures var e := FirstOrderRepair(id, parse, repair, modified, hooks, prev, previous, occs, old(s.View()), before);
      && (r.Err? <==> e.Err?) && (r.Err? ==> r.error == e.error)
      && (r.Ok? ==> r.value == e.value.state && Rules.Holds(consumer, e.value.text))
    ensures s.index + s.length == old(s.index + s.length)
    ensures r.Ok? && IsSucceeded(r.value) ==> s.index == old(s.index) + r.value.statement.value.position.length
    ensures r.Ok? && !IsSucceeded(r.value) ==> s.View() == old(s.View())
  {
    if !previous.Chosen? {
      return Err(ClassCast);
    }
    r := RepairChosen(id, parse, repair, modified, hooks, prev, previous.alternative, occs, s, consumer, before);
  }

  /** The body of repairChildren once the previous information is known to name the alternative chosen. */
  method RepairChosen(id: RuleId, parse: Oracle, repair: Oracle, modified: Statement -> bool, hooks: Hooks, prev: Previous,
                      chosen: int, occs: seq<Occurrence>, s: DocumentData, consumer: ValueConsumer?, ghost before: seq<char>)
    returns (r: Result<ParsingResult>)
    requires WellBehaved(parse, s.index + s.length) && WellBehaved(repair, s.index + s.length)
    requires s.length >= 0 && s.index >= 0
    requires hooks.sink == (consumer != null) && Rules.Holds(consumer, before)
    modifies s, Rules.Sinks(consumer)
    ensures var e := Settled(id, s.data, old(s.index), RepairAlternatives(parse, repair, modified, hooks, prev, chosen, occs, 0,
                                                                         Span(old(s.index), 0), old(s.index), before,
                                                                         old(s.index + s.length)));
      && (r.Err? <==> e.Err?) && (r.Err? ==> r.error == e.error)
      && (r.Ok? ==> r.value == e.value.state && Rules.Holds(consumer, e.value.text))
    ensures s.index + s.length == old(s.index + s.length)
    ensures r.Ok? && IsSucceeded(r.value) ==> s.index == old(s.index) + r.value.statement.value.position.length
    ensures r.Ok? && !IsSucceeded(r.value) ==> s.View() == old(s.View())
  {
    var result := new Builder();
    var start := s.DocumentOffset();
    var roi := new DocumentRegion();
    var _ := roi.SetOffset(start);
    ghost var roi0 := roi.Value();
    assert roi0 == Span(start, 0);
    ghost var c := RepairAlternatives(parse, repair, modified, hooks, prev, chosen, occs, 0, roi0,
                                      start, before, s.index + s.length);
    ghost var e := Settled(id, s.data, start, c);
    assert e == Settled(id, s.data, old(s.index), RepairAlternatives(parse, repair, modified, hooks, prev, chosen, occs, 0,
                                                                     Span(old(s.index), 0), old(s.index), before,
                                                                     old(s.index + s.length)));
    var picked, k, buf, counter := TryRepairAlternatives(parse, repair, modified, hooks, prev, chosen, occs,
                                                         s, roi, result, consumer, s.index + s.length, before);
    r := TakeRepaired(id, s, start, result, roi, picked, k, buf, counter, c, consumer);
    assert r.Ok? ==> r.value == e.value.state && Rules.Holds(consumer, e.value.text);
  }
}
