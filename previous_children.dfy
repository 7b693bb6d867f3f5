/**
 * What the container rules' repairChildren share: the walk over the previous
 * children of the statement being repaired. A previous child that sits at the
 * cursor, unmodified, is reused as it is (Rule.repairAndAdjustDocument: the
 * cursor moves past it); any other is handed to its rule's repairStatement.
 */
module PreviousChildren {
  import opened Wrappers
  import opened Regions
  import opened Occurrences
  import opened Counters
  import opened CharSequences
  import opened Statements
  import opened Containers
  import opened Values
  import Rules

  /** Whether the walk takes a previous child: every child, or only those parsed by one rule. */
  predicate Takes(only: Option<RuleId>, info: Info) {
    only.None? || info.rule == only.value
  }

  /** The previous children: each statement with the information it was parsed with. */
  type Previous = seq<(Statement, Info)>

  /**
   * Where the walk over the previous children stands: the next one to look at,
   * the container state, and the text the skipped hooks of the reused children
   * replayed into the value consumer.
   */
  datatype Walk = Walk(next: nat, t: Tally, text: seq<char>)

  /** A container's outcome together with the value consumer's text after it. */
  datatype Replayed<T> = Replayed(state: T, text: seq<char>)

  /** The skipped hook of every rule, and whether the context has a value consumer for them to append to. */
  datatype Hooks = Hooks(kinds: RuleId -> Rules.Kind, sink: bool)

  /** repairAndAdjustDocument on a reused child with `remaining` characters left: the child's rule's hook, then the cursor moved past it. */
  function Adjust(hooks: Hooks, stm: Statement, info: Info, remaining: int): Rules.Step {
    Rules.Reuse(hooks.kinds, info.rule, ParsingResult(Some(stm), info), remaining, hooks.sink)
  }

  /**
   * The tally after one repaired statement: a failure adds nothing; a success
   * that consumed nothing adds the copies the count still requires when it is
   * not valid yet; any other success is added and counted.
   */
  function Absorb(occ: Occurrence, t: Tally, a: Attempt): (r: Tally)
    ensures r.roi == t.roi
    ensures !IsSucceeded(a.result) ==> r == t
  {
    if !IsSucceeded(a.result) then t
    else if a.consumed == 0 then
      if IsValid(occ, t.count) then t
      else
        var added := RequiredMore(occ, t.count);
        Tally(t.offset, t.roi, t.results + Copies(a.result, added), t.count + added)
    else Tally(t.offset + a.consumed, t.roi, t.results + [a.result], t.count + 1)
  }

  /**
   * The walk over the previous children, from the `j`-th and while they are taken (all of them, or
   * those of the rule `only` names): each one is
   * reused when it starts at the cursor and is not modified, and repaired
   * otherwise. A reused child goes through repairAndAdjustDocument (its
   * rule's skipped hook, whose exception ends the walk, then the cursor moved
   * past it, an error when it reaches past the document), and it must lie
   * inside its own region of interest. `repair` stands for the child's
   * repairStatement, keyed by the previous child and the offset; `text` is what
   * the hooks replayed so far.
   */
  function Reuse(repair: Oracle, modified: Statement -> bool, hooks: Hooks, prev: Previous, only: Option<RuleId>,
                 occ: Occurrence, j: nat, t: Tally, text: seq<char>, end: int): (r: Result<Walk>)
    requires WellBehaved(repair, end) && t.offset <= end && j <= |prev|
    ensures r.Ok? ==> j <= r.value.next <= |prev| && r.value.t.offset <= end
    ensures r.Ok? ==> r.value.next == |prev| || !Takes(only, prev[r.value.next].1)
    decreases |prev| - j
  {
    if j == |prev| || !Takes(only, prev[j].1) then Ok(Walk(j, t, text))
    else
      var stm := prev[j].0;
      var info := prev[j].1;
      if t.offset != stm.position.offset || modified(stm) then
        var a := repair(j, t.offset);
        Reuse(repair, modified, hooks, prev, only, occ, j + 1, Absorb(occ, t, a).(roi := Hull(t.roi, a.result.info.roi)), text, end)
      else
        var step := Adjust(hooks, stm, info, end - t.offset);
        if step.outcome.Err? then Err(step.outcome.error)
        else if !Inside(info.roi, stm.position) then Err(IllegalState)
        else
          var next := Tally(t.offset + stm.position.length, Hull(t.roi, info.roi),
                            t.results + [ParsingResult(Some(stm), info)], t.count + 1);
          Reuse(repair, modified, hooks, prev, only, occ, j + 1, next, text + step.text, end)
  }

  /**
   * Previous children `j` to `n`, all taken, lie back to back from `offset`, are
   * unmodified, fit in the document, are inside their regions of interest and
   * fit the information their hooks replay them with.
   */
  predicate Reusable(modified: Statement -> bool, hooks: Hooks, prev: Previous, only: Option<RuleId>, j: nat, n: nat,
                     offset: int, end: int)
    requires j <= n <= |prev|
    decreases n - j
  {
    j == n ||
    (var stm := prev[j].0;
     && Takes(only, prev[j].1) && !modified(stm)
     && stm.position.offset == offset && 0 <= stm.position.length <= end - offset
     && Inside(prev[j].1.roi, stm.position)
     && Rules.Fits(hooks.kinds, prev[j].1.rule, stm, prev[j].1, hooks.sink)
     && Reusable(modified, hooks, prev, only, j + 1, n, offset + stm.position.length, end))
  }

  /** repairAndAdjustDocument on a child that fits its information and the document: it goes through, with the hook's text. */
  lemma AdjustFitting(hooks: Hooks, stm: Statement, info: Info, remaining: int)
    requires Rules.Fits(hooks.kinds, info.rule, stm, info, hooks.sink) && stm.position.length <= remaining
    ensures Adjust(hooks, stm, info, remaining).outcome == Ok(Attempt(ParsingResult(Some(stm), info), stm.position.length))
    ensures Adjust(hooks, stm, info, remaining).text == Rules.Skipped(hooks.kinds, info.rule, stm, info, hooks.sink).text
  {
    Rules.SkippedGoesThroughIffFits(hooks.kinds, info.rule, stm, info, hooks.sink);
  }

  /** One reused child in the walk: it fits, so the walk goes on past it with its hook's text. */
  lemma ReuseFitting(repair: Oracle, modified: Statement -> bool, hooks: Hooks, prev: Previous, only: Option<RuleId>,
                     occ: Occurrence, j: nat, t: Tally, text: seq<char>, end: int)
    requires WellBehaved(repair, end) && t.offset <= end && j < |prev|
    requires Reusable(modified, hooks, prev, only, j, j + 1, t.offset, end)
    ensures var stm, info := prev[j].0, prev[j].1;
      var next := Tally(t.offset + stm.position.length, Hull(t.roi, info.roi),
                        t.results + [ParsingResult(Some(stm), info)], t.count + 1);
      Reuse(repair, modified, hooks, prev, only, occ, j, t, text, end) ==
        Reuse(repair, modified, hooks, prev, only, occ, j + 1, next,
              text + Rules.Skipped(hooks.kinds, info.rule, stm, info, hooks.sink).text, end)
  {
    AdjustFitting(hooks, prev[j].0, prev[j].1, end - t.offset);
  }

  /** What the hooks of previous children `j` to `n` replay, one after the other. */
  function HookTexts(hooks: Hooks, prev: Previous, j: nat, n: nat): seq<char>
    requires j <= n <= |prev|
    decreases n - j
  {
    if j == n then []
    else Rules.Skipped(hooks.kinds, prev[j].1.rule, prev[j].0, prev[j].1, hooks.sink).text + HookTexts(hooks, prev, j + 1, n)
  }

  /** Where the cursor stands after the previous children `j` to `n`, taken back to back from `offset`. */
  function After(prev: Previous, j: nat, n: nat, offset: int): int
    requires j <= n <= |prev|
    decreases n - j
  {
    if j == n then offset else After(prev, j + 1, n, offset + prev[j].0.position.length)
  }

  /** The previous children `j` to `n` as successful results. */
  function AsResults(prev: Previous, j: nat, n: nat): (r: seq<ParsingResult>)
    requires j <= n <= |prev|
    ensures |r| == n - j
    decreases n - j
  {
    if j == n then [] else [ParsingResult(Some(prev[j].0), prev[j].1)] + AsResults(prev, j + 1, n)
  }

  /**
   * Unmodified previous children that still sit back to back at the cursor are
   * reused as they are: the walk takes each of them, in order, as one more
   * occurrence, and moves the cursor past all of them.
   */
  lemma {:induction false} ReuseTakesUnmodified(repair: Oracle, modified: Statement -> bool, hooks: Hooks, prev: Previous,
                                                only: Option<RuleId>, occ: Occurrence, j: nat, n: nat, t: Tally,
                                                text: seq<char>, end: int)
    requires WellBehaved(repair, end) && t.offset <= end && j <= n <= |prev|
    requires Reusable(modified, hooks, prev, only, j, n, t.offset, end)
    requires n == |prev| || !Takes(only, prev[n].1)
    ensures var r := Reuse(repair, modified, hooks, prev, only, occ, j, t, text, end);
      && r.Ok? && r.value.next == n
      && r.value.t.offset == After(prev, j, n, t.offset)
      && r.value.t.results == t.results + AsResults(prev, j, n)
      && r.value.t.count == t.count + (n - j)
    decreases n - j
  {
    if j < n {
      var stm := prev[j].0;
      var info := prev[j].1;
      var next := Tally(t.offset + stm.position.length, Hull(t.roi, info.roi),
                        t.results + [ParsingResult(Some(stm), info)], t.count + 1);
      ReuseFitting(repair, modified, hooks, prev, only, occ, j, t, text, end);
      var h := Rules.Skipped(hooks.kinds, info.rule, stm, info, hooks.sink);
      ReuseTakesUnmodified(repair, modified, hooks, prev, only, occ, j + 1, n, next, text + h.text, end);
      assert t.results + AsResults(prev, j, n) == next.results + AsResults(prev, j + 1, n);
    }
  }

  /** The reused children's values are replayed into the consumer, one after the other, in their order. */
  lemma {:induction false} ReuseReplaysHooks(repair: Oracle, modified: Statement -> bool, hooks: Hooks, prev: Previous,
                                             only: Option<RuleId>, occ: Occurrence, j: nat, n: nat, t: Tally,
                                             text: seq<char>, end: int)
    requires WellBehaved(repair, end) && t.offset <= end && j <= n <= |prev|
    requires Reusable(modified, hooks, prev, only, j, n, t.offset, end)
    requires n == |prev| || !Takes(only, prev[n].1)
    ensures var r := Reuse(repair, modified, hooks, prev, only, occ, j, t, text, end);
      r.Ok? && r.value.text == text + HookTexts(hooks, prev, j, n)
    decreases n - j
  {
    if j < n {
      var stm := prev[j].0;
      var info := prev[j].1;
      var next := Tally(t.offset + stm.position.length, Hull(t.roi, info.roi),
                        t.results + [ParsingResult(Some(stm), info)], t.count + 1);
      ReuseFitting(repair, modified, hooks, prev, only, occ, j, t, text, end);
      var h := Rules.Skipped(hooks.kinds, info.rule, stm, info, hooks.sink);
      ReuseReplaysHooks(repair, modified, hooks, prev, only, occ, j + 1, n, next, text + h.text, end);
      assert text + HookTexts(hooks, prev, j, n) == (text + h.text) + HookTexts(hooks, prev, j + 1, n);
    }
  }

  /** A previous child handed to its rule's repairStatement, and the result taken in as the source does. */
  method RepairPrevious(repair: Oracle, j: nat, buf: DocumentData, roi: DocumentRegion, result: Builder,
                        counter: OccurrenceCounter, ghost end: int)
    requires WellBehaved(repair, end) && end == buf.index + buf.length && buf.length >= 0 && result.Valid()
    modifies buf, roi, result, counter
    ensures counter.occurrence == old(counter.occurrence) && result.Valid()
    ensures end == buf.index + buf.length && buf.length >= 0
    ensures var a := repair(j, old(buf.index));
      Now(buf, roi, result, counter) ==
        Absorb(counter.occurrence, old(Now(buf, roi, result, counter)), a).(roi := Hull(old(roi.Value()), a.result.info.roi))
  {
    var buflen := buf.length;
    var repaired := ParseChild(repair, j, buf);
    if IsSucceeded(repaired) {
      if buflen == buf.length {
        if !counter.IsValidOccurrenceCount() {
          AddRequiredCopies(counter, result, repaired);
        }
      } else {
        result.Add(repaired);
        counter.AddOccurrence();
      }
    }
    roi.ExpandTo(repaired.info.roi.offset, repaired.info.roi.length);
  }

  /**
   * An unmodified previous child at the cursor taken over as it is: counted,
   * passed through repairAndAdjustDocument (its rule's hook replays it into the
   * consumer, then the cursor moves past it), and added with its information.
   */
  method ReusePrevious(hooks: Hooks, stm: Statement, info: Info, buf: DocumentData, roi: DocumentRegion, result: Builder,
                       counter: OccurrenceCounter, consumer: ValueConsumer?, ghost end: int, ghost step: Rules.Step,
                       ghost before: seq<char>)
    returns (r: Outcome)
    requires end == buf.index + buf.length && buf.length >= 0 && result.Valid()
    requires hooks.sink == (consumer != null) && Rules.Holds(consumer, before)
    requires step == Adjust(hooks, stm, info, end - buf.index)
    modifies buf, roi, result, counter, Rules.Sinks(consumer)
    ensures counter.occurrence == old(counter.occurrence)
    ensures r.Fail? <==> step.outcome.Err? || !Inside(info.roi, stm.position)
    ensures r.Fail? ==> r.error == if step.outcome.Err? then step.outcome.error else IllegalState
    ensures r.Pass? ==> result.Valid() && end == buf.index + buf.length && buf.length >= 0
    ensures r.Pass? ==>
      Now(buf, roi, result, counter) ==
        Tally(old(buf.index) + stm.position.length, Hull(old(roi.Value()), info.roi),
              old(result.children) + [ParsingResult(Some(stm), info)], old(counter.count) + 1)
    ensures r.Pass? ==> Rules.Holds(consumer, before + step.text)
    ensures consumer != null ==> consumer.buf == old(consumer.buf) || fresh(consumer.buf)
  {
    counter.AddOccurrence();
    var adjusted := Rules.RepairAndAdjustDocument(hooks.kinds, info.rule, stm, info, buf, consumer, step, before);
    if adjusted.Fail? {
      return adjusted;
    }
    var reused := NewResult(Some(stm), info);
    if reused.Err? {
      return Fail(reused.error);
    }
    result.Add(reused.value);
    roi.ExpandTo(info.roi.offset, info.roi.length);
    return Pass;
  }

  /**
   * The walk over the previous children, proved against Reuse; the consumer
   * holds `before` when it starts and the walk's text when it ends.
   */
  method ReuseChildren(repair: Oracle, modified: Statement -> bool, hooks: Hooks, prev: Previous, only: Option<RuleId>, j0: nat,
                       buf: DocumentData, roi: DocumentRegion, result: Builder, counter: OccurrenceCounter,
                       consumer: ValueConsumer?, ghost end: int, ghost before: seq<char>)
    returns (r: Result<nat>)
    requires WellBehaved(repair, end) && end == buf.index + buf.length && buf.length >= 0 && result.Valid() && j0 <= |prev|
    requires hooks.sink == (consumer != null) && Rules.Holds(consumer, before)
    modifies buf, roi, result, counter, Rules.Sinks(consumer)
    ensures counter.occurrence == old(counter.occurrence)
    ensures var w := Reuse(repair, modified, hooks, prev, only, counter.occurrence, j0, old(Now(buf, roi, result, counter)), before, end);
      && (r.Err? <==> w.Err?) && (r.Err? ==> r.error == w.error)
      && (r.Ok? ==> r.value == w.value.next && Now(buf, roi, result, counter) == w.value.t && Rules.Holds(consumer, w.value.text))
    ensures r.Ok? ==> result.Valid() && end == buf.index + buf.length && buf.length >= 0
    ensures consumer != null ==> consumer.buf == old(consumer.buf) || fresh(consumer.buf)
  {
    ghost var target := Reuse(repair, modified, hooks, prev, only, counter.occurrence, j0, Now(buf, roi, result, counter), before, end);
    ghost var text := before;
    var j := j0;
    while j < |prev| && Takes(only, prev[j].1)
      invariant j <= |prev| && end == buf.index + buf.length && buf.length >= 0 && result.Valid()
      invariant counter.occurrence == old(counter.occurrence)
      invariant Rules.Holds(consumer, text)
      invariant consumer != null ==> consumer.buf == old(consumer.buf) || fresh(consumer.buf)
      invariant Reuse(repair, modified, hooks, prev, only, counter.occurrence, j, Now(buf, roi, result, counter), text, end) == target
      decreases |prev| - j
    {
      var visited;
      visited, text := VisitPrevious(repair, modified, hooks, prev, only, j, buf, roi, result, counter, consumer, end, text,
                                     Now(buf, roi, result, counter));
      if visited.Fail? {
        return Err(visited.error);
      }
      j := j + 1;
    }
    return Ok(j);
  }

  /**
   * A child rule in repair: the walk over its previous statements, then its
   * parsing loop from where the walk left the cursor.
   */
  method WalkThenRepeat(parse: Oracle, repair: Oracle, modified: Statement -> bool, hooks: Hooks, prev: Previous,
                        only: Option<RuleId>, k: nat, j: nat, buf: DocumentData, roi: DocumentRegion, result: Builder,
                        counter: OccurrenceCounter, consumer: ValueConsumer?, ghost end: int, ghost text: seq<char>)
    returns (r: Result<nat>)
    requires WellBehaved(parse, end) && WellBehaved(repair, end) && end == buf.index + buf.length && buf.length >= 0
    requires result.Valid() && j <= |prev|
    requires hooks.sink == (consumer != null) && Rules.Holds(consumer, text)
    modifies buf, roi, result, counter, Rules.Sinks(consumer)
    ensures counter.occurrence == old(counter.occurrence)
    ensures var w := Reuse(repair, modified, hooks, prev, only, counter.occurrence, j, old(Now(buf, roi, result, counter)), text, end);
      && (r.Err? <==> w.Err?) && (r.Err? ==> r.error == w.error)
      && (r.Ok? ==> r.value == w.value.next && Rules.Holds(consumer, w.value.text)
                    && Now(buf, roi, result, counter) == Repetitions(parse, k, counter.occurrence, w.value.t, end))
    ensures r.Ok? ==> result.Valid() && end == buf.index + buf.length && buf.length >= 0
    ensures consumer != null ==> consumer.buf == old(consumer.buf) || fresh(consumer.buf)
  {
    r := ReuseChildren(repair, modified, hooks, prev, only, j, buf, roi, result, counter, consumer, end, text);
    if r.Err? {
      return;
    }
    Repeat(parse, k, buf, roi, result, counter);
  }

  /**
   * One previous child in the walk, from the state `t` the objects hold: it is
   * repaired or reused, and the walk from the next child on comes to what the
   * walk from this one came to.
   */
  method VisitPrevious(repair: Oracle, modified: Statement -> bool, hooks: Hooks, prev: Previous, only: Option<RuleId>, j: nat,
                       buf: DocumentData, roi: DocumentRegion, result: Builder, counter: OccurrenceCounter,
                       consumer: ValueConsumer?, ghost end: int, ghost text: seq<char>, ghost t: Tally)
    returns (r: Outcome, ghost text': seq<char>)
    requires WellBehaved(repair, end) && end == buf.index + buf.length && buf.length >= 0 && result.Valid()
    requires j < |prev| && Takes(only, prev[j].1)
    requires hooks.sink == (consumer != null) && Rules.Holds(consumer, text)
    requires t == Now(buf, roi, result, counter)
    modifies buf, roi, result, counter, Rules.Sinks(consumer)
    ensures counter.occurrence == old(counter.occurrence)
    ensures r.Pass? ==> end == buf.index + buf.length && buf.length >= 0 && result.Valid() && Rules.Holds(consumer, text')
    ensures var w := Reuse(repair, modified, hooks, prev, only, counter.occurrence, j, t, text, end);
      && (r.Fail? ==> w == Err(r.error))
      && (r.Pass? ==> w == Reuse(repair, modified, hooks, prev, only, counter.occurrence, j + 1, Now(buf, roi, result, counter), text', end))
    ensures consumer != null ==> consumer.buf == old(consumer.buf) || fresh(consumer.buf)
  {
    var stm := prev[j].0;
    text' := text;
    if buf.DocumentOffset() != stm.position.offset || modified(stm) {
      RepairPrevious(repair, j, buf, roi, result, counter, end);
      return Pass, text';
    }
    ghost var step := Adjust(hooks, stm, prev[j].1, end - buf.index);
    r := ReusePrevious(hooks, stm, prev[j].1, buf, roi, result, counter, consumer, end, step, text);
    if r.Pass? {
      text' := text + step.text;
    }
  }
}
