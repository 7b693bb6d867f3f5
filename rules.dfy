/**
 * Rule: the wrapper every rule's parse and repair go through (cancellation,
 * the memo of earlier results, consuming the input only on success), the
 * hook that replays a reused statement into the current value consumer, the
 * rollback of that consumer around a container's attempt, and the name under
 * which an invoked rule's arguments are bound.
 *
 * A rule is referred to by its id (rules compare by identity), and what a
 * rule does in its parseStatementImpl or repairStatementImpl is a parameter:
 * a function of the context and the input window giving its result, how far
 * it moved its cursor and what text it appended to the value consumer.
 */
module Rules {
  import opened Wrappers
  import opened Regions
  import opened CharSequences
  import opened Statements
  import opened Contexts
  import opened Containers
  import opened Values
  import opened OccurrenceText

  /** Which repairStatementSkippedImpl a rule has: the container walk, the match replay, or the inherited no-op. */
  datatype Kind = Container | ValueKind | Matches | Invoke | Skip

  /** What a rule's implementation does to the window it is given. */
  datatype Effect = Effect(result: ParsingResult, moved: int, text: seq<char>)

  type Body = (Context, ArrayRange) -> Effect

  // ----- the skipped hook -----

  /** The text a skipped hook appends, and the exception that ended it, if any. */
  datatype Trail = Trail(text: seq<char>, error: Option<Exception>)

  /** getValueSequence: a leaf's or a value statement's value, the empty text for a collection. */
  function ValueSequence(st: Statement): (v: ArrayRange)
    ensures st.Collection? ==> v.length == 0
    ensures !st.Collection? ==> v == st.value
  {
    match st
    case Consumed(_, value) => value
    case Valued(_, _, value, _) => value
    case Collection(_, _, _) => ArrayRange([], 0, 0)
  }

  /**
   * repairStatementSkipped of `rule` on a reused statement, with (`sink`) or
   * without a current value consumer. A container casts the information to a
   * collection's, then hands each child statement, with the information at
   * the same index, to that information's rule; a match appends its value to
   * the consumer; every other rule does nothing.
   */
  function Skipped(kinds: RuleId -> Kind, rule: RuleId, st: Statement, info: Info, sink: bool): Trail
    decreases st, 1
  {
    match kinds(rule)
    case Container =>
      if !(info.Listing? || info.Chosen?) then Trail([], Some(ClassCast))
      else SkippedChildren(kinds, st, InfoChildren(info), sink, 0)
    case Matches =>
      var v := ValueSequence(st);
      if !sink || v.length == 0 then Trail([], None)
      else if !v.WellFormed() then Trail([], Some(IndexOutOfBounds))
      else Trail(v.Chars(), None)
    case _ => Trail([], None)
  }

  /** The children of `st` from index `i` on, against `infos`; running out of information is a NoSuchElementException. */
  function SkippedChildren(kinds: RuleId -> Kind, st: Statement, infos: seq<Info>, sink: bool, i: nat): Trail
    decreases st, 0, |DirectChildren(st)| - i
  {
    var children := DirectChildren(st);
    if i >= |children| then Trail([], None)
    else if i >= |infos| then Trail([], Some(NoSuchElement))
    else
      assert children[i] in children;
      var h := Skipped(kinds, infos[i].rule, children[i], infos[i], sink);
      if h.error.Some? then h
      else Prepend(h.text, SkippedChildren(kinds, st, infos, sink, i + 1))
  }

  function Prepend(text: seq<char>, t: Trail): Trail {
    Trail(text + t.text, t.error)
  }

  lemma PrependTwice(a: seq<char>, b: seq<char>, t: Trail)
    ensures Prepend(a, Prepend(b, t)) == Prepend(a + b, t)
  {
    assert a + (b + t.text) == (a + b) + t.text;
  }

  /**
   * When the hook goes through: a container needs a collection's information
   * holding at least as many entries as the statement has children, each
   * child fitting its own entry; a match needs a readable value when there
   * is a consumer to append it to.
   */
  predicate Fits(kinds: RuleId -> Kind, rule: RuleId, st: Statement, info: Info, sink: bool)
    decreases st
  {
    match kinds(rule)
    case Container =>
      && (info.Listing? || info.Chosen?)
      && |DirectChildren(st)| <= |InfoChildren(info)|
      && forall i :: 0 <= i < |DirectChildren(st)| ==>
           Fits(kinds, InfoChildren(info)[i].rule, DirectChildren(st)[i], InfoChildren(info)[i], sink)
    case Matches => sink ==> ValueSequence(st).length == 0 || ValueSequence(st).WellFormed()
    case _ => true
  }

  /** The hook goes through exactly when the statement fits the information it is replayed with. */
  lemma {:induction false} SkippedGoesThroughIffFits(kinds: RuleId -> Kind, rule: RuleId, st: Statement, info: Info, sink: bool)
    ensures Skipped(kinds, rule, st, info, sink).error.None? <==> Fits(kinds, rule, st, info, sink)
    decreases st, 1
  {
    if kinds(rule).Container? && (info.Listing? || info.Chosen?) {
      SkippedChildrenGoThrough(kinds, st, InfoChildren(info), sink, 0);
    }
  }

  lemma {:induction false} SkippedChildrenGoThrough(kinds: RuleId -> Kind, st: Statement, infos: seq<Info>, sink: bool, i: nat)
    ensures SkippedChildren(kinds, st, infos, sink, i).error.None? <==>
      && (i >= |DirectChildren(st)| || |DirectChildren(st)| <= |infos|)
      && forall j :: i <= j < |DirectChildren(st)| && j < |infos| ==> Fits(kinds, infos[j].rule, DirectChildren(st)[j], infos[j], sink)
    decreases st, 0, |DirectChildren(st)| - i
  {
    var children := DirectChildren(st);
    if i < |children| && i < |infos| {
      assert children[i] in children;
      SkippedGoesThroughIffFits(kinds, infos[i].rule, children[i], infos[i], sink);
      SkippedChildrenGoThrough(kinds, st, infos, sink, i + 1);
      var h := Skipped(kinds, infos[i].rule, children[i], infos[i], sink);
      if h.error.None? {
        assert SkippedChildren(kinds, st, infos, sink, i).error == SkippedChildren(kinds, st, infos, sink, i + 1).error;
      }
    }
  }

  /** Without a consumer the hook appends nothing: only a match writes, and only into a consumer. */
  lemma {:induction false} NoConsumerNoText(kinds: RuleId -> Kind, rule: RuleId, st: Statement, info: Info)
    ensures Skipped(kinds, rule, st, info, false).text == []
    decreases st, 1
  {
    if kinds(rule).Container? && (info.Listing? || info.Chosen?) {
      ChildrenNoConsumerNoText(kinds, st, InfoChildren(info), 0);
    }
  }

  lemma {:induction false} ChildrenNoConsumerNoText(kinds: RuleId -> Kind, st: Statement, infos: seq<Info>, i: nat)
    ensures SkippedChildren(kinds, st, infos, false, i).text == []
    decreases st, 0, |DirectChildren(st)| - i
  {
    var children := DirectChildren(st);
    if i < |children| && i < |infos| {
      assert children[i] in children;
      NoConsumerNoText(kinds, infos[i].rule, children[i], infos[i]);
      ChildrenNoConsumerNoText(kinds, st, infos, i + 1);
    }
  }

  /** The consumer the context hands out: its current value consumer, if it has one. */
  function Sinks(consumer: ValueConsumer?): set<object>
    reads consumer
  {
    if consumer == null then {} else var c: object := consumer; {c, consumer.buf}
  }

  /** One step of the walk: a child that goes through adds its text and leaves the rest of the walk to do. */
  lemma ChildReplayed(kinds: RuleId -> Kind, st: Statement, infos: seq<Info>, sink: bool, i: nat, before: seq<char>, done: seq<char>)
    requires i < |DirectChildren(st)| && i < |infos|
    ensures var h := Skipped(kinds, infos[i].rule, DirectChildren(st)[i], infos[i], sink);
      && (before + done) + h.text == before + (done + h.text)
      && (h.error.None? ==>
            Prepend(done, SkippedChildren(kinds, st, infos, sink, i)) == Prepend(done + h.text, SkippedChildren(kinds, st, infos, sink, i + 1)))
      && (h.error.Some? ==> SkippedChildren(kinds, st, infos, sink, i) == h)
      && (!sink ==> h.text == [])
  {
    var children := DirectChildren(st);
    assert children[i] in children;
    var h := Skipped(kinds, infos[i].rule, children[i], infos[i], sink);
    PrependTwice(done, h.text, SkippedChildren(kinds, st, infos, sink, i + 1));
    if !sink {
      NoConsumerNoText(kinds, infos[i].rule, children[i], infos[i]);
    }
  }

  /** The consumer, when there is one, holds `text`. */
  ghost predicate Holds(consumer: ValueConsumer?, text: seq<char>)
    reads Sinks(consumer)
  {
    consumer != null ==> consumer.Valid() && consumer.Value() == text
  }

  /**
   * repairStatementSkipped: runs the hook of `rule` on a reused statement,
   * appending what it replays to the consumer (when there is one) and
   * stopping at the first exception. `t` is the hook's trail and `before`
   * what the consumer held.
   */
  method RepairSkipped(kinds: RuleId -> Kind, rule: RuleId, st: Statement, info: Info, consumer: ValueConsumer?,
                       ghost t: Trail, ghost before: seq<char>)
    returns (r: Outcome)
    requires Holds(consumer, before)
    requires t == Skipped(kinds, rule, st, info, consumer != null)
    modifies Sinks(consumer)
    ensures r.Pass? <==> t.error.None?
    ensures r.Fail? ==> t.error == Some(r.error)
    ensures Holds(consumer, before + t.text)
    ensures consumer != null ==> consumer.buf == old(consumer.buf) || fresh(consumer.buf)
    decreases st, 1
  {
    match kinds(rule) {
      case Container =>
        if !(info.Listing? || info.Chosen?) {
          return Fail(ClassCast);
        }
        r := RepairSkippedChildren(kinds, st, InfoChildren(info), consumer, t, before);
      case Matches =>
        if consumer != null {
          r := consumer.AppendRange(ValueSequence(st));
        } else {
          r := Pass;
        }
      case _ =>
        return Pass;
    }
  }

  /** ContainerRule's walk: each child statement in order, with the information at the same index. */
  method RepairSkippedChildren(kinds: RuleId -> Kind, st: Statement, infos: seq<Info>, consumer: ValueConsumer?,
                               ghost t: Trail, ghost before: seq<char>)
    returns (r: Outcome)
    requires Holds(consumer, before)
    requires t == SkippedChildren(kinds, st, infos, consumer != null, 0)
    modifies Sinks(consumer)
    ensures r.Pass? <==> t.error.None?
    ensures r.Fail? ==> t.error == Some(r.error)
    ensures Holds(consumer, before + t.text)
    ensures consumer != null ==> consumer.buf == old(consumer.buf) || fresh(consumer.buf)
    decreases st, 0
  {
    ghost var sink := consumer != null;
    var children := DirectChildren(st);
    var i := 0;
    ghost var done: seq<char> := [];
    ghost var rest := t;
    while i < |children|
      invariant 0 <= i <= |children|
      invariant Holds(consumer, before + done)
      invariant consumer != null ==> consumer.buf == old(consumer.buf) || fresh(consumer.buf)
      invariant rest == SkippedChildren(kinds, st, infos, sink, i)
      invariant t == Prepend(done, rest)
      invariant !sink ==> done == []
      decreases |children| - i
    {
      if i >= |infos| {
        assert before + done + [] == before + done;
        return Fail(NoSuchElement);
      }
      assert children[i] in children;
      ghost var h := Skipped(kinds, infos[i].rule, children[i], infos[i], sink);
      var o := RepairSkipped(kinds, infos[i].rule, children[i], infos[i], consumer, h, before + done);
      ghost var next := SkippedChildren(kinds, st, infos, sink, i + 1);
      ChildReplayed(kinds, st, infos, sink, i, before, done);
      if o.Fail? {
        return o;
      }
      done := done + h.text;
      rest := next;
      i := i + 1;
    }
    assert before + done + [] == before + done;
    return Pass;
  }

  // ----- ParseHelper -----

  /** What ParseHelper remembers a result under: the rule, the document offset it was tried at, and the context up to equality. */
  datatype Key = Key(rule: RuleId, offset: int, context: Context)

  /**
   * The key a lookup hashes to: ParseContext.equals and hashCode ignore the
   * consumer, so the context is taken by its erasure, and two contexts share
   * a key exactly when they are equal.
   */
  function KeyOf(rule: RuleId, offset: int, context: Context): Key {
    Key(rule, offset, Erased(context))
  }

  /** Two lookups of one rule at one offset meet in the memo exactly when their contexts are equal. */
  lemma SameKeyIffEqualContexts(rule: RuleId, offset: int, a: Context, b: Context)
    ensures KeyOf(rule, offset, a) == KeyOf(rule, offset, b) <==> ContextEquals(a, b)
  {
    ErasedIffEquals(a, b);
  }

  /** ParseHelper as the rules use it: the progress monitor's cancellation flag and the results recorded so far. */
  class ParseHelper {
    var cancelled: bool
    var results: map<Key, ParsingResult>

    constructor (cancelled: bool)
      ensures this.cancelled == cancelled && results == map[]
    {
      this.cancelled := cancelled;
      results := map[];
    }

    /** ruleParsed: records the result of `rule` at `offset` in `context`. */
    method RuleParsed(rule: RuleId, result: ParsingResult, offset: int, context: Context)
      modifies this
      ensures results == old(results)[KeyOf(rule, offset, context) := result]
      ensures cancelled == old(cancelled)
    {
      results := results[KeyOf(rule, offset, context) := result];
    }
  }

  // ----- parseStatement, repairStatement, repairAndAdjustDocument -----

  /** What one call through the wrapper comes to: its outcome, the text it left in the consumer, and whether it was recorded. */
  datatype Step = Step(outcome: Result<Attempt>, text: seq<char>, recorded: bool)

  /** The window after `n` characters are removed from its front. */
  function Advanced(v: ArrayRange, n: int): ArrayRange {
    ArrayRange(v.data, v.index + n, v.length - n)
  }

  /**
   * A recorded result found again: a failure is returned as it is; a success
   * runs the skipped hook and then removes the statement's length from the
   * window, which is an IllegalArgumentException when fewer characters remain.
   */
  function Reuse(kinds: RuleId -> Kind, rule: RuleId, e: ParsingResult, remaining: int, sink: bool): Step {
    if !IsSucceeded(e) then Step(Ok(Attempt(e, 0)), [], false)
    else
      var st := e.statement.value;
      var h := Skipped(kinds, rule, st, e.info, sink);
      if h.error.Some? then Step(Err(h.error.value), h.text, false)
      else if st.position.length > remaining then Step(Err(IllegalArgument), h.text, false)
      else Step(Ok(Attempt(e, st.position.length)), h.text, false)
  }

  /**
   * parseStatement: a cancelled monitor stops it first; a recorded result is
   * reused; otherwise the implementation runs on a copy of the window, the
   * window is advanced by what the copy consumed only when it succeeded, and
   * the result is recorded. An implementation that moves its copy past the
   * end has thrown an IllegalArgumentException from that copy.
   */
  function ParseOutcome(cancelled: bool, results: map<Key, ParsingResult>, kinds: RuleId -> Kind, rule: RuleId,
                        body: Body, context: Context, v: ArrayRange, sink: bool): Step
  {
    if cancelled then Step(Err(Cancelled), [], false)
    else if KeyOf(rule, v.index, context) in results then Reuse(kinds, rule, results[KeyOf(rule, v.index, context)], v.length, sink)
    else
      var e := body(context, v);
      var text := if sink then e.text else [];
      if e.moved > v.length then Step(Err(IllegalArgument), text, false)
      else Step(Ok(Attempt(e.result, if IsSucceeded(e.result) then e.moved else 0)), text, true)
  }

  /**
   * repairStatement: no cancellation check; a recorded result is reused;
   * otherwise the implementation works on the window itself, so whatever it
   * consumed stays consumed, success or not.
   */
  function RepairOutcome(results: map<Key, ParsingResult>, kinds: RuleId -> Kind, rule: RuleId,
                         body: Body, context: Context, v: ArrayRange, sink: bool): Step
  {
    if KeyOf(rule, v.index, context) in results then Reuse(kinds, rule, results[KeyOf(rule, v.index, context)], v.length, sink)
    else
      var e := body(context, v);
      var text := if sink then e.text else [];
      if e.moved > v.length then Step(Err(IllegalArgument), text, false)
      else Step(Ok(Attempt(e.result, e.moved)), text, true)
  }

  /** repairAndAdjustDocument: the skipped hook of `rule`, then the statement's length removed from the window. */
  method RepairAndAdjustDocument(kinds: RuleId -> Kind, rule: RuleId, st: Statement, info: Info, s: DocumentData,
                                 consumer: ValueConsumer?, ghost step: Step, ghost before: seq<char>)
    returns (r: Outcome)
    requires Holds(consumer, before)
    requires step == Reuse(kinds, rule, ParsingResult(Some(st), info), s.length, consumer != null)
    modifies s, Sinks(consumer)
    ensures r.Pass? <==> step.outcome.Ok?
    ensures r.Fail? ==> step.outcome == Err(r.error) && s.View() == old(s.View())
    ensures r.Pass? ==> s.View() == Advanced(old(s.View()), st.position.length)
    ensures Holds(consumer, before + step.text)
    ensures consumer != null ==> consumer.buf == old(consumer.buf) || fresh(consumer.buf)
  {
    ghost var h := Skipped(kinds, rule, st, info, consumer != null);
    var o := RepairSkipped(kinds, rule, st, info, consumer, h, before);
    if o.Fail? {
      return o;
    }
    r := s.RemoveFromStart(st.position.length);
  }

  /** Rule.parseStatement over `body`, the rule's parseStatementImpl; `step` is what it comes to. */
  method ParseStatement(helper: ParseHelper, kinds: RuleId -> Kind, rule: RuleId, body: Body, s: DocumentData,
                        context: Context, consumer: ValueConsumer?, ghost step: Step, ghost before: seq<char>)
    returns (r: Result<ParsingResult>)
    requires Holds(consumer, before)
    requires step == ParseOutcome(helper.cancelled, helper.results, kinds, rule, body, context, s.View(), consumer != null)
    modifies helper, s, Sinks(consumer)
    ensures r.Ok? <==> step.outcome.Ok?
    ensures r.Err? ==> step.outcome == Err(r.error) && s.View() == old(s.View())
    ensures r.Ok? ==> r.value == step.outcome.value.result && s.View() == Advanced(old(s.View()), step.outcome.value.consumed)
    ensures Holds(consumer, before + step.text)
    ensures helper.cancelled == old(helper.cancelled)
    ensures helper.results == if step.recorded then old(helper.results)[KeyOf(rule, old(s.index), context) := r.value] else old(helper.results)
  {
    if helper.cancelled {
      assert before + [] == before;
      return Err(Cancelled);
    }
    var slen := s.length;
    var offset := s.index;
    var key := KeyOf(rule, offset, context);
    if key in helper.results {
      var existing := helper.results[key];
      if IsSucceeded(existing) {
        var o := RepairAndAdjustDocument(kinds, rule, existing.statement.value, existing.info, s, consumer, step, before);
        if o.Fail? {
          return Err(o.error);
        }
      } else {
        assert before + [] == before;
      }
      return Ok(existing);
    }
    var cs := new DocumentData.Copy(s);
    var e := body(context, cs.View());
    if consumer != null {
      consumer.Append(e.text);
    }
    var moved := cs.RemoveFromStart(e.moved);
    if moved.Fail? {
      return Err(moved.error);
    }
    if IsSucceeded(e.result) {
      var count := slen - cs.length;
      var adjusted := s.RemoveFromStart(count);
    }
    helper.RuleParsed(rule, e.result, offset, context);
    return Ok(e.result);
  }

  /** Rule.repairStatement over `body`, the rule's repairStatementImpl; `step` is what it comes to. */
  method RepairStatement(helper: ParseHelper, kinds: RuleId -> Kind, rule: RuleId, body: Body, s: DocumentData,
                         context: Context, consumer: ValueConsumer?, ghost step: Step, ghost before: seq<char>)
    returns (r: Result<ParsingResult>)
    requires Holds(consumer, before)
    requires step == RepairOutcome(helper.results, kinds, rule, body, context, s.View(), consumer != null)
    modifies helper, s, Sinks(consumer)
    ensures r.Ok? <==> step.outcome.Ok?
    ensures r.Err? ==> step.outcome == Err(r.error) && s.View() == old(s.View())
    ensures r.Ok? ==> r.value == step.outcome.value.result && s.View() == Advanced(old(s.View()), step.outcome.value.consumed)
    ensures Holds(consumer, before + step.text)
    ensures helper.cancelled == old(helper.cancelled)
    ensures helper.results == if step.recorded then old(helper.results)[KeyOf(rule, old(s.index), context) := r.value] else old(helper.results)
  {
    var offset := s.index;
    var key := KeyOf(rule, offset, context);
    if key in helper.results {
      var existing := helper.results[key];
      if IsSucceeded(existing) {
        var o := RepairAndAdjustDocument(kinds, rule, existing.statement.value, existing.info, s, consumer, step, before);
        if o.Fail? {
          return Err(o.error);
        }
      } else {
        assert before + [] == before;
      }
      return Ok(existing);
    }
    var e := body(context, s.View());
    if consumer != null {
      consumer.Append(e.text);
    }
    var moved := s.RemoveFromStart(e.moved);
    if moved.Fail? {
      return Err(moved.error);
    }
    helper.RuleParsed(rule, e.result, offset, context);
    return Ok(e.result);
  }

  // ----- what the wrapper guarantees -----

  /** An implementation that stays inside its window and places its statement where it started. */
  predicate EffectBehaves(e: Effect, offset: int, remaining: int) {
    && 0 <= e.moved <= remaining
    && e.result.info.roi.length >= 0
    && (IsSucceeded(e.result) ==>
          e.result.statement.value.position == Span(offset, e.moved)
          && Inside(e.result.info.roi, e.result.statement.value.position))
  }

  /**
   * A fresh parse through the wrapper behaves as the containers assume of
   * their children: it consumes exactly its statement's length on success
   * and nothing on failure, whatever the implementation did to its copy.
   */
  lemma FreshParseBehaves(kinds: RuleId -> Kind, results: map<Key, ParsingResult>, rule: RuleId, body: Body,
                          context: Context, v: ArrayRange, sink: bool)
    requires KeyOf(rule, v.index, context) !in results
    requires EffectBehaves(body(context, v), v.index, v.length)
    ensures ParseOutcome(false, results, kinds, rule, body, context, v, sink).outcome.Ok?
    ensures Behaves(ParseOutcome(false, results, kinds, rule, body, context, v, sink).outcome.value, v.index, v.length)
  {
  }

  /**
   * A recorded success that fits its hook and lies at the window's front is
   * reused as a well-behaved attempt: the window advances by its length.
   */
  lemma ReusedParseBehaves(kinds: RuleId -> Kind, results: map<Key, ParsingResult>, rule: RuleId, body: Body,
                           context: Context, v: ArrayRange, sink: bool)
    requires KeyOf(rule, v.index, context) in results && v.length >= 0
    requires var e := results[KeyOf(rule, v.index, context)];
      && e.info.roi.length >= 0
      && (IsSucceeded(e) ==>
            && 0 <= e.statement.value.position.length <= v.length
            && e.statement.value.position.offset == v.index
            && Inside(e.info.roi, e.statement.value.position)
            && Fits(kinds, rule, e.statement.value, e.info, sink))
    ensures ParseOutcome(false, results, kinds, rule, body, context, v, sink).outcome.Ok?
    ensures Behaves(ParseOutcome(false, results, kinds, rule, body, context, v, sink).outcome.value, v.index, v.length)
    ensures ParseOutcome(false, results, kinds, rule, body, context, v, sink).outcome.value.result == results[KeyOf(rule, v.index, context)]
  {
    var e := results[KeyOf(rule, v.index, context)];
    if IsSucceeded(e) {
      var st := e.statement.value;
      SkippedGoesThroughIffFits(kinds, rule, st, e.info, sink);
    }
  }

  /**
   * Recording makes a second parse at the same place, in any context equal to
   * the first one (its consumer may differ), repeat the first one's outcome,
   * without running any implementation.
   */
  lemma RecordedParseRepeats(kinds: RuleId -> Kind, results: map<Key, ParsingResult>, rule: RuleId, body: Body,
                             later: Body, context: Context, again: Context, v: ArrayRange, sink: bool)
    requires KeyOf(rule, v.index, context) !in results
    requires ContextEquals(context, again)
    requires EffectBehaves(body(context, v), v.index, v.length)
    requires var e := body(context, v); IsSucceeded(e.result) ==> Fits(kinds, rule, e.result.statement.value, e.result.info, sink)
    ensures var first := ParseOutcome(false, results, kinds, rule, body, context, v, sink);
      first.recorded
      && ParseOutcome(false, results[KeyOf(rule, v.index, context) := first.outcome.value.result], kinds, rule, later, again, v, sink).outcome
         == first.outcome
  {
    SameKeyIffEqualContexts(rule, v.index, context, again);
    var e := body(context, v);
    if IsSucceeded(e.result) {
      SkippedGoesThroughIffFits(kinds, rule, e.result.statement.value, e.result.info, sink);
    }
  }

  /**
   * Parse and repair differ only in the cancellation check and in where the
   * implementation works: for one that consumes nothing when it fails, they
   * come to the same.
   */
  lemma ParseIsRepairWhenFailuresConsumeNothing(kinds: RuleId -> Kind, results: map<Key, ParsingResult>, rule: RuleId,
                                                body: Body, context: Context, v: ArrayRange, sink: bool)
    requires IsSucceeded(body(context, v).result) || body(context, v).moved == 0
    ensures ParseOutcome(false, results, kinds, rule, body, context, v, sink) == RepairOutcome(results, kinds, rule, body, context, v, sink)
  {
  }

  /** A cancelled parse throws before it reads the memo or runs anything, and changes nothing. */
  lemma CancelledParseDoesNothing(kinds: RuleId -> Kind, results: map<Key, ParsingResult>, rule: RuleId,
                                  body: Body, context: Context, v: ArrayRange, sink: bool)
    ensures ParseOutcome(true, results, kinds, rule, body, context, v, sink) == Step(Err(Cancelled), [], false)
  {
  }

  // ----- ContainerRule: rollback of the value consumer -----

  /** What a container's implementation leaves: its children's effect, minus their text when it failed. */
  function RolledBack(e: Effect): (r: Effect)
    ensures r.result == e.result && r.moved == e.moved
    ensures r.text == (if IsSucceeded(e.result) then e.text else [])
  {
    if IsSucceeded(e.result) then e else e.(text := [])
  }

  /**
   * ContainerRule.parseStatementImpl and repairStatementImpl: note the
   * consumer's length, run the children (which append to it), and on
   * failure set the length back.
   */
  method WithRollback(children: Body, context: Context, v: ArrayRange, consumer: ValueConsumer?, ghost before: seq<char>)
    returns (e: Effect)
    requires Holds(consumer, before)
    modifies Sinks(consumer)
    ensures e == RolledBack(children(context, v))
    ensures Holds(consumer, before + e.text)
  {
    var vclen := 0;
    if consumer != null {
      vclen := consumer.Length();
    }
    var run := children(context, v);
    if consumer != null {
      consumer.Append(run.text);
    }
    if !IsSucceeded(run.result) {
      if consumer != null {
        consumer.SetLength(vclen);
      }
    }
    e := RolledBack(run);
    assert before + [] == before;
  }

  /** Through the wrapper, a container attempt that fails leaves the consumer as it found it. */
  lemma FailedContainerLeavesNoText(kinds: RuleId -> Kind, results: map<Key, ParsingResult>, rule: RuleId,
                                    children: Body, context: Context, v: ArrayRange, sink: bool)
    requires KeyOf(rule, v.index, context) !in results
    requires !IsSucceeded(children(context, v).result)
    ensures ParseOutcome(false, results, kinds, rule, (c, w) => RolledBack(children(c, w)), context, v, sink).text == []
    ensures RepairOutcome(results, kinds, rule, (c, w) => RolledBack(children(c, w)), context, v, sink).text == []
  {
  }

  // ----- parameter names -----

  /** createParameterName: "@param", "_", the rule id in decimal, "_", the name. */
  function ParameterName(ruleId: int, name: string): string {
    BuiltinPrefix + "param" + "_" + IntToString(ruleId) + "_" + name
  }

  /** A parameter name is a built-in name, so it is seen through an invoked rule's variables-only scope. */
  lemma ParameterNameIsBuiltin(ruleId: int, name: string)
    ensures IsBuiltin(ParameterName(ruleId, name))
  {
  }

  /** Integer.toString starts with a minus sign exactly for a negative value. */
  lemma IntToStringSign(n: int)
    ensures |IntToString(n)| > 0 && (IntToString(n)[0] == '-' <==> n < 0)
    ensures forall i :: 0 <= i < |IntToString(n)| ==> IntToString(n)[i] != '_'
  {
    if n >= 0 {
      assert IsDigit(DigitsOf(n)[0]);
    } else {
      assert IntToString(n)[1..] == DigitsOf(-n);
    }
  }

  lemma IntToStringInjective(a: int, b: int)
    requires IntToString(a) == IntToString(b)
    ensures a == b
  {
    IntToStringSign(a);
    IntToStringSign(b);
    if a < 0 {
      assert DigitsOf(-a) == IntToString(a)[1..];
      assert DigitsOf(-b) == IntToString(b)[1..];
      DigitsRoundTrip(-a);
      DigitsRoundTrip(-b);
    } else {
      DigitsRoundTrip(a);
      DigitsRoundTrip(b);
    }
  }

  lemma CharAfterPrefix(p: string, a: string, n: string, i: nat)
    requires i <= |a|
    ensures (p + a + "_" + n)[|p| + i] == if i < |a| then a[i] else '_'
  {
  }

  /** Distinct (rule, name) pairs get distinct parameter names: no digit or sign is an underscore. */
  lemma ParameterNameInjective(id1: int, name1: string, id2: int, name2: string)
    requires ParameterName(id1, name1) == ParameterName(id2, name2)
    ensures id1 == id2 && name1 == name2
  {
    var p := BuiltinPrefix + "param" + "_";
    var a, b := IntToString(id1), IntToString(id2);
    var x, y := ParameterName(id1, name1), ParameterName(id2, name2);
    assert x == p + a + "_" + name1 && y == p + b + "_" + name2;
    IntToStringSign(id1);
    IntToStringSign(id2);
    var k := |p|;
    if |a| < |b| {
      CharAfterPrefix(p, a, name1, |a|);
      CharAfterPrefix(p, b, name2, |a|);
      assert false;
    } else if |b| < |a| {
      CharAfterPrefix(p, a, name1, |b|);
      CharAfterPrefix(p, b, name2, |b|);
      assert false;
    } else {
      assert a == x[k..k + |a|] && b == y[k..k + |b|];
      IntToStringInjective(id1, id2);
      assert name1 == x[k + |a| + 1..] && name2 == y[k + |b| + 1..];
    }
  }
}
