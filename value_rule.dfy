/**
 * ValueRule: an in-order container whose children run against a value
 * consumer of their own, so that what the matches among them append becomes
 * the value of a ValueStatement wrapping the children's statement.
 *
 * The children's run (InOrderRule's parseChildren or repairChildren) is an
 * oracle from the calling context to its effect, whose text is what the
 * children appended to that context's consumer.
 */
module ValueRules {
  import opened Wrappers
  import opened Regions
  import opened CharSequences
  import opened Statements
  import opened Values
  import opened Contexts
  import opened Rules

  /** The children's run, on the context it is given. */
  type Executor = Context -> Effect

  /** ValueParsingInformation: the rule, a copy of the children's region of interest, and the children's information. */
  function ValueInfo(rule: RuleId, sub: Info): (i: Info)
    ensures i.roi == sub.roi && InfoChildren(i) == [sub]
  {
    Wrapped(rule, sub.roi, sub)
  }

  /** The consumer's parsed value after the children appended `text`: a new sequence object showing exactly that text. */
  predicate Collected(parsedval: ArrayRange, text: seq<char>) {
    parsedval.WellFormed() && parsedval.Chars() == text && parsedval.identity != null
  }

  /**
   * executeParsing once the children have run with effect `e` and the
   * consumer's value has been taken as `parsedval`: a failure when the
   * children failed or a non-empty rule collected nothing, otherwise a value
   * statement named after the rule over the children's statement, checked
   * against the region as every result is.
   */
  function ValueOutcome(rule: RuleId, name: string, nonEmpty: bool, e: Effect, parsedval: ArrayRange): Result<ParsingResult> {
    var info := ValueInfo(rule, e.result.info);
    if !IsSucceeded(e.result) || (nonEmpty && parsedval.length == 0) then Ok(ParsingResult(None, info))
    else NewResult(Some(NewValueStatement(name, parsedval, e.result.statement.value)), info)
  }

  /**
   * executeParsing: a new consumer, known to contexts as
   * `consumerId`, a calling context over `context` that hands it out, the
   * children's run in that context, then the collected value.
   */
  method ExecuteParsing(rule: RuleId, name: string, nonEmpty: bool, context: Context, consumerId: ConsumerId,
                        executor: Executor)
    returns (r: Result<ParsingResult>, ghost parsedval: ArrayRange)
    ensures Collected(parsedval, executor(WithConsumer(context, Some(consumerId))).text) && fresh(parsedval.identity)
    ensures r == ValueOutcome(rule, name, nonEmpty, executor(WithConsumer(context, Some(consumerId))), parsedval)
  {
    var valueconsumer := new ValueConsumer();
    var valuecontext := WithConsumer(context, Some(consumerId));
    var run := executor(valuecontext);
    valueconsumer.Append(run.text);
    var value := valueconsumer.ParsedValue();
    parsedval := value;
    var usingparsinginfo := ValueInfo(rule, run.result.info);
    if !IsSucceeded(run.result) || (nonEmpty && value.length == 0) {
      return Ok(ParsingResult(None, usingparsinginfo)), parsedval;
    }
    var valuestm := NewValueStatement(name, value, run.result.statement.value);
    r := NewResult(Some(valuestm), usingparsinginfo);
  }

  /**
   * repairChildren: the information must be a value rule's and the
   * statement a value statement (each a ClassCastException otherwise); the
   * children are repaired from the sub-statement and its information.
   */
  method RepairChildren(rule: RuleId, name: string, nonEmpty: bool, st: Statement, info: Info, context: Context,
                        consumerId: ConsumerId, repair: (Context, Statement, Info) -> Effect)
    returns (r: Result<ParsingResult>, ghost parsedval: ArrayRange)
    ensures r.Err? && r.error == ClassCast <==> !info.Wrapped? || !st.Valued?
    ensures info.Wrapped? && st.Valued? ==>
      var e := repair(WithConsumer(context, Some(consumerId)), st.sub, info.sub);
      Collected(parsedval, e.text) && fresh(parsedval.identity) && r == ValueOutcome(rule, name, nonEmpty, e, parsedval)
  {
    if !info.Wrapped? || !st.Valued? {
      return Err(ClassCast), ArrayRange([], 0, 0);
    }
    var sub := st.sub;
    var subinfo := info.sub;
    r, parsedval := ExecuteParsing(rule, name, nonEmpty, context, consumerId, c => repair(c, sub, subinfo));
  }

  // ----- what a value rule promises -----

  /**
   * A value rule succeeds exactly when its children did, and (for a
   * non-empty rule) appended something, and their statement lies in their
   * region; its statement then carries the rule's name, the children's text
   * as its value, the children's statement as its only child and that
   * statement's position, and its information wraps the children's.
   */
  lemma ValueIsTheChildrenText(rule: RuleId, name: string, nonEmpty: bool, e: Effect, parsedval: ArrayRange)
    requires Collected(parsedval, e.text)
    ensures var r := ValueOutcome(rule, name, nonEmpty, e, parsedval);
      && (r.Ok? ==> r.value.info.roi == e.result.info.roi && InfoChildren(r.value.info) == [e.result.info])
      && (r.Ok? && IsSucceeded(r.value) <==>
            IsSucceeded(e.result) && !(nonEmpty && e.text == [])
            && Inside(e.result.info.roi, e.result.statement.value.position))
      && (r.Ok? && IsSucceeded(r.value) ==>
            var st := r.value.statement.value;
            && Name(st) == name
            && ValueText(st) == Ok(e.text)
            && DirectChildren(st) == [e.result.statement.value]
            && st.position == e.result.statement.value.position
            && ValueObject(st) == Some(parsedval))
  {
  }

  /** The only exception is IllegalState, for a successful child statement outside the children's own region. */
  lemma ValueThrowsOnlyOutsideRegion(rule: RuleId, name: string, nonEmpty: bool, e: Effect, parsedval: ArrayRange)
    requires Collected(parsedval, e.text)
    ensures var r := ValueOutcome(rule, name, nonEmpty, e, parsedval);
      r.Err? <==> IsSucceeded(e.result) && !(nonEmpty && e.text == [])
                  && !Inside(e.result.info.roi, e.result.statement.value.position)
    ensures ValueOutcome(rule, name, nonEmpty, e, parsedval).Err? ==> ValueOutcome(rule, name, nonEmpty, e, parsedval).error == IllegalState
  {
  }

  /**
   * The children see the caller's variables, but only the new consumer:
   * nothing they append reaches the caller's consumer, so the value rule
   * itself appends nothing, and the skipped hook has nothing to replay.
   */
  lemma ChildrenSeeOnlyTheNewConsumer(context: Context, consumerId: ConsumerId, varname: string, kinds: RuleId -> Kind,
                                      rule: RuleId, st: Statement, info: Info, sink: bool)
    requires kinds(rule) == ValueKind
    ensures CurrentConsumer(WithConsumer(context, Some(consumerId))) == Some(consumerId)
    ensures Lookup(WithConsumer(context, Some(consumerId)), varname, None) ==
      if varname in context.locals then Some(context.locals[varname]) else None
    ensures Skipped(kinds, rule, st, info, sink) == Trail([], None)
  {
    WithConsumerLookup(context, Some(consumerId), varname, None);
  }
}
