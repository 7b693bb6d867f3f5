/**
 * InvokeRule: resolves a rule declaration through its rule parameter,
 * checks and binds the arguments under the invoked rule's parameter names,
 * runs the invoked rule in a context that sees only those variables (and
 * built-ins), and wraps what it parsed in a single-child collection.
 *
 * Objects are values of Contexts.Value; the rule declarations are given by
 * identity, and Class.isInstance by the class-hierarchy relation
 * `instanceOf`. The invoked rule's parseStatement or repairStatement is an
 * oracle from the rule, the context it runs in and its declaring context to
 * its effect.
 */
module InvokeRules {
  import opened Wrappers
  import opened Regions
  import opened CharSequences
  import opened Statements
  import opened Contexts
  import opened Rules

  /** RuleDeclaration: the declared rule, its declared parameters (name and class name) and its declaring context, if it was defined. */
  datatype Declaration = Declaration(rule: RuleId, params: seq<(string, string)>, context: Option<Context>)

  /** The class name of a RuleDeclaration object. */
  const DeclarationKind: string := "RuleDeclaration"

  /** An invoke rule: its own id, the parameter naming the rule, the alias (null when absent) and the arguments. */
  datatype Invocation = Invocation(self: RuleId, ruleParam: Value, alias: Option<string>, args: seq<Value>)

  /** What the invoked rule does, given the rule, the context it runs in and its declaring context. */
  type InvokeExecutor = (RuleId, Context, Context) -> Result<Effect>

  /**
   * The invoked declaration: the rule parameter's value, which must exist,
   * be a RuleDeclaration and have a declaring context (a
   * FatalParseException otherwise).
   */
  function Declared(inv: Invocation, c: Context, decls: nat -> Declaration, fuel: nat): (r: Result<Declaration>)
    ensures r.Ok? ==> r.value.context.Some?
  {
    match Follow(c, Some(inv.ruleParam), fuel)
    case Err(e) => Err(e)
    case Ok(None) => Err(Fatal)
    case Ok(Some(v)) =>
      if !(v.Object? && v.kind == DeclarationKind) then Err(Fatal)
      else if decls(v.id).context.None? then Err(Fatal)
      else Ok(decls(v.id))
  }

  /**
   * One argument: its value in the caller's context, which must be an
   * instance of the declared class; a null value is no instance, and naming
   * its class in the message throws a NullPointerException.
   */
  function Argument(c: Context, arg: Value, className: string, instanceOf: (string, string) -> bool, fuel: nat): (r: Result<Value>)
    ensures r.Ok? ==> r.value.Object? && instanceOf(r.value.kind, className)
  {
    match Follow(c, Some(arg), fuel)
    case Err(e) => Err(e)
    case Ok(None) => Err(NullPointer)
    case Ok(Some(v)) => if v.Object? && instanceOf(v.kind, className) then Ok(v) else Err(IllegalArgument)
  }

  /** The variables after binding the first `n` arguments, or the exception of the first that fails. */
  function Bound(c: Context, args: seq<Value>, declared: seq<(string, string)>, rule: RuleId,
                 instanceOf: (string, string) -> bool, fuel: nat, n: nat): Result<map<string, Value>>
    requires n <= |args| && n <= |declared|
  {
    if n == 0 then Ok(map[])
    else match Bound(c, args, declared, rule, instanceOf, fuel, n - 1)
      case Err(e) => Err(e)
      case Ok(m) =>
        match Argument(c, args[n - 1], declared[n - 1].1, instanceOf, fuel)
        case Err(e) => Err(e)
        case Ok(v) => Ok(m[ParameterName(rule, declared[n - 1].0) := v])
  }

  /** The binding loop of executeParsing: each argument in order, put under the invoked rule's parameter name. */
  method BindArguments(c: Context, args: seq<Value>, declared: seq<(string, string)>, rule: RuleId,
                       instanceOf: (string, string) -> bool, fuel: nat)
    returns (r: Result<map<string, Value>>)
    requires |args| == |declared|
    ensures r == Bound(c, args, declared, rule, instanceOf, fuel, |args|)
  {
    var varmap: map<string, Value> := map[];
    for i := 0 to |args|
      invariant Bound(c, args, declared, rule, instanceOf, fuel, i) == Ok(varmap)
    {
      var value := Argument(c, args[i], declared[i].1, instanceOf, fuel);
      if value.Err? {
        FirstFailureSticks(c, args, declared, rule, instanceOf, fuel, i + 1);
        return Err(value.error);
      }
      varmap := varmap[ParameterName(rule, declared[i].0) := value.value];
    }
    return Ok(varmap);
  }

  /** Once an argument fails, every longer binding fails with the same exception. */
  lemma {:induction false} FirstFailureSticks(c: Context, args: seq<Value>, declared: seq<(string, string)>, rule: RuleId,
                                              instanceOf: (string, string) -> bool, fuel: nat, n: nat)
    requires 0 < n <= |args| == |declared|
    requires Bound(c, args, declared, rule, instanceOf, fuel, n - 1).Ok?
    requires Argument(c, args[n - 1], declared[n - 1].1, instanceOf, fuel).Err?
    ensures Bound(c, args, declared, rule, instanceOf, fuel, |args|) == Err(Argument(c, args[n - 1], declared[n - 1].1, instanceOf, fuel).error)
    decreases |args| - n
  {
    if n < |args| {
      FailureStaysFailure(c, args, declared, rule, instanceOf, fuel, n, |args|);
    }
  }

  /** A failed binding of `n` arguments is the failure of every longer one. */
  lemma {:induction false} FailureStaysFailure(c: Context, args: seq<Value>, declared: seq<(string, string)>, rule: RuleId,
                                               instanceOf: (string, string) -> bool, fuel: nat, n: nat, m: nat)
    requires n <= m <= |args| == |declared|
    requires Bound(c, args, declared, rule, instanceOf, fuel, n).Err?
    ensures Bound(c, args, declared, rule, instanceOf, fuel, m) == Bound(c, args, declared, rule, instanceOf, fuel, n)
    decreases m - n
  {
    if n < m {
      FailureStaysFailure(c, args, declared, rule, instanceOf, fuel, n, m - 1);
    }
  }

  /**
   * executeParsing up to the executor: the declaration, the argument count
   * check (an IllegalArgumentException), the bound variables, and the
   * context the invoked rule runs in.
   */
  function Prepared(inv: Invocation, c: Context, decls: nat -> Declaration, instanceOf: (string, string) -> bool, fuel: nat)
    : Result<(Declaration, Context)>
  {
    match Declared(inv, c, decls, fuel)
    case Err(e) => Err(e)
    case Ok(d) =>
      if |d.params| != |inv.args| then Err(IllegalArgument)
      else match Bound(c, inv.args, d.params, d.rule, instanceOf, fuel, |inv.args|)
        case Err(e) => Err(e)
        case Ok(varmap) => Ok((d, MergeWithBuiltIns(c, d.context.value, varmap)))
  }

  /** withName on a value statement when there is an alias; every other statement is kept as it is. */
  function Aliased(st: Statement, alias: Option<string>): Statement {
    if alias.Some? && st.Valued? then WithName(st, alias.value) else st
  }

  /**
   * executeParsing: the invoked rule's failure is passed on under the invoke
   * rule's information; its statement (renamed for an alias) becomes the only
   * child of a collection at the same position over the document `data`.
   */
  function InvokeOutcome(inv: Invocation, c: Context, decls: nat -> Declaration, instanceOf: (string, string) -> bool,
                         fuel: nat, data: seq<char>, run: InvokeExecutor): Result<Effect>
  {
    match Prepared(inv, c, decls, instanceOf, fuel)
    case Err(e) => Err(e)
    case Ok(prep) =>
      match run(prep.0.rule, prep.1, prep.0.context.value)
      case Err(e) => Err(e)
      case Ok(e) =>
        var info := Wrapped(inv.self, e.result.info.roi, e.result.info);
        if !IsSucceeded(e.result) then Ok(Effect(ParsingResult(None, info), e.moved, e.text))
        else
          var st := Aliased(e.result.statement.value, inv.alias);
          match NewResult(Some(Collection(st.position, ArrayRange(data, st.position.offset, st.position.length), [st])), info)
          case Err(x) => Err(x)
          case Ok(r) => Ok(Effect(r, e.moved, e.text))
  }

  /** executeParsing on the document `s`, which the executor's effect says how far the invoked rule moved. */
  method ExecuteParsing(inv: Invocation, s: DocumentData, c: Context, decls: nat -> Declaration,
                        instanceOf: (string, string) -> bool, fuel: nat, run: InvokeExecutor)
    returns (r: Result<Effect>)
    ensures r == InvokeOutcome(inv, c, decls, instanceOf, fuel, s.data, run)
  {
    var ruleval := Follow(c, Some(inv.ruleParam), fuel);
    if ruleval.Err? {
      return Err(ruleval.error);
    }
    if ruleval.value.None? {
      return Err(Fatal);
    }
    var v := ruleval.value.value;
    if !(v.Object? && v.kind == DeclarationKind) {
      return Err(Fatal);
    }
    var decl := decls(v.id);
    if decl.context.None? {
      return Err(Fatal);
    }
    if |decl.params| != |inv.args| {
      return Err(IllegalArgument);
    }
    var varmap := BindArguments(c, inv.args, decl.params, decl.rule, instanceOf, fuel);
    if varmap.Err? {
      return Err(varmap.error);
    }
    var invokecontext := MergeWithBuiltIns(c, decl.context.value, varmap.value);
    var result := run(decl.rule, invokecontext, decl.context.value);
    if result.Err? {
      return Err(result.error);
    }
    var e := result.value;
    var usingparsinginfo := Wrapped(inv.self, e.result.info.roi, e.result.info);
    if !IsSucceeded(e.result) {
      return Ok(Effect(ParsingResult(None, usingparsinginfo), e.moved, e.text));
    }
    var resultstm := Aliased(e.result.statement.value, inv.alias);
    var made := NewResult(Some(Collection(resultstm.position, s.SubDocumentSequence(resultstm.position), [resultstm])),
                          usingparsinginfo);
    if made.Err? {
      return Err(made.error);
    }
    return Ok(Effect(made.value, e.moved, e.text));
  }

  /**
   * The executor of repairStatementImpl: the invoked rule repairs the
   * statement's first direct child from the sub-information, an
   * IndexOutOfBoundsException when the statement has no child.
   */
  function RepairRun(st: Statement, subinfo: Info, repair: (RuleId, Statement, Info, Context, Context) -> Effect): InvokeExecutor {
    (rule, ic, dc) =>
      var children := DirectChildren(st);
      if |children| == 0 then Err(IndexOutOfBounds) else Ok(repair(rule, children[0], subinfo, ic, dc))
  }

  /** repairStatementImpl: the information must be an invoke rule's (a ClassCastException otherwise). */
  method RepairStatementImpl(inv: Invocation, st: Statement, info: Info, s: DocumentData, c: Context,
                             decls: nat -> Declaration, instanceOf: (string, string) -> bool, fuel: nat,
                             repair: (RuleId, Statement, Info, Context, Context) -> Effect)
    returns (r: Result<Effect>)
    ensures !info.Wrapped? ==> r == Err(ClassCast)
    ensures info.Wrapped? ==> r == InvokeOutcome(inv, c, decls, instanceOf, fuel, s.data, RepairRun(st, info.sub, repair))
  {
    if !info.Wrapped? {
      return Err(ClassCast);
    }
    r := ExecuteParsing(inv, s, c, decls, instanceOf, fuel, RepairRun(st, info.sub, repair));
  }

  // ----- what an invoke rule promises -----

  /**
   * A FatalParseException is thrown exactly when the rule parameter resolves
   * to nothing, to something that is not a rule declaration, or to a
   * declaration that was never defined.
   */
  lemma FatalIffNoDefinedDeclaration(inv: Invocation, c: Context, decls: nat -> Declaration,
                                     instanceOf: (string, string) -> bool, fuel: nat)
    requires Follow(c, Some(inv.ruleParam), fuel).Ok?
    ensures Prepared(inv, c, decls, instanceOf, fuel) == Err(Fatal) <==>
      var v := Follow(c, Some(inv.ruleParam), fuel).value;
      v.None? || !(v.value.Object? && v.value.kind == DeclarationKind) || decls(v.value.id).context.None?
  {
    var d := Declared(inv, c, decls, fuel);
    if d.Ok? && |d.value.params| == |inv.args| {
      BoundNeverFatal(c, inv.args, d.value.params, d.value.rule, instanceOf, fuel, |inv.args|);
    }
  }

  /** Binding only throws what a resolution or an argument check throws. */
  lemma {:induction false} BoundNeverFatal(c: Context, args: seq<Value>, declared: seq<(string, string)>, rule: RuleId,
                                           instanceOf: (string, string) -> bool, fuel: nat, n: nat)
    requires n <= |args| && n <= |declared|
    ensures Bound(c, args, declared, rule, instanceOf, fuel, n).Err? ==>
      Bound(c, args, declared, rule, instanceOf, fuel, n).error in {StackOverflow, NullPointer, IllegalArgument}
  {
    if n > 0 {
      BoundNeverFatal(c, args, declared, rule, instanceOf, fuel, n - 1);
      FollowFails(c, Some(args[n - 1]), fuel);
    }
  }

  /** A resolution only fails by running out, which stands for the stack overflow. */
  lemma {:induction false} FollowFails(c: Context, v: Option<Value>, fuel: nat)
    ensures Follow(c, v, fuel).Err? ==> Follow(c, v, fuel).error == StackOverflow
    decreases fuel
  {
    if v.Some? && v.value.IsParam() && fuel > 0 {
      FollowFails(c, ParamStep(v.value, c), fuel - 1);
    }
  }

  /** Binding succeeds exactly when every argument passes its check. */
  lemma {:induction false} BoundIffEveryArgumentPasses(c: Context, args: seq<Value>, declared: seq<(string, string)>, rule: RuleId,
                                                       instanceOf: (string, string) -> bool, fuel: nat, n: nat)
    requires n <= |args| && n <= |declared|
    ensures Bound(c, args, declared, rule, instanceOf, fuel, n).Ok? <==>
      forall i :: 0 <= i < n ==> Argument(c, args[i], declared[i].1, instanceOf, fuel).Ok?
  {
    if n > 0 {
      BoundIffEveryArgumentPasses(c, args, declared, rule, instanceOf, fuel, n - 1);
    }
  }

  /** A binding names exactly the declared parameters, each under the invoked rule's parameter name. */
  lemma {:induction false} BoundNamesTheParameters(c: Context, args: seq<Value>, declared: seq<(string, string)>, rule: RuleId,
                                                   instanceOf: (string, string) -> bool, fuel: nat, n: nat)
    requires n <= |args| && n <= |declared|
    requires Bound(c, args, declared, rule, instanceOf, fuel, n).Ok?
    ensures Bound(c, args, declared, rule, instanceOf, fuel, n).value.Keys == set i | 0 <= i < n :: ParameterName(rule, declared[i].0)
  {
    if n > 0 {
      BoundNamesTheParameters(c, args, declared, rule, instanceOf, fuel, n - 1);
      var prev := Bound(c, args, declared, rule, instanceOf, fuel, n - 1).value;
      assert (set i | 0 <= i < n :: ParameterName(rule, declared[i].0))
        == (set i | 0 <= i < n - 1 :: ParameterName(rule, declared[i].0)) + {ParameterName(rule, declared[n - 1].0)};
    }
  }

  /** With distinct declared names, each parameter name holds its own argument's value. */
  lemma {:induction false} BoundHoldsEachArgument(c: Context, args: seq<Value>, declared: seq<(string, string)>, rule: RuleId,
                                                  instanceOf: (string, string) -> bool, fuel: nat, n: nat)
    requires n <= |args| && n <= |declared|
    requires Bound(c, args, declared, rule, instanceOf, fuel, n).Ok?
    requires forall i, j :: 0 <= i < j < n ==> declared[i].0 != declared[j].0
    ensures forall i :: 0 <= i < n ==>
      && Argument(c, args[i], declared[i].1, instanceOf, fuel).Ok?
      && ParameterName(rule, declared[i].0) in Bound(c, args, declared, rule, instanceOf, fuel, n).value
      && Bound(c, args, declared, rule, instanceOf, fuel, n).value[ParameterName(rule, declared[i].0)]
         == Argument(c, args[i], declared[i].1, instanceOf, fuel).value
  {
    if n > 0 {
      BoundHoldsEachArgument(c, args, declared, rule, instanceOf, fuel, n - 1);
      var prev := Bound(c, args, declared, rule, instanceOf, fuel, n - 1).value;
      var key := ParameterName(rule, declared[n - 1].0);
      forall i | 0 <= i < n - 1
        ensures ParameterName(rule, declared[i].0) != key
      {
        if ParameterName(rule, declared[i].0) == key {
          ParameterNameInjective(rule, declared[i].0, rule, declared[n - 1].0);
        }
      }
    }
  }

  /**
   * The invoked rule sees each argument under its parameter name, and none
   * of the caller's ordinary variables: a name that is not built-in and not
   * a parameter is unbound.
   */
  lemma InvokedRuleSeesItsArguments(inv: Invocation, c: Context, decls: nat -> Declaration,
                                    instanceOf: (string, string) -> bool, fuel: nat, name: string)
    requires Prepared(inv, c, decls, instanceOf, fuel).Ok?
    ensures var (d, ic) := Prepared(inv, c, decls, instanceOf, fuel).value;
      && (forall i, j :: 0 <= i < j < |d.params| ==> d.params[i].0 != d.params[j].0) ==>
           forall i :: 0 <= i < |d.params| ==>
             && Argument(c, inv.args[i], d.params[i].1, instanceOf, fuel).Ok?
             && Lookup(ic, ParameterName(d.rule, d.params[i].0), None) == Some(Argument(c, inv.args[i], d.params[i].1, instanceOf, fuel).value)
    ensures var (d, ic) := Prepared(inv, c, decls, instanceOf, fuel).value;
      !IsBuiltin(name) ==> Lookup(ic, name, None) == None
    ensures var (d, ic) := Prepared(inv, c, decls, instanceOf, fuel).value;
      CurrentConsumer(ic) == CurrentConsumer(c)
  {
    var d := Declared(inv, c, decls, fuel).value;
    var varmap := Bound(c, inv.args, d.params, d.rule, instanceOf, fuel, |inv.args|).value;
    if forall i, j :: 0 <= i < j < |d.params| ==> d.params[i].0 != d.params[j].0 {
      BoundHoldsEachArgument(c, inv.args, d.params, d.rule, instanceOf, fuel, |inv.args|);
    }
    BoundNamesTheParameters(c, inv.args, d.params, d.rule, instanceOf, fuel, |inv.args|);
    MergeWithBuiltInsLookup(c, d.context.value, varmap, name, None);
    forall i | 0 <= i < |d.params|
      ensures Lookup(MergeWithBuiltIns(c, d.context.value, varmap), ParameterName(d.rule, d.params[i].0), None)
        == if ParameterName(d.rule, d.params[i].0) in varmap then Some(varmap[ParameterName(d.rule, d.params[i].0)]) else None
    {
      MergeWithBuiltInsLookup(c, d.context.value, varmap, ParameterName(d.rule, d.params[i].0), None);
    }
    if !IsBuiltin(name) {
      assert name !in varmap by {
        forall i | 0 <= i < |inv.args|
          ensures ParameterName(d.rule, d.params[i].0) != name
        {
          ParameterNameIsBuiltin(d.rule, d.params[i].0);
        }
      }
    }
  }

  /**
   * A successful invocation is a collection at the invoked statement's
   * position, over the document at that position, whose only child is the
   * invoked statement, renamed to the alias when it is a value statement;
   * its information wraps the invoked rule's; a failure is passed on; either
   * way the invoked rule's movement and text are the invoke rule's.
   */
  lemma InvokeWrapsTheInvokedStatement(inv: Invocation, c: Context, decls: nat -> Declaration,
                                       instanceOf: (string, string) -> bool, fuel: nat, data: seq<char>, run: InvokeExecutor)
    requires InvokeOutcome(inv, c, decls, instanceOf, fuel, data, run).Ok?
    ensures var (d, ic) := Prepared(inv, c, decls, instanceOf, fuel).value;
      var e := run(d.rule, ic, d.context.value).value;
      var r := InvokeOutcome(inv, c, decls, instanceOf, fuel, data, run).value;
      && r.moved == e.moved && r.text == e.text
      && r.result.info.roi == e.result.info.roi && InfoChildren(r.result.info) == [e.result.info]
      && (IsSucceeded(r.result) <==> IsSucceeded(e.result))
      && (IsSucceeded(r.result) ==>
            var inner := e.result.statement.value;
            var st := r.result.statement.value;
            && st.Collection?
            && st.position == inner.position
            && st.raw == ArrayRange(data, inner.position.offset, inner.position.length)
            && |DirectChildren(st)| == 1
            && DirectChildren(st)[0].position == inner.position
            && RawSequence(DirectChildren(st)[0]) == RawSequence(inner)
            && (inv.alias.Some? && inner.Valued? ==> Name(DirectChildren(st)[0]) == inv.alias.value)
            && (inv.alias.None? || !inner.Valued? ==> DirectChildren(st)[0] == inner))
  {
  }

  /** Repair first checks the information, and only the invoked rule's run looks for the statement's child. */
  lemma RepairChecksInOrder(inv: Invocation, st: Statement, subinfo: Info, c: Context, decls: nat -> Declaration,
                            instanceOf: (string, string) -> bool, fuel: nat, data: seq<char>,
                            repair: (RuleId, Statement, Info, Context, Context) -> Effect)
    requires DirectChildren(st) == []
    ensures var r := InvokeOutcome(inv, c, decls, instanceOf, fuel, data, RepairRun(st, subinfo, repair));
      r.Err? && (Prepared(inv, c, decls, instanceOf, fuel).Ok? ==> r.error == IndexOutOfBounds)
      && (Prepared(inv, c, decls, instanceOf, fuel).Err? ==> r.error == Prepared(inv, c, decls, instanceOf, fuel).error)
  {
  }
}
