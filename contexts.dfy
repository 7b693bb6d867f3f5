/**
 * ParseContext, DeclaringContext and CallingContext: an immutable chain of
 * scopes that maps names to objects and is searched from the innermost scope
 * outwards, plus VarReferenceParam, which resolves a name in such a chain.
 */
module Contexts {
  import opened Wrappers

  /** Rule.BUILTIN_VAR_PREFIX: names that start with it are built-ins. */
  const BuiltinPrefix: string := "@"

  /** FLAG_PARENT_BUILTINS_ONLY (1 << 0): only built-in names are looked up in the parent. */
  const ParentBuiltinsOnly: int := 1

  /** The identity of a ValueConsumer object; contexts only refer to consumers. */
  type ConsumerId = nat

  /**
   * The objects a context binds. An InvokeParam is either a variable
   * reference, resolved in the context it is asked in, or a parameter whose
   * value is fixed (RegexParam, OccurrenceParam); every other object is
   * described by its class name and its identity.
   */
  datatype Value =
    | Object(kind: string, id: nat)
    | Reference(varname: string)
    | Fixed(kind: string, id: nat)
  {
    predicate IsParam() { !Object? }
  }

  /** The runtime class of a context: equals compares it, and only a calling context holds a consumer. */
  datatype Scope = Plain | Declaring | Calling(consumer: Option<ConsumerId>)

  datatype Context = Context(scope: Scope, parent: Option<Context>, flags: int, locals: map<string, Value>)

  /** String.startsWith(BUILTIN_VAR_PREFIX). */
  predicate IsBuiltin(name: string) {
    |BuiltinPrefix| <= |name| && name[..|BuiltinPrefix|] == BuiltinPrefix
  }

  /** (parentFlags & FLAG_PARENT_BUILTINS_ONLY) == FLAG_PARENT_BUILTINS_ONLY; `%` agrees with `& 1` on every int. */
  predicate BuiltinsOnly(flags: int) {
    flags % 2 == ParentBuiltinsOnly
  }

  /** Whether a lookup of `name` that misses the locals goes on to the parent. */
  predicate AsksParent(c: Context, name: string) {
    c.parent.Some? && (!BuiltinsOnly(c.flags) || IsBuiltin(name))
  }

  /** getObjectForName(name, defaultValue): the local binding, else the parent's answer if it is asked, else the default. */
  function Lookup(c: Context, name: string, default: Option<Value>): Option<Value>
    decreases c
  {
    if name in c.locals then Some(c.locals[name])
    else if AsksParent(c, name) then Lookup(c.parent.value, name, default)
    else default
  }

  /** The scopes a lookup of `name` consults, innermost first: the reference reading of the lookup. */
  function Consulted(c: Context, name: string): (r: seq<map<string, Value>>)
    ensures |r| > 0 && r[0] == c.locals
    decreases c
  {
    [c.locals] + if AsksParent(c, name) then Consulted(c.parent.value, name) else []
  }

  /** The binding in the first scope that has one, or the default. */
  function FirstBinding(scopes: seq<map<string, Value>>, name: string, default: Option<Value>): Option<Value> {
    if scopes == [] then default
    else if name in scopes[0] then Some(scopes[0][name])
    else FirstBinding(scopes[1..], name, default)
  }

  /** The lookup answers with the innermost consulted binding, and with the default exactly when no consulted scope binds the name. */
  lemma {:induction false} LookupIsFirstBinding(c: Context, name: string, default: Option<Value>)
    ensures Lookup(c, name, default) == FirstBinding(Consulted(c, name), name, default)
    ensures (forall k :: 0 <= k < |Consulted(c, name)| ==> name !in Consulted(c, name)[k])
      ==> Lookup(c, name, default) == default
    ensures (exists k :: 0 <= k < |Consulted(c, name)| && name in Consulted(c, name)[k]) ==> Lookup(c, name, default).Some?
    decreases c
  {
    var scopes := Consulted(c, name);
    if name !in c.locals && AsksParent(c, name) {
      LookupIsFirstBinding(c.parent.value, name, default);
      assert scopes[1..] == Consulted(c.parent.value, name);
      forall k | 1 <= k < |scopes|
        ensures scopes[k] == Consulted(c.parent.value, name)[k - 1]
      {
      }
    }
  }

  /** A context whose parent admits only built-ins answers any other name from its own locals or with the default. */
  lemma BuiltinsOnlyHidesParent(c: Context, name: string, default: Option<Value>)
    requires BuiltinsOnly(c.flags) && !IsBuiltin(name)
    ensures Lookup(c, name, default) == if name in c.locals then Some(c.locals[name]) else default
  {
  }

  /** getCurrentValueConsumer: a calling context's own consumer, otherwise the parent's, none at the root. */
  function CurrentConsumer(c: Context): Option<ConsumerId>
    decreases c
  {
    if c.scope.Calling? then c.scope.consumer
    else if c.parent.Some? then CurrentConsumer(c.parent.value)
    else None
  }

  /** The innermost calling context on the parent chain decides the consumer. */
  lemma {:induction false} ConsumerFromInnermostCalling(c: Context)
    ensures CurrentConsumer(c).Some? ==> exists d :: OnChain(d, c) && d.scope.Calling? && d.scope.consumer == CurrentConsumer(c)
    decreases c
  {
    if !c.scope.Calling? && c.parent.Some? {
      ConsumerFromInnermostCalling(c.parent.value);
      if CurrentConsumer(c).Some? {
        var d :| OnChain(d, c.parent.value) && d.scope.Calling? && d.scope.consumer == CurrentConsumer(c);
        assert OnChain(d, c);
      }
    } else if c.scope.Calling? {
      assert OnChain(c, c);
    }
  }

  /** `d` is `c` or one of its ancestors. */
  predicate OnChain(d: Context, c: Context)
    decreases c
  {
    d == c || (c.parent.Some? && OnChain(d, c.parent.value))
  }

  /** The names of a list of pairs are pairwise distinct. */
  predicate DistinctNames(locals: seq<(string, Value)>) {
    forall i, j :: 0 <= i < j < |locals| ==> locals[i].0 != locals[j].0
  }

  /**
   * toLocalsMap: puts the pairs into a map one by one and throws
   * IllegalArgumentException when a name was already bound.
   */
  method ToLocalsMap(locals: seq<(string, Value)>) returns (r: Result<map<string, Value>>)
    ensures r.Ok? <==> DistinctNames(locals)
    ensures r.Err? ==> r.error == IllegalArgument
    ensures r.Ok? ==> r.value.Keys == set i | 0 <= i < |locals| :: locals[i].0
    ensures r.Ok? ==> forall i :: 0 <= i < |locals| ==> r.value[locals[i].0] == locals[i].1
  {
    var m: map<string, Value> := map[];
    var k := 0;
    while k < |locals|
      invariant 0 <= k <= |locals|
      invariant DistinctNames(locals[..k])
      invariant m.Keys == set i | 0 <= i < k :: locals[i].0
      invariant forall i :: 0 <= i < k ==> locals[i].0 in m && m[locals[i].0] == locals[i].1
    {
      var (name, value) := locals[k];
      if name in m {
        var i :| 0 <= i < k && locals[i].0 == name;
        assert locals[i].0 == locals[k].0;
        return Err(IllegalArgument);
      }
      m := m[name := value];
      k := k + 1;
    }
    assert locals[..k] == locals;
    return Ok(m);
  }

  /** new DeclaringContext(locals): a root scope, or IllegalArgumentException on a duplicate name. */
  method NewDeclaringContext(locals: seq<(string, Value)>) returns (r: Result<Context>)
    ensures r.Ok? <==> DistinctNames(locals)
    ensures r.Err? ==> r.error == IllegalArgument
    ensures r.Ok? ==> r.value.scope == Declaring && r.value.parent.None? && r.value.flags == 0
    ensures r.Ok? ==> forall i :: 0 <= i < |locals| ==> Lookup(r.value, locals[i].0, None) == Some(locals[i].1)
  {
    var m := ToLocalsMap(locals);
    if m.Err? {
      return Err(m.error);
    }
    return Ok(Context(Declaring, None, 0, m.value));
  }

  /** CallingContext.merge(a, b): parent a, b's locals and b's current consumer. */
  function Merge(a: Context, b: Context): (r: Context)
    ensures r.scope == Calling(CurrentConsumer(b)) && r.parent == Some(a) && r.locals == b.locals
  {
    Context(Calling(CurrentConsumer(b)), Some(a), 0, b.locals)
  }

  /** A merged context sees b's locals first and then everything a sees, and hands out b's consumer. */
  lemma MergeLookup(a: Context, b: Context, name: string, default: Option<Value>)
    ensures Lookup(Merge(a, b), name, default) ==
      if name in b.locals then Some(b.locals[name]) else Lookup(a, name, default)
    ensures CurrentConsumer(Merge(a, b)) == CurrentConsumer(b)
  {
  }

  /**
   * mergeWithBuiltInsAndVariables(a, b, vars): the variables, over a scope
   * holding the declaring context's locals whose own parent is a; only
   * built-in names get past the variables.
   */
  function MergeWithBuiltIns(a: Context, b: Context, vars: map<string, Value>): (r: Context)
    ensures r.scope == Plain && r.flags == ParentBuiltinsOnly && r.locals == vars
    ensures r.parent == Some(Context(Plain, Some(a), 0, b.locals))
  {
    Context(Plain, Some(Context(Plain, Some(a), 0, b.locals)), ParentBuiltinsOnly, vars)
  }

  /** What an invoked rule sees: its arguments; then, for built-in names only, the declaring locals and the caller's chain. */
  lemma MergeWithBuiltInsLookup(a: Context, b: Context, vars: map<string, Value>, name: string, default: Option<Value>)
    ensures Lookup(MergeWithBuiltIns(a, b, vars), name, default) ==
      if name in vars then Some(vars[name])
      else if !IsBuiltin(name) then default
      else if name in b.locals then Some(b.locals[name])
      else Lookup(a, name, default)
    ensures CurrentConsumer(MergeWithBuiltIns(a, b, vars)) == CurrentConsumer(a)
  {
  }

  /** new CallingContext(ctx, consumer): ctx's locals with no parent, exposing the given consumer. */
  function WithConsumer(ctx: Context, consumer: Option<ConsumerId>): (r: Context)
    ensures r.scope == Calling(consumer) && r.parent.None? && r.flags == 0 && r.locals == ctx.locals
  {
    Context(Calling(consumer), None, 0, ctx.locals)
  }

  lemma WithConsumerLookup(ctx: Context, consumer: Option<ConsumerId>, name: string, default: Option<Value>)
    ensures Lookup(WithConsumer(ctx, consumer), name, default) ==
      if name in ctx.locals then Some(ctx.locals[name]) else default
    ensures CurrentConsumer(WithConsumer(ctx, consumer)) == consumer
  {
  }

  /** The class compared by getClass(): the consumer of a calling context is not part of it. */
  predicate SameClass(a: Scope, b: Scope) {
    (a.Plain? && b.Plain?) || (a.Declaring? && b.Declaring?) || (a.Calling? && b.Calling?)
  }

  /** equals: same class, equal locals, equal parent chains and equal flags. */
  predicate ContextEquals(a: Context, b: Context)
    decreases a
  {
    SameClass(a.scope, b.scope) && a.locals == b.locals && a.flags == b.flags
    && (a.parent.None? <==> b.parent.None?)
    && (a.parent.Some? ==> b.parent.Some? && ContextEquals(a.parent.value, b.parent.value))
  }

  lemma {:induction false} ContextEqualsReflexive(a: Context)
    ensures ContextEquals(a, a)
    decreases a
  {
    if a.parent.Some? {
      ContextEqualsReflexive(a.parent.value);
    }
  }

  lemma {:induction false} ContextEqualsSymmetric(a: Context, b: Context)
    requires ContextEquals(a, b)
    ensures ContextEquals(b, a)
    decreases a
  {
    if a.parent.Some? {
      ContextEqualsSymmetric(a.parent.value, b.parent.value);
    }
  }

  lemma {:induction false} ContextEqualsTransitive(a: Context, b: Context, c: Context)
    requires ContextEquals(a, b) && ContextEquals(b, c)
    ensures ContextEquals(a, c)
    decreases a
  {
    if a.parent.Some? {
      ContextEqualsTransitive(a.parent.value, b.parent.value, c.parent.value);
    }
  }

  /** Equal contexts answer every lookup alike, whatever their consumers. */
  lemma {:induction false} EqualContextsLookAlike(a: Context, b: Context, name: string, default: Option<Value>)
    requires ContextEquals(a, b)
    ensures Lookup(a, name, default) == Lookup(b, name, default)
    decreases a
  {
    if name !in a.locals && AsksParent(a, name) {
      EqualContextsLookAlike(a.parent.value, b.parent.value, name, default);
    }
  }

  /** Equality ignores the consumer: two calling contexts that differ only in it are equal. */
  lemma EqualityIgnoresConsumer(ctx: Context)
    ensures ContextEquals(WithConsumer(ctx, Some(0)), WithConsumer(ctx, Some(1)))
    ensures CurrentConsumer(WithConsumer(ctx, Some(0))) != CurrentConsumer(WithConsumer(ctx, Some(1)))
  {
  }

  /** The context as equals and hashCode see it: the consumer of every calling context on the chain dropped. */
  function Erased(c: Context): (r: Context)
    ensures r.locals == c.locals && r.flags == c.flags && SameClass(r.scope, c.scope)
    ensures r.scope.Calling? ==> r.scope.consumer.None?
    decreases c
  {
    Context(if c.scope.Calling? then Calling(None) else c.scope,
            if c.parent.Some? then Some(Erased(c.parent.value)) else None,
            c.flags, c.locals)
  }

  /** Two contexts are equal exactly when their erasures are identical, so the erasure is a faithful hash key. */
  lemma {:induction false} ErasedIffEquals(a: Context, b: Context)
    ensures ContextEquals(a, b) <==> Erased(a) == Erased(b)
    decreases a
  {
    if a.parent.Some? && b.parent.Some? {
      ErasedIffEquals(a.parent.value, b.parent.value);
    }
  }

  /** One getValue of an InvokeParam: a reference is looked up again, a fixed parameter gives its object. */
  function ParamStep(v: Value, c: Context): Option<Value>
    requires v.IsParam()
  {
    match v
    case Reference(name) => Lookup(c, name, None)
    case Fixed(kind, id) => Some(Object(kind, id))
  }

  /**
   * The value after following parameters at most `fuel` times; running out
   * stands for the unbounded recursion of the source, which ends in a
   * StackOverflowError.
   */
  function Follow(c: Context, v: Option<Value>, fuel: nat): (r: Result<Option<Value>>)
    decreases fuel
  {
    if v.None? || !v.value.IsParam() then Ok(v)
    else if fuel == 0 then Err(StackOverflow)
    else Follow(c, ParamStep(v.value, c), fuel - 1)
  }

  /** A resolution never ends on an InvokeParam. */
  lemma {:induction false} FollowEndsOnObject(c: Context, v: Option<Value>, fuel: nat)
    ensures Follow(c, v, fuel).Ok? && Follow(c, v, fuel).value.Some? ==> !Follow(c, v, fuel).value.value.IsParam()
    decreases fuel
  {
    if v.Some? && v.value.IsParam() && fuel > 0 {
      FollowEndsOnObject(c, ParamStep(v.value, c), fuel - 1);
    }
  }

  /** More fuel never changes an answer that was reached. */
  lemma {:induction false} FollowFuelIrrelevant(c: Context, v: Option<Value>, fuel: nat, more: nat)
    requires fuel <= more && Follow(c, v, fuel).Ok?
    ensures Follow(c, v, more) == Follow(c, v, fuel)
    decreases fuel
  {
    if v.Some? && v.value.IsParam() {
      FollowFuelIrrelevant(c, ParamStep(v.value, c), fuel - 1, more - 1);
    }
  }

  /** A variable bound to a reference to itself never resolves. */
  lemma {:induction false} SelfReferenceNeverResolves(c: Context, name: string, fuel: nat)
    requires Lookup(c, name, None) == Some(Reference(name))
    ensures Follow(c, Some(Reference(name)), fuel) == Err(StackOverflow)
    decreases fuel
  {
    if fuel > 0 {
      SelfReferenceNeverResolves(c, name, fuel - 1);
    }
  }

  /**
   * VarReferenceParam.getValue: look the name up, then keep asking the
   * result for its value while it is an InvokeParam.
   */
  method ResolveReference(c: Context, varname: string, fuel: nat) returns (r: Result<Option<Value>>)
    ensures r == Follow(c, Lookup(c, varname, None), fuel)
  {
    var result := Lookup(c, varname, None);
    var left := fuel;
    while result.Some? && result.value.IsParam()
      invariant Follow(c, result, left) == Follow(c, Lookup(c, varname, None), fuel)
      decreases left
    {
      if left == 0 {
        return Err(StackOverflow);
      }
      result := ParamStep(result.value, c);
      left := left - 1;
    }
    return Ok(result);
  }
}
