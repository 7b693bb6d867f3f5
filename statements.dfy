/**
 * The parse tree. A Statement is a consumed leaf, a collection of child statements
 * or a named value wrapping one sub-statement; the ParsingInformation tree that
 * accompanies it records, per node, the rule that produced it and the region of
 * the input that rule inspected (its region of interest). ParsingResult pairs the
 * two, and CollectionStatement.Builder gathers the results of a container's children.
 */
module Statements {
  import opened Wrappers
  import opened Regions
  import opened CharSequences

  /** A rule is referred to by its id: rules compare by identity, which the id stands for. */
  type RuleId = int

  datatype Statement =
    | Consumed(position: Span, value: ArrayRange)
    | Collection(position: Span, raw: ArrayRange, children: seq<Statement>)
    | Valued(position: Span, name: string, value: ArrayRange, sub: Statement)

  /** getName: only a value statement carries a name; the others answer "". */
  function Name(s: Statement): string {
    if s.Valued? then s.name else ""
  }

  /** getDirectChildren: none for a leaf, the list for a collection, the sub-statement for a value. */
  function DirectChildren(s: Statement): (r: seq<Statement>)
    ensures forall c :: c in r ==> c < s
  {
    match s
    case Consumed(_, _) => []
    case Collection(_, _, children) => children
    case Valued(_, _, _, sub) => [sub]
  }

  /** toRawSequence: the matched input; a value statement delegates to its sub-statement. */
  function RawSequence(s: Statement): ArrayRange {
    match s
    case Consumed(_, value) => value
    case Collection(_, raw, _) => raw
    case Valued(_, _, _, sub) => RawSequence(sub)
  }

  /** getValue: a leaf's matched text, "" for a collection, the accumulated text of a value statement. */
  function ValueText(s: Statement): (r: Result<string>)
    ensures s.Collection? ==> r == Ok("")
    ensures s.Consumed? ==> r == ToString(RawSequence(s))
  {
    match s
    case Consumed(_, value) => ToString(value)
    case Collection(_, _, _) => Ok("")
    case Valued(_, _, value, _) => ToString(value)
  }

  /** getRawValue. */
  function RawText(s: Statement): Result<string> {
    ToString(RawSequence(s))
  }

  // ----- scopes -----

  /**
   * scopeTo: the named descendants called `scoper`, in order. Unnamed children are
   * looked through; a named child is taken when its name matches and never entered.
   */
  function ScopeTo(s: Statement, scoper: string): (r: seq<Statement>)
    ensures forall t :: t in r ==> Name(t) == scoper && scoper != ""
    ensures scoper == "" ==> r == []
    decreases s, 1
  {
    match s
    case Consumed(_, _) => []
    case Collection(_, _, children) => ScopeToChildren(s, scoper, 0)
    case Valued(_, _, _, sub) => ScopeTo(sub, scoper)
  }

  function ScopeToChildren(s: Statement, scoper: string, i: nat): (r: seq<Statement>)
    requires s.Collection? && i <= |s.children|
    ensures forall t :: t in r ==> Name(t) == scoper && scoper != ""
    ensures scoper == "" ==> r == []
    decreases s, 0, |s.children| - i
  {
    if i == |s.children| then []
    else
      var c := s.children[i];
      (if Name(c) == "" then ScopeTo(c, scoper) else if scoper == Name(c) then [c] else [])
      + ScopeToChildren(s, scoper, i + 1)
  }

  /** getScopes: every named descendant reachable through unnamed ones, with its name, in order. */
  function Scopes(s: Statement): (r: seq<(string, Statement)>)
    ensures forall p :: p in r ==> p.0 == Name(p.1) && p.0 != "" && p.1 < s
    decreases s, 1
  {
    match s
    case Consumed(_, _) => []
    case Collection(_, _, children) => ScopesOfChildren(s, 0)
    case Valued(_, _, _, sub) => Scopes(sub)
  }

  function ScopesOfChildren(s: Statement, i: nat): (r: seq<(string, Statement)>)
    requires s.Collection? && i <= |s.children|
    ensures forall p :: p in r ==> p.0 == Name(p.1) && p.0 != "" && p.1 < s
    decreases s, 0, |s.children| - i
  {
    if i == |s.children| then []
    else
      var c := s.children[i];
      (if Name(c) == "" then Scopes(c) else [(Name(c), c)]) + ScopesOfChildren(s, i + 1)
  }

  /** The statements of a scope list that carry the given name, in order. */
  function Named(ps: seq<(string, Statement)>, name: string): seq<Statement> {
    if ps == [] then []
    else (if ps[0].0 == name then [ps[0].1] else []) + Named(ps[1..], name)
  }

  lemma {:induction false} NamedAppend(a: seq<(string, Statement)>, b: seq<(string, Statement)>, name: string)
    ensures Named(a + b, name) == Named(a, name) + Named(b, name)
  {
    if a == [] {
      assert a + b == b;
    } else {
      var head := if a[0].0 == name then [a[0].1] else [];
      assert (a + b)[0] == a[0] && (a + b)[1..] == a[1..] + b;
      NamedAppend(a[1..], b, name);
      calc {
        Named(a + b, name);
        head + Named(a[1..] + b, name);
        head + (Named(a[1..], name) + Named(b, name));
        (head + Named(a[1..], name)) + Named(b, name);
      }
    }
  }

  /** isScopesEmpty: no child is named and no unnamed child has scopes. */
  predicate IsScopesEmpty(s: Statement)
    decreases s, 1
  {
    match s
    case Consumed(_, _) => true
    case Collection(_, _, children) => ChildrenScopesEmpty(s, 0)
    case Valued(_, _, _, sub) => IsScopesEmpty(sub)
  }

  predicate ChildrenScopesEmpty(s: Statement, i: nat)
    requires s.Collection? && i <= |s.children|
    decreases s, 0, |s.children| - i
  {
    i == |s.children|
    || (Name(s.children[i]) == "" && IsScopesEmpty(s.children[i]) && ChildrenScopesEmpty(s, i + 1))
  }

  /** isScopesEmpty(scoper): no child carries the name, and no unnamed child has such a scope. */
  predicate IsScopesEmptyFor(s: Statement, scoper: string)
    decreases s, 1
  {
    match s
    case Consumed(_, _) => true
    case Collection(_, _, children) => ChildrenScopesEmptyFor(s, scoper, 0)
    case Valued(_, _, _, sub) => IsScopesEmptyFor(sub, scoper)
  }

  predicate ChildrenScopesEmptyFor(s: Statement, scoper: string, i: nat)
    requires s.Collection? && i <= |s.children|
    decreases s, 0, |s.children| - i
  {
    i == |s.children|
    || (scoper != Name(s.children[i])
        && (Name(s.children[i]) == "" ==> IsScopesEmptyFor(s.children[i], scoper))
        && ChildrenScopesEmptyFor(s, scoper, i + 1))
  }

  /** scopeTo(n) is getScopes filtered by the name n. */
  lemma {:induction false} ScopeToFiltersScopes(s: Statement, scoper: string)
    ensures ScopeTo(s, scoper) == Named(Scopes(s), scoper)
    decreases s, 1
  {
    match s
    case Consumed(_, _) =>
    case Collection(_, _, children) => ChildrenScopeToFilters(s, scoper, 0);
    case Valued(_, _, _, sub) => ScopeToFiltersScopes(sub, scoper);
  }

  lemma {:induction false} ChildrenScopeToFilters(s: Statement, scoper: string, i: nat)
    requires s.Collection? && i <= |s.children|
    ensures ScopeToChildren(s, scoper, i) == Named(ScopesOfChildren(s, i), scoper)
    decreases s, 0, |s.children| - i
  {
    if i < |s.children| {
      var c := s.children[i];
      var head := if Name(c) == "" then Scopes(c) else [(Name(c), c)];
      ChildrenScopeToFilters(s, scoper, i + 1);
      NamedAppend(head, ScopesOfChildren(s, i + 1), scoper);
      if Name(c) == "" {
        ScopeToFiltersScopes(c, scoper);
      } else {
        assert head[1..] == [];
      }
    }
  }

  /** isScopesEmpty() holds exactly when getScopes() is empty. */
  lemma {:induction false} IsScopesEmptyMeansNoScopes(s: Statement)
    ensures IsScopesEmpty(s) <==> Scopes(s) == []
    decreases s, 1
  {
    match s
    case Consumed(_, _) =>
    case Collection(_, _, children) => ChildrenScopesEmptyMeansNone(s, 0);
    case Valued(_, _, _, sub) => IsScopesEmptyMeansNoScopes(sub);
  }

  lemma {:induction false} ChildrenScopesEmptyMeansNone(s: Statement, i: nat)
    requires s.Collection? && i <= |s.children|
    ensures ChildrenScopesEmpty(s, i) <==> ScopesOfChildren(s, i) == []
    decreases s, 0, |s.children| - i
  {
    if i < |s.children| {
      var c := s.children[i];
      ChildrenScopesEmptyMeansNone(s, i + 1);
      if Name(c) == "" {
        IsScopesEmptyMeansNoScopes(c);
      }
    }
  }

  /** For a non-empty name, isScopesEmpty(n) holds exactly when scopeTo(n) is empty. */
  lemma {:induction false} IsScopesEmptyForMeansNoScope(s: Statement, scoper: string)
    requires scoper != ""
    ensures IsScopesEmptyFor(s, scoper) <==> ScopeTo(s, scoper) == []
    decreases s, 1
  {
    match s
    case Consumed(_, _) =>
    case Collection(_, _, children) => ChildrenScopesEmptyForMeansNone(s, scoper, 0);
    case Valued(_, _, _, sub) => IsScopesEmptyForMeansNoScope(sub, scoper);
  }

  lemma {:induction false} ChildrenScopesEmptyForMeansNone(s: Statement, scoper: string, i: nat)
    requires scoper != "" && s.Collection? && i <= |s.children|
    ensures ChildrenScopesEmptyFor(s, scoper, i) <==> ScopeToChildren(s, scoper, i) == []
    decreases s, 0, |s.children| - i
  {
    if i < |s.children| {
      var c := s.children[i];
      ChildrenScopesEmptyForMeansNone(s, scoper, i + 1);
      if Name(c) == "" {
        IsScopesEmptyForMeansNoScope(c, scoper);
      }
    }
  }

  /** The empty name is where the two queries part: an unnamed child makes isScopesEmpty("") false. */
  lemma IsScopesEmptyForEmptyNameDiffers(p: Span, v: ArrayRange)
    ensures ScopeTo(Collection(p, v, [Consumed(p, v)]), "") == []
    ensures !IsScopesEmptyFor(Collection(p, v, [Consumed(p, v)]), "")
  {
    var s := Collection(p, v, [Consumed(p, v)]);
    assert !ChildrenScopesEmptyFor(s, "", 0);
  }

  /** firstScope: the first statement scopeTo finds; a consumed leaf answers none directly. */
  function FirstScope(s: Statement, scoper: string): (r: Option<Statement>)
    ensures r.None? <==> ScopeTo(s, scoper) == []
    ensures r.Some? ==> r.value == ScopeTo(s, scoper)[0] && Name(r.value) == scoper
  {
    if s.Consumed? then None
    else
      var scopes := ScopeTo(s, scoper);
      if scopes == [] then None else Some(scopes[0])
  }

  /** firstValue: the value text of firstScope, none when there is no such scope. */
  function FirstValue(s: Statement, scoper: string): (r: Result<Option<string>>)
    ensures FirstScope(s, scoper).None? ==> r == Ok(None)
    ensures FirstScope(s, scoper).Some? && ValueText(FirstScope(s, scoper).value).Ok? ==>
      r == Ok(Some(ValueText(FirstScope(s, scoper).value).value))
  {
    match FirstScope(s, scoper)
    case None => Ok(None)
    case Some(t) =>
      var text :- ValueText(t);
      Ok(Some(text))
  }

  // ----- value statements -----

  /** The ValueStatement constructor: its position is a copy of the sub-statement's. */
  function NewValueStatement(name: string, value: ArrayRange, sub: Statement): (r: Statement)
    ensures r.position == sub.position && Name(r) == name
    ensures RawSequence(r) == RawSequence(sub) && DirectChildren(r) == [sub]
    ensures Scopes(r) == Scopes(sub) && IsScopesEmpty(r) == IsScopesEmpty(sub)
    ensures forall n :: ScopeTo(r, n) == ScopeTo(sub, n) && IsScopesEmptyFor(r, n) == IsScopesEmptyFor(sub, n)
  {
    Valued(sub.position, name, value, sub)
  }

  /** withName: a copy that differs from the original in the name only. */
  function WithName(s: Statement, name: string): (r: Statement)
    requires s.Valued?
    ensures Name(r) == name && r.Valued?
    ensures r.position == s.position && r.value == s.value && r.sub == s.sub
    ensures RawSequence(r) == RawSequence(s) && Scopes(r) == Scopes(s)
  {
    s.(name := name)
  }

  /** A consumed leaf: no children, no scopes, no first scope, and its value is its raw text. */
  lemma ConsumedLeafFacts(position: Span, value: ArrayRange, scoper: string)
    ensures var s := Consumed(position, value);
      DirectChildren(s) == [] && Scopes(s) == [] && ScopeTo(s, scoper) == []
      && IsScopesEmpty(s) && IsScopesEmptyFor(s, scoper)
      && FirstScope(s, scoper).None? && FirstValue(s, scoper) == Ok(None)
      && ValueText(s) == RawText(s)
  {
  }

  // ----- contentsEquals -----

  /**
   * toValueSequence: the value object of a leaf or a value statement; a
   * collection answers the empty string, which equals every other empty
   * string and no value object.
   */
  function ValueObject(s: Statement): (r: Option<ArrayRange>)
    ensures r.None? <==> s.Collection?
  {
    match s
    case Consumed(_, value) => Some(value)
    case Collection(_, _, _) => None
    case Valued(_, _, value, _) => Some(value)
  }

  /**
   * contentsEquals: equal names, equal value sequences, and scope lists of one
   * length whose statements are pairwise contents-equal. ArrayRangeCharSequence
   * does not override equals, so value sequences are compared as objects.
   */
  predicate ContentsEquals(a: Statement, b: Statement)
    decreases a
  {
    Name(a) == Name(b) && ValueObject(a) == ValueObject(b)
    && |Scopes(a)| == |Scopes(b)|
    && forall i :: 0 <= i < |Scopes(a)| ==> ContentsEquals(Scopes(a)[i].1, Scopes(b)[i].1)
  }

  lemma {:induction false} ContentsEqualsReflexive(a: Statement)
    ensures ContentsEquals(a, a)
    decreases a
  {
    forall i | 0 <= i < |Scopes(a)|
      ensures ContentsEquals(Scopes(a)[i].1, Scopes(a)[i].1)
    {
      assert Scopes(a)[i] in Scopes(a);
      ContentsEqualsReflexive(Scopes(a)[i].1);
    }
  }

  lemma {:induction false} ContentsEqualsSymmetric(a: Statement, b: Statement)
    requires ContentsEquals(a, b)
    ensures ContentsEquals(b, a)
    decreases a
  {
    forall i | 0 <= i < |Scopes(b)|
      ensures ContentsEquals(Scopes(b)[i].1, Scopes(a)[i].1)
    {
      assert Scopes(a)[i] in Scopes(a);
      ContentsEqualsSymmetric(Scopes(a)[i].1, Scopes(b)[i].1);
    }
  }

  lemma {:induction false} ContentsEqualsTransitive(a: Statement, b: Statement, c: Statement)
    requires ContentsEquals(a, b) && ContentsEquals(b, c)
    ensures ContentsEquals(a, c)
    decreases a
  {
    forall i | 0 <= i < |Scopes(a)|
      ensures ContentsEquals(Scopes(a)[i].1, Scopes(c)[i].1)
    {
      assert Scopes(a)[i] in Scopes(a);
      ContentsEqualsTransitive(Scopes(a)[i].1, Scopes(b)[i].1, Scopes(c)[i].1);
    }
  }

  /** Contents-equal statements have equal value texts: sharing the value object shares its characters. */
  lemma ContentsEqualMeansEqualText(a: Statement, b: Statement)
    requires ContentsEquals(a, b)
    ensures ValueText(a) == ValueText(b) && Name(a) == Name(b)
  {
  }

  /**
   * Two leaves parsed separately from the same text are not contents-equal,
   * because each parse makes its own value object; a statement and its clone are.
   */
  lemma SeparateParsesAreNotContentsEqual(p: Span, data: seq<char>, x: Identity, y: Identity)
    requires x != y
    ensures var a, b := Consumed(p, ArrayRange(data, 0, |data|, x)), Consumed(p, ArrayRange(data, 0, |data|, y));
      ValueText(a) == ValueText(b) && !ContentsEquals(a, b) && ContentsEquals(a, a)
  {
    var a := Consumed(p, ArrayRange(data, 0, |data|, x));
    ContentsEqualsReflexive(a);
  }

  // ----- parsing information -----

  /**
   * ParsingInformation: the producing rule and its region of interest. `Listing` is
   * CollectionParsingInformation (in-order and any-order containers), `Chosen` the
   * first-order container's, which also records the alternative that matched, and
   * `Wrapped` the value and invoke rules' single-child information.
   */
  datatype Info =
    | Plain(rule: RuleId, roi: Span)
    | Listing(rule: RuleId, roi: Span, children: seq<Info>)
    | Chosen(rule: RuleId, roi: Span, children: seq<Info>, alternative: int)
    | Wrapped(rule: RuleId, roi: Span, sub: Info)

  /** getChildren: a plain node has none. */
  function InfoChildren(i: Info): (r: seq<Info>)
    ensures forall c :: c in r ==> c < i
    ensures i.Plain? ==> r == []
  {
    match i
    case Plain(_, _) => []
    case Listing(_, _, children) => children
    case Chosen(_, _, children, _) => children
    case Wrapped(_, _, sub) => [sub]
  }

  /** ParsingResult: a statement (none on failure) and its parsing information. */
  datatype ParsingResult = ParsingResult(statement: Option<Statement>, info: Info)

  /** isSucceeded: the result carries a statement. */
  predicate IsSucceeded(r: ParsingResult) { r.statement.Some? }

  /** The region of interest contains the statement's position. */
  predicate Inside(roi: Span, position: Span) {
    roi.Encloses(position.offset, position.length)
  }

  /**
   * The ParsingResult constructor: a successful result whose position is not inside
   * its region of interest is refused with IllegalStateException.
   */
  function NewResult(statement: Option<Statement>, info: Info): (r: Result<ParsingResult>)
    ensures r.Ok? <==> (statement.Some? ==> Inside(info.roi, statement.value.position))
    ensures r.Err? ==> r.error == IllegalState
    ensures r.Ok? ==> r.value.statement == statement && r.value.info == info
    ensures r.Ok? ==> (IsSucceeded(r.value) <==> statement.Some?)
  {
    if statement.Some? && !Inside(info.roi, statement.value.position) then Err(IllegalState)
    else Ok(ParsingResult(statement, info))
  }

  /** A failure result: no statement, only the information. */
  function FailedResult(info: Info): (r: ParsingResult)
    ensures !IsSucceeded(r) && r.info == info
  {
    ParsingResult(None, info)
  }

  // ----- CollectionStatement.Builder -----

  /** CollectionStatement.Builder: the successful results of a container's children, in order. */
  class Builder {
    var children: seq<ParsingResult>

    predicate Valid() reads this {
      forall i :: 0 <= i < |children| ==> IsSucceeded(children[i])
    }

    constructor ()
      ensures children == [] && Valid()
    {
      children := [];
    }

    /** add: appends a successful result. */
    method Add(r: ParsingResult)
      requires Valid() && IsSucceeded(r)
      modifies this
      ensures children == old(children) + [r] && Valid()
    {
      children := children + [r];
    }

    /** clear: forgets every result. */
    method Clear()
      modifies this
      ensures children == [] && Valid()
    {
      children := [];
    }

    /** size. */
    function Size(): (n: nat)
      reads this
      ensures n == |children|
    {
      |children|
    }

    /** getStatements: the statements of the results, in order. */
    function Statements(): (r: seq<Statement>)
      requires Valid()
      reads this
      ensures |r| == |children|
      ensures forall i :: 0 <= i < |r| ==> Some(r[i]) == children[i].statement
    {
      seq(|children|, i requires 0 <= i < |children| && Valid() reads this => children[i].statement.value)
    }

    /** getParsingInformations: the information of the results, in order. */
    function Infos(): (r: seq<Info>)
      reads this
      ensures |r| == |children|
      ensures forall i :: 0 <= i < |r| ==> r[i] == children[i].info
    {
      seq(|children|, i requires 0 <= i < |children| reads this => children[i].info)
    }

    /** build: a collection over the document at `position`, holding the gathered statements. */
    function Build(s: DocumentData, position: Span, info: Info): (r: Result<ParsingResult>)
      requires Valid()
      reads this, s
      ensures r.Ok? <==> Inside(info.roi, position)
      ensures r.Ok? ==>
        r.value.info == info
        && r.value.statement == Some(Collection(position, s.SubDocumentSequence(position), Statements()))
    {
      NewResult(Some(Collection(position, s.SubDocumentSequence(position), Statements())), info)
    }

    /** fail: a result with no statement. */
    function Fail(info: Info): (r: ParsingResult)
      ensures !IsSucceeded(r) && r.info == info
    {
      FailedResult(info)
    }
  }
}
