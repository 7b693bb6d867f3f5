/**
 * The rule objects a language is built from and RuleFactory, which creates
 * them: every rule it hands out gets the next id, and a container rule
 * gathers its children, each with the occurrence and the declaring context
 * it is used under.
 */
module Grammar {
  import opened Wrappers
  import opened Occurrences
  import opened Contexts
  import opened Rules

  /** The concrete rule classes. */
  datatype RuleType = InOrderRule | FirstOrderRule | AnyOrderRule | ValueRule | MatchesRule | SkipRule | InvokeRule

  /** Which skipped hook a class has: the three orders inherit ContainerRule's, ValueRule overrides it with nothing. */
  function HookOf(t: RuleType): (k: Kind)
    ensures k.Container? <==> t in {InOrderRule, FirstOrderRule, AnyOrderRule}
    ensures k.Matches? <==> t == MatchesRule
  {
    match t
    case InOrderRule => Container
    case FirstOrderRule => Container
    case AnyOrderRule => Container
    case ValueRule => ValueKind
    case MatchesRule => Matches
    case SkipRule => Skip
    case InvokeRule => Invoke
  }

  /** ParseTimeData: the occurrence a child is used with, and the context it was declared in. */
  datatype ParseTimeData = ParseTimeData(occurrence: Occurrence, declaring: Option<Context>)

  datatype Child = Child(rule: Rule, data: ParseTimeData)

  class Rule {
    const name: string
    const ruleType: RuleType
    var ruleId: int
    var children: seq<Child>

    /** A new rule has id 0 until a factory numbers it, and no children. */
    constructor (name: string, ruleType: RuleType)
      ensures this.name == name && this.ruleType == ruleType
      ensures ruleId == 0 && children == []
    {
      this.name := name;
      this.ruleType := ruleType;
      ruleId := 0;
      children := [];
    }

    /** addChild: appends the child with its parse-time data and returns the rule itself, for chaining. */
    method AddChild(rule: Rule, data: ParseTimeData) returns (self: Rule)
      modifies this
      ensures self == this
      ensures children == old(children) + [Child(rule, data)]
      ensures ruleId == old(ruleId)
    {
      children := children + [Child(rule, data)];
      return this;
    }
  }

  /** The text Pattern.compile is given: anchored at the start of the input, with the pattern in a non-capturing group. */
  function Anchored(pattern: string): string {
    "\\A(?:" + pattern + ")"
  }

  /** The wrapping keeps the pattern recoverable: it is the text between the fixed prefix and the closing parenthesis. */
  lemma AnchoredUnwraps(pattern: string)
    ensures |Anchored(pattern)| == |pattern| + 6
    ensures Anchored(pattern)[..5] == "\\A(?:" && Anchored(pattern)[|Anchored(pattern)| - 1] == ')'
    ensures Anchored(pattern)[5..|Anchored(pattern)| - 1] == pattern
  {
  }

  /** Different patterns compile to different texts. */
  lemma AnchoredInjective(p: string, q: string)
    requires Anchored(p) == Anchored(q)
    ensures p == q
  {
    AnchoredUnwraps(p);
    AnchoredUnwraps(q);
  }

  class RuleFactory {
    var counter: int
    /** The rules this factory numbered, in order. */
    ghost var issued: seq<Rule>

    /** The i-th rule handed out carries id i + 1, and the counter is the last id given. */
    ghost predicate Valid()
      reads this, set r | r in issued
    {
      && counter == |issued|
      && forall i :: 0 <= i < |issued| ==> issued[i].ruleId == i + 1
    }

    constructor ()
      ensures Valid() && counter == 0 && issued == []
    {
      counter := 0;
      issued := [];
    }

    /**
     * pattern: compiles the anchored text; a text the regular-expression
     * compiler refuses becomes an IllegalArgumentException.
     */
    method Pattern(pattern: string, compiles: string -> bool) returns (r: Result<string>)
      ensures r.Ok? <==> compiles(Anchored(pattern))
      ensures r.Ok? ==> r.value == Anchored(pattern)
      ensures r.Err? ==> r.error == IllegalArgument
    {
      var text := Anchored(pattern);
      if !compiles(text) {
        return Err(IllegalArgument);
      }
      return Ok(text);
    }

    /** create*Rule and returnRule: a new rule of the class, numbered with the next id. */
    method CreateRule(name: string, ruleType: RuleType) returns (rule: Rule)
      requires Valid()
      modifies this
      ensures fresh(rule) && rule.name == name && rule.ruleType == ruleType && rule.children == []
      ensures rule.ruleId == old(counter) + 1
      ensures counter == old(counter) + 1 && issued == old(issued) + [rule]
      ensures Valid()
    {
      rule := new Rule(name, ruleType);
      counter := counter + 1;
      rule.ruleId := counter;
      issued := issued + [rule];
    }

    /** createValueRule(name, r, data): a value rule whose single child is r. */
    method CreateValueRule(name: string, child: Rule, data: ParseTimeData) returns (rule: Rule)
      requires Valid()
      modifies this
      ensures fresh(rule) && rule.name == name && rule.ruleType == ValueRule
      ensures rule.children == [Child(child, data)]
      ensures rule.ruleId == old(counter) + 1
      ensures counter == old(counter) + 1 && issued == old(issued) + [rule]
      ensures Valid()
    {
      rule := CreateRule(name, ValueRule);
      var self := rule.AddChild(child, data);
    }

    /** The ids a factory hands out increase strictly with the order of creation, so no two of its rules share one. */
    lemma IdsIncrease(i: int, j: int)
      requires Valid() && 0 <= i < j < |issued|
      ensures issued[i].ruleId < issued[j].ruleId
      ensures issued[i] != issued[j]
    {
    }
  }
}
