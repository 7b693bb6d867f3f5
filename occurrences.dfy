/**
 * Occurrence policies: how many times a child rule may or must match.
 * Each policy answers four questions about a current count: is the count
 * valid, can one more occurrence be accepted, how many more can safely be
 * added, and how many more are required.
 *
 * `MultipleOccurrence` is only ever built by `Occurrence.parse` out of
 * `parseSingle` results, so a multiple occurrence holds single policies and
 * never nests.
 */
module Occurrences {

  /** Java's Integer.MAX_VALUE, which the unbounded policies use as their ceiling. */
  const MaxInt: int := 0x7fff_ffff

  datatype Policy =
    | Exact(n: int)
    | AtLeast(min: int)
    | AtMost(max: int)
    | Range(start: int, end: int)
    | Any

  datatype Occurrence = Single(policy: Policy) | Multiple(members: seq<Policy>)

  // The shared constants of the Occurrence class.
  const AnyOccurrence := Single(Any)
  const Zero := Single(Exact(0))
  const Once := Single(Exact(1))
  const MinOnce := Single(AtLeast(1))
  const MaxOnce := Single(AtMost(1))

  // ----- the single policies -----

  predicate PolicyValid(p: Policy, count: int) {
    match p
    case Exact(n) => count == n
    case AtLeast(min) => count >= min
    case AtMost(max) => count <= max
    case Range(start, end) => start <= count <= end
    case Any => true
  }

  predicate PolicyCanAcceptMore(p: Policy, count: int) {
    match p
    case Exact(n) => count < n
    case AtLeast(_) => count < MaxInt
    case AtMost(max) => count < max
    case Range(_, end) => count < end
    case Any => count < MaxInt
  }

  function PolicySafeAdd(p: Policy, count: int): int {
    match p
    case Exact(n) => if count < n then n - count else 0
    case AtLeast(_) => MaxInt - count
    case AtMost(max) => if max > count then max - count else 0
    case Range(_, end) => if count < end then end - count else 0
    case Any => MaxInt - count
  }

  /** As written in RangeOccurrence: a range below its start asks for `end - count` more, not `start - count`. */
  function PolicyRequiredMore(p: Policy, count: int): int {
    match p
    case Exact(n) => if count < n then n - count else 0
    case AtLeast(min) => if count < min then min - count else 0
    case AtMost(_) => 0
    case Range(start, end) => if count < start then end - count else 0
    case Any => 0
  }

  // ----- the multiple occurrence: folds over the members, in order -----

  /** The loop of getSafelyAddCount: the running maximum, starting from 0. */
  function MaxSafeAdd(ms: seq<Policy>, count: int): int {
    if |ms| == 0 then 0
    else
      var max := MaxSafeAdd(ms[..|ms| - 1], count);
      var c := PolicySafeAdd(ms[|ms| - 1], count);
      if c > max then c else max
  }

  /** The loop of getRequiredMoreCount: a running minimum whose sentinel -1 means "none yet". */
  function MinRequiredMore(ms: seq<Policy>, count: int): int {
    if |ms| == 0 then -1
    else
      var min := MinRequiredMore(ms[..|ms| - 1], count);
      var req := PolicyRequiredMore(ms[|ms| - 1], count);
      if min < 0 then req else if req < min then req else min
  }

  // ----- the four queries on an occurrence -----

  predicate IsValid(o: Occurrence, count: int) {
    match o
    case Single(p) => PolicyValid(p, count)
    case Multiple(ms) => exists i :: 0 <= i < |ms| && PolicyValid(ms[i], count)
  }

  predicate CanAcceptMore(o: Occurrence, count: int) {
    match o
    case Single(p) => PolicyCanAcceptMore(p, count)
    case Multiple(ms) => exists i :: 0 <= i < |ms| && PolicyCanAcceptMore(ms[i], count)
  }

  function SafeAdd(o: Occurrence, count: int): int {
    match o
    case Single(p) => PolicySafeAdd(p, count)
    case Multiple(ms) => MaxSafeAdd(ms, count)
  }

  function RequiredMore(o: Occurrence, count: int): int {
    match o
    case Single(p) => PolicyRequiredMore(p, count)
    case Multiple(ms) => var min := MinRequiredMore(ms, count); if min < 0 then 0 else min
  }

  /** MultipleOccurrence.add: appends a member. */
  function Add(o: Occurrence, p: Policy): (r: Occurrence)
    requires o.Multiple?
    ensures r.Multiple? && |r.members| == |o.members| + 1 && r.members[..|o.members|] == o.members && r.members[|r.members| - 1] == p
  {
    Multiple(o.members + [p])
  }

  // ----- the loops of MultipleOccurrence, proved against the folds -----

  method MultipleIsValid(ms: seq<Policy>, count: int) returns (b: bool)
    ensures b == IsValid(Multiple(ms), count)
  {
    var i := 0;
    while i < |ms|
      invariant 0 <= i <= |ms|
      invariant forall j :: 0 <= j < i ==> !PolicyValid(ms[j], count)
    {
      if PolicyValid(ms[i], count) {
        return true;
      }
      i := i + 1;
    }
    return false;
  }

  method MultipleCanAcceptMore(ms: seq<Policy>, count: int) returns (b: bool)
    ensures b == CanAcceptMore(Multiple(ms), count)
  {
    var i := 0;
    while i < |ms|
      invariant 0 <= i <= |ms|
      invariant forall j :: 0 <= j < i ==> !PolicyCanAcceptMore(ms[j], count)
    {
      if PolicyCanAcceptMore(ms[i], count) {
        return true;
      }
      i := i + 1;
    }
    return false;
  }

  method MultipleSafeAdd(ms: seq<Policy>, count: int) returns (max: int)
    ensures max == SafeAdd(Multiple(ms), count)
  {
    max := 0;
    var i := 0;
    while i < |ms|
      invariant 0 <= i <= |ms|
      invariant max == MaxSafeAdd(ms[..i], count)
    {
      assert ms[..i + 1][..i] == ms[..i];
      var c := PolicySafeAdd(ms[i], count);
      if c > max {
        max := c;
      }
      i := i + 1;
    }
    assert ms[..i] == ms;
  }

  method MultipleRequiredMore(ms: seq<Policy>, count: int) returns (r: int)
    ensures r == RequiredMore(Multiple(ms), count)
  {
    var min := -1;
    var i := 0;
    while i < |ms|
      invariant 0 <= i <= |ms|
      invariant min == MinRequiredMore(ms[..i], count)
    {
      assert ms[..i + 1][..i] == ms[..i];
      var req := PolicyRequiredMore(ms[i], count);
      if min < 0 {
        min := req;
      } else {
        min := if req < min then req else min;
      }
      i := i + 1;
    }
    assert ms[..i] == ms;
    r := if min < 0 then 0 else min;
  }

  // ----- what the folds compute -----

  /** The safe-add fold is the largest member answer, and 0 when every member answers 0 or less. */
  lemma {:induction false} MaxSafeAddIsMaximum(ms: seq<Policy>, count: int)
    ensures MaxSafeAdd(ms, count) >= 0
    ensures forall i :: 0 <= i < |ms| ==> PolicySafeAdd(ms[i], count) <= MaxSafeAdd(ms, count)
    ensures MaxSafeAdd(ms, count) == 0 || exists i :: 0 <= i < |ms| && PolicySafeAdd(ms[i], count) == MaxSafeAdd(ms, count)
  {
    if |ms| > 0 {
      var init := ms[..|ms| - 1];
      MaxSafeAddIsMaximum(init, count);
      assert forall i :: 0 <= i < |init| ==> init[i] == ms[i];
    }
  }

  /** When no member asks for a negative count, the required-more fold is the smallest member answer (-1 for no members). */
  lemma {:induction false} MinRequiredMoreIsMinimum(ms: seq<Policy>, count: int)
    requires forall i :: 0 <= i < |ms| ==> PolicyRequiredMore(ms[i], count) >= 0
    ensures |ms| == 0 <==> MinRequiredMore(ms, count) < 0
    ensures forall i :: 0 <= i < |ms| ==> MinRequiredMore(ms, count) <= PolicyRequiredMore(ms[i], count)
    ensures |ms| > 0 ==> exists i :: 0 <= i < |ms| && PolicyRequiredMore(ms[i], count) == MinRequiredMore(ms, count)
  {
    if |ms| > 0 {
      var init := ms[..|ms| - 1];
      assert forall i :: 0 <= i < |init| ==> init[i] == ms[i];
      MinRequiredMoreIsMinimum(init, count);
      if |init| > 0 {
        var j :| 0 <= j < |init| && PolicyRequiredMore(init[j], count) == MinRequiredMore(init, count);
        assert PolicyRequiredMore(ms[j], count) == MinRequiredMore(init, count);
      }
    }
  }

  // ----- properties of the policies -----

  /** The safe-add count is exactly the number of further occurrences the policy accepts one by one. */
  lemma SafeAddIsCapacity(o: Occurrence, count: int, k: nat)
    ensures CanAcceptMore(o, count + k) <==> k < SafeAdd(o, count)
  {
    match o
    case Single(p) =>
    case Multiple(ms) =>
      MaxSafeAddIsMaximum(ms, count);
      if CanAcceptMore(o, count + k) {
        var i :| 0 <= i < |ms| && PolicyCanAcceptMore(ms[i], count + k);
        assert k < PolicySafeAdd(ms[i], count);
      } else if k < SafeAdd(o, count) {
        var i :| 0 <= i < |ms| && PolicySafeAdd(ms[i], count) == MaxSafeAdd(ms, count);
        assert PolicyCanAcceptMore(ms[i], count + k);
      }
  }

  /** Whether some count at or above `count` is valid for the policy, stated without a quantifier. */
  predicate CanBecomeValid(p: Policy, count: int) {
    match p
    case Exact(n) => count <= n
    case AtLeast(_) => true
    case AtMost(max) => count <= max
    case Range(start, end) => start <= end && count <= end
    case Any => true
  }

  lemma CanBecomeValidMeansReachable(p: Policy, count: int)
    ensures CanBecomeValid(p, count) <==> exists c :: c >= count && PolicyValid(p, c)
  {
    if CanBecomeValid(p, count) {
      var c := match p
        case Exact(n) => n
        case AtLeast(min) => if count < min then min else count
        case AtMost(_) => count
        case Range(start, _) => if count < start then start else count
        case Any => count;
      assert PolicyValid(p, c);
    }
  }

  /** Adding the required-more count to a count that can still become valid makes it valid, and never asks for a negative count. */
  lemma PolicyRequiredMoreSuffices(p: Policy, count: int)
    requires CanBecomeValid(p, count)
    ensures PolicyRequiredMore(p, count) >= 0
    ensures PolicyValid(p, count + PolicyRequiredMore(p, count))
  {
  }

  /** Except for a range, the required-more count is the least that makes the count valid. */
  lemma PolicyRequiredMoreIsLeast(p: Policy, count: int, k: nat)
    requires !p.Range?
    requires k < PolicyRequiredMore(p, count)
    ensures !PolicyValid(p, count + k)
  {
  }

  /** A range below its start is asked to go all the way to its end: Range(2, 5) at 0 asks for 5 although 2 would be valid. */
  lemma RangeRequiredMoreOvershoots()
    ensures PolicyRequiredMore(Range(2, 5), 0) == 5
    ensures PolicyValid(Range(2, 5), 0 + 2)
  {
  }

  /** A valid count needs nothing more. */
  lemma ValidNeedsNothingMore(o: Occurrence, count: int)
    requires IsValid(o, count)
    requires o.Multiple? ==> forall i :: 0 <= i < |o.members| ==> CanBecomeValid(o.members[i], count) || o.members[i].Exact?
    ensures RequiredMore(o, count) == 0
  {
    if o.Multiple? {
      var ms := o.members;
      forall i | 0 <= i < |ms| ensures PolicyRequiredMore(ms[i], count) >= 0 {
        if CanBecomeValid(ms[i], count) { PolicyRequiredMoreSuffices(ms[i], count); }
      }
      MinRequiredMoreIsMinimum(ms, count);
      var i :| 0 <= i < |ms| && PolicyValid(ms[i], count);
      assert PolicyRequiredMore(ms[i], count) == 0;
    }
  }

  /**
   * For a multiple occurrence whose members can all still become valid,
   * adding the required-more count makes it valid.
   */
  lemma MultipleRequiredMoreSuffices(ms: seq<Policy>, count: int)
    requires |ms| > 0
    requires forall i :: 0 <= i < |ms| ==> CanBecomeValid(ms[i], count)
    ensures RequiredMore(Multiple(ms), count) >= 0
    ensures IsValid(Multiple(ms), count + RequiredMore(Multiple(ms), count))
  {
    forall i | 0 <= i < |ms| ensures PolicyRequiredMore(ms[i], count) >= 0 {
      PolicyRequiredMoreSuffices(ms[i], count);
    }
    MinRequiredMoreIsMinimum(ms, count);
    var i :| 0 <= i < |ms| && PolicyRequiredMore(ms[i], count) == MinRequiredMore(ms, count);
    PolicyRequiredMoreSuffices(ms[i], count);
  }

  /**
   * A member that can never become valid still takes part in the minimum:
   * "1|5+" after 3 occurrences asks for nothing more and stays invalid,
   * although 5 occurrences would be valid.
   */
  lemma MultipleRequiredMoreMayStayInvalid()
    ensures RequiredMore(Multiple([Exact(1), AtLeast(5)]), 3) == 0
    ensures !IsValid(Multiple([Exact(1), AtLeast(5)]), 3)
    ensures IsValid(Multiple([Exact(1), AtLeast(5)]), 5)
  {
    var ms := [Exact(1), AtLeast(5)];
    assert ms[..1] == [Exact(1)];
    assert [Exact(1)][..0] == [];
    assert PolicyValid(ms[1], 5);
  }

  /** For every count the counter can reach, "0+" (which parses to Any) and AtLeast(0) answer alike. */
  lemma AtLeastZeroIsAny(count: int)
    requires count >= 0
    ensures PolicyValid(AtLeast(0), count) == PolicyValid(Any, count)
    ensures PolicyCanAcceptMore(AtLeast(0), count) == PolicyCanAcceptMore(Any, count)
    ensures PolicySafeAdd(AtLeast(0), count) == PolicySafeAdd(Any, count)
    ensures PolicyRequiredMore(AtLeast(0), count) == PolicyRequiredMore(Any, count)
  {
  }

  /** Every policy accepts more only below a ceiling: a counter that can take no more still cannot once its count grows. */
  lemma CanAcceptMoreAntitone(o: Occurrence, c1: int, c2: int)
    requires c1 <= c2 && CanAcceptMore(o, c2)
    ensures CanAcceptMore(o, c1)
  {
  }
}
