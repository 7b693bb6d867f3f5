/** OccurrenceCounter: a mutable count of matches checked against an occurrence policy. */
module Counters {
  import opened Wrappers
  import opened Occurrences

  class OccurrenceCounter {
    var occurrence: Occurrence
    var count: int

    constructor (occurrence: Occurrence)
      ensures this.occurrence == occurrence && count == 0
    {
      this.occurrence := occurrence;
      count := 0;
    }

    /** The copy constructor: the same policy and the same count, in a separate counter. */
    constructor Copy(other: OccurrenceCounter)
      ensures occurrence == other.occurrence && count == other.count
    {
      occurrence := other.occurrence;
      count := other.count;
    }

    predicate CanOccurOnceMore() reads this {
      CanAcceptMore(occurrence, count)
    }

    predicate IsValidOccurrenceCount() reads this {
      IsValid(occurrence, count)
    }

    method AddOccurrence()
      modifies this
      ensures occurrence == old(occurrence) && count == old(count) + 1
    {
      count := count + 1;
    }

    /** Fails with an IllegalStateException instead of going below zero. */
    method RemoveOccurrence() returns (r: Outcome)
      modifies this
      ensures occurrence == old(occurrence)
      ensures r.Fail? <==> old(count) <= 0
      ensures r.Fail? ==> r.error == IllegalState && count == old(count)
      ensures r.Pass? ==> count == old(count) - 1 && count >= 0
    {
      if count <= 0 {
        return Fail(IllegalState);
      }
      count := count - 1;
      return Pass;
    }

    /** Adds every occurrence the policy still accepts, after which it accepts no more. */
    method AddAllOccurrenceSafely() returns (added: int)
      modifies this
      ensures occurrence == old(occurrence)
      ensures added == SafeAdd(occurrence, old(count)) && count == old(count) + added
      ensures old(count) <= MaxInt ==> added >= 0 && !CanOccurOnceMore()
      ensures forall c :: old(count) <= c < count ==> CanAcceptMore(occurrence, c)
    {
      added := SafeAdd(occurrence, count);
      ghost var before := count;
      count := count + added;
      if before <= MaxInt {
        SafeAddNonNegative(occurrence, before);
        SafeAddIsCapacity(occurrence, before, added);
      }
      forall c | before <= c < count ensures CanAcceptMore(occurrence, c) {
        SafeAddIsCapacity(occurrence, before, c - before);
      }
    }

    /** Adds the occurrences the policy still requires; a count that could still become valid becomes valid. */
    method AddAnyMoreRequired() returns (added: int)
      modifies this
      ensures occurrence == old(occurrence)
      ensures added == RequiredMore(occurrence, old(count)) && count == old(count) + added
      ensures occurrence.Single? && CanBecomeValid(occurrence.policy, old(count)) ==> added >= 0 && IsValidOccurrenceCount()
      ensures occurrence.Multiple? ==> added >= 0
      ensures occurrence.Multiple? && |occurrence.members| > 0 &&
        (forall i :: 0 <= i < |occurrence.members| ==> CanBecomeValid(occurrence.members[i], old(count)))
        ==> IsValidOccurrenceCount()
    {
      added := RequiredMore(occurrence, count);
      ghost var before := count;
      count := count + added;
      if occurrence.Single? && CanBecomeValid(occurrence.policy, before) {
        PolicyRequiredMoreSuffices(occurrence.policy, before);
      }
      if occurrence.Multiple? && |occurrence.members| > 0 &&
        forall i :: 0 <= i < |occurrence.members| ==> CanBecomeValid(occurrence.members[i], before)
      {
        MultipleRequiredMoreSuffices(occurrence.members, before);
      }
    }

    method Reset(occurrence: Occurrence)
      modifies this
      ensures this.occurrence == occurrence && count == 0
    {
      this.occurrence := occurrence;
      count := 0;
    }

    method ResetFrom(other: OccurrenceCounter)
      modifies this
      ensures occurrence == old(other.occurrence) && count == old(other.count)
    {
      occurrence := other.occurrence;
      count := other.count;
    }
  }

  /** Below the 32-bit ceiling no policy has a negative safe-add count. */
  lemma SafeAddNonNegative(o: Occurrence, count: int)
    requires count <= MaxInt
    ensures SafeAdd(o, count) >= 0
  {
    if o.Multiple? {
      MaxSafeAddIsMaximum(o.members, count);
    }
  }
}
