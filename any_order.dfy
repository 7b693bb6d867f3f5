/**
 * AnyOrderRule: the children may match in any order. Each child's counter is
 * looked up by its rule (a rule added twice shares one counter, set up from the
 * occurrence put last). The scan tries the children in order, skipping those
 * whose counter accepts no more; a success that consumes input is counted and
 * restarts the scan from the first child; a zero-length success adds the copies
 * the count still requires and the scan goes on with the next child. The rule
 * fails when any counter ends with an invalid count.
 *
 * The counters are modelled as two maps keyed by rule: the occurrence each
 * counter was set up with, and its current count.
 */
module AnyOrder {
  import opened Wrappers
  import opened Regions
  import opened Occurrences
  import opened CharSequences
  import opened Statements
  import opened Containers
  import opened PreviousChildren
  import opened Values
  import Rules

  /** The state of the scan: cursor, region of interest, gathered results, and the count of every rule. */
  datatype Sweep = Sweep(offset: int, roi: Span, results: seq<ParsingResult>, counts: map<RuleId, int>)

  /** The sweep after a previous child is taken over as it is: one more occurrence of its rule, the cursor past it. */
  function Taken(t: Sweep, stm: Statement, info: Info): (u: Sweep)
    requires info.rule in t.counts
    ensures u.counts.Keys == t.counts.Keys && u.offset == t.offset + stm.position.length
    ensures u.results == t.results + [ParsingResult(Some(stm), info)]
  {
    Sweep(t.offset + stm.position.length, Hull(t.roi, info.roi), t.results + [ParsingResult(Some(stm), info)],
          t.counts[info.rule := t.counts[info.rule] + 1])
  }

  /** createOccurrencesMap: each child's rule mapped to its occurrence, a later child overriding an earlier one. */
  function Policies(rules: seq<RuleId>, occs: seq<Occurrence>): (m: map<RuleId, Occurrence>)
    requires |rules| == |occs|
    ensures Covers(rules, m)
    decreases |rules|
  {
    if |rules| == 0 then map[]
    else Policies(rules[..|rules| - 1], occs[..|occs| - 1])[rules[|rules| - 1] := occs[|occs| - 1]]
  }

  /** A child's occurrence is in the map unless a later child has the same rule. */
  lemma {:induction false} PoliciesLastWins(rules: seq<RuleId>, occs: seq<Occurrence>, k: nat)
    requires |rules| == |occs| && k < |rules|
    requires forall i :: k < i < |rules| ==> rules[i] != rules[k]
    ensures Policies(rules, occs)[rules[k]] == occs[k]
    decreases |rules|
  {
    if k < |rules| - 1 {
      PoliciesLastWins(rules[..|rules| - 1], occs[..|occs| - 1], k);
    }
  }

  /** Every counter starts at 0. */
  function Zeros(pols: map<RuleId, Occurrence>): (m: map<RuleId, int>)
    ensures m.Keys == pols.Keys && forall r :: r in m ==> m[r] == 0
  {
    map r | r in pols :: 0
  }

  /** Every child's rule has an occurrence, and the counts are kept for exactly those rules. */
  predicate Keyed(rules: seq<RuleId>, pols: map<RuleId, Occurrence>, counts: map<RuleId, int>) {
    counts.Keys == pols.Keys && forall k :: 0 <= k < |rules| ==> rules[k] in pols
  }

  /**
   * One pass of executeParsing's loop body on the `pos`-th child: where the scan
   * goes next (0 after a success that consumed input) and the new state.
   */
  function Step(parse: Oracle, rules: seq<RuleId>, pols: map<RuleId, Occurrence>, pos: nat, t: Sweep, end: int): (r: (nat, Sweep))
    requires pos < |rules| && WellBehaved(parse, end) && t.offset <= end && Keyed(rules, pols, t.counts)
    ensures Keyed(rules, pols, r.1.counts)
    ensures (r.0 == 0 && t.offset < r.1.offset <= end) || (r.0 == pos + 1 && r.1.offset == t.offset)
  {
    var rule := rules[pos];
    var occ := pols[rule];
    var c := t.counts[rule];
    if !CanAcceptMore(occ, c) then (pos + 1, t)
    else
      var a := parse(pos, t.offset);
      var roi := Hull(t.roi, a.result.info.roi);
      if !IsSucceeded(a.result) then (pos + 1, t.(roi := roi))
      else if a.consumed == 0 then
        if IsValid(occ, c) then (pos + 1, t.(roi := roi))
        else
          var added := RequiredMore(occ, c);
          (pos + 1, Sweep(t.offset, roi, t.results + Copies(a.result, added), t.counts[rule := c + added]))
      else (0, Sweep(t.offset + a.consumed, roi, t.results + [a.result], t.counts[rule := c + 1]))
  }

  /** executeParsing from the `pos`-th child on. */
  function Scan(parse: Oracle, rules: seq<RuleId>, pols: map<RuleId, Occurrence>, pos: nat, t: Sweep, end: int): (r: Sweep)
    requires pos <= |rules| && WellBehaved(parse, end) && t.offset <= end && Keyed(rules, pols, t.counts)
    ensures Keyed(rules, pols, r.counts) && t.offset <= r.offset <= end
    decreases end - t.offset, |rules| - pos
  {
    if pos == |rules| then t
    else
      var s := Step(parse, rules, pols, pos, t, end);
      Scan(parse, rules, pols, s.0, s.1, end)
  }

  /** The check after the scan: every counter ends with a valid count. */
  predicate AllValid(pols: map<RuleId, Occurrence>, counts: map<RuleId, int>)
    requires counts.Keys == pols.Keys
  {
    forall r | r in counts :: IsValid(pols[r], counts[r])
  }

  /** What the end of the scan makes of the rule: the collection of its results, or a failure with its region of interest. */
  function Settle(id: RuleId, data: seq<char>, start: int, pols: map<RuleId, Occurrence>, t: Sweep): (r: Result<ParsingResult>)
    requires t.counts.Keys == pols.Keys
    ensures r.Ok? && IsSucceeded(r.value) <==> AllValid(pols, t.counts) && r.Ok?
    ensures r.Ok? && IsSucceeded(r.value) ==> r.value.statement.value.position == Span(start, t.offset - start)
  {
    if !AllValid(pols, t.counts) then Ok(FailedResult(Plain(id, t.roi)))
    else Finish(id, data, start, Run(true, t.offset, t.roi, t.results, []), Listing(id, t.roi, InfosOf(t.results)))
  }

  /** The state the scan starts from at `start`: nothing matched, every counter at 0. */
  function Opening(start: int, pols: map<RuleId, Occurrence>): (t: Sweep)
    ensures t.offset == start && t.roi == Span(start, 0) && t.results == [] && t.counts.Keys == pols.Keys
    ensures forall r :: r in t.counts ==> t.counts[r] == 0
  {
    Sweep(start, Span(start, 0), [], Zeros(pols))
  }

  /** Every child's rule has an occurrence in the map. */
  predicate Covers(rules: seq<RuleId>, pols: map<RuleId, Occurrence>) {
    forall k :: 0 <= k < |rules| ==> rules[k] in pols
  }

  /**
   * AnyOrderRule.parseChildren over the document window `v`, with the occurrence
   * map `pols` that createOccurrencesMap builds (Policies of the children).
   */
  function AnyOrderParse(id: RuleId, parse: Oracle, rules: seq<RuleId>, pols: map<RuleId, Occurrence>, v: ArrayRange): Result<ParsingResult>
    requires Covers(rules, pols) && WellBehaved(parse, v.index + v.length) && v.length >= 0
  {
    var t := Scan(parse, rules, pols, 0, Opening(v.index, pols), v.index + v.length);
    Settle(id, v.data, v.index, pols, t)
  }

  // ----- what the scan guarantees -----

  /** One step keeps what ScanProgress promises for the whole scan. */
  lemma StepProgress(parse: Oracle, rules: seq<RuleId>, pols: map<RuleId, Occurrence>, pos: nat, t: Sweep, end: int)
    requires pos < |rules| && WellBehaved(parse, end) && t.offset <= end && Keyed(rules, pols, t.counts)
    requires t.roi.length >= 0 && t.roi.offset <= t.offset <= t.roi.End()
    ensures var u := Step(parse, rules, pols, pos, t, end).1;
      && u.roi.length >= 0 && u.roi.Encloses(t.roi.offset, t.roi.length)
      && u.roi.offset <= u.offset <= u.roi.End()
      && |t.results| <= |u.results| && u.results[..|t.results|] == t.results
      && AllSucceeded(u.results[|t.results|..])
  {
    var u := Step(parse, rules, pols, pos, t, end).1;
    if CanAcceptMore(pols[rules[pos]], t.counts[rules[pos]]) {
      var a := parse(pos, t.offset);
      HullIsLeastEnclosing(t.roi, a.result.info.roi, u.roi);
    }
  }

  /**
   * The scan only moves forward, keeps every earlier result and adds only
   * successful ones, and its region of interest still holds the one it started
   * with and reaches the cursor.
   */
  lemma {:induction false} ScanProgress(parse: Oracle, rules: seq<RuleId>, pols: map<RuleId, Occurrence>, pos: nat, t: Sweep, end: int)
    requires pos <= |rules| && WellBehaved(parse, end) && t.offset <= end && Keyed(rules, pols, t.counts)
    requires t.roi.length >= 0 && t.roi.offset <= t.offset <= t.roi.End()
    ensures var r := Scan(parse, rules, pols, pos, t, end);
      && r.roi.length >= 0 && r.roi.Encloses(t.roi.offset, t.roi.length)
      && r.roi.offset <= r.offset <= r.roi.End()
      && |t.results| <= |r.results| && r.results[..|t.results|] == t.results
      && AllSucceeded(r.results[|t.results|..])
    decreases end - t.offset, |rules| - pos
  {
    if pos < |rules| {
      var s := Step(parse, rules, pols, pos, t, end);
      var u := s.1;
      StepProgress(parse, rules, pols, pos, t, end);
      ScanProgress(parse, rules, pols, s.0, u, end);
      var r := Scan(parse, rules, pols, pos, t, end);
      assert r.results[..|u.results|] == u.results;
      assert r.results[..|t.results|] == u.results[..|t.results|];
      forall i | |t.results| <= i < |r.results| ensures IsSucceeded(r.results[i]) {
        if i < |u.results| {
          assert r.results[i] == u.results[|t.results|..][i - |t.results|];
        } else {
          assert r.results[i] == r.results[|u.results|..][i - |u.results|];
        }
      }
    }
  }

  /** The attempt a child makes at `offset` is a success that consumes input. */
  predicate Consumes(parse: Oracle, k: nat, offset: int) {
    IsSucceeded(parse(k, offset).result) && parse(k, offset).consumed > 0
  }

  /** The `k`-th child can make no more progress: its counter accepts no more, or its attempt at the cursor consumes nothing. */
  predicate Blocked(parse: Oracle, rules: seq<RuleId>, pols: map<RuleId, Occurrence>, k: nat, t: Sweep)
    requires k < |rules| && Keyed(rules, pols, t.counts)
  {
    !CanAcceptMore(pols[rules[k]], t.counts[rules[k]]) || !Consumes(parse, k, t.offset)
  }

  /** No policy asks for a negative number of copies, so counts never go down. */
  ghost predicate NeverNegative(pols: map<RuleId, Occurrence>) {
    forall r, c :: r in pols ==> RequiredMore(pols[r], c) >= 0
  }

  /** A step that does not restart keeps the cursor and only raises counts. */
  lemma StepGrows(parse: Oracle, rules: seq<RuleId>, pols: map<RuleId, Occurrence>, pos: nat, t: Sweep, end: int)
    requires pos < |rules| && WellBehaved(parse, end) && t.offset <= end && Keyed(rules, pols, t.counts)
    requires NeverNegative(pols)
    ensures var s := Step(parse, rules, pols, pos, t, end);
      s.0 == pos + 1 ==> forall r :: r in t.counts ==> t.counts[r] <= s.1.counts[r]
    ensures Step(parse, rules, pols, pos, t, end).0 == pos + 1 ==> Blocked(parse, rules, pols, pos, Step(parse, rules, pols, pos, t, end).1)
  {
  }

  /**
   * Where the scan stops, no child can make progress: every child whose counter
   * still accepts more fails or consumes nothing at the final cursor.
   */
  lemma {:induction false} ScanStops(parse: Oracle, rules: seq<RuleId>, pols: map<RuleId, Occurrence>, pos: nat, t: Sweep, end: int)
    requires pos <= |rules| && WellBehaved(parse, end) && t.offset <= end && Keyed(rules, pols, t.counts)
    requires NeverNegative(pols)
    requires forall k :: 0 <= k < pos ==> Blocked(parse, rules, pols, k, t)
    ensures var r := Scan(parse, rules, pols, pos, t, end);
      forall k :: 0 <= k < |rules| ==> Blocked(parse, rules, pols, k, r)
    decreases end - t.offset, |rules| - pos
  {
    if pos < |rules| {
      var s := Step(parse, rules, pols, pos, t, end);
      StepGrows(parse, rules, pols, pos, t, end);
      if s.0 == pos + 1 {
        forall k | 0 <= k < pos + 1 ensures Blocked(parse, rules, pols, k, s.1) {
          if k < pos {
            assert Blocked(parse, rules, pols, k, t);
            if CanAcceptMore(pols[rules[k]], s.1.counts[rules[k]]) {
              CanAcceptMoreAntitone(pols[rules[k]], t.counts[rules[k]], s.1.counts[rules[k]]);
            }
          }
        }
      }
      ScanStops(parse, rules, pols, s.0, s.1, end);
      var r := Scan(parse, rules, pols, s.0, s.1, end);
      forall k | 0 <= k < |rules| ensures Blocked(parse, rules, pols, k, r) {
        assert Blocked(parse, rules, pols, k, Scan(parse, rules, pols, s.0, s.1, end));
      }
      assert Scan(parse, rules, pols, pos, t, end) == r;
    }
  }

  /**
   * When the region of interest reaches over what was matched, the end of the
   * scan never trips the containment check, and the rule succeeds exactly when
   * every counter is valid.
   */
  lemma SettleNeverThrows(id: RuleId, data: seq<char>, start: int, pols: map<RuleId, Occurrence>, t: Sweep)
    requires t.counts.Keys == pols.Keys && AllSucceeded(t.results) && Inside(t.roi, Span(start, t.offset - start))
    ensures Settle(id, data, start, pols, t).Ok?
    ensures IsSucceeded(Settle(id, data, start, pols, t).value) <==> AllValid(pols, t.counts)
  {
  }

  /** The scan from the opening state gathers only successes, and its region of interest reaches over what it matched. */
  lemma ScanFromOpening(parse: Oracle, rules: seq<RuleId>, pols: map<RuleId, Occurrence>, start: int, end: int)
    requires Covers(rules, pols) && WellBehaved(parse, end) && start <= end
    ensures var t := Scan(parse, rules, pols, 0, Opening(start, pols), end);
      AllSucceeded(t.results) && Inside(t.roi, Span(start, t.offset - start))
  {
    var t0 := Opening(start, pols);
    ScanProgress(parse, rules, pols, 0, t0, end);
    var t := Scan(parse, rules, pols, 0, t0, end);
    assert t.results == t.results[|t0.results|..];
  }

  /**
   * A parse whose children behave never trips the containment check, and it
   * succeeds exactly when every counter ends valid.
   */
  lemma AnyOrderParseNeverThrows(id: RuleId, parse: Oracle, rules: seq<RuleId>, pols: map<RuleId, Occurrence>, v: ArrayRange)
    requires Covers(rules, pols) && WellBehaved(parse, v.index + v.length) && v.length >= 0
    ensures AnyOrderParse(id, parse, rules, pols, v).Ok?
    ensures var t := Scan(parse, rules, pols, 0, Opening(v.index, pols), v.index + v.length);
      IsSucceeded(AnyOrderParse(id, parse, rules, pols, v).value) <==> AllValid(pols, t.counts)
  {
    var t := Scan(parse, rules, pols, 0, Opening(v.index, pols), v.index + v.length);
    ScanFromOpening(parse, rules, pols, v.index, v.index + v.length);
    SettleNeverThrows(id, v.data, v.index, pols, t);
    assert AnyOrderParse(id, parse, rules, pols, v) == Settle(id, v.data, v.index, pols, t);
  }

  /**
   * When no policy asks for a negative number of copies, the scan of a parse
   * stops only where no child whose counter still accepts more could consume
   * more input.
   */
  lemma AnyOrderParseStops(parse: Oracle, rules: seq<RuleId>, pols: map<RuleId, Occurrence>, start: int, end: int)
    requires Covers(rules, pols) && WellBehaved(parse, end) && start <= end && NeverNegative(pols)
    ensures var t := Scan(parse, rules, pols, 0, Opening(start, pols), end);
      forall k :: 0 <= k < |rules| ==> Blocked(parse, rules, pols, k, t)
  {
    ScanStops(parse, rules, pols, 0, Opening(start, pols), end);
  }

  // ----- repair -----

  /**
   * One previous child in the walk of repairChildren, counted on the counter of
   * the rule its information names (a rule that is not a child has no counter:
   * using it is a NullPointerException). A child at the cursor and unmodified is
   * reused through repairAndAdjustDocument (its rule's hook adds to the
   * consumer's `text`, then the cursor moves past it); any other is handed to
   * its rule's repairStatement.
   */
  function Visit(repair: Oracle, modified: Statement -> bool, hooks: Hooks, prev: Previous, pols: map<RuleId, Occurrence>,
                 j: nat, t: Sweep, text: seq<char>, end: int): (r: Result<Replayed<Sweep>>)
    requires j < |prev| && WellBehaved(repair, end) && t.offset <= end && t.counts.Keys == pols.Keys
    ensures r.Ok? ==> r.value.state.offset <= end && r.value.state.counts.Keys == pols.Keys
  {
    var stm := prev[j].0;
    var info := prev[j].1;
    var rule := info.rule;
    if t.offset != stm.position.offset || modified(stm) then
      var a := repair(j, t.offset);
      var roi := Hull(t.roi, a.result.info.roi);
      if !IsSucceeded(a.result) then Ok(Replayed(t.(roi := roi), text))
      else if rule !in t.counts then Err(NullPointer)
      else
        var c := t.counts[rule];
        if a.consumed == 0 then
          if IsValid(pols[rule], c) then Ok(Replayed(t.(roi := roi), text))
          else
            var added := RequiredMore(pols[rule], c);
            Ok(Replayed(Sweep(t.offset, roi, t.results + Copies(a.result, added), t.counts[rule := c + added]), text))
        else Ok(Replayed(Sweep(t.offset + a.consumed, roi, t.results + [a.result], t.counts[rule := c + 1]), text))
    else if rule !in t.counts then Err(NullPointer)
    else
      var step := Adjust(hooks, stm, info, end - t.offset);
      if step.outcome.Err? then Err(step.outcome.error)
      else if !Inside(info.roi, stm.position) then Err(IllegalState)
      else
        Ok(Replayed(Taken(t, stm, info), text + step.text))
  }

  /** The walk over the previous children from the `j`-th on; the first exception ends it. */
  function Revisit(repair: Oracle, modified: Statement -> bool, hooks: Hooks, prev: Previous, pols: map<RuleId, Occurrence>,
                   j: nat, t: Sweep, text: seq<char>, end: int): (r: Result<Replayed<Sweep>>)
    requires j <= |prev| && WellBehaved(repair, end) && t.offset <= end && t.counts.Keys == pols.Keys
    ensures r.Ok? ==> r.value.state.offset <= end && r.value.state.counts.Keys == pols.Keys
    decreases |prev| - j
  {
    if j == |prev| then Ok(Replayed(t, text))
    else
      var u :- Visit(repair, modified, hooks, prev, pols, j, t, text, end);
      Revisit(repair, modified, hooks, prev, pols, j + 1, u.state, u.text, end)
  }

  /**
   * AnyOrderRule.repairChildren over the window `v`, with the consumer holding
   * `before` when it starts: the walk over the previous children, then the scan.
   */
  function AnyOrderRepair(id: RuleId, parse: Oracle, repair: Oracle, modified: Statement -> bool, hooks: Hooks, prev: Previous,
                          rules: seq<RuleId>, pols: map<RuleId, Occurrence>, v: ArrayRange, before: seq<char>)
    : Result<Replayed<ParsingResult>>
    requires Covers(rules, pols) && v.length >= 0
    requires WellBehaved(parse, v.index + v.length) && WellBehaved(repair, v.index + v.length)
  {
    var w :- Revisit(repair, modified, hooks, prev, pols, 0, Opening(v.index, pols), before, v.index + v.length);
    var r :- Settle(id, v.data, v.index, pols, Scan(parse, rules, pols, 0, w.state, v.index + v.length));
    Ok(Replayed(r, w.text))
  }

  /** With no previous children, repairing is parsing afresh, and no hook replays anything into the consumer. */
  lemma RepairWithoutPreviousIsParse(id: RuleId, parse: Oracle, repair: Oracle, modified: Statement -> bool, hooks: Hooks,
                                     rules: seq<RuleId>, pols: map<RuleId, Occurrence>, v: ArrayRange, before: seq<char>)
    requires Covers(rules, pols) && v.length >= 0
    requires WellBehaved(parse, v.index + v.length) && WellBehaved(repair, v.index + v.length)
    ensures var p := AnyOrderParse(id, parse, rules, pols, v);
      AnyOrderRepair(id, parse, repair, modified, hooks, [], rules, pols, v, before) ==
        if p.Err? then Err(p.error) else Ok(Replayed(p.value, before))
  {
  }

  /** A visit that goes through hands the walk on to the next previous child. */
  lemma RevisitStep(repair: Oracle, modified: Statement -> bool, hooks: Hooks, prev: Previous, pols: map<RuleId, Occurrence>,
                    j: nat, t: Sweep, text: seq<char>, end: int, u: Replayed<Sweep>)
    requires j < |prev| && WellBehaved(repair, end) && t.offset <= end && t.counts.Keys == pols.Keys
    requires Visit(repair, modified, hooks, prev, pols, j, t, text, end) == Ok(u)
    ensures Revisit(repair, modified, hooks, prev, pols, j, t, text, end)
            == Revisit(repair, modified, hooks, prev, pols, j + 1, u.state, u.text, end)
  {
  }

  /** Reusable children from the `j`-th on are reusable from the next one on, past the `j`-th. */
  lemma ReusableRest(modified: Statement -> bool, hooks: Hooks, prev: Previous, j: nat, offset: int, end: int)
    requires j < |prev| && Reusable(modified, hooks, prev, None, j, |prev|, offset, end)
    ensures Reusable(modified, hooks, prev, None, j + 1, |prev|, offset + prev[j].0.position.length, end)
    ensures offset + prev[j].0.position.length <= end
  {
  }

  /** One unmodified previous child at the cursor that its rule's hook lets through is taken over whole. */
  lemma VisitReuses(repair: Oracle, modified: Statement -> bool, hooks: Hooks, prev: Previous, pols: map<RuleId, Occurrence>,
                    j: nat, t: Sweep, text: seq<char>, end: int)
    requires j < |prev| && WellBehaved(repair, end) && t.offset <= end && t.counts.Keys == pols.Keys
    requires Reusable(modified, hooks, prev, None, j, |prev|, t.offset, end) && prev[j].1.rule in pols
    ensures var stm := prev[j].0;
      var info := prev[j].1;
      Visit(repair, modified, hooks, prev, pols, j, t, text, end)
      == Ok(Replayed(Taken(t, stm, info), text + Rules.Skipped(hooks.kinds, info.rule, stm, info, hooks.sink).text))
  {
    AdjustFitting(hooks, prev[j].0, prev[j].1, end - t.offset);
  }

  /** The sweep after the previous children from the `j`-th on are all taken over as they are, in order. */
  function TakenAll(prev: Previous, j: nat, t: Sweep): (u: Sweep)
    requires j <= |prev| && forall i :: j <= i < |prev| ==> prev[i].1.rule in t.counts
    ensures u.counts.Keys == t.counts.Keys
    decreases |prev| - j
  {
    if j == |prev| then t else TakenAll(prev, j + 1, Taken(t, prev[j].0, prev[j].1))
  }

  /** Taking children over moves the cursor past all of them and adds each one's result, in order. */
  lemma {:induction false} TakenAllAdvances(prev: Previous, j: nat, t: Sweep)
    requires j <= |prev| && forall i :: j <= i < |prev| ==> prev[i].1.rule in t.counts
    ensures TakenAll(prev, j, t).offset == After(prev, j, |prev|, t.offset)
    ensures TakenAll(prev, j, t).results == t.results + AsResults(prev, j, |prev|)
    decreases |prev| - j
  {
    if j < |prev| {
      var next := Taken(t, prev[j].0, prev[j].1);
      TakenAllAdvances(prev, j + 1, next);
      assert t.results + AsResults(prev, j, |prev|) == next.results + AsResults(prev, j + 1, |prev|);
    }
  }

  /**
   * Unmodified previous children that still sit back to back at the cursor,
   * each of a rule the container has, are reused as they are: each is one more
   * occurrence of its rule, taken over in order.
   */
  lemma {:induction false} RevisitReusesUnmodified(repair: Oracle, modified: Statement -> bool, hooks: Hooks, prev: Previous,
                                                   pols: map<RuleId, Occurrence>, j: nat, t: Sweep, text: seq<char>, end: int)
    requires j <= |prev| && WellBehaved(repair, end) && t.offset <= end && t.counts.Keys == pols.Keys
    requires Reusable(modified, hooks, prev, None, j, |prev|, t.offset, end)
    requires forall i :: j <= i < |prev| ==> prev[i].1.rule in pols
    ensures var r := Revisit(repair, modified, hooks, prev, pols, j, t, text, end);
      r.Ok? && r.value.state == TakenAll(prev, j, t)
    decreases |prev| - j
  {
    if j < |prev| {
      var next := Taken(t, prev[j].0, prev[j].1);
      var h := Rules.Skipped(hooks.kinds, prev[j].1.rule, prev[j].0, prev[j].1, hooks.sink).text;
      assert Revisit(repair, modified, hooks, prev, pols, j, t, text, end)
             == Revisit(repair, modified, hooks, prev, pols, j + 1, next, text + h, end) by {
        VisitReuses(repair, modified, hooks, prev, pols, j, t, text, end);
        RevisitStep(repair, modified, hooks, prev, pols, j, t, text, end, Replayed(next, text + h));
      }
      assert Reusable(modified, hooks, prev, None, j + 1, |prev|, next.offset, end) && next.offset <= end by {
        ReusableRest(modified, hooks, prev, j, t.offset, end);
      }
      RevisitReusesUnmodified(repair, modified, hooks, prev, pols, j + 1, next, text + h, end);
      assert TakenAll(prev, j, t) == TakenAll(prev, j + 1, next);
    }
  }

  /** `a + (b + c)` and `(a + b) + c` are the same text. */
  lemma Regrouped(a: seq<char>, b: seq<char>, c: seq<char>)
    ensures a + (b + c) == (a + b) + c
  {
  }

  /** Over the same reusable children, the consumer receives what each hook replays, one after the other. */
  lemma {:induction false} RevisitReplaysHooks(repair: Oracle, modified: Statement -> bool, hooks: Hooks, prev: Previous,
                                               pols: map<RuleId, Occurrence>, j: nat, t: Sweep, text: seq<char>, end: int)
    requires j <= |prev| && WellBehaved(repair, end) && t.offset <= end && t.counts.Keys == pols.Keys
    requires Reusable(modified, hooks, prev, None, j, |prev|, t.offset, end)
    requires forall i :: j <= i < |prev| ==> prev[i].1.rule in pols
    ensures var r := Revisit(repair, modified, hooks, prev, pols, j, t, text, end);
      r.Ok? && r.value.text == text + HookTexts(hooks, prev, j, |prev|)
    decreases |prev| - j
  {
    if j < |prev| {
      var next := Taken(t, prev[j].0, prev[j].1);
      var h := Rules.Skipped(hooks.kinds, prev[j].1.rule, prev[j].0, prev[j].1, hooks.sink).text;
      assert Revisit(repair, modified, hooks, prev, pols, j, t, text, end)
             == Revisit(repair, modified, hooks, prev, pols, j + 1, next, text + h, end) by {
        VisitReuses(repair, modified, hooks, prev, pols, j, t, text, end);
        RevisitStep(repair, modified, hooks, prev, pols, j, t, text, end, Replayed(next, text + h));
      }
      assert Reusable(modified, hooks, prev, None, j + 1, |prev|, next.offset, end) && next.offset <= end by {
        ReusableRest(modified, hooks, prev, j, t.offset, end);
      }
      RevisitReplaysHooks(repair, modified, hooks, prev, pols, j + 1, next, text + h, end);
      assert text + HookTexts(hooks, prev, j, |prev|) == (text + h) + HookTexts(hooks, prev, j + 1, |prev|) by {
        Regrouped(text, h, HookTexts(hooks, prev, j + 1, |prev|));
      }
    } else {
      assert text + HookTexts(hooks, prev, j, |prev|) == text;
    }
  }

  /** Hence such a walk ends past all of them, with each one's result added in order. */
  lemma RevisitTakesAll(repair: Oracle, modified: Statement -> bool, hooks: Hooks, prev: Previous,
                        pols: map<RuleId, Occurrence>, t: Sweep, text: seq<char>, end: int)
    requires WellBehaved(repair, end) && t.offset <= end && t.counts.Keys == pols.Keys
    requires Reusable(modified, hooks, prev, None, 0, |prev|, t.offset, end)
    requires forall i :: 0 <= i < |prev| ==> prev[i].1.rule in pols
    ensures var r := Revisit(repair, modified, hooks, prev, pols, 0, t, text, end);
      && r.Ok? && r.value.state.offset == After(prev, 0, |prev|, t.offset)
      && r.value.state.results == t.results + AsResults(prev, 0, |prev|)
      && r.value.text == text + HookTexts(hooks, prev, 0, |prev|)
  {
    RevisitReusesUnmodified(repair, modified, hooks, prev, pols, 0, t, text, end);
    RevisitReplaysHooks(repair, modified, hooks, prev, pols, 0, t, text, end);
    TakenAllAdvances(prev, 0, t);
  }

  // ----- the source's loops -----

  /** The scan state that the objects and the count map hold. */
  function Here(s: DocumentData, roi: DocumentRegion, result: Builder, counts: map<RuleId, int>): Sweep
    reads s, roi, result
  {
    Sweep(s.index, roi.Value(), result.children, counts)
  }

  /** createOccurrencesMap, as the two maps: the occurrence of every child's rule, and a count of 0 for each. */
  method CreateOccurrencesMap(rules: seq<RuleId>, occs: seq<Occurrence>) returns (pols: map<RuleId, Occurrence>, counts: map<RuleId, int>)
    requires |rules| == |occs|
    ensures pols == Policies(rules, occs) && counts == Zeros(pols)
  {
    pols, counts := map[], map[];
    var k := 0;
    while k < |rules|
      invariant k <= |rules| && pols == Policies(rules[..k], occs[..k]) && counts == Zeros(pols)
    {
      assert rules[..k + 1][..k] == rules[..k] && occs[..k + 1][..k] == occs[..k];
      pols, counts := pols[rules[k] := occs[k]], counts[rules[k] := 0];
      k := k + 1;
    }
    assert rules[..k] == rules && occs[..k] == occs;
  }

  /** One pass of executeParsing's loop body, proved against Step. */
  method ScanOne(parse: Oracle, rules: seq<RuleId>, pols: map<RuleId, Occurrence>, pos: nat,
                 s: DocumentData, roi: DocumentRegion, result: Builder, counts: map<RuleId, int>, ghost end: int)
    returns (next: nat, counts': map<RuleId, int>)
    requires pos < |rules| && WellBehaved(parse, end) && end == s.index + s.length && s.length >= 0
    requires result.Valid() && Keyed(rules, pols, counts)
    modifies s, roi, result
    ensures result.Valid() && end == s.index + s.length && s.length >= 0
    ensures var st := Step(parse, rules, pols, pos, old(Here(s, roi, result, counts)), end);
      next == st.0 && Here(s, roi, result, counts') == st.1
  {
    var rule := rules[pos];
    var c := counts[rule];
    if !CanAcceptMore(pols[rule], c) {
      return pos + 1, counts;
    }
    var slen := s.length;
    var parsed := ParseChild(parse, pos, s);
    roi.ExpandTo(parsed.info.roi.offset, parsed.info.roi.length);
    if !IsSucceeded(parsed) {
      return pos + 1, counts;
    }
    if slen == s.length {
      if !IsValid(pols[rule], c) {
        var added := RequiredMore(pols[rule], c);
        AddCopies(result, parsed, added);
        return pos + 1, counts[rule := c + added];
      }
      return pos + 1, counts;
    }
    result.Add(parsed);
    return 0, counts[rule := c + 1];
  }

  /** executeParsing, proved against Scan: after a success that consumed input the children are tried from the first again. */
  method ExecuteParsing(parse: Oracle, rules: seq<RuleId>, pols: map<RuleId, Occurrence>,
                        s: DocumentData, roi: DocumentRegion, result: Builder, counts0: map<RuleId, int>, ghost end: int)
    returns (counts: map<RuleId, int>)
    requires WellBehaved(parse, end) && end == s.index + s.length && s.length >= 0
    requires result.Valid() && Keyed(rules, pols, counts0)
    modifies s, roi, result
    ensures result.Valid() && end == s.index + s.length && s.length >= 0 && Keyed(rules, pols, counts)
    ensures Here(s, roi, result, counts) == Scan(parse, rules, pols, 0, old(Here(s, roi, result, counts0)), end)
  {
    ghost var target := Scan(parse, rules, pols, 0, Here(s, roi, result, counts0), end);
    counts := counts0;
    var pos: nat := 0;
    while pos < |rules|
      invariant pos <= |rules| && end == s.index + s.length && s.length >= 0
      invariant result.Valid() && Keyed(rules, pols, counts)
      invariant Scan(parse, rules, pols, pos, Here(s, roi, result, counts), end) == target
      decreases s.length, |rules| - pos
    {
      pos, counts := ScanOne(parse, rules, pols, pos, s, roi, result, counts, end);
    }
  }

  /** A set with no members is empty. */
  lemma EmptyWithoutMembers(rules: set<RuleId>)
    requires forall r :: r !in rules
    ensures rules == {}
  {
    assert forall r :: r in rules <==> r in {};
  }

  /** A set that is not empty has a member to pick. */
  lemma HasMember(rules: set<RuleId>)
    requires rules != {}
    ensures exists r :: r in rules
  {
    if forall r :: r !in rules {
      EmptyWithoutMembers(rules);
      assert false;
    }
  }

  /** The check after the scan, over every entry of the map. */
  method AllCountsValid(pols: map<RuleId, Occurrence>, counts: map<RuleId, int>) returns (valid: bool)
    requires counts.Keys == pols.Keys
    ensures valid == AllValid(pols, counts)
  {
    var todo := counts.Keys;
    while todo != {}
      invariant todo <= counts.Keys
      invariant forall rule :: rule in counts && rule !in todo ==> IsValid(pols[rule], counts[rule])
      decreases |todo|
    {
      HasMember(todo);
      var rule :| rule in todo;
      if !IsValid(pols[rule], counts[rule]) {
        return false;
      }
      todo := todo - {rule};
    }
    return true;
  }

  /** The end of parseChildren: the check of every count, then the failure or the collection. */
  method SettleParse(id: RuleId, s: DocumentData, start: int, pols: map<RuleId, Occurrence>,
                     roi: DocumentRegion, result: Builder, counts: map<RuleId, int>)
    returns (r: Result<ParsingResult>)
    requires result.Valid() && counts.Keys == pols.Keys
    ensures r == Settle(id, s.data, start, pols, Here(s, roi, result, counts))
  {
    var valid := AllCountsValid(pols, counts);
    if !valid {
      return Ok(result.Fail(Plain(id, roi.Value())));
    }
    BuildFinishes(id, result, s, start, roi.Value(), [], Listing(id, roi.Value(), result.Infos()));
    r := result.Build(s, Span(start, s.DocumentOffset() - start), Listing(id, roi.Value(), result.Infos()));
  }

  /** AnyOrderParse is the check applied to where the scan from the opening state ends. */
  lemma AnyOrderParseIs(id: RuleId, parse: Oracle, rules: seq<RuleId>, pols: map<RuleId, Occurrence>, v: ArrayRange, t: Sweep)
    requires Covers(rules, pols) && WellBehaved(parse, v.index + v.length) && v.length >= 0
    requires t == Scan(parse, rules, pols, 0, Opening(v.index, pols), v.index + v.length)
    ensures AnyOrderParse(id, parse, rules, pols, v) == Settle(id, v.data, v.index, pols, t)
  {
  }

  /** The fresh builder and region the children's loop starts from, at the cursor of `s`. */
  method Begin(s: DocumentData, pols: map<RuleId, Occurrence>, counts0: map<RuleId, int>)
    returns (start: int, roi: DocumentRegion, result: Builder)
    requires counts0 == Zeros(pols) && s.index >= 0
    ensures fresh(roi) && fresh(result) && result.Valid() && start == s.index
    ensures Here(s, roi, result, counts0) == Opening(s.index, pols)
  {
    result := new Builder();
    start := s.DocumentOffset();
    roi := new DocumentRegion();
    var _ := roi.SetOffset(start);
  }

  /** The scan over `s` itself from the state `t0`, then the check; `t` is where the scan ends. */
  method ScanAndSettleParse(id: RuleId, parse: Oracle, rules: seq<RuleId>, pols: map<RuleId, Occurrence>,
                            s: DocumentData, start: int, roi: DocumentRegion, result: Builder, counts0: map<RuleId, int>,
                            ghost t0: Sweep, ghost end: int, ghost t: Sweep)
    returns (r: Result<ParsingResult>)
    requires Keyed(rules, pols, counts0) && result.Valid() && Here(s, roi, result, counts0) == t0
    requires WellBehaved(parse, end) && end == s.index + s.length && s.length >= 0
    requires t == Scan(parse, rules, pols, 0, t0, end)
    modifies s, roi, result
    ensures r == Settle(id, s.data, start, pols, t)
    ensures s.index + s.length == end
    ensures r.Ok? && IsSucceeded(r.value) ==> s.index == start + r.value.statement.value.position.length
  {
    var counts := ExecuteParsing(parse, rules, pols, s, roi, result, counts0, end);
    r := SettleParse(id, s, start, pols, roi, result, counts);
  }

  /** parseChildren once the occurrence map is built: the scan over `s` itself, then the check. */
  method ParseWith(id: RuleId, parse: Oracle, rules: seq<RuleId>, pols: map<RuleId, Occurrence>, counts0: map<RuleId, int>,
                   s: DocumentData, ghost v: ArrayRange, ghost t: Sweep)
    returns (r: Result<ParsingResult>)
    requires Covers(rules, pols) && counts0 == Zeros(pols)
    requires WellBehaved(parse, v.index + v.length) && v.length >= 0 && v.index >= 0 && s.View() == v
    requires t == Scan(parse, rules, pols, 0, Opening(v.index, pols), v.index + v.length)
    modifies s
    ensures r == Settle(id, v.data, v.index, pols, t)
    ensures s.index + s.length == v.index + v.length
    ensures r.Ok? && IsSucceeded(r.value) ==> s.index == v.index + r.value.statement.value.position.length
  {
    var start, roi, result := Begin(s, pols, counts0);
    r := ScanAndSettleParse(id, parse, rules, pols, s, start, roi, result, counts0, Opening(v.index, pols), v.index + v.length, t);
  }

  /** AnyOrderRule.parseChildren: works on `s` itself, which ends up past what the children matched. */
  method ParseChildren(id: RuleId, parse: Oracle, rules: seq<RuleId>, occs: seq<Occurrence>, s: DocumentData)
    returns (r: Result<ParsingResult>)
    requires |rules| == |occs| && WellBehaved(parse, s.index + s.length) && s.length >= 0 && s.index >= 0
    modifies s
    ensures r == AnyOrderParse(id, parse, rules, Policies(rules, occs), old(s.View()))
    ensures s.index + s.length == old(s.index + s.length)
    ensures r.Ok? && IsSucceeded(r.value) ==> s.index == old(s.index) + r.value.statement.value.position.length
  {
    var pols, counts0 := CreateOccurrencesMap(rules, occs);
    ghost var v := s.View();
    ghost var t := Scan(parse, rules, pols, 0, Opening(v.index, pols), v.index + v.length);
    AnyOrderParseIs(id, parse, rules, pols, v, t);
    r := ParseWith(id, parse, rules, pols, counts0, s, v, t);
  }

  /** A previous child that moved or was modified, handed to its rule's repairStatement and taken in as Visit says. */
  method RepairOne(repair: Oracle, modified: Statement -> bool, hooks: Hooks, prev: Previous, pols: map<RuleId, Occurrence>, j: nat,
                   buf: DocumentData, roi: DocumentRegion, result: Builder, counts: map<RuleId, int>, ghost end: int,
                   ghost text: seq<char>)
    returns (r: Result<map<RuleId, int>>)
    requires j < |prev| && WellBehaved(repair, end) && end == buf.index + buf.length && buf.length >= 0
    requires result.Valid() && counts.Keys == pols.Keys
    requires buf.index != prev[j].0.position.offset || modified(prev[j].0)
    modifies buf, roi, result
    ensures var w := Visit(repair, modified, hooks, prev, pols, j, old(Here(buf, roi, result, counts)), text, end);
      && (r.Err? <==> w.Err?) && (r.Err? ==> r.error == w.error)
      && (r.Ok? ==> Here(buf, roi, result, r.value) == w.value.state && w.value.text == text)
    ensures r.Ok? ==> result.Valid() && end == buf.index + buf.length && buf.length >= 0
  {
    var rule := prev[j].1.rule;
    var buflen := buf.length;
    var repaired := ParseChild(repair, j, buf);
    var next := counts;
    if IsSucceeded(repaired) {
      if rule !in counts {
        return Err(NullPointer);
      }
      var c := counts[rule];
      if buflen == buf.length {
        if !IsValid(pols[rule], c) {
          var added := RequiredMore(pols[rule], c);
          AddCopies(result, repaired, added);
          next := counts[rule := c + added];
        }
      } else {
        result.Add(repaired);
        next := counts[rule := c + 1];
      }
    }
    roi.ExpandTo(repaired.info.roi.offset, repaired.info.roi.length);
    return Ok(next);
  }

  /**
   * An unmodified previous child at the cursor, taken over as it is: counted,
   * passed through repairAndAdjustDocument (its rule's hook replays it into the
   * consumer, then the cursor moves past it) and added with its information.
   */
  method ReuseOne(repair: Oracle, modified: Statement -> bool, hooks: Hooks, prev: Previous, pols: map<RuleId, Occurrence>, j: nat,
                  buf: DocumentData, roi: DocumentRegion, result: Builder, counts: map<RuleId, int>, consumer: ValueConsumer?,
                  ghost end: int, ghost text: seq<char>)
    returns (r: Result<map<RuleId, int>>)
    requires j < |prev| && WellBehaved(repair, end) && end == buf.index + buf.length && buf.length >= 0
    requires result.Valid() && counts.Keys == pols.Keys
    requires buf.index == prev[j].0.position.offset && !modified(prev[j].0)
    requires hooks.sink == (consumer != null) && Rules.Holds(consumer, text)
    modifies buf, roi, result, Rules.Sinks(consumer)
    ensures var w := Visit(repair, modified, hooks, prev, pols, j, old(Here(buf, roi, result, counts)), text, end);
      && (r.Err? <==> w.Err?) && (r.Err? ==> r.error == w.error)
      && (r.Ok? ==> Here(buf, roi, result, r.value) == w.value.state && Rules.Holds(consumer, w.value.text))
    ensures r.Ok? ==> result.Valid() && end == buf.index + buf.length && buf.length >= 0
    ensures consumer != null ==> consumer.buf == old(consumer.buf) || fresh(consumer.buf)
  {
    var stm := prev[j].0;
    var info := prev[j].1;
    if info.rule !in counts {
      return Err(NullPointer);
    }
    var next := counts[info.rule := counts[info.rule] + 1];
    ghost var step := Adjust(hooks, stm, info, end - buf.index);
    var adjusted := Rules.RepairAndAdjustDocument(hooks.kinds, info.rule, stm, info, buf, consumer, step, text);
    if adjusted.Fail? {
      return Err(adjusted.error);
    }
    var reused := NewResult(Some(stm), info);
    if reused.Err? {
      return Err(reused.error);
    }
    result.Add(reused.value);
    roi.ExpandTo(info.roi.offset, info.roi.length);
    return Ok(next);
  }

  /** One previous child in the walk, repaired or reused as Visit says. */
  method VisitOne(repair: Oracle, modified: Statement -> bool, hooks: Hooks, prev: Previous, pols: map<RuleId, Occurrence>, j: nat,
                  buf: DocumentData, roi: DocumentRegion, result: Builder, counts: map<RuleId, int>, consumer: ValueConsumer?,
                  ghost end: int, ghost text: seq<char>)
    returns (r: Result<map<RuleId, int>>, ghost text': seq<char>)
    requires j < |prev| && WellBehaved(repair, end) && end == buf.index + buf.length && buf.length >= 0
    requires result.Valid() && counts.Keys == pols.Keys
    requires hooks.sink == (consumer != null) && Rules.Holds(consumer, text)
    modifies buf, roi, result, Rules.Sinks(consumer)
    ensures var w := Visit(repair, modified, hooks, prev, pols, j, old(Here(buf, roi, result, counts)), text, end);
      && (r.Err? <==> w.Err?) && (r.Err? ==> r.error == w.error)
      && (r.Ok? ==> Here(buf, roi, result, r.value) == w.value.state && text' == w.value.text)
    ensures r.Ok? ==> result.Valid() && end == buf.index + buf.length && buf.length >= 0 && Rules.Holds(consumer, text')
    ensures consumer != null ==> consumer.buf == old(consumer.buf) || fresh(consumer.buf)
  {
    ghost var w := Visit(repair, modified, hooks, prev, pols, j, Here(buf, roi, result, counts), text, end);
    if buf.DocumentOffset() != prev[j].0.position.offset || modified(prev[j].0) {
      r := RepairOne(repair, modified, hooks, prev, pols, j, buf, roi, result, counts, end, text);
    } else {
      r := ReuseOne(repair, modified, hooks, prev, pols, j, buf, roi, result, counts, consumer, end, text);
    }
    text' := if w.Ok? then w.value.text else text;
  }

  /** The walk over every previous child, proved against Revisit; the consumer holds `before` when it starts. */
  method RevisitChildren(repair: Oracle, modified: Statement -> bool, hooks: Hooks, prev: Previous, pols: map<RuleId, Occurrence>,
                         buf: DocumentData, roi: DocumentRegion, result: Builder, counts0: map<RuleId, int>,
                         consumer: ValueConsumer?, ghost t0: Sweep, ghost end: int, ghost before: seq<char>)
    returns (r: Result<map<RuleId, int>>)
    requires WellBehaved(repair, end) && end == buf.index + buf.length && buf.length >= 0
    requires result.Valid() && counts0.Keys == pols.Keys && Here(buf, roi, result, counts0) == t0
    requires hooks.sink == (consumer != null) && Rules.Holds(consumer, before)
    modifies buf, roi, result, Rules.Sinks(consumer)
    ensures var w := Revisit(repair, modified, hooks, prev, pols, 0, t0, before, end);
      && (r.Err? <==> w.Err?) && (r.Err? ==> r.error == w.error)
      && (r.Ok? ==> Here(buf, roi, result, r.value) == w.value.state && Rules.Holds(consumer, w.value.text))
    ensures r.Ok? ==> result.Valid() && end == buf.index + buf.length && buf.length >= 0 && r.value.Keys == pols.Keys
    ensures consumer != null ==> consumer.buf == old(consumer.buf) || fresh(consumer.buf)
  {
    ghost var target := Revisit(repair, modified, hooks, prev, pols, 0, t0, before, end);
    ghost var text := before;
    var counts := counts0;
    var j: nat := 0;
    while j < |prev|
      invariant j <= |prev| && end == buf.index + buf.length && buf.length >= 0
      invariant result.Valid() && counts.Keys == pols.Keys && Rules.Holds(consumer, text)
      invariant consumer != null ==> consumer.buf == old(consumer.buf) || fresh(consumer.buf)
      invariant Revisit(repair, modified, hooks, prev, pols, j, Here(buf, roi, result, counts), text, end) == target
    {
      var visited;
      visited, text := VisitOne(repair, modified, hooks, prev, pols, j, buf, roi, result, counts, consumer, end, text);
      if visited.Err? {
        return Err(visited.error);
      }
      counts := visited.value;
      j := j + 1;
    }
    return Ok(counts);
  }

  /** The end of repairChildren: the check of every count, then the failure, or `s` catching up with the copy and the collection. */
  method SettleRepair(id: RuleId, s: DocumentData, buf: DocumentData, startslen: int, start: int, pols: map<RuleId, Occurrence>,
                      roi: DocumentRegion, result: Builder, counts: map<RuleId, int>)
    returns (r: Result<ParsingResult>)
    requires result.Valid() && counts.Keys == pols.Keys && s != buf
    requires s.data == buf.data && s.length == startslen
    requires s.index + s.length == buf.index + buf.length && buf.length >= 0
    modifies s
    ensures r == Settle(id, buf.data, start, pols, Here(buf, roi, result, counts))
    ensures AllValid(pols, counts) ==> s.View() == buf.View()
    ensures !AllValid(pols, counts) ==> s.View() == old(s.View())
  {
    var valid := AllCountsValid(pols, counts);
    if !valid {
      return Ok(result.Fail(Plain(id, roi.Value())));
    }
    r := Conclude(id, s, buf, startslen, start, result, Listing(id, roi.Value(), result.Infos()), roi.Value(), []);
  }

  /** The repair is the walk over the previous children, then the scan from where the walk ended, then the check. */
  lemma AnyOrderRepairIs(id: RuleId, parse: Oracle, repair: Oracle, modified: Statement -> bool, hooks: Hooks, prev: Previous,
                         rules: seq<RuleId>, pols: map<RuleId, Occurrence>, v: ArrayRange, before: seq<char>)
    requires Covers(rules, pols) && v.length >= 0
    requires WellBehaved(parse, v.index + v.length) && WellBehaved(repair, v.index + v.length)
    ensures var w := Revisit(repair, modified, hooks, prev, pols, 0, Opening(v.index, pols), before, v.index + v.length);
      var e := AnyOrderRepair(id, parse, repair, modified, hooks, prev, rules, pols, v, before);
      && (w.Err? ==> e == Err(w.error))
      && (w.Ok? ==> var p := Settle(id, v.data, v.index, pols, Scan(parse, rules, pols, 0, w.value.state, v.index + v.length));
                    e == if p.Err? then Err(p.error) else Ok(Replayed(p.value, w.value.text)))
  {
  }

  /** The scan and the check that end repairChildren, on the copy `buf` of `s`. */
  method ScanAndSettle(id: RuleId, parse: Oracle, rules: seq<RuleId>, pols: map<RuleId, Occurrence>,
                       s: DocumentData, buf: DocumentData, startslen: int, start: int, roi: DocumentRegion, result: Builder,
                       counts0: map<RuleId, int>, ghost data: seq<char>, ghost t0: Sweep, ghost end: int, ghost t: Sweep,
                       ghost consumer: ValueConsumer?, ghost text: seq<char>)
    returns (r: Result<ParsingResult>)
    requires Keyed(rules, pols, counts0) && result.Valid() && s != buf && Here(buf, roi, result, counts0) == t0
    requires Rules.Holds(consumer, text)
    requires WellBehaved(parse, end) && end == buf.index + buf.length && buf.length >= 0
    requires s.data == buf.data == data && s.length == startslen && s.index + s.length == end
    requires t == Scan(parse, rules, pols, 0, t0, end)
    modifies s, buf, roi, result
    ensures r == Settle(id, data, start, pols, t) && Rules.Holds(consumer, text)
    ensures s.index + s.length == end
    ensures r.Ok? && IsSucceeded(r.value) ==> s.index == start + r.value.statement.value.position.length
    ensures r.Ok? && !IsSucceeded(r.value) ==> s.View() == old(s.View())
  {
    var counts := ExecuteParsing(parse, rules, pols, buf, roi, result, counts0, end);
    r := SettleRepair(id, s, buf, startslen, start, pols, roi, result, counts);
  }

  /** The walk, the scan and the check of repairChildren over the window `v`, on the copy `buf` of `s`. */
  method RepairFrom(id: RuleId, parse: Oracle, repair: Oracle, modified: Statement -> bool, hooks: Hooks, prev: Previous,
                    rules: seq<RuleId>, pols: map<RuleId, Occurrence>, counts0: map<RuleId, int>,
                    s: DocumentData, buf: DocumentData, startslen: int, start: int, roi: DocumentRegion, result: Builder,
                    consumer: ValueConsumer?, ghost v: ArrayRange, ghost before: seq<char>, ghost w: Result<Replayed<Sweep>>,
                    ghost t: Sweep)
    returns (r: Result<ParsingResult>)
    requires Covers(rules, pols) && result.Valid() && s != buf && v.length >= 0 && start == v.index
    requires WellBehaved(parse, v.index + v.length) && WellBehaved(repair, v.index + v.length)
    requires s.View() == v && buf.View() == v && s.length == startslen
    requires Here(buf, roi, result, counts0) == Opening(v.index, pols)
    requires hooks.sink == (consumer != null) && Rules.Holds(consumer, before)
    requires w == Revisit(repair, modified, hooks, prev, pols, 0, Opening(v.index, pols), before, v.index + v.length)
    requires w.Ok? ==> t == Scan(parse, rules, pols, 0, w.value.state, v.index + v.length)
    modifies s, buf, roi, result, Rules.Sinks(consumer)
    ensures w.Err? ==> r == Err(w.error)
    ensures w.Ok? ==> r == Settle(id, v.data, start, pols, t) && Rules.Holds(consumer, w.value.text)
    ensures s.index + s.length == v.index + v.length
    ensures r.Ok? && IsSucceeded(r.value) ==> s.index == start + r.value.statement.value.position.length
    ensures r.Ok? && !IsSucceeded(r.value) ==> s.View() == v
  {
    var walked := RevisitChildren(repair, modified, hooks, prev, pols, buf, roi, result, counts0, consumer, Opening(v.index, pols),
                                  v.index + v.length, before);
    if walked.Err? {
      return Err(walked.error);
    }
    r := ScanAndSettle(id, parse, rules, pols, s, buf, startslen, start, roi, result, walked.value, v.data, w.value.state,
                       v.index + v.length, t, consumer, w.value.text);
  }

  /**
   * repairChildren once the occurrence map is built: a copy of `s` and a fresh
   * builder and region, then the walk, the scan and the check.
   */
  method RepairWith(id: RuleId, parse: Oracle, repair: Oracle, modified: Statement -> bool, hooks: Hooks, prev: Previous,
                    rules: seq<RuleId>, pols: map<RuleId, Occurrence>, counts0: map<RuleId, int>, s: DocumentData,
                    consumer: ValueConsumer?, ghost before: seq<char>)
    returns (r: Result<ParsingResult>)
    requires Covers(rules, pols) && counts0 == Zeros(pols) && s.length >= 0 && s.index >= 0
    requires WellBehaved(parse, s.index + s.length) && WellBehaved(repair, s.index + s.length)
    requires hooks.sink == (consumer != null) && Rules.Holds(consumer, before)
    modifies s, Rules.Sinks(consumer)
    ensures var e := AnyOrderRepair(id, parse, repair, modified, hooks, prev, rules, pols, old(s.View()), before);
      && (r.Err? <==> e.Err?) && (r.Err? ==> r.error == e.error)
      && (r.Ok? ==> r.value == e.value.state && Rules.Holds(consumer, e.value.text))
    ensures s.index + s.length == old(s.index + s.length)
    ensures r.Ok? && IsSucceeded(r.value) ==> s.index == old(s.index) + r.value.statement.value.position.length
    ensures r.Ok? && !IsSucceeded(r.value) ==> s.View() == old(s.View())
  {
    ghost var v := s.View();
    ghost var w := Revisit(repair, modified, hooks, prev, pols, 0, Opening(v.index, pols), before, v.index + v.length);
    ghost var t := if w.Ok? then Scan(parse, rules, pols, 0, w.value.state, v.index + v.length) else Opening(v.index, pols);
    AnyOrderRepairIs(id, parse, repair, modified, hooks, prev, rules, pols, v, before);
    var buf := new DocumentData.Copy(s);
    var startslen := buf.length;
    var result := new Builder();
    var start := buf.DocumentOffset();
    var roi := new DocumentRegion();
    var _ := roi.SetOffset(start);
    r := RepairFrom(id, parse, repair, modified, hooks, prev, rules, pols, counts0, s, buf, startslen, start, roi, result,
                    consumer, v, before, w, t);
  }

  /**
   * AnyOrderRule.repairChildren: works on a copy of `s` and moves `s` only when
   * the repair succeeds, by what the copy consumed; the value consumer of the
   * rule context holds `before` when it starts and receives what the hooks of
   * the reused children replay.
   */
  method RepairChildren(id: RuleId, parse: Oracle, repair: Oracle, modified: Statement -> bool, hooks: Hooks, prev: Previous,
                        rules: seq<RuleId>, occs: seq<Occurrence>, s: DocumentData, consumer: ValueConsumer?,
                        ghost before: seq<char>)
    returns (r: Result<ParsingResult>)
    requires |rules| == |occs| && s.length >= 0 && s.index >= 0
    requires WellBehaved(parse, s.index + s.length) && WellBehaved(repair, s.index + s.length)
    requires hooks.sink == (consumer != null) && Rules.Holds(consumer, before)
    modifies s, Rules.Sinks(consumer)
    ensures var e := AnyOrderRepair(id, parse, repair, modified, hooks, prev, rules, Policies(rules, occs), old(s.View()), before);
      && (r.Err? <==> e.Err?) && (r.Err? ==> r.error == e.error)
      && (r.Ok? ==> r.value == e.value.state && Rules.Holds(consumer, e.value.text))
    ensures s.index + s.length == old(s.index + s.length)
    ensures r.Ok? && IsSucceeded(r.value) ==> s.index == old(s.index) + r.value.statement.value.position.length
    ensures r.Ok? && !IsSucceeded(r.value) ==> s.View() == old(s.View())
  {
    var pols, counts0 := CreateOccurrencesMap(rules, occs);
    r := RepairWith(id, parse, repair, modified, hooks, prev, rules, pols, counts0, s, consumer, before);
  }
}
