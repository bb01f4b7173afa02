/** The loop of scripts/run-gates.ts, `runGates`, and the exit code of `main`. */
module GateRunner {
  import opened GateGraph
  import opened GateOutcome
  import opened GateScheduler
  import opened Options

  /** `Number.MAX_SAFE_INTEGER` */
  const MAX_SAFE_INTEGER := 0x1F_FFFF_FFFF_FFFF

  /** Filtering the blocked gate out of the pending list keeps it in step with the states. */
  lemma {:induction false} PendingAfterSkip(gates: seq<Gate>, states: map<string, GateState>, gate: Gate)
    requires UniqueIds(gates) && Is(states, gate.id, Pending)
    requires forall i :: 0 <= i < |gates| && gates[i].id == gate.id ==> gates[i] == gate
    ensures PendingGates(gates, states[gate.id := Settled(Skipped)])
         == Dropping(PendingGates(gates, states), gate)
  {
    if gates != [] {
      assert UniqueIds(gates[1..]);
      PendingAfterSkip(gates[1..], states, gate);
      var head := if Is(states, gates[0].id, Pending) then [gates[0]] else [];
      DroppingConcat(head, PendingGates(gates[1..], states), gate);
    }
  }

  /** `items.filter(item => item !== gate)` */
  function Dropping(items: seq<Gate>, gate: Gate): seq<Gate> {
    if items == [] then []
    else (if items[0] != gate then [items[0]] else []) + Dropping(items[1..], gate)
  }

  lemma {:induction false} DroppingConcat(a: seq<Gate>, b: seq<Gate>, gate: Gate)
    ensures Dropping(a + b, gate) == Dropping(a, gate) + Dropping(b, gate)
  {
    if a == [] {
      assert a + b == b;
    } else {
      assert (a + b)[1..] == a[1..] + b;
      DroppingConcat(a[1..], b, gate);
    }
  }

  /** Searching the pending list finds what searching the whole list finds. */
  lemma {:induction false} BlockedAmongPending(gates: seq<Gate>, states: map<string, GateState>)
    ensures FindBlocked(PendingGates(gates, states), states) == FindBlocked(gates, states)
  {
    if gates != [] {
      var rest := PendingGates(gates[1..], states);
      BlockedAmongPending(gates[1..], states);
      if Is(states, gates[0].id, Pending) {
        assert PendingGates(gates, states) == [gates[0]] + rest;
        assert ([gates[0]] + rest)[1..] == rest;
      } else {
        assert PendingGates(gates, states) == rest;
      }
    }
  }

  lemma {:induction false} PendingGatesEmpty(gates: seq<Gate>, states: map<string, GateState>)
    ensures PendingGates(gates, states) == [] <==>
      forall i :: 0 <= i < |gates| ==> !Is(states, gates[i].id, Pending)
  {
    if gates != [] {
      PendingGatesEmpty(gates[1..], states);
    }
  }

  /** Validate and run. Nothing is started unless the list and the bound are
      accepted; then the log is a complete legal run and the results are the
      final ones in list order. */
  method RunGates(gates: seq<Gate>, maxActive: int, oracle: Oracle)
    returns (r: Result<seq<GateResult>>, log: seq<Event>)
    ensures r.Ok? <==> ValidGraph(gates) && 1 <= maxActive <= MAX_SAFE_INTEGER
    ensures r.Err? ==> log == []
    ensures r.Err? && r.error.BadConcurrency? ==> ValidGraph(gates)
    ensures r.Ok? ==> Complete(gates, maxActive, oracle, log)
    ensures r.Ok? ==>
      && |r.value| == |gates|
      && forall i :: 0 <= i < |gates| ==>
           && gates[i].id in After(gates, maxActive, oracle, log).results
           && r.value[i] == After(gates, maxActive, oracle, log).results[gates[i].id]
    ensures r.Ok? ==>
      && |r.value| == |gates|
      && (forall i :: 0 <= i < |gates| ==> Reports(oracle, log, gates[i], r.value[i]))
      && (forall i, b :: 0 <= i < |gates| && b in r.value[i].blockers ==> NotPassed(gates, r.value, b))
  {
    log := [];
    var valid := ValidateGateGraph(gates);
    if valid.Err? {
      return Err(valid.error), [];
    }
    if !(1 <= maxActive <= MAX_SAFE_INTEGER) {
      return Err(BadConcurrency(maxActive)), [];
    }
    var states: map<string, GateState> := map id | id in ById(gates) :: Pending;
    var results: map<string, GateResult> := map[];
    var running: seq<string> := [];

    while true
      invariant Legal(gates, maxActive, oracle, log)
      invariant After(gates, maxActive, oracle, log) == State(states, running, results)
      decreases WorkLeft(State(states, running, results))
    {
      ghost var before := WorkLeft(State(states, running, results));
      var madeProgress;
      states, running, log, madeProgress := Refill(gates, maxActive, oracle, states, running, results, log);
      if |running| == 0 {
        states, results, log := SkipRest(gates, maxActive, oracle, states, results, log);
        break;
      }
      if !madeProgress {
        var k :| 0 <= k < |running|;
        var id := running[k];
        ReachableInvariant(gates, maxActive, oracle, log);
        assert Is(states, id, Running);
        ApplyUsesWork(gates, maxActive, oracle, State(states, running, results), Settle(id));
        LegalAppend(gates, maxActive, oracle, log, Settle(id));
        running := Without(running, id);
        states := states[id := Settled(oracle(id))];
        results := results[id := GateResult(ById(gates)[id], oracle(id), [])];
        log := log + [Settle(id)];
      }
    }

    EveryGateReported(gates, maxActive, oracle, log);
    var list := InListOrder(gates, results);
    ListReports(gates, maxActive, oracle, log, list);
    return Ok(list), log;
  }

  /** The gate's own result is no success. */
  predicate NotPassed(gates: seq<Gate>, list: seq<GateResult>, id: string)
    requires |list| == |gates|
  {
    exists j :: 0 <= j < |gates| && gates[j].id == id && list[j].status != Passed
  }

  lemma ListReports(gates: seq<Gate>, m: nat, oracle: Oracle, log: seq<Event>, list: seq<GateResult>)
    requires ValidGraph(gates) && Complete(gates, m, oracle, log) && |list| == |gates|
    requires forall i :: 0 <= i < |gates| ==>
      && gates[i].id in After(gates, m, oracle, log).results
      && list[i] == After(gates, m, oracle, log).results[gates[i].id]
    ensures forall i :: 0 <= i < |gates| ==> Reports(oracle, log, gates[i], list[i])
    ensures forall i, b :: 0 <= i < |gates| && b in list[i].blockers ==> NotPassed(gates, list, b)
  {
    forall i | 0 <= i < |gates|
      ensures Reports(oracle, log, gates[i], list[i])
    {
      ByIdAt(gates, i);
      ResultsReport(gates, m, oracle, log, gates[i].id);
    }
    ReachableInvariant(gates, m, oracle, log);
    forall i, b | 0 <= i < |gates| && b in list[i].blockers
      ensures NotPassed(gates, list, b)
    {
      BlockersFailed(gates, m, oracle, log, gates[i].id, b);
      assert b in ById(gates);
      var j :| 0 <= j < |gates| && gates[j].id == b;
      assert list[j].status != Passed;
    }
  }

  /** The throw "missing result" cannot be reached. */
  lemma EveryGateReported(gates: seq<Gate>, m: nat, oracle: Oracle, log: seq<Event>)
    requires Complete(gates, m, oracle, log)
    ensures forall i :: 0 <= i < |gates| ==> gates[i].id in After(gates, m, oracle, log).results
  {
    ReachableInvariant(gates, m, oracle, log);
    forall i | 0 <= i < |gates|
      ensures gates[i].id in After(gates, m, oracle, log).results
    {
      FinishedGate(gates, m, After(gates, m, oracle, log), gates[i].id);
    }
  }

  /** The final `gates.map`. */
  method InListOrder(gates: seq<Gate>, results: map<string, GateResult>) returns (list: seq<GateResult>)
    requires forall i :: 0 <= i < |gates| ==> gates[i].id in results
    ensures |list| == |gates|
    ensures forall i :: 0 <= i < |gates| ==> list[i] == results[gates[i].id]
  {
    list := [];
    for i := 0 to |gates|
      invariant |list| == i
      invariant forall k :: 0 <= k < i ==> list[k] == results[gates[k].id]
    {
      list := list + [results[gates[i].id]];
    }
  }

  /** The refill loop: start ready gates, first in list order first, until the
      pool is full or none is ready. */
  method Refill(gates: seq<Gate>, m: nat, oracle: Oracle, states: map<string, GateState>,
                running: seq<string>, results: map<string, GateResult>, log: seq<Event>)
    returns (states': map<string, GateState>, running': seq<string>, log': seq<Event>, madeProgress: bool)
    requires ValidGraph(gates) && Legal(gates, m, oracle, log)
    requires After(gates, m, oracle, log) == State(states, running, results)
    ensures Legal(gates, m, oracle, log')
    ensures After(gates, m, oracle, log') == State(states', running', results)
    ensures |running'| >= m || FindReady(gates, states').None?
    ensures if madeProgress
            then WorkLeft(State(states', running', results)) < WorkLeft(State(states, running, results))
            else states' == states && running' == running && log' == log
  {
    states', running', log', madeProgress := states, running, log, false;
    while |running'| < m
      invariant Legal(gates, m, oracle, log')
      invariant After(gates, m, oracle, log') == State(states', running', results)
      invariant if madeProgress
        then WorkLeft(State(states', running', results)) < WorkLeft(State(states, running, results))
        else states' == states && running' == running && log' == log
      decreases WorkLeft(State(states', running', results))
    {
      var ready := FindReady(gates, states');
      if ready.None? {
        break;
      }
      var id := ready.value.id;
      ByIdOfMember(gates, ready.value);
      ReachableInvariant(gates, m, oracle, log');
      ApplyUsesWork(gates, m, oracle, State(states', running', results), Start(id));
      LegalAppend(gates, m, oracle, log', Start(id));
      states' := states'[id := Running];
      running' := running' + [id];
      log' := log' + [Start(id)];
      madeProgress := true;
    }
  }

  /** The final loop: with an empty pool and nothing ready, skip pending gates
      until none is left. */
  method SkipRest(gates: seq<Gate>, m: nat, oracle: Oracle, states: map<string, GateState>,
                  results: map<string, GateResult>, log: seq<Event>)
    returns (states': map<string, GateState>, results': map<string, GateResult>, log': seq<Event>)
    requires ValidGraph(gates) && m >= 1 && Legal(gates, m, oracle, log)
    requires After(gates, m, oracle, log) == State(states, [], results)
    requires FindReady(gates, states).None?
    ensures Complete(gates, m, oracle, log')
    ensures After(gates, m, oracle, log') == State(states', [], results')
  {
    states', results', log' := states, results, log;
    var pending := PendingGates(gates, states);
    while |pending| > 0
      invariant Legal(gates, m, oracle, log')
      invariant After(gates, m, oracle, log') == State(states', [], results')
      invariant FindReady(gates, states').None?
      invariant pending == PendingGates(gates, states')
      decreases WorkLeft(State(states', [], results'))
    {
      ghost var s := State(states', [], results');
      ReachableInvariant(gates, m, oracle, log');
      SomePending(gates, states');
      EmptyPoolIsNotStuck(gates, m, s);
      BlockedAmongPending(gates, states');
      var blocked := FindBlocked(pending, states');
      var gate := blocked.value;
      ByIdOfMember(gates, gate);
      ApplyUsesWork(gates, m, oracle, s, Skip(gate.id));
      SkipKeepsQuiet(gates, m, oracle, s, Skip(gate.id));
      LegalAppend(gates, m, oracle, log', Skip(gate.id));
      PendingAfterSkip(gates, states', gate);
      results' := results'[gate.id := GateResult(gate, Skipped, Blockers(gate.needs, states'))];
      states' := states'[gate.id := Settled(Skipped)];
      log' := log' + [Skip(gate.id)];
      pending := Dropping(pending, gate);
    }
    ReachableInvariant(gates, m, oracle, log');
    PendingGatesEmpty(gates, states');
    forall id | id in states'
      ensures states'[id] != Pending
    {
      var i :| 0 <= i < |gates| && gates[i].id == id;
      assert !Is(states', gates[i].id, Pending);
    }
  }

  lemma SomePending(gates: seq<Gate>, states: map<string, GateState>)
    requires PendingGates(gates, states) != []
    ensures PendingIds(states) != {}
  {
    PendingGatesEmpty(gates, states);
    var i :| 0 <= i < |gates| && Is(states, gates[i].id, Pending);
    assert gates[i].id in PendingIds(states);
  }

  /* ---- The exit code ---- */

  /** The rule at the end of `main`. */
  function ExitCode(results: seq<GateResult>): int {
    if exists i :: 0 <= i < |results| && !results[i].gate.allowFailure
         && (results[i].status == Failed || results[i].status == Skipped)
    then 1 else 0
  }

  /** The exit code is 0 iff every gate that may not fail succeeds together with
      everything it transitively needs, needs that may themselves fail included. */
  lemma ExitCodeMeaning(gates: seq<Gate>, m: nat, oracle: Oracle, log: seq<Event>, results: seq<GateResult>)
    requires ValidGraph(gates) && Complete(gates, m, oracle, log) && |results| == |gates|
    requires forall i :: 0 <= i < |gates| ==>
      && gates[i].id in After(gates, m, oracle, log).results
      && results[i] == After(gates, m, oracle, log).results[gates[i].id]
    ensures ExitCode(results) ==
      if forall i :: 0 <= i < |gates| && !gates[i].allowFailure ==> LineSucceeds(gates, oracle, gates[i].id)
      then 0 else 1
  {
    forall i | 0 <= i < |gates|
      ensures results[i].gate == gates[i]
      ensures results[i].status == Passed <==> LineSucceeds(gates, oracle, gates[i].id)
    {
      ResultMeaning(gates, m, oracle, log, i);
    }
  }

  lemma ResultMeaning(gates: seq<Gate>, m: nat, oracle: Oracle, log: seq<Event>, i: nat)
    requires ValidGraph(gates) && Complete(gates, m, oracle, log) && i < |gates|
    ensures var results := After(gates, m, oracle, log).results;
      && gates[i].id in results && results[gates[i].id].gate == gates[i]
      && (results[gates[i].id].status == Passed <==> LineSucceeds(gates, oracle, gates[i].id))
      && results[gates[i].id].status ==
         if forall d :: d in gates[i].needs ==> LineSucceeds(gates, oracle, d) then oracle(gates[i].id) else Skipped
  {
    var s := After(gates, m, oracle, log);
    ReachableInvariant(gates, m, oracle, log);
    CompleteIsConsistent(gates, m, oracle, log);
    ByIdAt(gates, i);
    FinishedGate(gates, m, s, gates[i].id);
    assert ResultOk(gates[i], s.states[gates[i].id], s.results);
    OutcomeMeaning(gates, oracle, Statuses(s), gates[i].id);
  }
}
