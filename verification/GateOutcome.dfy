/** What a complete run of the gate scheduler decides, whatever the worker bound
    and whoever wins the races: scripts/run-gates.ts, `runGates` and `main`. */
module GateOutcome {
  import opened Digraph
  import opened GateGraph
  import opened GateScheduler
  import opened Options
  import opened Sequences

  type Outcome = map<string, Status>

  /* ---- The outcome, without reference to any schedule ---- */

  predicate AllPassed(needs: seq<string>, f: Outcome) {
    forall d :: d in needs ==> d in f && f[d] == Passed
  }

  /** Each gate is executed when all its needs pass and skipped otherwise. */
  ghost predicate Consistent(gates: seq<Gate>, oracle: Oracle, f: Outcome) {
    && f.Keys == ById(gates).Keys
    && forall id :: id in f ==>
         f[id] == if AllPassed(ById(gates)[id].needs, f) then oracle(id) else Skipped
  }

  /** Where two outcomes differ, they differ on a need. */
  lemma DifferingNeed(gates: seq<Gate>, oracle: Oracle, f: Outcome, f': Outcome, id: string) returns (d: string)
    requires KnownNeeds(gates) && Consistent(gates, oracle, f) && Consistent(gates, oracle, f')
    requires id in f && id in f' && f[id] != f'[id]
    ensures id in ById(gates) && d in ById(gates)[id].needs && d in f && d in f' && f[d] != f'[d]
  {
    var needs := ById(gates)[id].needs;
    assert AllPassed(needs, f) != AllPassed(needs, f');
    d :| d in needs && (d in f && f[d] == Passed) != (d in f' && f'[d] == Passed);
  }

  /** On an acyclic graph these equations have one solution. */
  lemma OutcomeIsUnique(gates: seq<Gate>, oracle: Oracle, f: Outcome, f': Outcome)
    requires Acyclic(NeedsGraph(gates)) && KnownNeeds(gates)
    requires Consistent(gates, oracle, f) && Consistent(gates, oracle, f')
    ensures f == f'
  {
    var g := NeedsGraph(gates);
    var differ := set id | id in f && f[id] != f'[id];
    forall id | id in differ
      ensures HasSuccessorIn(g, id, differ)
    {
      var d := DifferingNeed(gates, oracle, f, f', id);
      assert Edge(g, id, d) && d in differ;
    }
    NoTrap(g, differ);
    forall id | id in f
      ensures f[id] == f'[id]
    {
      assert id !in differ;
    }
  }

  /** Executing a and everything it needs, directly or not, succeeds. */
  ghost predicate LineSucceeds(gates: seq<Gate>, oracle: Oracle, id: string) {
    forall a :: Reaches(NeedsGraph(gates), id, a) ==> oracle(a) == Passed
  }

  lemma PassedLineSucceeds(gates: seq<Gate>, oracle: Oracle, f: Outcome, id: string)
    requires Consistent(gates, oracle, f)
    requires id in f && f[id] == Passed
    ensures LineSucceeds(gates, oracle, id)
  {
    var g := NeedsGraph(gates);
    var passed := set k | k in f && f[k] == Passed;
    forall a, b | a in passed && Edge(g, a, b)
      ensures b in passed
    {
      assert AllPassed(ById(gates)[a].needs, f);
    }
    forall a | Reaches(g, id, a)
      ensures oracle(a) == Passed
    {
      var p :| Walk(g, p) && p[0] == id && p[|p| - 1] == a;
      ClosedSetHoldsWalk(g, passed, p);
      assert AllPassed(ById(gates)[a].needs, f);
    }
  }

  lemma SucceedingLinePasses(gates: seq<Gate>, oracle: Oracle, f: Outcome, id: string)
    requires Acyclic(NeedsGraph(gates)) && KnownNeeds(gates)
    requires Consistent(gates, oracle, f)
    requires id in f && LineSucceeds(gates, oracle, id)
    ensures f[id] == Passed
  {
    var g := NeedsGraph(gates);
    var wrong := set k | k in f && f[k] != Passed && LineSucceeds(gates, oracle, k);
    forall k | k in wrong
      ensures HasSuccessorIn(g, k, wrong)
    {
      ReachesSelf(g, k);
      assert oracle(k) == Passed;
      var d :| d in ById(gates)[k].needs && !(d in f && f[d] == Passed);
      assert Edge(g, k, d);
      forall a | Reaches(g, d, a)
        ensures oracle(a) == Passed
      {
        EdgeThenReaches(g, k, d, a);
      }
      assert d in wrong;
    }
    NoTrap(g, wrong);
    assert id !in wrong;
  }

  /** A gate passes iff it and everything it transitively needs succeed. It is
      executed (and then carries its own status) iff its transitive needs
      succeed, and is skipped otherwise. */
  lemma OutcomeMeaning(gates: seq<Gate>, oracle: Oracle, f: Outcome, id: string)
    requires ValidGraph(gates) && Consistent(gates, oracle, f) && id in f
    ensures f[id] == Passed <==> LineSucceeds(gates, oracle, id)
    ensures f[id] ==
      if forall d :: d in ById(gates)[id].needs ==> LineSucceeds(gates, oracle, d) then oracle(id) else Skipped
  {
    forall k | k in f
      ensures f[k] == Passed <==> LineSucceeds(gates, oracle, k)
    {
      if f[k] == Passed {
        PassedLineSucceeds(gates, oracle, f, k);
      } else if LineSucceeds(gates, oracle, k) {
        SucceedingLinePasses(gates, oracle, f, k);
      }
    }
    assert forall d :: d in ById(gates)[id].needs ==> d in f;
  }

  /* ---- Complete runs decide that outcome ---- */

  function Statuses(s: State): Outcome {
    map id | id in s.results :: s.results[id].status
  }

  /** Nothing runs, and the states are the statuses of the results. */
  ghost predicate Ended(gates: seq<Gate>, s: State) {
    && s.running == [] && s.states.Keys == ById(gates).Keys
    && forall id :: id in s.states ==> id in s.results && s.states[id] == Settled(s.results[id].status)
  }

  lemma CompleteEnds(gates: seq<Gate>, m: nat, oracle: Oracle, log: seq<Event>)
    requires Complete(gates, m, oracle, log)
    ensures Ended(gates, After(gates, m, oracle, log))
  {
    var s := After(gates, m, oracle, log);
    ReachableInvariant(gates, m, oracle, log);
    forall id | id in ById(gates)
      ensures id in s.results && s.states[id] == Settled(s.results[id].status)
    {
      FinishedGate(gates, m, s, id);
    }
  }

  lemma CompleteIsConsistent(gates: seq<Gate>, m: nat, oracle: Oracle, log: seq<Event>)
    requires Complete(gates, m, oracle, log)
    ensures Consistent(gates, oracle, Statuses(After(gates, m, oracle, log)))
  {
    var s := After(gates, m, oracle, log);
    var f := Statuses(s);
    ReachableInvariant(gates, m, oracle, log);
    CompleteEnds(gates, m, oracle, log);
    forall id | id in ById(gates)
      ensures f[id] == if AllPassed(ById(gates)[id].needs, f) then oracle(id) else Skipped
    {
      var gate := ById(gates)[id];
      assert Justified(gate, oracle, s.states);
      assert NeedsPassed(gate, s.states) <==> AllPassed(gate.needs, f);
    }
  }

  lemma FinishedGate(gates: seq<Gate>, m: nat, s: State, id: string)
    requires Finished(s) && PoolOk(m, s) && ResultsOk(gates, s.states, s.results) && id in ById(gates)
    ensures id in s.results && s.states[id] == Settled(s.results[id].status)
  {
    assert ResultOk(ById(gates)[id], s.states[id], s.results);
    assert s.states[id] == Running ==> id in s.running;
  }

  /* ---- The results agree too, down to the blockers named in the errors ---- */

  /** Nothing runs and nothing is ready: from here on gates are only skipped. */
  predicate Quiet(gates: seq<Gate>, s: State) {
    s.running == [] && FindReady(gates, s.states).None?
  }

  lemma SkipKeepsQuiet(gates: seq<Gate>, m: nat, oracle: Oracle, s: State, e: Event)
    requires Enabled(gates, m, s, e) && e.Skip?
    ensures Quiet(gates, s) && Quiet(gates, Apply(gates, m, oracle, s, e))
  {
    var t := Apply(gates, m, oracle, s, e);
    forall i | 0 <= i < |gates|
      ensures !IsReady(gates[i], t.states)
    {
      assert !IsReady(gates[i], s.states);
      assert NeedsPassed(gates[i], t.states) ==> NeedsPassed(gates[i], s.states);
    }
  }

  /** The skip loop as a function of the state in which it starts. */
  function SkipAll(gates: seq<Gate>, states: map<string, GateState>, results: map<string, GateResult>)
    : (r: (map<string, GateState>, map<string, GateResult>))
    decreases |PendingIds(states)|
  {
    match FindBlocked(gates, states)
    case None => (states, results)
    case Some(gate) =>
      assert PendingIds(states[gate.id := Settled(Skipped)]) == PendingIds(states) - {gate.id};
      SkipAll(gates, states[gate.id := Settled(Skipped)],
              results[gate.id := GateResult(gate, Skipped, Blockers(gate.needs, states))])
  }

  /** Every settled gate was executed, none was skipped. */
  ghost predicate OnlyExecuted(gates: seq<Gate>, s: State) {
    forall id :: id in s.results ==>
      id in ById(gates) && NeedsPassed(ById(gates)[id], s.states) && s.results[id].blockers == []
  }

  /** Skipping starts only after the last execution. */
  lemma {:induction false} NoSkipBeforeExecution(gates: seq<Gate>, m: nat, oracle: Oracle, log: seq<Event>)
    requires Legal(gates, m, oracle, log)
    requires log == [] || !log[|log| - 1].Skip?
    ensures OnlyExecuted(gates, After(gates, m, oracle, log))
    decreases |log|
  {
    if log != [] {
      var before, e := log[..|log| - 1], log[|log| - 1];
      var s := After(gates, m, oracle, before);
      if before != [] && before[|before| - 1].Skip? {
        SkipKeepsQuiet(gates, m, oracle,
          After(gates, m, oracle, before[..|before| - 1]), before[|before| - 1]);
      }
      NoSkipBeforeExecution(gates, m, oracle, before);
      ReachableInvariant(gates, m, oracle, before);
      ApplyKeepsSettled(gates, m, oracle, s, e);
      ExecutionStaysOnlyExecuted(gates, m, oracle, s, e);
    }
  }

  lemma ExecutionStaysOnlyExecuted(gates: seq<Gate>, m: nat, oracle: Oracle, s: State, e: Event)
    requires Enabled(gates, m, s, e) && !e.Skip? && Invariant(gates, m, oracle, s)
    requires OnlyExecuted(gates, s)
    ensures OnlyExecuted(gates, Apply(gates, m, oracle, s, e))
  {
    var t := Apply(gates, m, oracle, s, e);
    ApplyKeepsSettled(gates, m, oracle, s, e);
    forall id | id in t.results
      ensures id in ById(gates) && NeedsPassed(ById(gates)[id], t.states) && t.results[id].blockers == []
    {
      NeedsFrame(ById(gates)[id], s.states, t.states);
      if id == e.id {
        assert Is(s.states, id, Running) && Justified(ById(gates)[id], oracle, s.states);
      }
    }
  }

  lemma PrefixOfPrefix(log: seq<Event>, n: nat)
    requires n < |log|
    ensures log[..|log| - 1][..n] == log[..n]
  {
  }

  /** A complete run is a run of executions followed by the skip loop. */
  lemma {:induction false} SkipPhase(gates: seq<Gate>, m: nat, oracle: Oracle, log: seq<Event>) returns (n: nat)
    requires UniqueIds(gates) && Legal(gates, m, oracle, log) && Quiet(gates, After(gates, m, oracle, log))
    ensures n <= |log| && Legal(gates, m, oracle, log[..n])
    ensures var s, t := After(gates, m, oracle, log[..n]), After(gates, m, oracle, log);
      && Quiet(gates, s) && OnlyExecuted(gates, s)
      && SkipAll(gates, s.states, s.results) == SkipAll(gates, t.states, t.results)
    decreases |log|
  {
    if log == [] || !log[|log| - 1].Skip? {
      NoSkipBeforeExecution(gates, m, oracle, log);
      n := |log|;
      assert log[..n] == log;
    } else {
      var before := log[..|log| - 1];
      SkipKeepsQuiet(gates, m, oracle, After(gates, m, oracle, before), log[|log| - 1]);
      n := SkipPhase(gates, m, oracle, before);
      PrefixOfPrefix(log, n);
    }
  }

  lemma {:induction false} LaterGrows(gates: seq<Gate>, m: nat, oracle: Oracle, log: seq<Event>, n: nat)
    requires Legal(gates, m, oracle, log) && n <= |log| && Legal(gates, m, oracle, log[..n])
    ensures Grows(After(gates, m, oracle, log[..n]).states, After(gates, m, oracle, log).states)
    decreases |log|
  {
    if n == |log| {
      assert log[..n] == log;
    } else {
      var before := log[..|log| - 1];
      PrefixOfPrefix(log, n);
      LaterGrows(gates, m, oracle, before, n);
      ReachableInvariant(gates, m, oracle, before);
      ApplyKeepsSettled(gates, m, oracle, After(gates, m, oracle, before), log[|log| - 1]);
    }
  }

  /** In a quiet state of a run with outcome f exactly the gates whose needs pass in f have settled. */
  ghost predicate Canonical(gates: seq<Gate>, f: Outcome, s: State) {
    && s.states.Keys == ById(gates).Keys && s.results.Keys <= s.states.Keys
    && forall id :: id in s.states && id in f ==> CanonicalGate(ById(gates)[id], f, s)
  }

  ghost predicate CanonicalGate(gate: Gate, f: Outcome, s: State)
    requires gate.id in s.states && gate.id in f
  {
    if AllPassed(gate.needs, f) then
      && s.states[gate.id] == Settled(f[gate.id])
      && gate.id in s.results && s.results[gate.id] == GateResult(gate, f[gate.id], [])
    else
      s.states[gate.id] == Pending && gate.id !in s.results
  }

  /** A gate that passes in the end has passed when the scheduler falls quiet. */
  lemma PassedBeforeQuiet(gates: seq<Gate>, oracle: Oracle, f: Outcome, s: State)
    requires ValidGraph(gates) && Consistent(gates, oracle, f)
    requires s.states.Keys == ById(gates).Keys && Quiet(gates, s)
    requires forall id :: id in s.states ==> s.states[id] == Pending || s.states[id] == Settled(f[id])
    ensures forall id :: id in s.states && f[id] == Passed ==> Is(s.states, id, Settled(Passed))
  {
    var g := NeedsGraph(gates);
    var late := set id | id in s.states && f[id] == Passed && s.states[id] == Pending;
    forall id | id in late
      ensures HasSuccessorIn(g, id, late)
    {
      var gate := ById(gates)[id];
      assert !IsReady(gate, s.states);
      var d :| d in gate.needs && !Is(s.states, d, Settled(Passed));
      assert AllPassed(gate.needs, f);
      assert Edge(g, id, d) && d in late;
    }
    NoTrap(g, late);
    forall id | id in s.states && f[id] == Passed
      ensures Is(s.states, id, Settled(Passed))
    {
      assert id !in late;
    }
  }

  lemma QuietIsCanonical(gates: seq<Gate>, m: nat, oracle: Oracle, f: Outcome, s: State)
    requires ValidGraph(gates) && Consistent(gates, oracle, f)
    requires Invariant(gates, m, oracle, s) && Quiet(gates, s) && OnlyExecuted(gates, s)
    requires forall id :: id in s.states && s.states[id].Settled? ==> s.states[id] == Settled(f[id])
    ensures Canonical(gates, f, s)
  {
    forall id | id in s.states
      ensures s.states[id] == Pending || s.states[id] == Settled(f[id])
    {
      assert s.states[id] == Running ==> id in s.running;
    }
    PassedBeforeQuiet(gates, oracle, f, s);
    forall id | id in s.states
      ensures CanonicalGate(ById(gates)[id], f, s)
    {
      var gate := ById(gates)[id];
      assert gate in gates && !IsReady(gate, s.states);
      assert ResultOk(gate, s.states[id], s.results);
      NeedsAgree(gate, f, s.states);
    }
  }

  lemma NeedsAgree(gate: Gate, f: Outcome, states: map<string, GateState>)
    requires states.Keys == f.Keys
    requires forall id :: id in states ==> states[id] == Pending || states[id] == Settled(f[id])
    requires forall id :: id in states && f[id] == Passed ==> Is(states, id, Settled(Passed))
    ensures NeedsPassed(gate, states) <==> AllPassed(gate.needs, f)
  {
    forall d | d in gate.needs
      ensures Is(states, d, Settled(Passed)) <==> d in f && f[d] == Passed
    {
    }
  }

  lemma CanonicalGateIsUnique(gates: seq<Gate>, f: Outcome, s: State, t: State, id: string)
    requires f.Keys == ById(gates).Keys && Canonical(gates, f, s) && Canonical(gates, f, t) && id in f
    ensures s.states[id] == t.states[id] && (id in s.results <==> id in t.results)
    ensures id in s.results ==> s.results[id] == t.results[id]
  {
    assert CanonicalGate(ById(gates)[id], f, s) && CanonicalGate(ById(gates)[id], f, t);
  }

  lemma SameMap<K, V>(m: map<K, V>, n: map<K, V>)
    requires m.Keys == n.Keys && forall k :: k in m ==> m[k] == n[k]
    ensures m == n
  {
  }

  lemma CanonicalIsUnique(gates: seq<Gate>, f: Outcome, s: State, t: State)
    requires f.Keys == ById(gates).Keys && Canonical(gates, f, s) && Canonical(gates, f, t)
    ensures s.states == t.states && s.results == t.results
  {
    forall id | id in f
      ensures s.states[id] == t.states[id] && (id in s.results <==> id in t.results)
      ensures id in s.results ==> s.results[id] == t.results[id]
    {
      CanonicalGateIsUnique(gates, f, s, t, id);
    }
    SameMap(s.states, t.states);
    SameMap(s.results, t.results);
  }

  lemma FinishedSkipsNothing(gates: seq<Gate>, s: State)
    requires Finished(s)
    ensures SkipAll(gates, s.states, s.results) == (s.states, s.results) && Quiet(gates, s)
  {
  }

  /** The results of a complete run, reconstructed from its outcome alone. */
  lemma ResultsFollowOutcome(gates: seq<Gate>, m: nat, oracle: Oracle, log: seq<Event>) returns (s: State)
    requires ValidGraph(gates) && Complete(gates, m, oracle, log)
    ensures Canonical(gates, Statuses(After(gates, m, oracle, log)), s)
    ensures SkipAll(gates, s.states, s.results).1 == After(gates, m, oracle, log).results
  {
    var t := After(gates, m, oracle, log);
    var f := Statuses(t);
    CompleteIsConsistent(gates, m, oracle, log);
    FinishedSkipsNothing(gates, t);
    var n := SkipPhase(gates, m, oracle, log);
    s := After(gates, m, oracle, log[..n]);
    LaterGrows(gates, m, oracle, log, n);
    ReachableInvariant(gates, m, oracle, log[..n]);
    ReachableInvariant(gates, m, oracle, log);
    forall id | id in s.states && s.states[id].Settled?
      ensures s.states[id] == Settled(f[id])
    {
      assert Is(t.states, id, s.states[id]);
      assert ResultOk(ById(gates)[id], t.states[id], t.results);
    }
    QuietIsCanonical(gates, m, oracle, f, s);
  }

  lemma EndedWithSameResults(gates: seq<Gate>, s: State, s': State)
    requires Ended(gates, s) && Ended(gates, s') && s.results == s'.results
    ensures s == s'
  {
    assert s.states == s'.states;
  }

  lemma SameResults(gates: seq<Gate>, oracle: Oracle, m: nat, log: seq<Event>, m': nat, log': seq<Event>)
    requires ValidGraph(gates)
    requires Complete(gates, m, oracle, log) && Complete(gates, m', oracle, log')
    ensures After(gates, m, oracle, log).results == After(gates, m', oracle, log').results
  {
    CompleteIsConsistent(gates, m, oracle, log);
    CompleteIsConsistent(gates, m', oracle, log');
    var f := Statuses(After(gates, m, oracle, log));
    OutcomeIsUnique(gates, oracle, f, Statuses(After(gates, m', oracle, log')));
    var s := ResultsFollowOutcome(gates, m, oracle, log);
    var s' := ResultsFollowOutcome(gates, m', oracle, log');
    CanonicalIsUnique(gates, f, s, s');
  }

  /** Any two complete runs of one gate list, with any pool sizes, end in the same
      state: the same states and the same results. */
  lemma ScheduleIndependence(gates: seq<Gate>, oracle: Oracle, m: nat, log: seq<Event>, m': nat, log': seq<Event>)
    requires ValidGraph(gates)
    requires Complete(gates, m, oracle, log) && Complete(gates, m', oracle, log')
    ensures After(gates, m, oracle, log) == After(gates, m', oracle, log')
  {
    SameResults(gates, oracle, m, log, m', log');
    CompleteEnds(gates, m, oracle, log);
    CompleteEnds(gates, m', oracle, log');
    EndedWithSameResults(gates, After(gates, m, oracle, log), After(gates, m', oracle, log'));
  }

  /* ---- What the log shows ---- */

  /** How often the log reports a result for id. */
  function Observations(log: seq<Event>, id: string): nat {
    if log == [] then 0 else
      var e := log[|log| - 1];
      Observations(log[..|log| - 1], id) + if !e.Start? && e.id == id then 1 else 0
  }

  /** How often the log starts id. */
  function Starts(log: seq<Event>, id: string): nat {
    if log == [] then 0 else
      Starts(log[..|log| - 1], id) + if log[|log| - 1] == Start(id) then 1 else 0
  }

  ghost predicate WasStarted(gate: Gate, st: map<string, GateState>) {
    gate.id in st && (st[gate.id] == Running || (st[gate.id].Settled? && NeedsPassed(gate, st)))
  }

  ghost predicate HasSettled(gate: Gate, st: map<string, GateState>) {
    gate.id in st && st[gate.id].Settled?
  }

  lemma ApplyCounts(gates: seq<Gate>, m: nat, oracle: Oracle, s: State, e: Event, gate: Gate)
    requires Enabled(gates, m, s, e) && PoolOk(m, s) && Justified(gate, oracle, s.states)
    requires gate.id in ById(gates) && ById(gates)[gate.id] == gate
    ensures var t := Apply(gates, m, oracle, s, e).states;
      && (HasSettled(gate, t) <==> HasSettled(gate, s.states) || (e.id == gate.id && !e.Start?))
      && (WasStarted(gate, t) <==> WasStarted(gate, s.states) || e == Start(gate.id))
      && !(HasSettled(gate, s.states) && e.id == gate.id && !e.Start?)
      && !(WasStarted(gate, s.states) && e == Start(gate.id))
  {
    var t := Apply(gates, m, oracle, s, e).states;
    ApplyKeepsSettled(gates, m, oracle, s, e);
    NeedsFrame(gate, s.states, t);
    if e.id == gate.id {
      match e
      case Start(_) => assert IsReady(gate, s.states);
      case Settle(_) => assert Is(s.states, gate.id, Running);
      case Skip(_) => assert IsBlocked(gate, s.states);
    }
  }

  lemma {:induction false} LogCounts(gates: seq<Gate>, m: nat, oracle: Oracle, log: seq<Event>, gate: Gate)
    requires Legal(gates, m, oracle, log)
    requires gate.id in ById(gates) && ById(gates)[gate.id] == gate
    ensures var st := After(gates, m, oracle, log).states;
      && Observations(log, gate.id) == (if HasSettled(gate, st) then 1 else 0)
      && Starts(log, gate.id) == (if WasStarted(gate, st) then 1 else 0)
    decreases |log|
  {
    if log != [] {
      var before := log[..|log| - 1];
      LogCounts(gates, m, oracle, before, gate);
      ReachableInvariant(gates, m, oracle, before);
      ApplyCounts(gates, m, oracle, After(gates, m, oracle, before), log[|log| - 1], gate);
    }
  }

  /** A complete run reports each gate exactly once; it starts exactly the gates
      whose transitive needs all succeed, each once. */
  lemma EachGateOnce(gates: seq<Gate>, m: nat, oracle: Oracle, log: seq<Event>, id: string)
    requires ValidGraph(gates) && Complete(gates, m, oracle, log) && id in ById(gates)
    ensures Observations(log, id) == 1
    ensures Starts(log, id) ==
      if forall d :: d in ById(gates)[id].needs ==> LineSucceeds(gates, oracle, d) then 1 else 0
  {
    var s, gate := After(gates, m, oracle, log), ById(gates)[id];
    var f := Statuses(s);
    LogCounts(gates, m, oracle, log, gate);
    ReachableInvariant(gates, m, oracle, log);
    CompleteIsConsistent(gates, m, oracle, log);
    FinishedGate(gates, m, s, id);
    forall d | d in gate.needs
      ensures Is(s.states, d, Settled(Passed)) <==> LineSucceeds(gates, oracle, d)
    {
      assert gate in gates && d in f;
      OutcomeMeaning(gates, oracle, f, d);
      FinishedGate(gates, m, s, d);
    }
  }

  lemma {:induction false} PassedWasSettled(gates: seq<Gate>, m: nat, oracle: Oracle, log: seq<Event>, d: string)
    requires Legal(gates, m, oracle, log)
    requires Is(After(gates, m, oracle, log).states, d, Settled(Passed))
    ensures oracle(d) == Passed && Settle(d) in log
    decreases |log|
  {
    var before := log[..|log| - 1];
    if !Is(After(gates, m, oracle, before).states, d, Settled(Passed)) {
      assert log[|log| - 1] == Settle(d);
    } else {
      PassedWasSettled(gates, m, oracle, before, d);
    }
  }

  /** In every log a gate starts only after each of its needs has settled as passed. */
  lemma StartsAfterNeeds(gates: seq<Gate>, m: nat, oracle: Oracle, log: seq<Event>, i: nat, d: string)
    requires Legal(gates, m, oracle, log) && i < |log| && log[i].Start?
    ensures log[i].id in ById(gates)
    ensures d in ById(gates)[log[i].id].needs ==> oracle(d) == Passed && Settle(d) in log[..i]
  {
    LegalPrefix(gates, m, oracle, log, i + 1);
    assert log[..i + 1][..i] == log[..i];
    if d in ById(gates)[log[i].id].needs {
      assert IsReady(ById(gates)[log[i].id], After(gates, m, oracle, log[..i]).states);
      PassedWasSettled(gates, m, oracle, log[..i], d);
    }
  }

  /* ---- What a result reports ---- */

  /** By this log the gate has failed or has been skipped. */
  predicate HasFailed(oracle: Oracle, log: seq<Event>, id: string) {
    Skip(id) in log || (Settle(id) in log && oracle(id) != Passed)
  }

  /** A gate that was executed reports its own status and no blockers. One that was skipped reports
      the needs that had failed or been skipped by then, all of them and in order, and at least one. */
  ghost predicate Reports(oracle: Oracle, log: seq<Event>, gate: Gate, result: GateResult) {
    && result.gate == gate
    && (Settle(gate.id) in log ==> result.status == oracle(gate.id) && result.blockers == [])
    && (Settle(gate.id) !in log ==> exists k :: ReportsSkip(oracle, log, k, gate, result))
  }

  ghost predicate ReportsSkip(oracle: Oracle, log: seq<Event>, k: int, gate: Gate, result: GateResult) {
    && 0 <= k < |log| && log[k] == Skip(gate.id) && result.status == Skipped && result.blockers != []
    && Selects(gate.needs, d => HasFailed(oracle, log[..k], d), result.blockers)
  }

  lemma {:induction false} BlockersSelect(needs: seq<string>, states: map<string, GateState>, p: string -> bool)
    requires forall d :: IsBlocker(states, d) <==> p(d)
    ensures Selects(needs, p, Blockers(needs, states))
  {
    if needs == [] {
      SelectsNone(p);
    } else {
      var front, last := needs[..|needs| - 1], needs[|needs| - 1];
      BlockersSelect(front, states, p);
      SelectsSnoc(front, last, p, Blockers(front, states));
      assert front + [last] == needs;
    }
  }

  /** The states say what the log has shown. */
  lemma {:induction false} SettledIsLogged(gates: seq<Gate>, m: nat, oracle: Oracle, log: seq<Event>, id: string)
    requires Legal(gates, m, oracle, log)
    ensures var st := After(gates, m, oracle, log).states;
      && (IsBlocker(st, id) ==> HasFailed(oracle, log, id))
      && (Skip(id) in log ==> Is(st, id, Settled(Skipped)))
      && (Settle(id) in log ==> Is(st, id, Settled(oracle(id))))
    decreases |log|
  {
    if log != [] {
      var before, e := log[..|log| - 1], log[|log| - 1];
      SettledIsLogged(gates, m, oracle, before, id);
      ReachableInvariant(gates, m, oracle, before);
      SettlesOnce(gates, m, oracle, After(gates, m, oracle, before), e, id);
      SplitLast(log);
      InSnoc(before, e, Skip(id));
      InSnoc(before, e, Settle(id));
    }
  }

  /** One event and the state of one gate. */
  lemma SettlesOnce(gates: seq<Gate>, m: nat, oracle: Oracle, s: State, e: Event, id: string)
    requires Enabled(gates, m, s, e) && PoolOk(m, s)
    ensures var t := Apply(gates, m, oracle, s, e).states;
      && (e == Skip(id) ==> Is(t, id, Settled(Skipped)))
      && (e == Settle(id) ==> Is(t, id, Settled(oracle(id))))
      && (id in s.states && s.states[id].Settled? ==> Is(t, id, s.states[id]))
      && (IsBlocker(t, id) ==> IsBlocker(s.states, id) || e == Skip(id) || (e == Settle(id) && oracle(id) != Passed))
  {
    ApplyKeepsSettled(gates, m, oracle, s, e);
  }

  lemma BlockerHasFailed(gates: seq<Gate>, m: nat, oracle: Oracle, log: seq<Event>, id: string)
    requires Legal(gates, m, oracle, log)
    ensures IsBlocker(After(gates, m, oracle, log).states, id) <==> HasFailed(oracle, log, id)
  {
    SettledIsLogged(gates, m, oracle, log, id);
  }

  lemma SkipIsReported(gates: seq<Gate>, m: nat, oracle: Oracle, before: seq<Event>, id: string)
    requires Legal(gates, m, oracle, before + [Skip(id)]) && id in ById(gates)
    ensures var log := before + [Skip(id)];
      && id in After(gates, m, oracle, log).results
      && Reports(oracle, log, ById(gates)[id], After(gates, m, oracle, log).results[id])
  {
    var log, gate := before + [Skip(id)], ById(gates)[id];
    assert log[..|log| - 1] == before && log[..|before|] == before;
    var s := After(gates, m, oracle, before);
    assert IsBlocked(gate, s.states);
    forall d
      ensures IsBlocker(s.states, d) <==> HasFailed(oracle, before, d)
    {
      BlockerHasFailed(gates, m, oracle, before, d);
    }
    var p := d => HasFailed(oracle, log[..|before|], d);
    BlockersSelect(gate.needs, s.states, p);
    var d :| d in gate.needs && IsBlocker(s.states, d);
    SelectedSatisfies(gate.needs, p, Blockers(gate.needs, s.states), d);
    SettledIsLogged(gates, m, oracle, log, id);
    if Settle(id) in log {
      SettledIsLogged(gates, m, oracle, before, id);
      InSnoc(before, Skip(id), Settle(id));
    }
    assert ReportsSkip(oracle, log, |before|, gate, After(gates, m, oracle, log).results[id]);
  }

  lemma ReportStays(oracle: Oracle, before: seq<Event>, e: Event, gate: Gate, result: GateResult)
    requires Reports(oracle, before, gate, result) && e != Settle(gate.id)
    ensures Reports(oracle, before + [e], gate, result)
  {
    var log := before + [e];
    InSnoc(before, e, Settle(gate.id));
    if Settle(gate.id) !in log {
      var k :| ReportsSkip(oracle, before, k, gate, result);
      assert log[..k] == before[..k];
      assert ReportsSkip(oracle, log, k, gate, result);
    }
  }

  /** After every log each result reports what the log shows. */
  lemma {:induction false} ResultsReport(gates: seq<Gate>, m: nat, oracle: Oracle, log: seq<Event>, id: string)
    requires Legal(gates, m, oracle, log) && id in After(gates, m, oracle, log).results
    ensures id in ById(gates) && Reports(oracle, log, ById(gates)[id], After(gates, m, oracle, log).results[id])
    decreases |log|
  {
    if log != [] {
      var before, e := log[..|log| - 1], log[|log| - 1];
      SplitLast(log);
      if e == Skip(id) {
        SkipIsReported(gates, m, oracle, before, id);
      } else if e != Settle(id) {
        ResultsReport(gates, m, oracle, before, id);
        ReportStays(oracle, before, e, ById(gates)[id], After(gates, m, oracle, before).results[id]);
      }
    }
  }

  /** Whoever is named as a blocker has itself failed or been skipped in the end. */
  lemma BlockersFailed(gates: seq<Gate>, m: nat, oracle: Oracle, log: seq<Event>, id: string, b: string)
    requires Legal(gates, m, oracle, log) && id in After(gates, m, oracle, log).results
    requires b in After(gates, m, oracle, log).results[id].blockers
    ensures b in After(gates, m, oracle, log).results && After(gates, m, oracle, log).results[b].status != Passed
  {
    ResultsReport(gates, m, oracle, log, id);
    var gate, result := ById(gates)[id], After(gates, m, oracle, log).results[id];
    var k :| ReportsSkip(oracle, log, k, gate, result);
    SelectedSatisfies(gate.needs, d => HasFailed(oracle, log[..k], d), result.blockers, b);
    FailedHasResult(gates, m, oracle, log, b);
  }

  lemma FailedHasResult(gates: seq<Gate>, m: nat, oracle: Oracle, log: seq<Event>, id: string)
    requires Legal(gates, m, oracle, log) && HasFailed(oracle, log, id)
    ensures id in After(gates, m, oracle, log).results && After(gates, m, oracle, log).results[id].status != Passed
  {
    var s := After(gates, m, oracle, log);
    SettledIsLogged(gates, m, oracle, log, id);
    ReachableInvariant(gates, m, oracle, log);
    assert ResultOk(ById(gates)[id], s.states[id], s.results);
  }
}
