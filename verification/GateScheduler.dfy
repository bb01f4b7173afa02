/** The bounded scheduler of scripts/run-gates.ts, `runGates`.

    A run is described by its log: a gate is started, a running gate settles, or
    a gate is skipped, in the order in which the program prints and observes
    these events. `Enabled` says which events the loop can take next; the one
    choice it leaves open is which running gate wins the race. The method
    `RunGates` is shown to produce such a log; the lemmas are about all of them. */
module GateScheduler {
  import opened Digraph
  import opened GateGraph
  import opened Options

  datatype Status = Passed | Failed | Skipped

  datatype GateState = Pending | Running | Settled(status: Status)

  /** `blockers` are the ids named in the error of a skipped gate. */
  datatype GateResult = GateResult(gate: Gate, status: Status, blockers: seq<string>)

  datatype Event = Start(id: string) | Settle(id: string) | Skip(id: string)

  datatype State = State(
    states: map<string, GateState>, running: seq<string>, results: map<string, GateResult>)

  /** The status with which executing a gate would end. */
  type Oracle = string -> Status

  /* ---- The guards of the loop ---- */

  predicate Is(states: map<string, GateState>, id: string, st: GateState) {
    id in states && states[id] == st
  }

  predicate NeedsPassed(gate: Gate, states: map<string, GateState>) {
    forall d :: d in gate.needs ==> Is(states, d, Settled(Passed))
  }

  predicate IsBlocker(states: map<string, GateState>, d: string) {
    Is(states, d, Settled(Failed)) || Is(states, d, Settled(Skipped))
  }

  predicate IsReady(gate: Gate, states: map<string, GateState>) {
    Is(states, gate.id, Pending) && NeedsPassed(gate, states)
  }

  predicate IsBlocked(gate: Gate, states: map<string, GateState>) {
    Is(states, gate.id, Pending) && exists d :: d in gate.needs && IsBlocker(states, d)
  }

  /** The first ready gate in list order. */
  function FindReady(gates: seq<Gate>, states: map<string, GateState>): (r: Option<Gate>)
    ensures r.Some? ==> r.value in gates && IsReady(r.value, states)
    ensures r.None? ==> forall i :: 0 <= i < |gates| ==> !IsReady(gates[i], states)
  {
    if gates == [] then None
    else if IsReady(gates[0], states) then Some(gates[0])
    else FindReady(gates[1..], states)
  }

  /** The first pending gate, in list order, with a failed or skipped need. */
  function FindBlocked(gates: seq<Gate>, states: map<string, GateState>): (r: Option<Gate>)
    ensures r.Some? ==> r.value in gates && IsBlocked(r.value, states)
    ensures r.None? ==> forall i :: 0 <= i < |gates| ==> !IsBlocked(gates[i], states)
  {
    if gates == [] then None
    else if IsBlocked(gates[0], states) then Some(gates[0])
    else FindBlocked(gates[1..], states)
  }

  /** The failed or skipped needs, in order. */
  function Blockers(needs: seq<string>, states: map<string, GateState>): seq<string> {
    if needs == [] then []
    else
      var front, last := needs[..|needs| - 1], needs[|needs| - 1];
      if IsBlocker(states, last) then Blockers(front, states) + [last] else Blockers(front, states)
  }

  function PendingGates(gates: seq<Gate>, states: map<string, GateState>): seq<Gate> {
    if gates == [] then []
    else (if Is(states, gates[0].id, Pending) then [gates[0]] else []) + PendingGates(gates[1..], states)
  }

  /* ---- The transition system ---- */

  function Initial(gates: seq<Gate>): State {
    State(map id | id in ById(gates) :: Pending, [], map[])
  }

  /** The events the loop can take next in state s. */
  predicate Enabled(gates: seq<Gate>, m: nat, s: State, e: Event) {
    && e.id in ById(gates)
    && match e
       case Start(id) =>
         |s.running| < m && FindReady(gates, s.states) == Some(ById(gates)[id])
       case Settle(id) =>
         id in s.running && (|s.running| >= m || FindReady(gates, s.states).None?)
       case Skip(id) =>
         && |s.running| == 0 && FindReady(gates, s.states).None?
         && FindBlocked(gates, s.states) == Some(ById(gates)[id])
  }

  function Without(ids: seq<string>, id: string): (r: seq<string>)
    requires id in ids
    ensures |r| == |ids| - 1
  {
    if ids[0] == id then ids[1..] else [ids[0]] + Without(ids[1..], id)
  }

  function Apply(gates: seq<Gate>, m: nat, oracle: Oracle, s: State, e: Event): State
    requires Enabled(gates, m, s, e)
  {
    var gate := ById(gates)[e.id];
    match e
    case Start(id) =>
      State(s.states[id := Running], s.running + [id], s.results)
    case Settle(id) =>
      State(s.states[id := Settled(oracle(id))], Without(s.running, id),
            s.results[id := GateResult(gate, oracle(id), [])])
    case Skip(id) =>
      State(s.states[id := Settled(Skipped)], s.running,
            s.results[id := GateResult(gate, Skipped, Blockers(gate.needs, s.states))])
  }

  /** Every event of the log was enabled when it happened. */
  predicate Legal(gates: seq<Gate>, m: nat, oracle: Oracle, log: seq<Event>)
    decreases |log|, 0
  {
    log == [] || (
      var before := log[..|log| - 1];
      Legal(gates, m, oracle, before) &&
      Enabled(gates, m, After(gates, m, oracle, before), log[|log| - 1]))
  }

  /** The state after a legal log. */
  function After(gates: seq<Gate>, m: nat, oracle: Oracle, log: seq<Event>): State
    requires Legal(gates, m, oracle, log)
    decreases |log|, 1
  {
    if log == [] then Initial(gates) else
      var before := log[..|log| - 1];
      Apply(gates, m, oracle, After(gates, m, oracle, before), log[|log| - 1])
  }

  /** Nothing is running and nothing is pending: the loop has ended. */
  predicate Finished(s: State) {
    s.running == [] && forall id :: id in s.states ==> s.states[id] != Pending
  }

  /** A complete run of the scheduler. */
  predicate Complete(gates: seq<Gate>, m: nat, oracle: Oracle, log: seq<Event>) {
    Legal(gates, m, oracle, log) && Finished(After(gates, m, oracle, log))
  }

  lemma LegalAppend(gates: seq<Gate>, m: nat, oracle: Oracle, log: seq<Event>, e: Event)
    requires Legal(gates, m, oracle, log)
    requires Enabled(gates, m, After(gates, m, oracle, log), e)
    ensures Legal(gates, m, oracle, log + [e])
    ensures After(gates, m, oracle, log + [e])
         == Apply(gates, m, oracle, After(gates, m, oracle, log), e)
  {
    assert (log + [e])[..|log|] == log;
  }

  lemma {:induction false} LegalPrefix(gates: seq<Gate>, m: nat, oracle: Oracle, log: seq<Event>, n: nat)
    requires Legal(gates, m, oracle, log) && n <= |log|
    ensures Legal(gates, m, oracle, log[..n])
    decreases |log|
  {
    if n < |log| {
      var before := log[..|log| - 1];
      LegalPrefix(gates, m, oracle, before, n);
      assert before[..n] == log[..n];
    } else {
      assert log[..n] == log;
    }
  }

  /* ---- List order ---- */

  lemma {:induction false} ReadyIsFirst(gates: seq<Gate>, states: map<string, GateState>) returns (k: nat)
    requires FindReady(gates, states).Some?
    ensures k < |gates| && gates[k] == FindReady(gates, states).value
    ensures forall j :: 0 <= j < k ==> !IsReady(gates[j], states)
  {
    k := 0;
    if !IsReady(gates[0], states) {
      var rest := ReadyIsFirst(gates[1..], states);
      k := rest + 1;
    }
  }

  lemma {:induction false} BlockedIsFirst(gates: seq<Gate>, states: map<string, GateState>) returns (k: nat)
    requires FindBlocked(gates, states).Some?
    ensures k < |gates| && gates[k] == FindBlocked(gates, states).value
    ensures forall j :: 0 <= j < k ==> !IsBlocked(gates[j], states)
  {
    k := 0;
    if !IsBlocked(gates[0], states) {
      var rest := BlockedIsFirst(gates[1..], states);
      k := rest + 1;
    }
  }

  /** Whatever is started is the first ready gate of the list at that moment, and whatever is skipped
      is the first blocked one. */
  lemma FirstInListOrder(gates: seq<Gate>, m: nat, oracle: Oracle, log: seq<Event>, i: nat) returns (k: nat)
    requires UniqueIds(gates) && Legal(gates, m, oracle, log) && i < |log| && !log[i].Settle?
    ensures k < |gates| && gates[k].id == log[i].id && Legal(gates, m, oracle, log[..i])
    ensures var states := After(gates, m, oracle, log[..i]).states;
      && (log[i].Start? ==> IsReady(gates[k], states) && forall j :: 0 <= j < k ==> !IsReady(gates[j], states))
      && (log[i].Skip? ==> IsBlocked(gates[k], states) && forall j :: 0 <= j < k ==> !IsBlocked(gates[j], states))
  {
    LegalPrefix(gates, m, oracle, log, i + 1);
    assert log[..i + 1][..i] == log[..i];
    var states := After(gates, m, oracle, log[..i]).states;
    if log[i].Start? {
      k := ReadyIsFirst(gates, states);
    } else {
      k := BlockedIsFirst(gates, states);
    }
    ByIdAt(gates, k);
  }

  /* ---- What every reachable state keeps ---- */

  predicate Distinct(ids: seq<string>) {
    forall i, j :: 0 <= i < j < |ids| ==> ids[i] != ids[j]
  }

  /** The pool respects its bound and holds exactly the running gates. */
  ghost predicate PoolOk(m: nat, s: State) {
    && |s.running| <= m && Distinct(s.running)
    && forall id :: id in s.running <==> Is(s.states, id, Running)
  }

  /** Every settled gate has its result and no other gate has one. */
  ghost predicate ResultsOk(gates: seq<Gate>, states: map<string, GateState>, results: map<string, GateResult>) {
    && states.Keys == ById(gates).Keys && results.Keys <= states.Keys
    && forall id :: id in states ==> ResultOk(ById(gates)[id], states[id], results)
  }

  ghost predicate ResultOk(gate: Gate, st: GateState, results: map<string, GateResult>) {
    && (gate.id in results <==> st.Settled?)
    && (st.Settled? ==> results[gate.id].gate == gate && results[gate.id].status == st.status)
  }

  /** Started gates had all their needs passed; a settled gate carries the
      executor's status, or was skipped for a failed or skipped need. */
  ghost predicate Justified(gate: Gate, oracle: Oracle, states: map<string, GateState>) {
    && (Is(states, gate.id, Running) ==> NeedsPassed(gate, states))
    && (gate.id in states && states[gate.id].Settled? ==>
          if NeedsPassed(gate, states) then states[gate.id].status == oracle(gate.id)
          else states[gate.id].status == Skipped && exists d :: d in gate.needs && IsBlocker(states, d))
  }

  ghost predicate Invariant(gates: seq<Gate>, m: nat, oracle: Oracle, s: State) {
    && PoolOk(m, s)
    && ResultsOk(gates, s.states, s.results)
    && forall id :: id in ById(gates) ==> Justified(ById(gates)[id], oracle, s.states)
  }

  lemma {:induction false} WithoutIds(ids: seq<string>, id: string)
    requires id in ids && Distinct(ids)
    ensures Distinct(Without(ids, id))
    ensures forall k :: k in Without(ids, id) <==> k in ids && k != id
  {
    var rest := ids[1..];
    assert ids == [ids[0]] + rest;
    forall j | 0 <= j < |rest|
      ensures rest[j] != ids[0]
    {
      assert rest[j] == ids[j + 1];
    }
    assert Distinct(rest) by {
      forall i, j | 0 <= i < j < |rest|
        ensures rest[i] != rest[j]
      {
        assert ids[i + 1] != ids[j + 1];
      }
    }
    if ids[0] != id {
      WithoutIds(rest, id);
      var w := Without(rest, id);
      assert ids[0] !in w;
      assert Without(ids, id) == [ids[0]] + w;
    }
  }

  /** No event changes the state of a gate that has settled. */
  lemma ApplyKeepsSettled(gates: seq<Gate>, m: nat, oracle: Oracle, s: State, e: Event)
    requires Enabled(gates, m, s, e) && PoolOk(m, s)
    ensures Grows(s.states, Apply(gates, m, oracle, s, e).states)
  {
    if e.Start? {
      assert IsReady(ById(gates)[e.id], s.states);
    } else if e.Skip? {
      assert IsBlocked(ById(gates)[e.id], s.states);
    } else {
      assert Is(s.states, e.id, Running);
    }
  }

  lemma ApplyKeepsPool(gates: seq<Gate>, m: nat, oracle: Oracle, s: State, e: Event)
    requires Enabled(gates, m, s, e) && PoolOk(m, s)
    ensures PoolOk(m, Apply(gates, m, oracle, s, e))
  {
    match e
    case Start(id) =>
      assert IsReady(ById(gates)[id], s.states);
      assert id !in s.running;
    case Settle(id) =>
      WithoutIds(s.running, id);
    case Skip(id) =>
      assert IsBlocked(ById(gates)[id], s.states);
  }

  /** Settled gates stay as they are from s to t. */
  ghost predicate Grows(s: map<string, GateState>, t: map<string, GateState>) {
    forall id :: id in s && s[id].Settled? ==> Is(t, id, s[id])
  }

  lemma NeedsFrame(gate: Gate, s: map<string, GateState>, t: map<string, GateState>)
    requires Grows(s, t)
    ensures NeedsPassed(gate, s) ==> NeedsPassed(gate, t)
    ensures (exists d :: d in gate.needs && IsBlocker(s, d)) ==>
      !NeedsPassed(gate, t) && exists d :: d in gate.needs && IsBlocker(t, d)
  {
    if d :| d in gate.needs && IsBlocker(s, d) {
      assert IsBlocker(t, d) && !Is(t, d, Settled(Passed));
    }
  }

  lemma ApplyKeepsJustified(gates: seq<Gate>, m: nat, oracle: Oracle, s: State, e: Event, gate: Gate)
    requires Enabled(gates, m, s, e) && PoolOk(m, s) && Justified(gate, oracle, s.states)
    requires gate.id in ById(gates) && ById(gates)[gate.id] == gate
    ensures Justified(gate, oracle, Apply(gates, m, oracle, s, e).states)
  {
    var t := Apply(gates, m, oracle, s, e).states;
    ApplyKeepsSettled(gates, m, oracle, s, e);
    NeedsFrame(gate, s.states, t);
    if gate.id == e.id {
      match e
      case Start(id) => assert IsReady(gate, s.states);
      case Settle(id) => assert Is(s.states, id, Running);
      case Skip(id) => assert IsBlocked(gate, s.states);
    }
  }

  lemma ApplyKeepsResults(gates: seq<Gate>, m: nat, oracle: Oracle, s: State, e: Event)
    requires Enabled(gates, m, s, e) && PoolOk(m, s) && ResultsOk(gates, s.states, s.results)
    ensures var t := Apply(gates, m, oracle, s, e); ResultsOk(gates, t.states, t.results)
  {
    var t := Apply(gates, m, oracle, s, e);
    assert ResultOk(ById(gates)[e.id], s.states[e.id], s.results);
    if e.Start? {
      assert IsReady(ById(gates)[e.id], s.states);
    }
    assert t.states.Keys == s.states.Keys;
    forall id | id in t.states
      ensures ResultOk(ById(gates)[id], t.states[id], t.results)
    {
      assert ResultOk(ById(gates)[id], s.states[id], s.results);
    }
  }

  lemma ApplyKeepsInvariant(gates: seq<Gate>, m: nat, oracle: Oracle, s: State, e: Event)
    requires Enabled(gates, m, s, e) && Invariant(gates, m, oracle, s)
    ensures Invariant(gates, m, oracle, Apply(gates, m, oracle, s, e))
  {
    ApplyKeepsPool(gates, m, oracle, s, e);
    ApplyKeepsResults(gates, m, oracle, s, e);
    forall id | id in ById(gates)
      ensures Justified(ById(gates)[id], oracle, Apply(gates, m, oracle, s, e).states)
    {
      ApplyKeepsJustified(gates, m, oracle, s, e, ById(gates)[id]);
    }
  }

  /** Every reachable state satisfies the invariant, whoever wins the races. */
  lemma {:induction false} ReachableInvariant(gates: seq<Gate>, m: nat, oracle: Oracle, log: seq<Event>)
    requires Legal(gates, m, oracle, log)
    ensures Invariant(gates, m, oracle, After(gates, m, oracle, log))
    decreases |log|
  {
    if log != [] {
      var before := log[..|log| - 1];
      ReachableInvariant(gates, m, oracle, before);
      ApplyKeepsInvariant(gates, m, oracle, After(gates, m, oracle, before), log[|log| - 1]);
    }
  }

  /* ---- Progress and termination ---- */

  function PendingIds(states: map<string, GateState>): set<string> {
    set id | id in states && states[id] == Pending
  }

  /** A pending gate that is neither ready nor blocked waits for a pending gate. */
  lemma WaitsForPending(m: nat, s: State, gate: Gate)
    requires PoolOk(m, s) && s.running == []
    requires forall d :: d in gate.needs ==> d in s.states
    requires Is(s.states, gate.id, Pending) && !IsReady(gate, s.states) && !IsBlocked(gate, s.states)
    ensures exists d :: d in gate.needs && d in PendingIds(s.states)
  {
    var d :| d in gate.needs && !Is(s.states, d, Settled(Passed));
    assert !IsBlocker(s.states, d) && !Is(s.states, d, Running);
    assert s.states[d] == Pending by {
      match s.states[d]
      case Pending =>
      case Running =>
      case Settled(Passed) =>
      case Settled(Failed) =>
      case Settled(Skipped) =>
    }
    assert d in PendingIds(s.states);
  }

  /** With an empty pool and nothing ready, some pending gate has a failed or
      skipped need: the throw "validated graph stalled" cannot be reached. */
  lemma EmptyPoolIsNotStuck(gates: seq<Gate>, m: nat, s: State)
    requires ValidGraph(gates) && PoolOk(m, s) && s.states.Keys == ById(gates).Keys
    requires s.running == [] && FindReady(gates, s.states).None?
    requires PendingIds(s.states) != {}
    ensures FindBlocked(gates, s.states).Some?
  {
    if FindBlocked(gates, s.states).None? {
      var g, pending := NeedsGraph(gates), PendingIds(s.states);
      forall id | id in pending
        ensures HasSuccessorIn(g, id, pending)
      {
        var gate := ById(gates)[id];
        assert !IsReady(gate, s.states) && !IsBlocked(gate, s.states);
        WaitsForPending(m, s, gate);
        var d :| d in gate.needs && d in pending;
        assert Edge(g, id, d);
      }
      NoTrap(g, pending);
    }
  }

  /** A run that has not ended can take a next event. */
  lemma Progress(gates: seq<Gate>, m: nat, oracle: Oracle, log: seq<Event>)
    requires ValidGraph(gates) && m >= 1 && Legal(gates, m, oracle, log)
    requires !Finished(After(gates, m, oracle, log))
    ensures exists e :: Enabled(gates, m, After(gates, m, oracle, log), e)
  {
    var s := After(gates, m, oracle, log);
    ReachableInvariant(gates, m, oracle, log);
    var ready := FindReady(gates, s.states);
    if |s.running| < m && ready.Some? {
      ByIdOfMember(gates, ready.value);
      assert Enabled(gates, m, s, Start(ready.value.id));
    } else if s.running != [] {
      assert Is(s.states, s.running[0], Running);
      assert Enabled(gates, m, s, Settle(s.running[0]));
    } else {
      var id :| id in s.states && s.states[id] == Pending;
      assert id in PendingIds(s.states);
      EmptyPoolIsNotStuck(gates, m, s);
      var blocked := FindBlocked(gates, s.states).value;
      ByIdOfMember(gates, blocked);
      assert Enabled(gates, m, s, Skip(blocked.id));
    }
  }

  lemma ByIdOfMember(gates: seq<Gate>, gate: Gate)
    requires UniqueIds(gates) && gate in gates
    ensures gate.id in ById(gates) && ById(gates)[gate.id] == gate
  {
    var i :| 0 <= i < |gates| && gates[i] == gate;
    ByIdAt(gates, i);
  }

  /** Each event uses up work: two steps for a pending gate, one for a running gate. */
  function WorkLeft(s: State): nat {
    2 * |PendingIds(s.states)| + |s.running|
  }

  lemma ApplyUsesWork(gates: seq<Gate>, m: nat, oracle: Oracle, s: State, e: Event)
    requires Enabled(gates, m, s, e) && PoolOk(m, s)
    ensures WorkLeft(Apply(gates, m, oracle, s, e)) < WorkLeft(s)
  {
    var t := Apply(gates, m, oracle, s, e);
    match e
    case Start(id) =>
      assert IsReady(ById(gates)[id], s.states);
      assert PendingIds(t.states) == PendingIds(s.states) - {id};
    case Settle(id) =>
      assert Is(s.states, id, Running);
      assert PendingIds(t.states) == PendingIds(s.states);
    case Skip(id) =>
      assert IsBlocked(ById(gates)[id], s.states);
      assert PendingIds(t.states) == PendingIds(s.states) - {id};
  }

  /** Every run ends: a legal log has at most two events per gate. */
  lemma {:induction false} RunsEnd(gates: seq<Gate>, m: nat, oracle: Oracle, log: seq<Event>)
    requires Legal(gates, m, oracle, log)
    ensures |log| + WorkLeft(After(gates, m, oracle, log)) <= 2 * |gates|
    decreases |log|
  {
    if log == [] {
      assert PendingIds(Initial(gates).states) == ById(gates).Keys;
      FewIds(gates);
    } else {
      var before := log[..|log| - 1];
      RunsEnd(gates, m, oracle, before);
      ReachableInvariant(gates, m, oracle, before);
      ApplyUsesWork(gates, m, oracle, After(gates, m, oracle, before), log[|log| - 1]);
    }
  }

  lemma {:induction false} FewIds(gates: seq<Gate>)
    ensures |ById(gates).Keys| <= |gates|
  {
    if gates != [] {
      var front := gates[..|gates| - 1];
      FewIds(front);
      assert ById(gates).Keys == ById(front).Keys + {gates[|gates| - 1].id};
    }
  }
}
