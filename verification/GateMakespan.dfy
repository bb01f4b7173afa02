/** How long a run of the gate scheduler takes: scripts/run-gates.ts, `runGates`.

    Every gate has a duration, and the race is won by a gate that finishes first.
    Because the pool is refilled before every wait, the finish time is within the
    bound of greedy scheduling, and no two schedules differ by a factor of two. */
module GateMakespan {
  import opened Arithmetic
  import opened GateGraph
  import opened GateOutcome
  import opened GateScheduler
  import opened Sequences

  type Durations = string -> nat

  /** Simulated time: now, the time all workers together have spent on gates, and
      when each gate was started. */
  datatype Clock = Clock(now: int, busy: int, started: map<string, int>)

  function Finish(dur: Durations, c: Clock, id: string): int {
    if id in c.started then c.started[id] + dur(id) else c.now
  }

  function Tick(dur: Durations, s: State, c: Clock, e: Event): Clock {
    match e
    case Start(id) => c.(started := c.started[id := c.now])
    case Settle(id) =>
      var next := Finish(dur, c, id);
      c.(now := next, busy := c.busy + Times(|s.running|, next - c.now))
    case Skip(_) => c
  }

  function ClockAfter(gates: seq<Gate>, m: nat, oracle: Oracle, dur: Durations, log: seq<Event>): Clock
    requires Legal(gates, m, oracle, log)
    decreases |log|
  {
    if log == [] then Clock(0, 0, map[]) else
      var before := log[..|log| - 1];
      Tick(dur, After(gates, m, oracle, before), ClockAfter(gates, m, oracle, dur, before), log[|log| - 1])
  }

  /** A race is won by a running gate that finishes no later than the others. */
  predicate WinsRace(dur: Durations, s: State, c: Clock, e: Event) {
    e.Settle? ==> forall r :: r in s.running ==> Finish(dur, c, e.id) <= Finish(dur, c, r)
  }

  /** Every race of the log was won by a gate that finished first. */
  predicate Chronological(gates: seq<Gate>, m: nat, oracle: Oracle, dur: Durations, log: seq<Event>)
    requires Legal(gates, m, oracle, log)
    decreases |log|
  {
    log == [] || (
      var before := log[..|log| - 1];
      && Chronological(gates, m, oracle, dur, before)
      && WinsRace(dur, After(gates, m, oracle, before), ClockAfter(gates, m, oracle, dur, before), log[|log| - 1]))
  }

  /** The durations of the started gates, added up. */
  function Load(dur: Durations, log: seq<Event>): nat {
    if log == [] then 0 else
      Load(dur, log[..|log| - 1]) + if log[|log| - 1].Start? then dur(log[|log| - 1].id) else 0
  }

  /** A dependency chain: each gate is needed by the next. */
  predicate IsChain(gates: seq<Gate>, ch: seq<string>) {
    && (forall i :: 0 <= i < |ch| ==> ch[i] in ById(gates))
    && forall i :: 0 < i < |ch| ==> ch[i - 1] in ById(gates)[ch[i]].needs
  }

  function Length(dur: Durations, ch: seq<string>): nat {
    if ch == [] then 0 else Length(dur, ch[..|ch| - 1]) + dur(ch[|ch| - 1])
  }

  lemma LengthAppend(dur: Durations, ch: seq<string>, id: string)
    ensures Length(dur, ch + [id]) == Length(dur, ch) + dur(id)
  {
    assert (ch + [id])[..|ch|] == ch;
  }

  /* ---- The clock is consistent with the states ---- */

  ghost predicate StartedAfter(gate: Gate, dur: Durations, c: Clock)
    requires gate.id in c.started
  {
    forall d :: d in gate.needs ==> d in c.started && Finish(dur, c, d) <= c.started[gate.id]
  }

  ghost predicate GateTime(gate: Gate, dur: Durations, s: State, c: Clock) {
    var id := gate.id;
    && (id in s.running ==> id in c.started && c.started[id] <= c.now <= Finish(dur, c, id))
    && (Is(s.states, id, Settled(Passed)) ==> id in c.started)
    && (id in c.started ==>
          && 0 <= c.started[id]
          && id in s.states && s.states[id] != Pending
          && (id in s.running || Finish(dur, c, id) <= c.now)
          && StartedAfter(gate, dur, c))
  }

  ghost predicate TimeOk(gates: seq<Gate>, dur: Durations, s: State, c: Clock) {
    && 0 <= c.now
    && (forall id :: id in c.started ==> id in ById(gates))
    && forall id :: id in ById(gates) ==> GateTime(ById(gates)[id], dur, s, c)
  }

  lemma StartKeepsGateTime(gates: seq<Gate>, m: nat, oracle: Oracle, dur: Durations, s: State, c: Clock,
                           id: string, gate: Gate)
    requires Enabled(gates, m, s, Start(id)) && PoolOk(m, s) && TimeOk(gates, dur, s, c)
    requires KnownNeeds(gates) && gate.id in ById(gates) && ById(gates)[gate.id] == gate
    ensures GateTime(gate, dur, Apply(gates, m, oracle, s, Start(id)), Tick(dur, s, c, Start(id)))
  {
    assert IsReady(ById(gates)[id], s.states);
    assert GateTime(gate, dur, s, c);
    assert GateTime(ById(gates)[id], dur, s, c);
    assert id !in c.started && id !in s.running;
    forall d | gate.id == id && d in gate.needs
      ensures d in c.started && d != id && Finish(dur, c, d) <= c.now
    {
      assert gate in gates && Is(s.states, d, Settled(Passed));
      assert GateTime(ById(gates)[d], dur, s, c);
    }
  }

  lemma SettleKeepsGateTime(gates: seq<Gate>, m: nat, oracle: Oracle, dur: Durations, s: State, c: Clock,
                            id: string, gate: Gate)
    requires Enabled(gates, m, s, Settle(id)) && PoolOk(m, s) && TimeOk(gates, dur, s, c)
    requires WinsRace(dur, s, c, Settle(id)) && gate.id in ById(gates) && ById(gates)[gate.id] == gate
    ensures GateTime(gate, dur, Apply(gates, m, oracle, s, Settle(id)), Tick(dur, s, c, Settle(id)))
    ensures c.now <= Finish(dur, c, id)
  {
    assert GateTime(gate, dur, s, c);
    assert GateTime(ById(gates)[id], dur, s, c);
    WithoutIds(s.running, id);
    assert Is(s.states, id, Running);
  }

  lemma TickKeepsTime(gates: seq<Gate>, m: nat, oracle: Oracle, dur: Durations, s: State, c: Clock, e: Event)
    requires Enabled(gates, m, s, e) && PoolOk(m, s) && KnownNeeds(gates)
    requires TimeOk(gates, dur, s, c) && WinsRace(dur, s, c, e)
    ensures TimeOk(gates, dur, Apply(gates, m, oracle, s, e), Tick(dur, s, c, e))
    ensures c.now <= Tick(dur, s, c, e).now
  {
    forall id | id in ById(gates)
      ensures GateTime(ById(gates)[id], dur, Apply(gates, m, oracle, s, e), Tick(dur, s, c, e))
    {
      match e
      case Start(k) => StartKeepsGateTime(gates, m, oracle, dur, s, c, k, ById(gates)[id]);
      case Settle(k) => SettleKeepsGateTime(gates, m, oracle, dur, s, c, k, ById(gates)[id]);
      case Skip(k) =>
        assert GateTime(ById(gates)[id], dur, s, c);
        assert IsBlocked(ById(gates)[k], s.states);
    }
    if e.Settle? {
      SettleKeepsGateTime(gates, m, oracle, dur, s, c, e.id, ById(gates)[e.id]);
    }
  }

  /* ---- Work is neither lost nor invented ---- */

  /** What the running gates still need. */
  function Remaining(dur: Durations, c: Clock, ids: seq<string>): int {
    if ids == [] then 0 else Finish(dur, c, ids[0]) - c.now + Remaining(dur, c, ids[1..])
  }

  lemma {:induction false} RemainingAfterWait(dur: Durations, c: Clock, c': Clock, ids: seq<string>)
    requires forall id :: id in ids ==> id in c.started && id in c'.started && c'.started[id] == c.started[id]
    ensures Remaining(dur, c', ids) == Remaining(dur, c, ids) - Times(|ids|, c'.now - c.now)
  {
    if ids != [] {
      RemainingAfterWait(dur, c, c', ids[1..]);
    }
  }

  lemma {:induction false} RemainingWithout(dur: Durations, c: Clock, ids: seq<string>, id: string)
    requires id in ids
    ensures Remaining(dur, c, Without(ids, id)) == Remaining(dur, c, ids) - (Finish(dur, c, id) - c.now)
  {
    if ids[0] != id {
      var rest := Without(ids[1..], id);
      RemainingWithout(dur, c, ids[1..], id);
      assert ([ids[0]] + rest)[1..] == rest;
    }
  }

  lemma {:induction false} RemainingAppend(dur: Durations, c: Clock, ids: seq<string>, id: string)
    ensures Remaining(dur, c, ids + [id]) == Remaining(dur, c, ids) + Finish(dur, c, id) - c.now
  {
    if ids != [] {
      RemainingAppend(dur, c, ids[1..], id);
      assert (ids + [id])[1..] == ids[1..] + [id];
    } else {
      assert ids + [id] == [id];
    }
  }

  lemma StartConservesWork(dur: Durations, c: Clock, ids: seq<string>, id: string)
    requires id !in ids && forall r :: r in ids ==> r in c.started
    ensures var c' := c.(started := c.started[id := c.now]);
      Remaining(dur, c', ids + [id]) == Remaining(dur, c, ids) + dur(id)
  {
    var c' := c.(started := c.started[id := c.now]);
    RemainingAfterWait(dur, c, c', ids);
    TimesIsProduct(|ids|, 0);
    RemainingAppend(dur, c', ids, id);
  }

  lemma SettleConservesWork(dur: Durations, c: Clock, ids: seq<string>, id: string)
    requires id in ids && forall r :: r in ids ==> r in c.started
    ensures var next := Finish(dur, c, id);
      Times(|ids|, next - c.now) + Remaining(dur, c.(now := next), Without(ids, id)) == Remaining(dur, c, ids)
  {
    var c' := c.(now := Finish(dur, c, id));
    RemainingAfterWait(dur, c, c', ids);
    RemainingWithout(dur, c', ids, id);
    assert Finish(dur, c', id) == c'.now;
  }

  lemma {:induction false} RemainingIgnoresBusy(dur: Durations, c: Clock, busy: int, ids: seq<string>)
    ensures Remaining(dur, c.(busy := busy), ids) == Remaining(dur, c, ids)
  {
    if ids != [] {
      RemainingIgnoresBusy(dur, c, busy, ids[1..]);
    }
  }

  /** Time spent plus time still needed is the total duration of the started gates. */
  lemma {:induction false} WorkIsConserved(gates: seq<Gate>, m: nat, oracle: Oracle, dur: Durations, log: seq<Event>)
    requires KnownNeeds(gates) && Legal(gates, m, oracle, log) && Chronological(gates, m, oracle, dur, log)
    ensures var s, c := After(gates, m, oracle, log), ClockAfter(gates, m, oracle, dur, log);
      TimeOk(gates, dur, s, c) && c.busy + Remaining(dur, c, s.running) == Load(dur, log)
    decreases |log|
  {
    if log != [] {
      var before, e := log[..|log| - 1], log[|log| - 1];
      var s, c := After(gates, m, oracle, before), ClockAfter(gates, m, oracle, dur, before);
      WorkIsConserved(gates, m, oracle, dur, before);
      ReachableInvariant(gates, m, oracle, before);
      TickKeepsTime(gates, m, oracle, dur, s, c, e);
      forall id | id in s.running
        ensures id in c.started
      {
        PoolIsStarted(gates, m, dur, s, c, id);
      }
      assert e.Start? ==> IsReady(ById(gates)[e.id], s.states);
      TickConservesWork(gates, m, oracle, dur, s, c, e);
    }
  }

  lemma TickConservesWork(gates: seq<Gate>, m: nat, oracle: Oracle, dur: Durations, s: State, c: Clock, e: Event)
    requires Enabled(gates, m, s, e)
    requires forall id :: id in s.running ==> id in c.started
    requires e.Start? ==> e.id !in s.running
    ensures var t, c' := Apply(gates, m, oracle, s, e), Tick(dur, s, c, e);
      c'.busy + Remaining(dur, c', t.running)
        == c.busy + Remaining(dur, c, s.running) + if e.Start? then dur(e.id) else 0
  {
    match e
    case Start(id) =>
      StartConservesWork(dur, c, s.running, id);
    case Settle(id) =>
      SettleTickConservesWork(dur, s, c, id);
    case Skip(id) =>
  }

  lemma SettleTickConservesWork(dur: Durations, s: State, c: Clock, id: string)
    requires id in s.running && forall r :: r in s.running ==> r in c.started
    ensures var c' := Tick(dur, s, c, Settle(id));
      c'.busy + Remaining(dur, c', Without(s.running, id)) == c.busy + Remaining(dur, c, s.running)
  {
    SettleConservesWork(dur, c, s.running, id);
    RemainingIgnoresBusy(dur, c.(now := Finish(dur, c, id)), Tick(dur, s, c, Settle(id)).busy, Without(s.running, id));
  }

  lemma PoolIsStarted(gates: seq<Gate>, m: nat, dur: Durations, s: State, c: Clock, id: string)
    requires PoolOk(m, s) && TimeOk(gates, dur, s, c) && id in s.running
    requires s.states.Keys == ById(gates).Keys
    ensures id in c.started && c.started[id] <= c.now <= Finish(dur, c, id)
  {
    assert Is(s.states, id, Running);
    assert GateTime(ById(gates)[id], dur, s, c);
  }

  /* ---- Whenever a worker idles, a chain is making progress ---- */

  lemma BoundedIsProduct(m: nat, now: int, busy: int, slack: int)
    requires m >= 1
    ensures Bounded(m, now, busy, slack) <==> m * now <= busy + (m - 1) * slack
  {
    TimesIsProduct(m, now);
    TimesIsProduct(m - 1, slack);
  }

  /** Up to now, time in which some worker idled is at most `slack`. */
  ghost predicate Bounded(m: nat, now: int, busy: int, slack: int) {
    m >= 1 && Times(m, now) <= busy + Times(m - 1, slack)
  }

  /** While at least one worker is busy, idle time grows no faster than the clock. */
  lemma WaitBusy(m: nat, now: int, busy: int, slack: int, r: nat, wait: nat)
    requires Bounded(m, now, busy, slack) && 1 <= r && 1 <= m
    ensures Bounded(m, now + wait, busy + Times(r, wait), slack + wait)
  {
    BoundedIsProduct(m, now, busy, slack);
    BoundedIsProduct(m, now + wait, busy + Times(r, wait), slack + wait);
    TimesIsProduct(r, wait);
    assert 1 * wait <= r * wait;
    assert m * (now + wait) == m * now + m * wait;
    assert (m - 1) * (slack + wait) == (m - 1) * slack + (m - 1) * wait;
    assert m * wait == (m - 1) * wait + wait;
  }

  /** While every worker is busy, no idle time is added. */
  lemma WaitFull(m: nat, now: int, busy: int, slack: int, wait: nat)
    requires Bounded(m, now, busy, slack)
    ensures Bounded(m, now + wait, busy + Times(m, wait), slack)
  {
    BoundedIsProduct(m, now, busy, slack);
    BoundedIsProduct(m, now + wait, busy + Times(m, wait), slack);
    TimesIsProduct(m, wait);
    assert m * (now + wait) == m * now + m * wait;
  }

  /** ch is a chain of started gates that id can extend. */
  ghost predicate ChainTo(gates: seq<Gate>, c: Clock, ch: seq<string>, id: string) {
    IsChain(gates, ch + [id]) && forall k :: k in ch ==> k in c.started
  }

  ghost predicate RunningBound(gates: seq<Gate>, m: nat, dur: Durations, c: Clock, id: string) {
    id in c.started &&
    exists ch :: ChainTo(gates, c, ch, id) && Bounded(m, c.now, c.busy, Length(dur, ch) + (c.now - c.started[id]))
  }

  ghost predicate ReadyBound(gates: seq<Gate>, m: nat, dur: Durations, c: Clock, id: string) {
    exists ch :: ChainTo(gates, c, ch, id) && Bounded(m, c.now, c.busy, Length(dur, ch))
  }

  ghost predicate StartedChain(gates: seq<Gate>, c: Clock, ch: seq<string>) {
    IsChain(gates, ch) && forall k :: k in ch ==> k in c.started
  }

  ghost predicate ChainBound(gates: seq<Gate>, m: nat, dur: Durations, c: Clock) {
    exists ch :: StartedChain(gates, c, ch) && Bounded(m, c.now, c.busy, Length(dur, ch))
  }

  ghost predicate BoundOk(gates: seq<Gate>, m: nat, dur: Durations, s: State, c: Clock) {
    && (forall id :: id in s.running ==> RunningBound(gates, m, dur, c, id))
    && (forall id :: id in ById(gates) && IsReady(ById(gates)[id], s.states) ==> ReadyBound(gates, m, dur, c, id))
    && ChainBound(gates, m, dur, c)
  }

  lemma InitiallyBounded(gates: seq<Gate>, m: nat, dur: Durations)
    requires m >= 1
    ensures BoundOk(gates, m, dur, Initial(gates), Clock(0, 0, map[]))
  {
    var c := Clock(0, 0, map[]);
    assert StartedChain(gates, c, []);
    BoundedIsProduct(m, 0, 0, 0);
    forall id | id in ById(gates)
      ensures ReadyBound(gates, m, dur, c, id)
    {
      assert ChainTo(gates, c, [], id) && Bounded(m, c.now, c.busy, Length(dur, []));
    }
  }

  function Begin(c: Clock, id: string): Clock {
    c.(started := c.started[id := c.now])
  }

  lemma BeginKeepsRunningBound(gates: seq<Gate>, m: nat, dur: Durations, c: Clock, id: string, k: string)
    requires RunningBound(gates, m, dur, c, k) && id !in c.started
    ensures RunningBound(gates, m, dur, Begin(c, id), k)
  {
    var ch :| ChainTo(gates, c, ch, k) && Bounded(m, c.now, c.busy, Length(dur, ch) + (c.now - c.started[k]));
    assert ChainTo(gates, Begin(c, id), ch, k);
  }

  lemma BeginKeepsReadyBound(gates: seq<Gate>, m: nat, dur: Durations, c: Clock, id: string, k: string)
    requires ReadyBound(gates, m, dur, c, k)
    ensures ReadyBound(gates, m, dur, Begin(c, id), k)
  {
    var ch :| ChainTo(gates, c, ch, k) && Bounded(m, c.now, c.busy, Length(dur, ch));
    assert ChainTo(gates, Begin(c, id), ch, k);
  }

  lemma ReadyBecomesRunning(gates: seq<Gate>, m: nat, dur: Durations, c: Clock, id: string)
    requires ReadyBound(gates, m, dur, c, id)
    ensures RunningBound(gates, m, dur, Begin(c, id), id)
  {
    var ch :| ChainTo(gates, c, ch, id) && Bounded(m, c.now, c.busy, Length(dur, ch));
    assert ChainTo(gates, Begin(c, id), ch, id);
    assert Bounded(m, c.now, c.busy, Length(dur, ch) + (c.now - Begin(c, id).started[id]));
  }

  lemma BeginKeepsChainBound(gates: seq<Gate>, m: nat, dur: Durations, c: Clock, id: string)
    requires ChainBound(gates, m, dur, c)
    ensures ChainBound(gates, m, dur, Begin(c, id))
  {
    var ch :| StartedChain(gates, c, ch) && Bounded(m, c.now, c.busy, Length(dur, ch));
    assert StartedChain(gates, Begin(c, id), ch);
  }

  lemma StartKeepsBound(gates: seq<Gate>, m: nat, oracle: Oracle, dur: Durations, s: State, c: Clock, id: string)
    requires Enabled(gates, m, s, Start(id)) && BoundOk(gates, m, dur, s, c)
    requires id !in c.started
    ensures BoundOk(gates, m, dur, Apply(gates, m, oracle, s, Start(id)), Begin(c, id))
  {
    var t := Apply(gates, m, oracle, s, Start(id));
    assert IsReady(ById(gates)[id], s.states);
    ReadyBecomesRunning(gates, m, dur, c, id);
    forall k | k in t.running
      ensures RunningBound(gates, m, dur, Begin(c, id), k)
    {
      if k != id {
        BeginKeepsRunningBound(gates, m, dur, c, id, k);
      }
    }
    forall k | k in ById(gates) && IsReady(ById(gates)[k], t.states)
      ensures ReadyBound(gates, m, dur, Begin(c, id), k)
    {
      StillReady(ById(gates)[k], s.states, id);
      BeginKeepsReadyBound(gates, m, dur, c, id, k);
    }
    BeginKeepsChainBound(gates, m, dur, c, id);
  }

  /** Starting a gate makes no other gate ready. */
  lemma StillReady(gate: Gate, states: map<string, GateState>, id: string)
    requires IsReady(gate, states[id := Running])
    ensures IsReady(gate, states)
  {
    forall d | d in gate.needs
      ensures Is(states, d, Settled(Passed))
    {
      assert Is(states[id := Running], d, Settled(Passed));
    }
  }

  /** Waiting until a gate settles makes its whole duration part of the chain. */
  lemma SettledBound(m: nat, dur: Durations, s: State, c: Clock, id: string, length: int)
    requires m >= 1 && id in s.running && id in c.started && c.now <= Finish(dur, c, id)
    requires Bounded(m, c.now, c.busy, length + (c.now - c.started[id]))
    ensures var c' := Tick(dur, s, c, Settle(id)); Bounded(m, c'.now, c'.busy, length + dur(id))
  {
    var wait := Finish(dur, c, id) - c.now;
    WaitBusy(m, c.now, c.busy, length + (c.now - c.started[id]), |s.running|, wait);
    assert length + (c.now - c.started[id]) + wait == length + dur(id);
    assert c.now + wait == Finish(dur, c, id);
  }

  /** When id settles, its own chain, extended by id, bounds the clock. */
  lemma SettledChain(gates: seq<Gate>, m: nat, dur: Durations, s: State, c: Clock, id: string) returns (ch: seq<string>)
    requires m >= 1 && id in s.running && RunningBound(gates, m, dur, c, id) && c.now <= Finish(dur, c, id)
    ensures var c' := Tick(dur, s, c, Settle(id));
      StartedChain(gates, c', ch) && Bounded(m, c'.now, c'.busy, Length(dur, ch)) && ch != [] && ch[|ch| - 1] == id
  {
    var pre :| ChainTo(gates, c, pre, id) && Bounded(m, c.now, c.busy, Length(dur, pre) + (c.now - c.started[id]));
    SettledBound(m, dur, s, c, id, Length(dur, pre));
    ch := ExtendedChain(gates, dur, s, c, pre, id);
  }

  lemma ExtendedChain(gates: seq<Gate>, dur: Durations, s: State, c: Clock, pre: seq<string>, id: string)
    returns (ch: seq<string>)
    requires ChainTo(gates, c, pre, id) && id in c.started
    ensures StartedChain(gates, Tick(dur, s, c, Settle(id)), ch) && ch != [] && ch[|ch| - 1] == id
    ensures Length(dur, ch) == Length(dur, pre) + dur(id)
  {
    ch := pre + [id];
    LengthAppend(dur, pre, id);
  }

  lemma SettleKeepsRunningBound(gates: seq<Gate>, m: nat, dur: Durations, s: State, c: Clock, id: string, k: string)
    requires m >= 1 && id in s.running && RunningBound(gates, m, dur, c, k) && c.now <= Finish(dur, c, id)
    ensures RunningBound(gates, m, dur, Tick(dur, s, c, Settle(id)), k)
  {
    var c' := Tick(dur, s, c, Settle(id));
    var ch :| ChainTo(gates, c, ch, k) && Bounded(m, c.now, c.busy, Length(dur, ch) + (c.now - c.started[k]));
    WaitBusy(m, c.now, c.busy, Length(dur, ch) + (c.now - c.started[k]), |s.running|, Finish(dur, c, id) - c.now);
    assert ChainTo(gates, c', ch, k) && Bounded(m, c'.now, c'.busy, Length(dur, ch) + (c'.now - c'.started[k]));
  }

  /** A gate was ready while the loop waited, so the pool was full. */
  lemma WaitingStaysBounded(gates: seq<Gate>, m: nat, dur: Durations, s: State, c: Clock, id: string, k: string)
    requires ReadyBound(gates, m, dur, c, k) && |s.running| == m && c.now <= Finish(dur, c, id)
    ensures ReadyBound(gates, m, dur, Tick(dur, s, c, Settle(id)), k)
  {
    var ch :| ChainTo(gates, c, ch, k) && Bounded(m, c.now, c.busy, Length(dur, ch));
    WaitFull(m, c.now, c.busy, Length(dur, ch), Finish(dur, c, id) - c.now);
    assert ChainTo(gates, Tick(dur, s, c, Settle(id)), ch, k);
  }

  /** The last need of k has just settled. */
  lemma NewlyReadyIsBounded(gates: seq<Gate>, m: nat, dur: Durations, s: State, c: Clock, id: string, k: string)
    requires m >= 1 && id in s.running && RunningBound(gates, m, dur, c, id) && c.now <= Finish(dur, c, id)
    requires k in ById(gates) && id in ById(gates)[k].needs
    ensures ReadyBound(gates, m, dur, Tick(dur, s, c, Settle(id)), k)
  {
    var ch := SettledChain(gates, m, dur, s, c, id);
    assert ChainTo(gates, Tick(dur, s, c, Settle(id)), ch, k);
  }

  lemma SettleKeepsReadyBound(gates: seq<Gate>, m: nat, oracle: Oracle, dur: Durations, s: State, c: Clock,
                              id: string, k: string)
    requires m >= 1 && Enabled(gates, m, s, Settle(id)) && PoolOk(m, s) && BoundOk(gates, m, dur, s, c)
    requires c.now <= Finish(dur, c, id)
    requires k in ById(gates) && IsReady(ById(gates)[k], Apply(gates, m, oracle, s, Settle(id)).states)
    ensures ReadyBound(gates, m, dur, Tick(dur, s, c, Settle(id)), k)
  {
    var gate := ById(gates)[k];
    assert Is(s.states, id, Running);
    if IsReady(gate, s.states) {
      assert gate in gates && |s.running| == m;
      WaitingStaysBounded(gates, m, dur, s, c, id, k);
    } else {
      assert id in gate.needs;
      NewlyReadyIsBounded(gates, m, dur, s, c, id, k);
    }
  }

  lemma SettleKeepsBound(gates: seq<Gate>, m: nat, oracle: Oracle, dur: Durations, s: State, c: Clock, id: string)
    requires m >= 1 && Enabled(gates, m, s, Settle(id)) && PoolOk(m, s) && BoundOk(gates, m, dur, s, c)
    requires c.now <= Finish(dur, c, id)
    ensures BoundOk(gates, m, dur, Apply(gates, m, oracle, s, Settle(id)), Tick(dur, s, c, Settle(id)))
  {
    var t, c' := Apply(gates, m, oracle, s, Settle(id)), Tick(dur, s, c, Settle(id));
    WithoutIds(s.running, id);
    forall k | k in t.running
      ensures RunningBound(gates, m, dur, c', k)
    {
      SettleKeepsRunningBound(gates, m, dur, s, c, id, k);
    }
    forall k | k in ById(gates) && IsReady(ById(gates)[k], t.states)
      ensures ReadyBound(gates, m, dur, c', k)
    {
      SettleKeepsReadyBound(gates, m, oracle, dur, s, c, id, k);
    }
    var ch := SettledChain(gates, m, dur, s, c, id);
  }

  lemma SkipKeepsBound(gates: seq<Gate>, m: nat, oracle: Oracle, dur: Durations, s: State, c: Clock, id: string)
    requires Enabled(gates, m, s, Skip(id)) && BoundOk(gates, m, dur, s, c)
    ensures BoundOk(gates, m, dur, Apply(gates, m, oracle, s, Skip(id)), c)
  {
    var t := Apply(gates, m, oracle, s, Skip(id));
    SkipKeepsQuiet(gates, m, oracle, s, Skip(id));
    forall k | k in ById(gates)
      ensures !IsReady(ById(gates)[k], t.states)
    {
      assert ById(gates)[k] in gates;
    }
  }

  lemma {:induction false} RunIsBounded(gates: seq<Gate>, m: nat, oracle: Oracle, dur: Durations, log: seq<Event>)
    requires ValidGraph(gates) && m >= 1
    requires Legal(gates, m, oracle, log) && Chronological(gates, m, oracle, dur, log)
    ensures BoundOk(gates, m, dur, After(gates, m, oracle, log), ClockAfter(gates, m, oracle, dur, log))
    decreases |log|
  {
    if log == [] {
      InitiallyBounded(gates, m, dur);
    } else {
      var before, e := log[..|log| - 1], log[|log| - 1];
      var s, c := After(gates, m, oracle, before), ClockAfter(gates, m, oracle, dur, before);
      RunIsBounded(gates, m, oracle, dur, before);
      ReachableInvariant(gates, m, oracle, before);
      WorkIsConserved(gates, m, oracle, dur, before);
      match e
      case Start(id) =>
        assert IsReady(ById(gates)[id], s.states) && GateTime(ById(gates)[id], dur, s, c);
        StartKeepsBound(gates, m, oracle, dur, s, c, id);
      case Settle(id) =>
        PoolIsStarted(gates, m, dur, s, c, id);
        SettleKeepsBound(gates, m, oracle, dur, s, c, id);
      case Skip(id) =>
        SkipKeepsBound(gates, m, oracle, dur, s, c, id);
    }
  }

  /* ---- The finish time ---- */

  function FinishTime(gates: seq<Gate>, m: nat, oracle: Oracle, dur: Durations, log: seq<Event>): int
    requires Legal(gates, m, oracle, log)
  {
    ClockAfter(gates, m, oracle, dur, log).now
  }

  /** Greedy bound: m times the finish time is at most the executed work plus
      (m - 1) times the length of some chain of executed gates. */
  lemma GreedyBound(gates: seq<Gate>, m: nat, oracle: Oracle, dur: Durations, log: seq<Event>) returns (ch: seq<string>)
    requires ValidGraph(gates) && m >= 1
    requires Complete(gates, m, oracle, log) && Chronological(gates, m, oracle, dur, log)
    ensures StartedChain(gates, ClockAfter(gates, m, oracle, dur, log), ch)
    ensures m * FinishTime(gates, m, oracle, dur, log) <= Load(dur, log) + (m - 1) * Length(dur, ch)
  {
    var s, c := After(gates, m, oracle, log), ClockAfter(gates, m, oracle, dur, log);
    RunIsBounded(gates, m, oracle, dur, log);
    WorkIsConserved(gates, m, oracle, dur, log);
    ch :| StartedChain(gates, c, ch) && Bounded(m, c.now, c.busy, Length(dur, ch));
    BoundedIsProduct(m, c.now, c.busy, Length(dur, ch));
  }

  /** No schedule beats the executed work shared among m workers. */
  lemma {:induction false} WorkersAreBounded(gates: seq<Gate>, m: nat, oracle: Oracle, dur: Durations, log: seq<Event>)
    requires KnownNeeds(gates) && Legal(gates, m, oracle, log) && Chronological(gates, m, oracle, dur, log)
    ensures var c := ClockAfter(gates, m, oracle, dur, log); c.busy <= Times(m, c.now)
    decreases |log|
  {
    TimesIsProduct(m, 0);
    if log != [] {
      var before, e := log[..|log| - 1], log[|log| - 1];
      var s, c := After(gates, m, oracle, before), ClockAfter(gates, m, oracle, dur, before);
      WorkersAreBounded(gates, m, oracle, dur, before);
      ReachableInvariant(gates, m, oracle, before);
      WorkIsConserved(gates, m, oracle, dur, before);
      if e.Settle? {
        PoolIsStarted(gates, m, dur, s, c, e.id);
      }
      TickWithinPool(m, dur, s, c, e);
    }
  }

  lemma TickWithinPool(m: nat, dur: Durations, s: State, c: Clock, e: Event)
    requires |s.running| <= m && c.busy <= Times(m, c.now)
    requires e.Settle? ==> c.now <= Finish(dur, c, e.id)
    ensures Tick(dur, s, c, e).busy <= Times(m, Tick(dur, s, c, e).now)
  {
    if e.Settle? {
      PoolWait(|s.running|, m, c.now, Finish(dur, c, e.id));
    }
  }

  lemma PoolWait(r: nat, m: nat, now: int, next: int)
    requires r <= m && now <= next
    ensures Times(r, next - now) <= Times(m, next) - Times(m, now)
  {
    TimesGrows(r, m, next - now);
    TimesOfDifference(m, next, now);
  }

  lemma WorkFits(gates: seq<Gate>, m: nat, oracle: Oracle, dur: Durations, log: seq<Event>)
    requires ValidGraph(gates) && Complete(gates, m, oracle, log) && Chronological(gates, m, oracle, dur, log)
    ensures Load(dur, log) <= m * FinishTime(gates, m, oracle, dur, log)
  {
    WorkIsConserved(gates, m, oracle, dur, log);
    WorkersAreBounded(gates, m, oracle, dur, log);
    TimesIsProduct(m, FinishTime(gates, m, oracle, dur, log));
  }

  /** The gates of a chain run one after another. */
  lemma {:induction false} ChainRunsInSequence(gates: seq<Gate>, dur: Durations, s: State, c: Clock, ch: seq<string>)
    requires TimeOk(gates, dur, s, c) && StartedChain(gates, c, ch) && ch != []
    ensures Length(dur, ch) <= Finish(dur, c, ch[|ch| - 1])
  {
    var last, before := ch[|ch| - 1], ch[..|ch| - 1];
    assert GateTime(ById(gates)[last], dur, s, c);
    if before != [] {
      assert StartedChain(gates, c, before);
      ChainRunsInSequence(gates, dur, s, c, before);
      assert before[|before| - 1] in ById(gates)[last].needs;
    }
  }

  /** No schedule beats a chain of executed gates. */
  lemma ChainFits(gates: seq<Gate>, m: nat, oracle: Oracle, dur: Durations, log: seq<Event>, ch: seq<string>)
    requires ValidGraph(gates) && Complete(gates, m, oracle, log) && Chronological(gates, m, oracle, dur, log)
    requires StartedChain(gates, ClockAfter(gates, m, oracle, dur, log), ch)
    ensures Length(dur, ch) <= FinishTime(gates, m, oracle, dur, log)
  {
    var s, c := After(gates, m, oracle, log), ClockAfter(gates, m, oracle, dur, log);
    WorkIsConserved(gates, m, oracle, dur, log);
    if ch != [] {
      ChainRunsInSequence(gates, dur, s, c, ch);
      assert GateTime(ById(gates)[ch[|ch| - 1]], dur, s, c);
    }
  }

  /* ---- All schedules execute the same gates ---- */

  lemma {:induction false} StartedIffStarts(gates: seq<Gate>, m: nat, oracle: Oracle, dur: Durations, log: seq<Event>,
                                            id: string)
    requires Legal(gates, m, oracle, log)
    ensures id in ClockAfter(gates, m, oracle, dur, log).started <==> Starts(log, id) > 0
    decreases |log|
  {
    if log != [] {
      StartedIffStarts(gates, m, oracle, dur, log[..|log| - 1], id);
    }
  }

  /** The load, gate by gate. */
  function LoadOf(gates: seq<Gate>, dur: Durations, log: seq<Event>): int {
    if gates == [] then 0
    else Times(Starts(log, gates[0].id), dur(gates[0].id)) + LoadOf(gates[1..], dur, log)
  }

  lemma {:induction false} LoadOfStep(gates: seq<Gate>, dur: Durations, before: seq<Event>, e: Event)
    requires UniqueIds(gates)
    ensures LoadOf(gates, dur, before + [e])
         == LoadOf(gates, dur, before)
            + if e.Start? && exists i :: 0 <= i < |gates| && gates[i].id == e.id then dur(e.id) else 0
  {
    if gates != [] {
      var id, n := gates[0].id, Starts(before, gates[0].id);
      assert UniqueIds(gates[1..]);
      LoadOfStep(gates[1..], dur, before, e);
      assert (before + [e])[..|before|] == before;
      assert Starts(before + [e], id) == n + if e == Start(id) then 1 else 0;
      if i :| 0 < i < |gates| && gates[i].id == e.id {
        assert gates[1..][i - 1].id == e.id;
      }
    }
  }

  /** Both loads grow alike with an event of a known gate. */
  lemma LoadStep(gates: seq<Gate>, dur: Durations, before: seq<Event>, e: Event)
    requires UniqueIds(gates) && e.id in ById(gates) && Load(dur, before) == LoadOf(gates, dur, before)
    ensures Load(dur, before + [e]) == LoadOf(gates, dur, before + [e])
  {
    assert (before + [e])[..|before|] == before;
    LoadOfStep(gates, dur, before, e);
  }

  lemma LegalLast(gates: seq<Gate>, m: nat, oracle: Oracle, log: seq<Event>)
    requires Legal(gates, m, oracle, log) && log != []
    ensures Legal(gates, m, oracle, log[..|log| - 1]) && log[|log| - 1].id in ById(gates)
  {
  }

  lemma {:induction false} LoadIsPerGate(gates: seq<Gate>, m: nat, oracle: Oracle, dur: Durations, log: seq<Event>)
    requires UniqueIds(gates) && Legal(gates, m, oracle, log)
    ensures Load(dur, log) == LoadOf(gates, dur, log)
    decreases |log|
  {
    if log == [] {
      NoStartsNoLoad(gates, dur);
    } else {
      LegalLast(gates, m, oracle, log);
      SplitLast(log);
      LoadIsPerGate(gates, m, oracle, dur, log[..|log| - 1]);
      LoadStep(gates, dur, log[..|log| - 1], log[|log| - 1]);
    }
  }

  lemma {:induction false} NoStartsNoLoad(gates: seq<Gate>, dur: Durations)
    ensures LoadOf(gates, dur, []) == 0
  {
    if gates != [] {
      NoStartsNoLoad(gates[1..], dur);
    }
  }

  lemma {:induction false} SameStartsSameLoad(gates: seq<Gate>, dur: Durations, log: seq<Event>, log': seq<Event>)
    requires forall i :: 0 <= i < |gates| ==> Starts(log, gates[i].id) == Starts(log', gates[i].id)
    ensures LoadOf(gates, dur, log) == LoadOf(gates, dur, log')
  {
    if gates != [] {
      SameStartsSameLoad(gates[1..], dur, log, log');
    }
  }

  lemma SameGatesExecuted(gates: seq<Gate>, oracle: Oracle, dur: Durations,
                          m: nat, log: seq<Event>, m': nat, log': seq<Event>)
    requires ValidGraph(gates)
    requires Complete(gates, m, oracle, log) && Complete(gates, m', oracle, log')
    ensures Load(dur, log) == Load(dur, log')
    ensures forall id :: id in ById(gates) ==>
      (id in ClockAfter(gates, m, oracle, dur, log).started <==>
       id in ClockAfter(gates, m', oracle, dur, log').started)
  {
    forall id | id in ById(gates)
      ensures Starts(log, id) == Starts(log', id)
    {
      EachGateOnce(gates, m, oracle, log, id);
      EachGateOnce(gates, m', oracle, log', id);
    }
    forall id | id in ById(gates)
      ensures id in ClockAfter(gates, m, oracle, dur, log).started <==>
              id in ClockAfter(gates, m', oracle, dur, log').started
    {
      StartedIffStarts(gates, m, oracle, dur, log, id);
      StartedIffStarts(gates, m', oracle, dur, log', id);
    }
    LoadIsPerGate(gates, m, oracle, dur, log);
    LoadIsPerGate(gates, m', oracle, dur, log');
    SameStartsSameLoad(gates, dur, log, log');
  }

  /** With the same pool, whatever order ties and races impose, one schedule takes
      at most 2 - 1/m times as long as another. */
  lemma SchedulesWithinFactorTwo(gates: seq<Gate>, m: nat, oracle: Oracle, dur: Durations, log: seq<Event>,
                                 log': seq<Event>)
    requires ValidGraph(gates) && m >= 1
    requires Complete(gates, m, oracle, log) && Chronological(gates, m, oracle, dur, log)
    requires Complete(gates, m, oracle, log') && Chronological(gates, m, oracle, dur, log')
    ensures m * FinishTime(gates, m, oracle, dur, log) <= (2 * m - 1) * FinishTime(gates, m, oracle, dur, log')
  {
    var t, t' := FinishTime(gates, m, oracle, dur, log), FinishTime(gates, m, oracle, dur, log');
    var ch := GreedyBound(gates, m, oracle, dur, log);
    SameGatesExecuted(gates, oracle, dur, m, log, m, log');
    assert StartedChain(gates, ClockAfter(gates, m, oracle, dur, log'), ch);
    WorkFits(gates, m, oracle, dur, log');
    ChainFits(gates, m, oracle, dur, log', ch);
    FactorTwo(m, t, t', Load(dur, log), Length(dur, ch));
  }

  lemma FactorTwo(m: nat, t: int, t': int, load: int, length: int)
    requires m >= 1 && m * t <= load + (m - 1) * length && load <= m * t' && length <= t'
    ensures m * t <= (2 * m - 1) * t'
  {
    assert (m - 1) * length <= (m - 1) * t';
    assert m * t' + (m - 1) * t' == (2 * m - 1) * t';
  }

  /* ---- Races can always be decided ---- */

  lemma {:induction false} FirstToFinish(dur: Durations, c: Clock, ids: seq<string>) returns (id: string)
    requires ids != []
    ensures id in ids && forall r :: r in ids ==> Finish(dur, c, id) <= Finish(dur, c, r)
  {
    id := ids[0];
    if |ids| > 1 {
      var other := FirstToFinish(dur, c, ids[1..]);
      id := if Finish(dur, c, other) < Finish(dur, c, id) then other else id;
      assert ids == [ids[0]] + ids[1..];
    }
  }

  /** A timed run that has not ended can go on in time order. */
  lemma TimedProgress(gates: seq<Gate>, m: nat, oracle: Oracle, dur: Durations, log: seq<Event>) returns (e: Event)
    requires ValidGraph(gates) && m >= 1
    requires Legal(gates, m, oracle, log) && Chronological(gates, m, oracle, dur, log)
    requires !Finished(After(gates, m, oracle, log))
    ensures Legal(gates, m, oracle, log + [e]) && Chronological(gates, m, oracle, dur, log + [e])
  {
    var s := After(gates, m, oracle, log);
    Progress(gates, m, oracle, log);
    e :| Enabled(gates, m, s, e);
    if e.Settle? {
      ReachableInvariant(gates, m, oracle, log);
      var id := FirstToFinish(dur, ClockAfter(gates, m, oracle, dur, log), s.running);
      e := Settle(id);
      assert Is(s.states, e.id, Running);
    }
    LegalAppend(gates, m, oracle, log, e);
    assert (log + [e])[..|log|] == log;
  }

  /** Every timed run of a valid graph can be continued to a complete one; from the empty log on, there is one. */
  lemma {:induction false} TimedRunCompletes(gates: seq<Gate>, m: nat, oracle: Oracle, dur: Durations, log: seq<Event>)
      returns (whole: seq<Event>)
    requires ValidGraph(gates) && m >= 1
    requires Legal(gates, m, oracle, log) && Chronological(gates, m, oracle, dur, log)
    ensures log <= whole && Complete(gates, m, oracle, whole) && Chronological(gates, m, oracle, dur, whole)
    decreases 2 * |gates| - |log|
  {
    whole := log;
    if !Finished(After(gates, m, oracle, log)) {
      var e := TimedProgress(gates, m, oracle, dur, log);
      RunsEnd(gates, m, oracle, log + [e]);
      whole := TimedRunCompletes(gates, m, oracle, dur, log + [e]);
    }
  }
}
