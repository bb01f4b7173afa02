/** Validation of a gate list: scripts/run-gates.ts, `validateGateGraph` and
    `findDependencyCycle`. */
module GateGraph {
  import opened Digraph
  import opened Options

  /** One gate. Its label, command, arguments and environment are opaque to the scheduler. */
  datatype Gate = Gate(id: string, needs: seq<string>, allowFailure: bool)

  datatype GraphError =
    | NoGates
    | DuplicateId(id: string)
    | UnknownNeed(gate: string, need: string)
    | DependencyCycle(cycle: seq<string>)
    | BadConcurrency(maxActive: int)

  datatype Result<T> = Ok(value: T) | Err(error: GraphError)

  /** The list indexed by id; of two gates with one id the later wins. */
  function ById(gates: seq<Gate>): (m: map<string, Gate>)
    ensures forall id :: id in m <==> exists i :: 0 <= i < |gates| && gates[i].id == id
    ensures forall id :: id in m ==> m[id] in gates && m[id].id == id
  {
    if gates == [] then map[] else
      var last := |gates| - 1;
      ById(gates[..last])[gates[last].id := gates[last]]
  }

  /** The graph with an edge from every gate to each of its needs. */
  function NeedsGraph(gates: seq<Gate>): (g: Graph<string>)
    ensures g.Keys == ById(gates).Keys
  {
    var m := ById(gates);
    map id | id in m :: m[id].needs
  }

  predicate UniqueIds(gates: seq<Gate>) {
    forall i, j :: 0 <= i < j < |gates| ==> gates[i].id != gates[j].id
  }

  /** Every need of every gate names a gate of the list. */
  predicate KnownNeeds(gates: seq<Gate>) {
    forall i, d :: 0 <= i < |gates| && d in gates[i].needs ==> d in ById(gates)
  }

  predicate KnownNeedsUpTo(gates: seq<Gate>, n: nat)
    requires n <= |gates|
  {
    forall i, d :: 0 <= i < n && d in gates[i].needs ==> d in ById(gates)
  }

  /** What an accepted gate list guarantees. */
  ghost predicate ValidGraph(gates: seq<Gate>) {
    gates != [] && UniqueIds(gates) && KnownNeeds(gates) && Acyclic(NeedsGraph(gates))
  }

  /** With unique ids the index is exact. */
  lemma {:induction false} ByIdAt(gates: seq<Gate>, i: nat)
    requires UniqueIds(gates) && i < |gates|
    ensures gates[i].id in ById(gates) && ById(gates)[gates[i].id] == gates[i]
  {
    var last := |gates| - 1;
    if i < last {
      assert UniqueIds(gates[..last]);
      ByIdAt(gates[..last], i);
    }
  }

  /** `path` is a walk of gates, the recursion stack, and `active` its inverse. */
  ghost predicate StackOk(g: Graph<string>, path: seq<string>, active: map<string, nat>) {
    && (path != [] ==> Walk(g, path))
    && (forall i :: 0 <= i < |path| ==> path[i] in g && path[i] in active && active[path[i]] == i)
    && (forall id :: id in active ==> active[id] < |path| && path[active[id]] == id)
  }

  /** Finished gates were listed after everything they need. */
  ghost predicate DoneOk(g: Graph<string>, complete: set<string>, order: seq<string>) {
    && (forall id :: id in complete <==> id in order)
    && SuccessorsFirst(g, order)
  }

  lemma PushStack(g: Graph<string>, path: seq<string>, active: map<string, nat>, id: string)
    requires StackOk(g, path, active) && id in g && id !in active
    requires path != [] ==> Edge(g, path[|path| - 1], id)
    ensures StackOk(g, path + [id], active[id := |path|])
  {
  }

  lemma PopStack(g: Graph<string>, path: seq<string>, active: map<string, nat>)
    requires StackOk(g, path, active) && path != []
    ensures StackOk(g, path[..|path| - 1], active - {path[|path| - 1]})
  {
    var shorter := path[..|path| - 1];
    forall i | 0 < i < |shorter|
      ensures Edge(g, shorter[i - 1], shorter[i])
    {
      assert Edge(g, path[i - 1], path[i]);
    }
  }

  lemma PushThenPop(path: seq<string>, active: map<string, nat>, id: string)
    requires id !in active
    ensures (path + [id])[..|path|] == path && active[id := |path|] - {id} == active
  {
  }

  lemma Finish(g: Graph<string>, complete: set<string>, order: seq<string>, id: string)
    requires DoneOk(g, complete, order)
    requires forall d :: Edge(g, id, d) && d in g ==> d in complete
    ensures DoneOk(g, complete + {id}, order + [id])
  {
    AppendToOrder(g, order, id);
  }

  /** The depth-first search of `findDependencyCycle`, with the variables its
      closure shares as fields. `order` records completion, for the proof. */
  class CycleFinder {
    const byId: map<string, Gate>
    const graph: Graph<string>
    var complete: set<string>
    var active: map<string, nat>
    var path: seq<string>
    ghost var order: seq<string>

    constructor (gates: seq<Gate>)
      ensures Valid() && graph == NeedsGraph(gates)
      ensures complete == {} && path == []
    {
      byId := ById(gates);
      graph := NeedsGraph(gates);
      complete, active, path, order := {}, map[], [], [];
    }

    ghost predicate Valid()
      reads this
    {
      && graph.Keys == byId.Keys
      && (forall id :: id in byId ==> graph[id] == byId[id].needs)
      && StackOk(graph, path, active)
      && DoneOk(graph, complete, order)
      && complete !! active.Keys
    }

    /** Search from id. None leaves the stack as it was and id finished (if it is a gate at all). */
    method Visit(id: string) returns (cycle: Option<seq<string>>)
      requires Valid()
      requires path != [] ==> Edge(graph, path[|path| - 1], id)
      modifies this
      decreases byId.Keys - active.Keys, 1
      ensures cycle.Some? ==> IsCycle(graph, cycle.value)
      ensures cycle.None? ==> Valid() && path == old(path) && active == old(active)
      ensures cycle.None? ==> old(order) <= order && (id in byId ==> id in complete)
    {
      if id in complete {
        return None;
      }
      if id in active {
        cycle := Some(path[active[id]..] + [id]);
        ClosesCycle(id);
        return;
      }
      if id !in byId {
        return None;
      }
      PushThenPop(path, active, id);
      Enter(id);
      cycle := VisitNeeds(id);
      if cycle.None? {
        Leave(id);
      }
    }

    /** The loop of `visit` over the needs of the gate on top of the stack. */
    method VisitNeeds(id: string) returns (cycle: Option<seq<string>>)
      requires Valid() && path != [] && path[|path| - 1] == id
      modifies this
      decreases byId.Keys - active.Keys, 2
      ensures cycle.Some? ==> IsCycle(graph, cycle.value)
      ensures cycle.None? ==> Valid() && path == old(path) && active == old(active)
      ensures cycle.None? ==>
        old(order) <= order && forall d :: d in byId[id].needs && d in byId ==> d in complete
    {
      var needs := byId[id].needs;
      for i := 0 to |needs|
        invariant Valid() && path == old(path) && active == old(active)
        invariant old(order) <= order
        invariant forall k :: 0 <= k < i && needs[k] in byId ==> needs[k] in complete
      {
        assert Edge(graph, id, needs[i]);
        cycle := Visit(needs[i]);
        if cycle.Some? {
          return;
        }
      }
      return None;
    }

    method Enter(id: string)
      requires Valid() && id in byId && id !in complete && id !in active
      requires path != [] ==> Edge(graph, path[|path| - 1], id)
      modifies this`active, this`path
      ensures Valid()
      ensures path == old(path) + [id] && active == old(active)[id := |old(path)|]
      ensures byId.Keys - active.Keys < old(byId.Keys - active.Keys)
    {
      PushStack(graph, path, active, id);
      assert id in byId.Keys - active.Keys;
      active := active[id := |path|];
      path := path + [id];
      assert id !in byId.Keys - active.Keys;
    }

    method Leave(id: string)
      requires Valid() && path != [] && path[|path| - 1] == id
      requires forall d :: d in byId[id].needs && d in byId ==> d in complete
      modifies this
      ensures Valid() && complete == old(complete) + {id} && order == old(order) + [id]
      ensures path == old(path[..|path| - 1]) && active == old(active) - {id}
    {
      PopStack(graph, path, active);
      Finish(graph, complete, order, id);
      path, active := path[..|path| - 1], active - {id};
      complete := complete + {id};
      order := order + [id];
    }

    /** The stack from the first visit of id, closed by the edge back to it. */
    lemma ClosesCycle(id: string)
      requires Valid() && id in active
      requires Edge(graph, path[|path| - 1], id)
      ensures IsCycle(graph, path[active[id]..] + [id])
    {
      var c := path[active[id]..] + [id];
      forall k | 0 < k < |c|
        ensures Edge(graph, c[k - 1], c[k])
      {
        if k < |c| - 1 {
          assert Edge(graph, path[active[id] + k - 1], path[active[id] + k]);
        }
      }
    }
  }

  /** A list is returned exactly for cyclic graphs, and it is a cycle of needs edges. */
  method FindDependencyCycle(gates: seq<Gate>) returns (cycle: Option<seq<string>>)
    ensures cycle.None? <==> Acyclic(NeedsGraph(gates))
    ensures cycle.Some? ==> IsCycle(NeedsGraph(gates), cycle.value)
  {
    var finder := new CycleFinder(gates);
    for i := 0 to |gates|
      invariant finder.Valid() && finder.graph == NeedsGraph(gates) && finder.path == []
      invariant fresh(finder)
      invariant forall k :: 0 <= k < i ==> gates[k].id in finder.complete
    {
      cycle := finder.Visit(gates[i].id);
      if cycle.Some? {
        return;
      }
    }
    OrderedIsAcyclic(finder.graph, finder.order);
    return None;
  }

  /** The id of the first gate whose id an earlier gate has taken. */
  method FindDuplicate(gates: seq<Gate>) returns (r: Option<string>)
    ensures r.None? <==> UniqueIds(gates)
    ensures r.Some? ==> exists i, j ::
      0 <= i < j < |gates| && gates[i].id == gates[j].id == r.value && UniqueIds(gates[..j])
  {
    var ids: set<string> := {};
    for i := 0 to |gates|
      invariant UniqueIds(gates[..i])
      invariant forall id :: id in ids ==> exists k :: 0 <= k < i && gates[k].id == id
      invariant forall k :: 0 <= k < i ==> gates[k].id in ids
    {
      if gates[i].id in ids {
        return Some(gates[i].id);
      }
      ids := ids + {gates[i].id};
    }
    assert gates[..|gates|] == gates;
    return None;
  }

  /** The first gate, and its first need, that no gate of the list provides. */
  method FindUnknownNeed(gates: seq<Gate>) returns (r: Option<(nat, string)>)
    ensures r.None? <==> KnownNeeds(gates)
    ensures r.Some? ==>
      && r.value.0 < |gates| && KnownNeedsUpTo(gates, r.value.0)
      && r.value.1 in gates[r.value.0].needs && r.value.1 !in ById(gates)
  {
    for i := 0 to |gates|
      invariant KnownNeedsUpTo(gates, i)
    {
      var needs := gates[i].needs;
      for j := 0 to |needs|
        invariant forall k :: 0 <= k < j ==> needs[k] in ById(gates)
      {
        if needs[j] !in ById(gates) {
          return Some((i, needs[j]));
        }
      }
    }
    return None;
  }

  method ValidateGateGraph(gates: seq<Gate>) returns (r: Result<()>)
    ensures r.Ok? <==> ValidGraph(gates)
    ensures r.Err? && r.error.NoGates? ==> gates == []
    ensures r.Err? && r.error.DuplicateId? ==>
      exists i, j :: 0 <= i < j < |gates| && gates[i].id == gates[j].id == r.error.id
        && UniqueIds(gates[..j])
    ensures r.Err? && r.error.UnknownNeed? ==>
      UniqueIds(gates) && exists i ::
        0 <= i < |gates| && gates[i].id == r.error.gate && r.error.need in gates[i].needs
        && r.error.need !in ById(gates) && KnownNeedsUpTo(gates, i)
    ensures r.Err? && r.error.DependencyCycle? ==>
      UniqueIds(gates) && KnownNeeds(gates) && IsCycle(NeedsGraph(gates), r.error.cycle)
    ensures r.Err? ==> !r.error.BadConcurrency?
  {
    if |gates| == 0 {
      return Err(NoGates);
    }
    var duplicate := FindDuplicate(gates);
    if duplicate.Some? {
      return Err(DuplicateId(duplicate.value));
    }
    var unknown := FindUnknownNeed(gates);
    if unknown.Some? {
      return Err(UnknownNeed(gates[unknown.value.0].id, unknown.value.1));
    }
    var cycle := FindDependencyCycle(gates);
    if cycle.Some? {
      return Err(DependencyCycle(cycle.value));
    }
    return Ok(());
  }
}
