/** Finite directed graphs given by successor lists, with the two facts every
    graph algorithm of this project rests on: a finite set that no edge lets
    you leave for good contains a cycle, and an order that lists successors
    first rules cycles out. */
module Digraph {

  type Graph<T> = map<T, seq<T>>

  predicate Edge<T(==)>(g: Graph<T>, a: T, b: T) {
    a in g && b in g[a]
  }

  /** A nonempty list of nodes whose neighbours are joined by edges. */
  ghost predicate Walk<T>(g: Graph<T>, p: seq<T>) {
    |p| > 0 && forall i :: 0 < i < |p| ==> Edge(g, p[i - 1], p[i])
  }

  /** A walk with at least one edge that ends where it starts. */
  ghost predicate IsCycle<T>(g: Graph<T>, p: seq<T>) {
    |p| >= 2 && Walk(g, p) && p[0] == p[|p| - 1]
  }

  ghost predicate Acyclic<T(!new)>(g: Graph<T>) {
    forall p: seq<T> :: !IsCycle(g, p)
  }

  /** b can be reached from a along zero or more edges. */
  ghost predicate Reaches<T(!new)>(g: Graph<T>, a: T, b: T) {
    exists p :: Walk(g, p) && p[0] == a && p[|p| - 1] == b
  }

  lemma ReachesSelf<T(!new)>(g: Graph<T>, a: T)
    ensures Reaches(g, a, a)
  {
    assert Walk(g, [a]);
  }

  lemma ReachesThenEdge<T(!new)>(g: Graph<T>, a: T, b: T, c: T)
    requires Reaches(g, a, b) && Edge(g, b, c)
    ensures Reaches(g, a, c)
  {
    var p :| Walk(g, p) && p[0] == a && p[|p| - 1] == b;
    var q := p + [c];
    assert Walk(g, q) && q[0] == a && q[|q| - 1] == c;
  }

  lemma EdgeThenReaches<T(!new)>(g: Graph<T>, a: T, b: T, c: T)
    requires Edge(g, a, b) && Reaches(g, b, c)
    ensures Reaches(g, a, c)
  {
    var p :| Walk(g, p) && p[0] == b && p[|p| - 1] == c;
    var q := [a] + p;
    assert Walk(g, q) && q[0] == a && q[|q| - 1] == c;
  }

  /** A set that contains the start and every successor of its members
      contains every node reachable from the start. */
  lemma {:induction false} ClosedSetHoldsWalk<T>(g: Graph<T>, s: set<T>, p: seq<T>)
    requires Walk(g, p) && p[0] in s
    requires forall a, b :: a in s && Edge(g, a, b) ==> b in s
    ensures p[|p| - 1] in s
  {
    if |p| > 1 {
      var q := p[..|p| - 1];
      forall i | 0 < i < |q|
        ensures Edge(g, q[i - 1], q[i])
      {
        assert Edge(g, p[i - 1], p[i]);
      }
      ClosedSetHoldsWalk(g, s, q);
      assert Edge(g, p[|p| - 2], p[|p| - 1]);
    }
  }

  /** More list positions than set members: two positions agree. */
  lemma {:induction false} Pigeonhole<T>(p: seq<T>, s: set<T>) returns (i: nat, j: nat)
    requires forall k :: 0 <= k < |p| ==> p[k] in s
    requires |p| > |s|
    ensures i < j < |p| && p[i] == p[j]
  {
    var last := |p| - 1;
    if k :| 0 <= k < last && p[k] == p[last] {
      i, j := k, last;
    } else {
      assert p[last] in s;
      i, j := Pigeonhole(p[..last], s - {p[last]});
    }
  }

  ghost predicate HasSuccessorIn<T>(g: Graph<T>, a: T, s: set<T>) {
    exists b :: b in s && Edge(g, a, b)
  }

  /** Every member of s has a successor in s. */
  ghost predicate Trap<T>(g: Graph<T>, s: set<T>) {
    forall a {:trigger HasSuccessorIn(g, a, s)} :: a in s ==> HasSuccessorIn(g, a, s)
  }

  /** From any member of a trap there is a walk of any length inside the trap. */
  lemma {:induction false} WalkInTrap<T>(g: Graph<T>, s: set<T>, start: T, steps: nat) returns (p: seq<T>)
    requires start in s && Trap(g, s)
    ensures |p| == steps + 1 && Walk(g, p) && forall k :: 0 <= k < |p| ==> p[k] in s
  {
    if steps == 0 {
      p := [start];
    } else {
      var q := WalkInTrap(g, s, start, steps - 1);
      assert HasSuccessorIn(g, q[|q| - 1], s);
      var b :| b in s && Edge(g, q[|q| - 1], b);
      p := q + [b];
    }
  }

  /** A nonempty finite set in which every node has a successor contains a cycle. */
  lemma TrapHasCycle<T>(g: Graph<T>, s: set<T>) returns (c: seq<T>)
    requires s != {} && Trap(g, s)
    ensures IsCycle(g, c) && forall k :: 0 <= k < |c| ==> c[k] in s
  {
    var start :| start in s;
    var p := WalkInTrap(g, s, start, |s|);
    var i, j := Pigeonhole(p, s);
    c := p[i..j + 1];
    forall k | 0 < k < |c|
      ensures Edge(g, c[k - 1], c[k])
    {
      assert c[k - 1] == p[i + k - 1] && c[k] == p[i + k];
    }
  }

  /** Acyclic graphs have no traps: the induction principle of this project. */
  lemma NoTrap<T(!new)>(g: Graph<T>, s: set<T>)
    requires Acyclic(g) && Trap(g, s)
    ensures s == {}
  {
    if s != {} {
      var c := TrapHasCycle(g, s);
      assert false;
    }
  }

  /** a occurs in the first n places of order. */
  ghost predicate ListedBefore<T>(order: seq<T>, a: T, n: nat)
    requires n <= |order|
  {
    exists j :: 0 <= j < n && order[j] == a
  }

  /** `order` lists every node of g that it mentions after its successors in g. */
  ghost predicate SuccessorsFirst<T>(g: Graph<T>, order: seq<T>) {
    forall i, d {:trigger Edge(g, order[i], d)} ::
      0 <= i < |order| && Edge(g, order[i], d) && d in g ==> ListedBefore(order, d, i)
  }

  lemma AppendToOrder<T>(g: Graph<T>, order: seq<T>, a: T)
    requires SuccessorsFirst(g, order)
    requires forall d :: Edge(g, a, d) && d in g ==> d in order
    ensures SuccessorsFirst(g, order + [a])
  {
    var longer := order + [a];
    forall i, d | 0 <= i < |longer| && Edge(g, longer[i], d) && d in g
      ensures ListedBefore(longer, d, i)
    {
      if i < |order| {
        assert Edge(g, order[i], d);
        var j :| 0 <= j < i && order[j] == d;
        assert longer[j] == d;
      } else {
        var j :| 0 <= j < |order| && order[j] == d;
        assert longer[j] == d;
      }
    }
  }

  /** Along a walk inside such an order the position of the first occurrence drops. */
  lemma {:induction false} OrderedWalkDescends<T>(g: Graph<T>, order: seq<T>, p: seq<T>, i: nat)
    requires SuccessorsFirst(g, order)
    requires Walk(g, p) && |p| >= 2 && (forall k :: 0 <= k < |p| ==> p[k] in g)
    requires i < |order| && order[i] == p[0]
    ensures ListedBefore(order, p[|p| - 1], i)
  {
    assert Edge(g, p[0], p[1]);
    var j :| 0 <= j < i && order[j] == p[1];
    if |p| > 2 {
      var q := p[1..];
      forall k | 0 < k < |q|
        ensures Edge(g, q[k - 1], q[k])
      {
        assert Edge(g, p[k], p[k + 1]);
      }
      OrderedWalkDescends(g, order, q, j);
    }
  }

  /** An order of all nodes with successors first rules out every cycle. */
  lemma OrderedIsAcyclic<T(!new)>(g: Graph<T>, order: seq<T>)
    requires SuccessorsFirst(g, order)
    requires forall a :: a in g ==> a in order
    ensures Acyclic(g)
  {
    forall p: seq<T>
      ensures !IsCycle(g, p)
    {
      if IsCycle(g, p) {
        forall k | 0 <= k < |p|
          ensures p[k] in g
        {
          if k + 1 < |p| {
            assert Edge(g, p[k], p[k + 1]);
          } else {
            assert Edge(g, p[0], p[1]);
          }
        }
        ReturningWalk(g, order, p, |order|);
      }
    }
  }

  /** A cycle would descend for ever through the order. */
  lemma {:induction false} ReturningWalk<T>(g: Graph<T>, order: seq<T>, p: seq<T>, bound: nat)
    requires SuccessorsFirst(g, order)
    requires IsCycle(g, p) && forall k :: 0 <= k < |p| ==> p[k] in g
    requires bound <= |order|
    ensures !ListedBefore(order, p[0], bound)
  {
    if i :| 0 <= i < bound && order[i] == p[0] {
      OrderedWalkDescends(g, order, p, i);
      ReturningWalk(g, order, p, i);
    }
  }
}
