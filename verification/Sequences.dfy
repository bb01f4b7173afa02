/** Facts about sequences that the solver is better told than left to find. */
module Sequences {

  lemma TakeNext<T>(s: seq<T>, i: nat)
    requires i < |s|
    ensures s[..i + 1] == s[..i] + [s[i]]
  {
  }

  lemma SplitLast<T>(s: seq<T>)
    requires s != []
    ensures s == s[..|s| - 1] + [s[|s| - 1]]
  {
  }

  lemma Associate<T>(a: seq<T>, b: seq<T>, c: seq<T>)
    ensures a + b + c == a + (b + c)
  {
  }

  lemma InSnoc<T>(s: seq<T>, x: T, y: T)
    ensures y in s + [x] <==> y in s || y == x
  {
  }

  lemma OthersFollow<T>(s: seq<T>)
    requires s != []
    ensures forall x :: x in s <==> x == s[0] || x in s[1..]
  {
    assert s == [s[0]] + s[1..];
  }

  lemma HasMember<T>(s: seq<T>)
    ensures s == [] || exists x :: x in s
  {
    if s != [] {
      assert s[0] in s;
    }
  }

  /** What stands in two places occurs at least twice. */
  lemma TwiceInSequence<T>(s: seq<T>, i: nat, j: nat)
    requires i < j < |s| && s[i] == s[j]
    ensures multiset(s)[s[i]] >= 2
  {
    assert s == s[..j] + s[j..];
    assert s[i] in s[..j] && s[j] in s[j..];
  }

  /* ---- Selections ---- */

  /** `some` are the elements that satisfy p, in their order. */
  ghost predicate Selects<T>(all: seq<T>, p: T -> bool, some: seq<T>) {
    exists places: seq<nat> :: IsSelection(all, p, some, places)
  }

  /** The places of the selected elements ascend and are exactly those that satisfy p. */
  ghost predicate IsSelection<T>(all: seq<T>, p: T -> bool, some: seq<T>, places: seq<nat>) {
    && |places| == |some|
    && (forall j :: 0 <= j < |places| ==> places[j] < |all| && some[j] == all[places[j]])
    && (forall i, j :: 0 <= i < j < |places| ==> places[i] < places[j])
    && (forall n: nat :: n < |all| ==> (n in places <==> p(all[n])))
  }

  lemma SelectsNone<T>(p: T -> bool)
    ensures Selects([], p, [])
  {
    assert IsSelection([], p, [], []);
  }

  lemma SelectsSnoc<T>(all: seq<T>, x: T, p: T -> bool, some: seq<T>)
    requires Selects(all, p, some)
    ensures Selects(all + [x], p, if p(x) then some + [x] else some)
  {
    var places :| IsSelection(all, p, some, places);
    if p(x) {
      SelectionTakes(all, x, p, some, places);
    } else {
      assert IsSelection(all + [x], p, some, places);
    }
  }

  lemma SelectionTakes<T>(all: seq<T>, x: T, p: T -> bool, some: seq<T>, places: seq<nat>)
    requires IsSelection(all, p, some, places) && p(x)
    ensures IsSelection(all + [x], p, some + [x], places + [|all|])
  {
    var all', places' := all + [x], places + [|all|];
    forall n: nat | n < |all'|
      ensures n in places' <==> p(all'[n])
    {
      InSnoc(places, |all|, n);
    }
  }

  lemma SelectedSatisfies<T>(all: seq<T>, p: T -> bool, some: seq<T>, x: T)
    requires Selects(all, p, some)
    ensures x in some <==> x in all && p(x)
  {
    var places :| IsSelection(all, p, some, places);
    if x in some {
      var j :| 0 <= j < |some| && some[j] == x;
      assert places[j] in places;
    }
    if x in all && p(x) {
      var n :| 0 <= n < |all| && all[n] == x;
      assert n in places;
    }
  }
}
