/** When `lookupPath` is exact: scripts/gen-config-catalog.ts.

    The guard against recursive types is keyed by the number of steps left and
    shared by all branches, so it can only turn a definite answer into
    'unknown'. When the walk meets no key twice, every answer is exact. */
module TypeLookupExact {
  import opened Options
  import opened TypeLookup
  import opened TypeLookupSound
  import opened TypeWorld

  /* ---- The declarations a walk enters, in order, without the guard ---- */

  function Visits(w: World, fuel: nat, node: Node, steps: seq<Step>): seq<Key>
    requires RelativesExist(w) && Visible(w, node)
    decreases fuel, 1
  {
    if steps == [] || fuel == 0 then []
    else match node
      case OutOfSight(_, _) => []
      case TypeNode(file, ty) => TypeVisits(w, fuel - 1, file, ty, steps)
      case DeclNode(d) =>
        if w[d.0].decls[d.1].Enum? then [] else [(d.0, d.1, |steps|)] + DeclVisits(w, fuel - 1, d, steps)
  }

  function DeclVisits(w: World, fuel: nat, d: DeclRef, steps: seq<Step>): seq<Key>
    requires RelativesExist(w) && Declares(w, d) && steps != []
    decreases fuel, 4, 0
  {
    match w[d.0].decls[d.1]
    case Enum => []
    case Alias(body) => Visits(w, fuel, TypeNode(d.0, body), steps)
    case Interface(members, bases, _) =>
      if steps[0].Element? then []
      else match FindProperty(members, steps[0].name)
        case Some(p) => PropertyVisits(w, fuel, d.0, p, steps)
        case None => BasesVisible(w, d.0, bases); EachVisits(w, fuel, BaseNodes(w, d.0, bases), steps)
  }

  function PropertyVisits(w: World, fuel: nat, file: string, p: Property, steps: seq<Step>): seq<Key>
    requires RelativesExist(w) && file in w && steps != []
    decreases fuel, 3, 0
  {
    if |steps| == 1 || p.ty.None? then [] else Visits(w, fuel, TypeNode(file, p.ty.value), steps[1..])
  }

  function TypeVisits(w: World, fuel: nat, file: string, ty: Type, steps: seq<Step>): seq<Key>
    requires RelativesExist(w) && file in w && steps != []
    decreases fuel, 4, 0
  {
    match ty
    case Literal(members) =>
      if steps[0].Element? then []
      else (match FindProperty(members, steps[0].name)
            case Some(p) => PropertyVisits(w, fuel, file, p, steps)
            case None => [])
    case Paren(inner) => Visits(w, fuel, TypeNode(file, inner), steps)
    case Operator(_, inner) => Visits(w, fuel, TypeNode(file, inner), steps)
    case Intersection(parts) => EachVisits(w, fuel, TypeNodes(file, parts), steps)
    case Union(parts) => EachVisits(w, fuel, TypeNodes(file, parts), steps)
    case ArrayOf(element) => if steps[0].Element? then Visits(w, fuel, TypeNode(file, element), steps[1..]) else []
    case IndexedBy(owner, Some(key)) => Visits(w, fuel, TypeNode(file, owner), [Member(key)] + steps)
    case IndexedBy(_, None) => []
    case Reference(head, kind, args) =>
      if IsWrapper(head, args) then Visits(w, fuel, TypeNode(file, args[0]), steps)
      else if IsArray(head, args) then
        if steps[0].Element? then Visits(w, fuel, TypeNode(file, args[0]), steps[1..]) else []
      else if kind.Qualified? then []
      else NamedVisible(w, file, head); Visits(w, fuel, NamedNode(w, file, head), steps)
    case OtherType(_) => []
  }

  function EachVisits(w: World, fuel: nat, nodes: seq<Node>, steps: seq<Step>): seq<Key>
    requires RelativesExist(w) && forall n :: n in nodes ==> Visible(w, n)
    decreases fuel, 2, |nodes|
  {
    if nodes == [] then [] else Visits(w, fuel, nodes[0], steps) + EachVisits(w, fuel, nodes[1..], steps)
  }

  /** No key occurs twice, and none has been seen before. */
  ghost predicate Fresh(keys: seq<Key>, seen: set<Key>) {
    && (forall i :: 0 <= i < |keys| ==> keys[i] !in seen)
    && forall i, j :: 0 <= i < j < |keys| ==> keys[i] != keys[j]
  }

  function KeySet(keys: seq<Key>): set<Key> {
    set k | k in keys
  }

  lemma FreshParts(a: seq<Key>, b: seq<Key>, seen: set<Key>)
    requires Fresh(a + b, seen)
    ensures Fresh(a, seen) && Fresh(b, seen + KeySet(a))
    ensures KeySet(a + b) == KeySet(a) + KeySet(b)
  {
    var all := a + b;
    forall i | 0 <= i < |a|
      ensures a[i] !in seen
    {
      assert all[i] == a[i];
    }
    forall i, j | 0 <= i < j < |a|
      ensures a[i] != a[j]
    {
      assert all[i] == a[i] && all[j] == a[j];
    }
    forall j | 0 <= j < |b|
      ensures b[j] !in seen + KeySet(a)
    {
      assert all[|a| + j] == b[j];
      forall i | 0 <= i < |a|
        ensures a[i] != b[j]
      {
        assert all[i] == a[i];
      }
    }
    forall i, j | 0 <= i < j < |b|
      ensures b[i] != b[j]
    {
      assert all[|a| + i] == b[i] && all[|a| + j] == b[j];
    }
  }

  /* ---- Without a repeated key the answers are exact ---- */

  /** Nothing out of sight has any path. */
  const NOTHING: Interp := (a, s) => false

  /** Everything out of sight has every path. */
  const EVERYTHING: Interp := (a, s) => true

  /** The answer leaves no room: what it withholds fails under an extreme interpretation. */
  ghost predicate Sharp(a: Answer, certain: bool, possible: bool) {
    (certain ==> a == Found) && (a != Missing ==> possible)
  }

  /** One level of a walk and of the unfoldings beside it. */
  lemma NodeUnfolds(w: World, i: Interp, b: bool, fuel: nat, n: nat, node: Node, steps: seq<Step>, seen: set<Key>)
    requires RelativesExist(w) && Visible(w, node) && steps != []
    ensures node.TypeNode? ==>
      && Lookup(w, fuel + 1, node, steps, seen) == LookupType(w, fuel, node.file, node.ty, steps, seen)
      && Visits(w, fuel + 1, node, steps) == TypeVisits(w, fuel, node.file, node.ty, steps)
      && Gives(w, i, b, n + 1, node, steps) == TypeGives(w, i, b, n, node.file, node.ty, steps)
    ensures node.DeclNode? ==> Gives(w, i, b, n + 1, node, steps) == DeclGives(w, i, b, n, node.decl, steps)
    ensures node.DeclNode? && !w[node.decl.0].decls[node.decl.1].Enum? ==>
      var (d, key: Key) := (node.decl, (node.decl.0, node.decl.1, |steps|));
      && Visits(w, fuel + 1, node, steps) == [key] + DeclVisits(w, fuel, d, steps)
      && (key !in seen ==> Lookup(w, fuel + 1, node, steps, seen) == LookupDecl(w, fuel, d, steps, seen + {key}))
    ensures Gives(w, i, b, 0, node, steps) == !b
  {
  }

  lemma {:induction false} LookupSharp(w: World, fuel: nat, n: nat, node: Node, steps: seq<Step>, seen: set<Key>)
    requires RelativesExist(w) && Visible(w, node) && Reads(w, NOTHING_MISSED, fuel, node, steps, seen)
    requires Lookup(w, fuel, node, steps, seen).Done? && Fresh(Visits(w, fuel, node, steps), seen)
    decreases fuel, 1
    ensures Lookup(w, fuel, node, steps, seen).seen == seen + KeySet(Visits(w, fuel, node, steps))
    ensures Sharp(Lookup(w, fuel, node, steps, seen).answer,
              Gives(w, NOTHING, true, n, node, steps), Gives(w, EVERYTHING, false, n, node, steps))
  {
    if steps != [] && !node.OutOfSight? {
      var k := if n == 0 then 0 else n - 1;
      NodeUnfolds(w, NOTHING, true, fuel - 1, k, node, steps, seen);
      NodeUnfolds(w, EVERYTHING, false, fuel - 1, k, node, steps, seen);
      match node
      case TypeNode(file, ty) => LookupTypeSharp(w, fuel - 1, k, file, ty, steps, seen);
      case DeclNode(d) =>
        if !w[d.0].decls[d.1].Enum? {
          var key: Key := (d.0, d.1, |steps|);
          FreshParts([key], DeclVisits(w, fuel - 1, d, steps), seen);
          assert [key][0] !in seen && KeySet([key]) == {key};
          LookupDeclSharp(w, fuel - 1, k, d, steps, seen + {key});
        } else {
          assert !DeclGives(w, NOTHING, true, k, d, steps) && DeclGives(w, EVERYTHING, false, k, d, steps);
        }
    }
  }

  lemma {:induction false} LookupDeclSharp(w: World, fuel: nat, n: nat, d: DeclRef, steps: seq<Step>, seen: set<Key>)
    requires RelativesExist(w) && Declares(w, d) && !w[d.0].decls[d.1].Enum? && steps != []
    requires DeclReads(w, NOTHING_MISSED, fuel, d, steps, seen)
    requires LookupDecl(w, fuel, d, steps, seen).Done? && Fresh(DeclVisits(w, fuel, d, steps), seen)
    decreases fuel, 4, 0
    ensures LookupDecl(w, fuel, d, steps, seen).seen == seen + KeySet(DeclVisits(w, fuel, d, steps))
    ensures Sharp(LookupDecl(w, fuel, d, steps, seen).answer,
              DeclGives(w, NOTHING, true, n, d, steps), DeclGives(w, EVERYTHING, false, n, d, steps))
  {
    match w[d.0].decls[d.1]
    case Alias(body) => LookupSharp(w, fuel, n, TypeNode(d.0, body), steps, seen);
    case Interface(members, bases, merged) =>
      if steps[0].Member? {
        match FindProperty(members, steps[0].name)
        case Some(p) =>
          FoundGives(w, NOTHING, true, n, d.0, members, members + merged, steps);
          FoundGives(w, EVERYTHING, false, n, d.0, members, members + merged, steps);
          LookupPropertySharp(w, fuel, n, d.0, p, steps, seen);
        case None =>
          BasesVisible(w, d.0, bases);
          BasesAsMeant(w, NOTHING_MISSED, d.0, bases);
          LookupEachSharp(w, fuel, n, BaseNodes(w, d.0, bases), steps, seen);
      }
  }

  /** A property that is rightly found decides alone. */
  lemma FoundGives(w: World, i: Interp, demanding: bool, n: nat, file: string,
                   members: seq<TypeMember>, all: seq<TypeMember>, steps: seq<Step>)
    requires RelativesExist(w) && file in w && steps != [] && steps[0].Member? && WellFound(members, all, steps[0].name)
    ensures Declared(all, steps[0].name).Some?
    ensures MembersGive(w, i, demanding, n, file, members, all, steps)
         == PropertyGives(w, i, demanding, n, file, FindProperty(members, steps[0].name).value, steps)
  {
  }

  lemma {:induction false} LookupPropertySharp(w: World, fuel: nat, n: nat, file: string, p: Property,
                                               steps: seq<Step>, seen: set<Key>)
    requires RelativesExist(w) && file in w && steps != []
    requires PropertyReads(w, NOTHING_MISSED, fuel, file, p, steps, seen)
    requires LookupProperty(w, fuel, file, p, steps, seen).Done? && Fresh(PropertyVisits(w, fuel, file, p, steps), seen)
    decreases fuel, 3, 0
    ensures LookupProperty(w, fuel, file, p, steps, seen).seen == seen + KeySet(PropertyVisits(w, fuel, file, p, steps))
    ensures Sharp(LookupProperty(w, fuel, file, p, steps, seen).answer,
              PropertyGives(w, NOTHING, true, n, file, p, steps),
              PropertyGives(w, EVERYTHING, false, n, file, p, steps))
  {
    if |steps| > 1 && p.ty.Some? {
      LookupSharp(w, fuel, n, TypeNode(file, p.ty.value), steps[1..], seen);
    }
  }

  lemma {:induction false} LookupMembersSharp(w: World, fuel: nat, n: nat, file: string, members: seq<TypeMember>,
                                              steps: seq<Step>, seen: set<Key>)
    requires RelativesExist(w) && file in w && steps != []
    requires TypeReads(w, NOTHING_MISSED, fuel, file, Literal(members), steps, seen)
    requires LookupType(w, fuel, file, Literal(members), steps, seen).Done?
    requires Fresh(TypeVisits(w, fuel, file, Literal(members), steps), seen)
    decreases fuel, 3, 1
    ensures var (outcome, visits) :=
      (LookupType(w, fuel, file, Literal(members), steps, seen), TypeVisits(w, fuel, file, Literal(members), steps));
      && outcome.seen == seen + KeySet(visits)
      && Sharp(outcome.answer, TypeGives(w, NOTHING, true, n, file, Literal(members), steps),
           TypeGives(w, EVERYTHING, false, n, file, Literal(members), steps))
  {
    if steps[0].Member? && FindProperty(members, steps[0].name).Some? {
      FoundGives(w, NOTHING, true, n, file, members, members, steps);
      FoundGives(w, EVERYTHING, false, n, file, members, members, steps);
      LookupPropertySharp(w, fuel, n, file, FindProperty(members, steps[0].name).value, steps, seen);
    } else {
      assert KeySet([]) == {};
      if steps[0].Member? {
        assert !SomeOpenGives(NOTHING, file, members, steps);
        assert LookupType(w, fuel, file, Literal(members), steps, seen) == Done(Missing, seen);
        assert !TypeGives(w, NOTHING, true, n, file, Literal(members), steps);
      } else {
        assert LookupType(w, fuel, file, Literal(members), steps, seen) == Done(Unknown, seen);
        assert !TypeGives(w, NOTHING, true, n, file, Literal(members), steps);
        assert TypeGives(w, EVERYTHING, false, n, file, Literal(members), steps);
      }
    }
  }

  lemma {:induction false} LookupTypeSharp(w: World, fuel: nat, n: nat, file: string, ty: Type,
                                           steps: seq<Step>, seen: set<Key>)
    requires RelativesExist(w) && file in w && steps != []
    requires TypeReads(w, NOTHING_MISSED, fuel, file, ty, steps, seen)
    requires LookupType(w, fuel, file, ty, steps, seen).Done? && Fresh(TypeVisits(w, fuel, file, ty, steps), seen)
    decreases fuel, 4, 0
    ensures LookupType(w, fuel, file, ty, steps, seen).seen == seen + KeySet(TypeVisits(w, fuel, file, ty, steps))
    ensures Sharp(LookupType(w, fuel, file, ty, steps, seen).answer,
              TypeGives(w, NOTHING, true, n, file, ty, steps), TypeGives(w, EVERYTHING, false, n, file, ty, steps))
  {
    match ty
    case Literal(members) => LookupMembersSharp(w, fuel, n, file, members, steps, seen);
    case Paren(inner) => LookupSharp(w, fuel, n, TypeNode(file, inner), steps, seen);
    case Operator(_, inner) => LookupSharp(w, fuel, n, TypeNode(file, inner), steps, seen);
    case Intersection(parts) => LookupEachSharp(w, fuel, n, TypeNodes(file, parts), steps, seen);
    case Union(parts) => LookupEachSharp(w, fuel, n, TypeNodes(file, parts), steps, seen);
    case ArrayOf(element) =>
      if steps[0].Element? {
        LookupSharp(w, fuel, n, TypeNode(file, element), steps[1..], seen);
      }
    case IndexedBy(owner, Some(key)) => LookupSharp(w, fuel, n, TypeNode(file, owner), [Member(key)] + steps, seen);
    case IndexedBy(_, None) =>
    case Reference(head, kind, args) =>
      if IsWrapper(head, args) {
        LookupSharp(w, fuel, n, TypeNode(file, args[0]), steps, seen);
      } else if IsArray(head, args) {
        if steps[0].Element? {
          LookupSharp(w, fuel, n, TypeNode(file, args[0]), steps[1..], seen);
        }
      } else if !kind.Qualified? {
        NamedVisible(w, file, head);
        if kind.Plain? {
          ReadAsMeant(w, NOTHING_MISSED, file, head);
        }
        LookupSharp(w, fuel, n, NamedNode(w, file, head), steps, seen);
      }
    case OtherType(_) =>
  }

  lemma {:induction false} LookupEachSharp(w: World, fuel: nat, n: nat, nodes: seq<Node>,
                                           steps: seq<Step>, seen: set<Key>)
    requires RelativesExist(w) && (forall x :: x in nodes ==> Visible(w, x))
    requires EachReads(w, NOTHING_MISSED, fuel, nodes, steps, seen)
    requires LookupEach(w, fuel, nodes, steps, seen).AllDone? && Fresh(EachVisits(w, fuel, nodes, steps), seen)
    decreases fuel, 2, |nodes|
    ensures LookupEach(w, fuel, nodes, steps, seen).seen == seen + KeySet(EachVisits(w, fuel, nodes, steps))
    ensures var answers := LookupEach(w, fuel, nodes, steps, seen).answers;
      && Sharp(Combine(answers), SomeGives(w, NOTHING, true, n, nodes, steps),
        SomeGives(w, EVERYTHING, false, n, nodes, steps))
      && (AllGive(w, NOTHING, true, n, nodes, steps) ==> CombineUnion(answers) == Found)
      && (CombineUnion(answers) != Missing ==> nodes == [] || SomeGives(w, EVERYTHING, false, n, nodes, steps))
  {
    if nodes != [] {
      FreshParts(Visits(w, fuel, nodes[0], steps), EachVisits(w, fuel, nodes[1..], steps), seen);
      LookupSharp(w, fuel, n, nodes[0], steps, seen);
      var first := Lookup(w, fuel, nodes[0], steps, seen);
      LookupEachSharp(w, fuel, n, nodes[1..], steps, first.seen);
      CombineCons(first.answer, LookupEach(w, fuel, nodes[1..], steps, first.seen).answers);
    }
  }

  /** When no key is met twice, the answer is 'found' iff every interpretation
      gives the path and 'missing' iff none does. */
  lemma LookupExact(w: World, fuel: nat, node: Node, steps: seq<Step>, seen: set<Key>)
    requires RelativesExist(w) && Visible(w, node) && Reads(w, NOTHING_MISSED, fuel, node, steps, seen)
    requires Lookup(w, fuel, node, steps, seen).Done? && Fresh(Visits(w, fuel, node, steps), seen)
    ensures Lookup(w, fuel, node, steps, seen).answer == Found <==> forall i :: Must(w, i, node, steps)
    ensures Lookup(w, fuel, node, steps, seen).answer == Missing <==> forall i :: !May(w, i, node, steps)
  {
    var answer := Lookup(w, fuel, node, steps, seen).answer;
    LookupSound(w, NOTHING_MISSED, fuel, node, steps, seen);
    forall n: nat
      ensures Sharp(answer, Gives(w, NOTHING, true, n, node, steps), Gives(w, EVERYTHING, false, n, node, steps))
    {
      LookupSharp(w, fuel, n, node, steps, seen);
    }
    assert answer != Found ==> !Must(w, NOTHING, node, steps);
    assert answer != Missing ==> May(w, EVERYTHING, node, steps);
  }

  /* ---- With a repeated key they need not be ---- */

  /** `interface A {}` and `type D = A & A`. */
  const TWICE: World := map["a.ts" := File(
    map["A" := Interface([], [], []),
        "D" := Alias(Intersection([Reference("A", Plain, []), Reference("A", Plain, [])]))], map[], map[], [])]

  lemma TwiceResolves()
    ensures RelativesExist(TWICE) && Declares(TWICE, ("a.ts", "A")) && Declares(TWICE, ("a.ts", "D"))
    ensures NamedNode(TWICE, "a.ts", "A") == DeclNode(("a.ts", "A"))
  {
  }

  /** A reference to A: 'missing' at first, 'unknown' once the guard knows A. */
  lemma TwiceArm(seen: set<Key>)
    ensures RelativesExist(TWICE)
    ensures Lookup(TWICE, 5, TypeNode("a.ts", Reference("A", Plain, [])), [Member("x")], seen) ==
      Done(if ("a.ts", "A", 1) in seen then Unknown else Missing, seen + {("a.ts", "A", 1)})
  {
    TwiceResolves();
    var path, key: Key, ty := [Member("x")], ("a.ts", "A", 1), Reference("A", Plain, []);
    var a := DeclNode(("a.ts", "A"));
    assert LookupDecl(TWICE, 3, ("a.ts", "A"), path, seen + {key}) == Done(Missing, seen + {key}) by {
      assert BaseNodes(TWICE, "a.ts", []) == [];
      assert LookupEach(TWICE, 3, [], path, seen + {key}) == AllDone([], seen + {key});
    }
    assert key in seen ==> seen + {key} == seen;
    assert Lookup(TWICE, 4, a, path, seen) == Done(if key in seen then Unknown else Missing, seen + {key});
    assert LookupType(TWICE, 4, "a.ts", ty, path, seen) == Lookup(TWICE, 4, a, path, seen);
  }

  lemma TwiceTogether(seen: set<Key>)
    requires ("a.ts", "A", 1) !in seen
    ensures RelativesExist(TWICE)
    ensures var ty := Reference("A", Plain, []);
      LookupType(TWICE, 5, "a.ts", Intersection([ty, ty]), [Member("x")], seen)
        == Done(Unknown, seen + {("a.ts", "A", 1)})
  {
    TwiceResolves();
    var path, ty, seen' := [Member("x")], Reference("A", Plain, []), seen + {("a.ts", "A", 1)};
    var arm := TypeNode("a.ts", ty);
    TwiceArm(seen);
    TwiceArm(seen');
    assert seen' + {("a.ts", "A", 1)} == seen';
    OneLookup(TWICE, 5, arm, path, seen');
    assert TypeNodes("a.ts", [ty, ty]) == [arm, arm] && [arm, arm][1..] == [arm];
    assert LookupEach(TWICE, 5, [arm, arm], path, seen) == AllDone([Missing, Unknown], seen');
  }

  /** A path that A & A certainly lacks is answered 'unknown', because the second
      visit of A meets the guard: the answer is sound but not exact. */
  lemma RepeatedKeyIsNotExact()
    ensures RelativesExist(TWICE) && Declares(TWICE, ("a.ts", "D"))
    ensures Lookup(TWICE, 7, DeclNode(("a.ts", "D")), [Member("x")], {})
         == Done(Unknown, {("a.ts", "D", 1), ("a.ts", "A", 1)})
    ensures forall i :: !May(TWICE, i, DeclNode(("a.ts", "D")), [Member("x")])
  {
    TwiceLooked();
    forall i: Interp
      ensures !May(TWICE, i, DeclNode(("a.ts", "D")), [Member("x")])
    {
      TwiceLacks(i);
    }
  }

  lemma TwiceLooked()
    ensures RelativesExist(TWICE) && Declares(TWICE, ("a.ts", "D"))
    ensures Lookup(TWICE, 7, DeclNode(("a.ts", "D")), [Member("x")], {})
         == Done(Unknown, {("a.ts", "D", 1), ("a.ts", "A", 1)})
  {
    TwiceResolves();
    var ty, seen: set<Key> := Reference("A", Plain, []), {("a.ts", "D", 1)};
    TwiceTogether(seen);
    AliasLooked(TWICE, 5, ("a.ts", "D"), Intersection([ty, ty]), [Member("x")]);
  }

  lemma AliasLooked(w: World, fuel: nat, d: DeclRef, body: Type, steps: seq<Step>)
    requires RelativesExist(w) && Declares(w, d) && w[d.0].decls[d.1] == Alias(body) && steps != []
    ensures Lookup(w, fuel + 2, DeclNode(d), steps, {}) == LookupType(w, fuel, d.0, body, steps, {(d.0, d.1, |steps|)})
  {
    NodeUnfolds(w, NOTHING, true, fuel + 1, 0, DeclNode(d), steps, {});
    NodeUnfolds(w, NOTHING, true, fuel, 0, TypeNode(d.0, body), steps, {(d.0, d.1, |steps|)});
    assert {} + {(d.0, d.1, |steps|)} == {(d.0, d.1, |steps|)};
  }

  lemma TwiceLacks(i: Interp)
    ensures RelativesExist(TWICE) && Declares(TWICE, ("a.ts", "D"))
    ensures !Gives(TWICE, i, false, 7, DeclNode(("a.ts", "D")), [Member("x")])
  {
    TwiceResolves();
    var path, ty := [Member("x")], Reference("A", Plain, []);
    var arm := TypeNode("a.ts", ty);
    assert BaseNodes(TWICE, "a.ts", []) == [];
    assert !Gives(TWICE, i, false, 4, DeclNode(("a.ts", "A")), path);
    assert !TypeGives(TWICE, i, false, 4, "a.ts", ty, path);
    assert !Gives(TWICE, i, false, 5, arm, path);
    assert TypeNodes("a.ts", [ty, ty]) == [arm, arm] && [arm, arm][1..] == [arm];
    assert !SomeGives(TWICE, i, false, 5, [arm], path);
    assert !SomeGives(TWICE, i, false, 5, [arm, arm], path);
    assert !Gives(TWICE, i, false, 6, TypeNode("a.ts", Intersection([ty, ty])), path);
  }

  lemma OneLookup(w: World, fuel: nat, node: Node, steps: seq<Step>, seen: set<Key>)
    requires RelativesExist(w) && Visible(w, node) && Lookup(w, fuel, node, steps, seen).Done?
    ensures LookupEach(w, fuel, [node], steps, seen)
         == AllDone([Lookup(w, fuel, node, steps, seen).answer], Lookup(w, fuel, node, steps, seen).seen)
  {
    assert LookupEach(w, fuel, [], steps, Lookup(w, fuel, node, steps, seen).seen).AllDone?;
  }
}
