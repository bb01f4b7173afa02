/** When 'found' can be trusted: scripts/gen-config-catalog.ts, `lookupPath`.

    A path may be found behind something that the walk goes through wrongly, such
    as an operator. It is certainly there iff the walk comes to it in another way,
    or passes over a member that has the step. */
module TypeLookupBacked {
  import opened Options
  import opened TypeLookup
  import opened TypeLookupExact
  import opened TypeLookupMisread
  import opened TypeLookupSound
  import opened TypeWorld

  /** Nothing the walk reads is doubtful or unseen, but it may pass things over. */
  const PASSED_OVER := Care(false, true, true)

  /** The walk comes to the path without going through anything that is no pass-through:
      by some part of an intersection or base, by all parts of a union. */
  predicate Backed(w: World, fuel: nat, node: Node, steps: seq<Step>)
    requires RelativesExist(w) && Visible(w, node)
    decreases fuel, 1
  {
    steps == [] || (
      fuel > 0 && match node
      case OutOfSight(_, _) => false
      case TypeNode(file, ty) => TypeBacked(w, fuel - 1, file, ty, steps)
      case DeclNode(d) => DeclBacked(w, fuel - 1, d, steps))
  }

  predicate DeclBacked(w: World, fuel: nat, d: DeclRef, steps: seq<Step>)
    requires RelativesExist(w) && Declares(w, d) && steps != []
    decreases fuel, 4
  {
    match w[d.0].decls[d.1]
    case Enum => false
    case Alias(body) => Backed(w, fuel, TypeNode(d.0, body), steps)
    case Interface(members, bases, merged) =>
      steps[0].Member? &&
      match FindProperty(members, steps[0].name)
      case Some(p) => PropertyBacked(w, fuel, d.0, p, steps)
      case None =>
        BasesVisible(w, d.0, bases);
        || (|steps| == 1 && Certain(members + merged, steps[0].name))
        || (Declared(members + merged, steps[0].name).None? && SomeBacked(w, fuel, BaseNodes(w, d.0, bases), steps))
  }

  predicate PropertyBacked(w: World, fuel: nat, file: string, p: Property, steps: seq<Step>)
    requires RelativesExist(w) && file in w && steps != []
    decreases fuel, 3
  {
    |steps| == 1 || (p.ty.Some? && Backed(w, fuel, TypeNode(file, p.ty.value), steps[1..]))
  }

  predicate TypeBacked(w: World, fuel: nat, file: string, ty: Type, steps: seq<Step>)
    requires RelativesExist(w) && file in w && steps != []
    decreases fuel, 4
  {
    match ty
    case Literal(members) =>
      steps[0].Member? && (
        match FindProperty(members, steps[0].name)
        case Some(p) => PropertyBacked(w, fuel, file, p, steps)
        case None => |steps| == 1 && Certain(members, steps[0].name))
    case Paren(inner) => Backed(w, fuel, TypeNode(file, inner), steps)
    case Operator(word, inner) => word == "readonly" && Backed(w, fuel, TypeNode(file, inner), steps)
    case Intersection(parts) => SomeBacked(w, fuel, TypeNodes(file, parts), steps)
    case Union(parts) => AllBacked(w, fuel, TypeNodes(file, parts), steps)
    case ArrayOf(element) => steps[0].Element? && Backed(w, fuel, TypeNode(file, element), steps[1..])
    case IndexedBy(owner, Some(key)) => Backed(w, fuel, TypeNode(file, owner), [Member(key)] + steps)
    case IndexedBy(_, None) => false
    case Reference(head, kind, args) =>
      kind.Plain? && (
        if IsWrapper(head, args) then Backed(w, fuel, TypeNode(file, args[0]), steps)
        else if IsArray(head, args) then steps[0].Element? && Backed(w, fuel, TypeNode(file, args[0]), steps[1..])
        else NamedVisible(w, file, head); Backed(w, fuel, NamedNode(w, file, head), steps))
    case OtherType(_) => false
  }

  predicate SomeBacked(w: World, fuel: nat, nodes: seq<Node>, steps: seq<Step>)
    requires RelativesExist(w) && forall x :: x in nodes ==> Visible(w, x)
    decreases fuel, 2, |nodes|
  {
    nodes != [] && (Backed(w, fuel, nodes[0], steps) || SomeBacked(w, fuel, nodes[1..], steps))
  }

  predicate AllBacked(w: World, fuel: nat, nodes: seq<Node>, steps: seq<Step>)
    requires RelativesExist(w) && forall x :: x in nodes ==> Visible(w, x)
    decreases fuel, 2, |nodes|
  {
    nodes == [] || (Backed(w, fuel, nodes[0], steps) && AllBacked(w, fuel, nodes[1..], steps))
  }

  /* ---- What is backed is there, and what is there is backed ---- */

  /** What is backed is given under every interpretation, and what is given at any depth
      with nothing behind what the walk does not look at is backed. */
  ghost predicate Exactly(backed: bool, given: bool, certain: bool) {
    (backed ==> given) && (certain ==> backed)
  }

  lemma {:induction false} WalkIsBacked(w: World, i: Interp, fuel: nat, n: nat, node: Node, steps: seq<Step>,
                                        seen: set<Key>)
    requires RelativesExist(w) && Visible(w, node) && Reads(w, PASSED_OVER, fuel, node, steps, seen)
    requires Lookup(w, fuel, node, steps, seen).Done? && Fresh(Visits(w, fuel, node, steps), seen)
    decreases fuel, 1
    ensures Lookup(w, fuel, node, steps, seen).seen == seen + KeySet(Visits(w, fuel, node, steps))
    ensures Exactly(Backed(w, fuel, node, steps), Gives(w, i, true, fuel, node, steps),
              Gives(w, NOTHING, true, n, node, steps))
  {
    if steps != [] && !node.OutOfSight? {
      var k := if n == 0 then 0 else n - 1;
      NodeUnfolds(w, i, true, fuel - 1, fuel - 1, node, steps, seen);
      NodeUnfolds(w, NOTHING, true, fuel - 1, k, node, steps, seen);
      match node
      case TypeNode(file, ty) => TypeIsBacked(w, i, fuel - 1, k, file, ty, steps, seen);
      case DeclNode(d) =>
        if !w[d.0].decls[d.1].Enum? {
          var key: Key := (d.0, d.1, |steps|);
          FreshParts([key], DeclVisits(w, fuel - 1, d, steps), seen);
          assert [key][0] !in seen && KeySet([key]) == {key};
          DeclIsBacked(w, i, fuel - 1, k, d, steps, seen + {key});
        } else {
          assert !DeclGives(w, NOTHING, true, k, d, steps) && !DeclBacked(w, fuel - 1, d, steps);
        }
    }
  }

  lemma {:induction false} DeclIsBacked(w: World, i: Interp, fuel: nat, n: nat, d: DeclRef, steps: seq<Step>,
                                        seen: set<Key>)
    requires RelativesExist(w) && Declares(w, d) && !w[d.0].decls[d.1].Enum? && steps != []
    requires DeclReads(w, PASSED_OVER, fuel, d, steps, seen)
    requires LookupDecl(w, fuel, d, steps, seen).Done? && Fresh(DeclVisits(w, fuel, d, steps), seen)
    decreases fuel, 4, 0
    ensures LookupDecl(w, fuel, d, steps, seen).seen == seen + KeySet(DeclVisits(w, fuel, d, steps))
    ensures Exactly(DeclBacked(w, fuel, d, steps), DeclGives(w, i, true, fuel, d, steps),
              DeclGives(w, NOTHING, true, n, d, steps))
  {
    match w[d.0].decls[d.1]
    case Alias(body) => WalkIsBacked(w, i, fuel, n, TypeNode(d.0, body), steps, seen);
    case Interface(members, bases, merged) =>
      if steps[0].Member? {
        match FindProperty(members, steps[0].name)
        case Some(p) =>
          FoundGives(w, i, true, fuel, d.0, members, members + merged, steps);
          FoundGives(w, NOTHING, true, n, d.0, members, members + merged, steps);
          PropertyIsBacked(w, i, fuel, n, d.0, p, steps, seen);
        case None =>
          BasesVisible(w, d.0, bases);
          BasesAsMeant(w, PASSED_OVER, d.0, bases);
          PassedOverGives(w, i, fuel, d.0, members, members + merged, steps);
          PassedOverGives(w, NOTHING, n, d.0, members, members + merged, steps);
          EachIsBacked(w, i, fuel, n, BaseNodes(w, d.0, bases), steps, seen);
      }
  }

  /** What members that are passed over give: exactly those that answer for the last step,
      if nothing is known of the rest. */
  lemma PassedOverGives(w: World, i: Interp, n: nat, file: string, members: seq<TypeMember>, all: seq<TypeMember>,
                        steps: seq<Step>)
    requires RelativesExist(w) && file in w && steps != [] && steps[0].Member?
    requires FindProperty(members, steps[0].name).None?
    ensures var last := |steps| == 1 && Certain(all, steps[0].name);
      && (last ==> MembersGive(w, i, true, n, file, members, all, steps))
      && (!last ==> !MembersGive(w, NOTHING, true, n, file, members, all, steps))
    ensures Declared(all, steps[0].name).None? ==>
      MembersGive(w, i, true, n, file, members, all, steps) == SomeOpenGives(i, file, all, steps)
  {
    if |steps| == 1 && Declared(all, steps[0].name).None? && Index(StringKeys) in all {
      assert OpenGives(i, file, Index(StringKeys), steps);
    }
  }

  lemma {:induction false} PropertyIsBacked(w: World, i: Interp, fuel: nat, n: nat, file: string, p: Property,
                                            steps: seq<Step>, seen: set<Key>)
    requires RelativesExist(w) && file in w && steps != []
    requires PropertyReads(w, PASSED_OVER, fuel, file, p, steps, seen)
    requires LookupProperty(w, fuel, file, p, steps, seen).Done? && Fresh(PropertyVisits(w, fuel, file, p, steps), seen)
    decreases fuel, 3, 0
    ensures LookupProperty(w, fuel, file, p, steps, seen).seen == seen + KeySet(PropertyVisits(w, fuel, file, p, steps))
    ensures Exactly(PropertyBacked(w, fuel, file, p, steps), PropertyGives(w, i, true, fuel, file, p, steps),
              PropertyGives(w, NOTHING, true, n, file, p, steps))
  {
    if |steps| > 1 && p.ty.Some? {
      WalkIsBacked(w, i, fuel, n, TypeNode(file, p.ty.value), steps[1..], seen);
    }
  }

  lemma {:induction false} MembersAreBacked(w: World, i: Interp, fuel: nat, n: nat, file: string,
                                            members: seq<TypeMember>, steps: seq<Step>, seen: set<Key>)
    requires RelativesExist(w) && file in w && steps != []
    requires TypeReads(w, PASSED_OVER, fuel, file, Literal(members), steps, seen)
    requires LookupType(w, fuel, file, Literal(members), steps, seen).Done?
    requires Fresh(TypeVisits(w, fuel, file, Literal(members), steps), seen)
    decreases fuel, 3, 1
    ensures var (outcome, visits) :=
      (LookupType(w, fuel, file, Literal(members), steps, seen), TypeVisits(w, fuel, file, Literal(members), steps));
      && outcome.seen == seen + KeySet(visits)
      && Exactly(TypeBacked(w, fuel, file, Literal(members), steps),
           TypeGives(w, i, true, fuel, file, Literal(members), steps),
           TypeGives(w, NOTHING, true, n, file, Literal(members), steps))
  {
    if steps[0].Member? {
      match FindProperty(members, steps[0].name)
      case Some(p) =>
        FoundGives(w, i, true, fuel, file, members, members, steps);
        FoundGives(w, NOTHING, true, n, file, members, members, steps);
        PropertyIsBacked(w, i, fuel, n, file, p, steps, seen);
      case None =>
        assert KeySet([]) == {};
        PassedOverGives(w, i, fuel, file, members, members, steps);
        PassedOverGives(w, NOTHING, n, file, members, members, steps);
    } else {
      assert KeySet([]) == {};
    }
  }

  lemma {:induction false} TypeIsBacked(w: World, i: Interp, fuel: nat, n: nat, file: string, ty: Type,
                                        steps: seq<Step>, seen: set<Key>)
    requires RelativesExist(w) && file in w && steps != []
    requires TypeReads(w, PASSED_OVER, fuel, file, ty, steps, seen)
    requires LookupType(w, fuel, file, ty, steps, seen).Done? && Fresh(TypeVisits(w, fuel, file, ty, steps), seen)
    decreases fuel, 4, 0
    ensures LookupType(w, fuel, file, ty, steps, seen).seen == seen + KeySet(TypeVisits(w, fuel, file, ty, steps))
    ensures Exactly(TypeBacked(w, fuel, file, ty, steps), TypeGives(w, i, true, fuel, file, ty, steps),
              TypeGives(w, NOTHING, true, n, file, ty, steps))
  {
    match ty
    case Literal(members) => MembersAreBacked(w, i, fuel, n, file, members, steps, seen);
    case Paren(inner) => WalkIsBacked(w, i, fuel, n, TypeNode(file, inner), steps, seen);
    case Operator(_, inner) => WalkIsBacked(w, i, fuel, n, TypeNode(file, inner), steps, seen);
    case Intersection(parts) => EachIsBacked(w, i, fuel, n, TypeNodes(file, parts), steps, seen);
    case Union(parts) => EachIsBacked(w, i, fuel, n, TypeNodes(file, parts), steps, seen);
    case ArrayOf(element) =>
      if steps[0].Element? {
        WalkIsBacked(w, i, fuel, n, TypeNode(file, element), steps[1..], seen);
      }
    case IndexedBy(owner, Some(key)) => WalkIsBacked(w, i, fuel, n, TypeNode(file, owner), [Member(key)] + steps, seen);
    case IndexedBy(_, None) =>
    case Reference(head, kind, args) =>
      if IsWrapper(head, args) {
        WalkIsBacked(w, i, fuel, n, TypeNode(file, args[0]), steps, seen);
      } else if IsArray(head, args) {
        if steps[0].Element? {
          WalkIsBacked(w, i, fuel, n, TypeNode(file, args[0]), steps[1..], seen);
        }
      } else if !kind.Qualified? {
        NamedVisible(w, file, head);
        if kind.Plain? {
          ReadAsMeant(w, PASSED_OVER, file, head);
        }
        WalkIsBacked(w, i, fuel, n, NamedNode(w, file, head), steps, seen);
      }
    case OtherType(_) =>
  }

  lemma {:induction false} EachIsBacked(w: World, i: Interp, fuel: nat, n: nat, nodes: seq<Node>,
                                        steps: seq<Step>, seen: set<Key>)
    requires RelativesExist(w) && (forall x :: x in nodes ==> Visible(w, x))
    requires EachReads(w, PASSED_OVER, fuel, nodes, steps, seen)
    requires LookupEach(w, fuel, nodes, steps, seen).AllDone? && Fresh(EachVisits(w, fuel, nodes, steps), seen)
    decreases fuel, 2, |nodes|
    ensures LookupEach(w, fuel, nodes, steps, seen).seen == seen + KeySet(EachVisits(w, fuel, nodes, steps))
    ensures Exactly(SomeBacked(w, fuel, nodes, steps), SomeGives(w, i, true, fuel, nodes, steps),
              SomeGives(w, NOTHING, true, n, nodes, steps))
    ensures Exactly(AllBacked(w, fuel, nodes, steps), AllGive(w, i, true, fuel, nodes, steps),
              AllGive(w, NOTHING, true, n, nodes, steps))
  {
    if nodes != [] {
      FreshParts(Visits(w, fuel, nodes[0], steps), EachVisits(w, fuel, nodes[1..], steps), seen);
      WalkIsBacked(w, i, fuel, n, nodes[0], steps, seen);
      var first := Lookup(w, fuel, nodes[0], steps, seen);
      EachIsBacked(w, i, fuel, n, nodes[1..], steps, first.seen);
    }
  }

  /** For a walk that meets no key twice, whatever it goes through or passes over: the path is
      certainly there iff it is backed, so 'found' is sound iff it is. */
  lemma FoundIsSoundIff(w: World, fuel: nat, node: Node, steps: seq<Step>, seen: set<Key>)
    requires RelativesExist(w) && Visible(w, node) && Reads(w, PASSED_OVER, fuel, node, steps, seen)
    requires Lookup(w, fuel, node, steps, seen).Done? && Fresh(Visits(w, fuel, node, steps), seen)
    ensures Sound(w, node, steps, Found) <==> Backed(w, fuel, node, steps)
  {
    if Backed(w, fuel, node, steps) {
      forall i: Interp
        ensures Must(w, i, node, steps)
      {
        WalkIsBacked(w, i, fuel, 0, node, steps, seen);
        assert Gives(w, i, true, fuel, node, steps);
      }
    } else {
      forall n: nat
        ensures !Gives(w, NOTHING, true, n, node, steps)
      {
        WalkIsBacked(w, NOTHING, fuel, n, node, steps, seen);
      }
      assert !Must(w, NOTHING, node, steps);
    }
  }
}
