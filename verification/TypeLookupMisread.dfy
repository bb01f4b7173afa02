/** Where `lookupPath` takes something for what it is not, and what its answer is
    worth there: scripts/gen-config-catalog.ts.

    It knows members by the text of their names and passes over methods, accessors
    and index signatures. It goes through any operator, and through any reference
    that starts with the name of a wrapper or an array. It takes a type parameter
    for a declaration of that name, and finds declarations a file does not export. */
module TypeLookupMisread {
  import opened Options
  import opened TypeExports
  import opened TypeLookup
  import opened TypeLookupExact
  import opened TypeLookupSound
  import opened TypeWorld

  /* ---- A walk that passes something over ---- */

  /** When a walk that doubts nothing answers 'missing' but passes something over,
      the path is there if all that is passed over has all paths. */
  lemma {:induction false} TroubleGives(w: World, n: nat, fuel: nat, node: Node, steps: seq<Step>, seen: set<Key>)
    requires RelativesExist(w) && Visible(w, node) && Reads(w, NO_DOUBT, fuel, node, steps, seen)
    requires Lookup(w, fuel, node, steps, seen).Done? && Lookup(w, fuel, node, steps, seen).answer == Missing
    requires !Reads(w, EVERYTHING_RIGHT, fuel, node, steps, seen)
    decreases fuel, 1
    ensures Gives(w, EVERYTHING, false, n, node, steps)
  {
    if n > 0 {
      match node
      case TypeNode(file, ty) => TypeTroubleGives(w, n - 1, fuel - 1, file, ty, steps, seen);
      case DeclNode(d) => DeclTroubleGives(w, n - 1, fuel - 1, d, steps, seen + {(d.0, d.1, |steps|)});
    }
  }

  lemma {:induction false} DeclTroubleGives(w: World, n: nat, fuel: nat, d: DeclRef, steps: seq<Step>, seen: set<Key>)
    requires RelativesExist(w) && Declares(w, d) && !w[d.0].decls[d.1].Enum? && steps != []
    requires LookupDecl(w, fuel, d, steps, seen).Done? && LookupDecl(w, fuel, d, steps, seen).answer == Missing
    requires DeclReads(w, NO_DOUBT, fuel, d, steps, seen) && !DeclReads(w, EVERYTHING_RIGHT, fuel, d, steps, seen)
    decreases fuel, 4, 0
    ensures DeclGives(w, EVERYTHING, false, n, d, steps)
  {
    match w[d.0].decls[d.1]
    case Alias(body) => TroubleGives(w, n, fuel, TypeNode(d.0, body), steps, seen);
    case Interface(members, bases, merged) =>
      match FindProperty(members, steps[0].name)
      case Some(p) => PropertyTroubleGives(w, n, fuel, d.0, p, steps, seen);
      case None =>
        BasesVisible(w, d.0, bases);
        if Hides(members + merged, steps[0].name) {
          HiddenGives(w, n, d.0, members, members + merged, steps);
        } else {
          BasesAsMeant(w, NO_DOUBT, d.0, bases);
          MissingBasesAreMeant(w, fuel, BaseNodes(w, d.0, bases), MeantBases(w, d.0, bases), steps, seen);
          EachTroubleGives(w, n, fuel, BaseNodes(w, d.0, bases), steps, seen);
        }
  }

  /** What the walk passes over in a list of members has the path if it has all paths. */
  lemma HiddenGives(w: World, n: nat, file: string, members: seq<TypeMember>, all: seq<TypeMember>, steps: seq<Step>)
    requires RelativesExist(w) && file in w && steps != [] && steps[0].Member?
    requires FindProperty(members, steps[0].name).None? && Hides(all, steps[0].name)
    ensures MembersGive(w, EVERYTHING, false, n, file, members, all, steps)
    ensures Declared(all, steps[0].name).None? ==> SomeOpenGives(EVERYTHING, file, all, steps)
  {
    if Declared(all, steps[0].name).None? {
      var m :| m in all && Open(m);
      assert OpenGives(EVERYTHING, file, m, steps);
    }
  }

  lemma {:induction false} PropertyTroubleGives(w: World, n: nat, fuel: nat, file: string, p: Property,
                                                steps: seq<Step>, seen: set<Key>)
    requires RelativesExist(w) && file in w && steps != []
    requires LookupProperty(w, fuel, file, p, steps, seen).Done?
    requires LookupProperty(w, fuel, file, p, steps, seen).answer == Missing
    requires PropertyReads(w, NO_DOUBT, fuel, file, p, steps, seen)
    requires !PropertyReads(w, EVERYTHING_RIGHT, fuel, file, p, steps, seen)
    decreases fuel, 3, 0
    ensures PropertyGives(w, EVERYTHING, false, n, file, p, steps)
  {
    TroubleGives(w, n, fuel, TypeNode(file, p.ty.value), steps[1..], seen);
  }

  lemma {:induction false} TypeTroubleGives(w: World, n: nat, fuel: nat, file: string, ty: Type,
                                            steps: seq<Step>, seen: set<Key>)
    requires RelativesExist(w) && file in w && steps != []
    requires LookupType(w, fuel, file, ty, steps, seen).Done?
    requires LookupType(w, fuel, file, ty, steps, seen).answer == Missing
    requires TypeReads(w, NO_DOUBT, fuel, file, ty, steps, seen)
    requires !TypeReads(w, EVERYTHING_RIGHT, fuel, file, ty, steps, seen)
    decreases fuel, 4, 0
    ensures TypeGives(w, EVERYTHING, false, n, file, ty, steps)
  {
    match ty
    case Literal(members) =>
      if FindProperty(members, steps[0].name).Some? {
        PropertyTroubleGives(w, n, fuel, file, FindProperty(members, steps[0].name).value, steps, seen);
      } else {
        HiddenGives(w, n, file, members, members, steps);
      }
    case Paren(inner) => TroubleGives(w, n, fuel, TypeNode(file, inner), steps, seen);
    case Operator(word, inner) =>
      if word == "readonly" {
        TroubleGives(w, n, fuel, TypeNode(file, inner), steps, seen);
      }
    case Intersection(parts) => EachTroubleGives(w, n, fuel, TypeNodes(file, parts), steps, seen);
    case Union(parts) => EachTroubleGives(w, n, fuel, TypeNodes(file, parts), steps, seen);
    case ArrayOf(element) => TroubleGives(w, n, fuel, TypeNode(file, element), steps[1..], seen);
    case IndexedBy(owner, key) => TroubleGives(w, n, fuel, TypeNode(file, owner), [Member(key.value)] + steps, seen);
    case Reference(head, kind, args) =>
      if kind.Plain? {
        if IsWrapper(head, args) {
          TroubleGives(w, n, fuel, TypeNode(file, args[0]), steps, seen);
        } else if IsArray(head, args) {
          TroubleGives(w, n, fuel, TypeNode(file, args[0]), steps[1..], seen);
        } else {
          NamedVisible(w, file, head);
          ReadAsMeant(w, NO_DOUBT, file, head);
          TroubleGives(w, n, fuel, NamedNode(w, file, head), steps, seen);
        }
      }
  }

  lemma {:induction false} EachTroubleGives(w: World, n: nat, fuel: nat, nodes: seq<Node>,
                                            steps: seq<Step>, seen: set<Key>)
    requires RelativesExist(w) && (forall x :: x in nodes ==> Visible(w, x))
    requires LookupEach(w, fuel, nodes, steps, seen).AllDone?
    requires forall a :: a in LookupEach(w, fuel, nodes, steps, seen).answers ==> a == Missing
    requires EachReads(w, NO_DOUBT, fuel, nodes, steps, seen)
    requires !EachReads(w, EVERYTHING_RIGHT, fuel, nodes, steps, seen)
    decreases fuel, 2, |nodes|
    ensures SomeGives(w, EVERYTHING, false, n, nodes, steps)
  {
    var first := Lookup(w, fuel, nodes[0], steps, seen);
    var rest := LookupEach(w, fuel, nodes[1..], steps, first.seen);
    HeadAndTail(first.answer, rest.answers);
    if Reads(w, EVERYTHING_RIGHT, fuel, nodes[0], steps, seen) {
      EachTroubleGives(w, n, fuel, nodes[1..], steps, first.seen);
    } else {
      TroubleGives(w, n, fuel, nodes[0], steps, seen);
    }
  }

  /** What is answered 'missing' has been found. */
  lemma {:induction false} MissingBasesAreMeant(w: World, fuel: nat, nodes: seq<Node>, meant: seq<Node>,
                                                steps: seq<Step>, seen: set<Key>)
    requires RelativesExist(w) && (forall x :: x in nodes ==> Visible(w, x)) && Meant(nodes, meant)
    requires LookupEach(w, fuel, nodes, steps, seen).AllDone?
    requires forall a :: a in LookupEach(w, fuel, nodes, steps, seen).answers ==> a == Missing
    decreases |nodes|
    ensures meant == nodes
  {
    if nodes != [] {
      var first := Lookup(w, fuel, nodes[0], steps, seen);
      var rest := LookupEach(w, fuel, nodes[1..], steps, first.seen);
      HeadAndTail(first.answer, rest.answers);
      MissingBasesAreMeant(w, fuel, nodes[1..], meant[1..], steps, first.seen);
      assert nodes == [nodes[0]] + nodes[1..] && meant == [meant[0]] + meant[1..];
    }
  }

  lemma HeadAndTail(a: Answer, rest: seq<Answer>)
    ensures a in [a] + rest && forall b :: b in rest ==> b in [a] + rest
  {
  }

  /** A walk that doubts nothing says 'missing' rightly iff it passes nothing over that could
      have the path: no member for the step, no operator, and no qualified reference. */
  lemma MissingIsSoundIff(w: World, fuel: nat, node: Node, steps: seq<Step>, seen: set<Key>)
    requires RelativesExist(w) && Visible(w, node) && Reads(w, NO_DOUBT, fuel, node, steps, seen)
    requires Lookup(w, fuel, node, steps, seen).Done? && Lookup(w, fuel, node, steps, seen).answer == Missing
    ensures (forall i :: !May(w, i, node, steps)) <==> Reads(w, EVERYTHING_RIGHT, fuel, node, steps, seen)
  {
    if Reads(w, EVERYTHING_RIGHT, fuel, node, steps, seen) {
      LookupSound(w, EVERYTHING_RIGHT, fuel, node, steps, seen);
    } else {
      forall n: nat
        ensures Gives(w, EVERYTHING, false, n, node, steps)
      {
        TroubleGives(w, n, fuel, node, steps, seen);
      }
      assert May(w, EVERYTHING, node, steps);
    }
  }

  /* ---- Members the walk does not find ---- */

  /** A member that certainly answers for the name. */
  predicate Certain(all: seq<TypeMember>, name: string) {
    Declared(all, name).Some? || Index(StringKeys) in all
  }

  /** A declaration without bases that certainly has the step, but not as a property
      signature written like the step, is said not to have it. */
  lemma HiddenMemberIsMissed(w: World, d: DeclRef, members: seq<TypeMember>, merged: seq<TypeMember>, name: string)
    requires RelativesExist(w) && Declares(w, d) && w[d.0].decls[d.1] == Interface(members, [], merged)
    requires FindProperty(members, name).None? && Certain(members + merged, name)
    ensures Lookup(w, 2, DeclNode(d), [Member(name)], {}) == Done(Missing, {(d.0, d.1, 1)})
    ensures forall i :: Must(w, i, DeclNode(d), [Member(name)])
  {
    var path := [Member(name)];
    assert BaseNodes(w, d.0, []) == [];
    assert LookupDecl(w, 1, d, path, {(d.0, d.1, 1)}) == Done(Missing, {(d.0, d.1, 1)});
    forall i: Interp
      ensures Must(w, i, DeclNode(d), path)
    {
      if Declared(members + merged, name).None? {
        assert OpenGives(i, d.0, Index(StringKeys), path);
      }
      assert DeclGives(w, i, true, 0, d, path);
      assert Gives(w, i, true, 1, DeclNode(d), path);
    }
  }

  /** A file with `interface C { … }`. */
  function OneInterface(m: TypeMember): World {
    map["c.ts" := File(map["C" := Interface([m], [], [])], map[], map[], [])]
  }

  /** `'my-key': string`, `handle(x: string): void` and `[key: string]: number`, each with a step it answers for. */
  const MISSED: seq<(TypeMember, string)> := [
    (Signature(Property("'my-key'", Some("my-key"), Some(OtherType("string")))), "my-key"),
    (Method(Some("handle")), "handle"),
    (Index(StringKeys), "a")]

  lemma QuotedMethodAndIndexAreMissed(k: nat)
    requires k < |MISSED|
    ensures var (w, d, path) := (OneInterface(MISSED[k].0), ("c.ts", "C"), [Member(MISSED[k].1)]);
      && RelativesExist(w) && Declares(w, d)
      && Lookup(w, 2, DeclNode(d), path, {}) == Done(Missing, {("c.ts", "C", 1)})
      && forall i :: Must(w, i, DeclNode(d), path)
  {
    var w, members := OneInterface(MISSED[k].0), [MISSED[k].0];
    assert members + [] == members;
    assert FindProperty(members[1..], MISSED[k].1).None?;
    assert k == 2 ==> members[0] == Index(StringKeys);
    HiddenMemberIsMissed(w, ("c.ts", "C"), members, [], MISSED[k].1);
  }

  /** A property signature that is written like the step but declares something else:
      what the walk finds is beside the point. */
  lemma MisnamedIsSoundIff(w: World, file: string, members: seq<TypeMember>, steps: seq<Step>, a: Answer)
    requires RelativesExist(w) && file in w && steps != [] && steps[0].Member?
    requires FindProperty(members, steps[0].name).Some? && !WellFound(members, members, steps[0].name)
    ensures Sound(w, TypeNode(file, Literal(members)), steps, a) <==> match a
      case Unknown => true
      case Found => |steps| == 1 && Certain(members, steps[0].name)
      case Missing => !Hides(members, steps[0].name)
  {
    var node, name := TypeNode(file, Literal(members)), steps[0].name;
    forall i: Interp, b: bool, n: nat
      ensures Gives(w, i, b, n + 1, node, steps) == MembersGive(w, i, b, n, file, members, members, steps)
    {
    }
    if |steps| == 1 && Certain(members, name) {
      forall i: Interp
        ensures Must(w, i, node, steps)
      {
        if Declared(members, name).None? {
          assert OpenGives(i, file, Index(StringKeys), steps);
        }
        assert Gives(w, i, true, 0 + 1, node, steps);
      }
    } else {
      forall n: nat
        ensures !Gives(w, NOTHING, true, n, node, steps)
      {
        if n > 0 {
          assert Gives(w, NOTHING, true, n - 1 + 1, node, steps)
            == MembersGive(w, NOTHING, true, n - 1, file, members, members, steps);
        }
      }
      assert !Must(w, NOTHING, node, steps);
    }
    if Hides(members, name) {
      forall n: nat
        ensures Gives(w, EVERYTHING, false, n, node, steps)
      {
        if n > 0 {
          if Declared(members, name).None? {
            var m :| m in members && Open(m);
            assert OpenGives(EVERYTHING, file, m, steps);
          }
          assert Gives(w, EVERYTHING, false, n - 1 + 1, node, steps);
        }
      }
      assert May(w, EVERYTHING, node, steps);
    } else {
      forall i: Interp
        ensures !May(w, i, node, steps)
      {
        assert !Gives(w, i, false, 0 + 1, node, steps);
      }
    }
  }

  /* ---- Types the walk goes through though it should not ---- */

  /** What is answered for a reference that is taken by its head: that of the argument if it is the name
      of a wrapper or an array, and otherwise that of the declaration the search finds. */
  function Referred(w: World, fuel: nat, file: string, head: string, args: seq<Type>, steps: seq<Step>, seen: set<Key>)
    : Outcome
    requires RelativesExist(w) && file in w && steps != []
  {
    if IsWrapper(head, args) then Lookup(w, fuel, TypeNode(file, args[0]), steps, seen)
    else if IsArray(head, args) then
      if steps[0].Element? then Lookup(w, fuel, TypeNode(file, args[0]), steps[1..], seen) else Done(Unknown, seen)
    else NamedVisible(w, file, head); Lookup(w, fuel, NamedNode(w, file, head), steps, seen)
  }

  /** Operators that are no pass-through, qualified names that start like a wrapper or an array,
      and type parameters. */
  predicate WronglyThrough(ty: Type) {
    match ty
    case Operator(word, _) => word != "readonly"
    case Reference(head, kind, args) => kind.Parameter? || (kind.Qualified? && LooksThrough(head, args))
    case _ => false
  }

  /** The walk that is made instead. */
  function Instead(w: World, fuel: nat, file: string, ty: Type, steps: seq<Step>, seen: set<Key>): Outcome
    requires RelativesExist(w) && file in w && steps != []
    requires ty.Operator? || ty.Reference?
  {
    match ty
    case Operator(_, inner) => Lookup(w, fuel, TypeNode(file, inner), steps, seen)
    case Reference(head, _, args) => Referred(w, fuel, file, head, args, steps, seen)
  }

  /** There the answer is that of the operand, the argument or a declaration that happens to have the
      name of the type parameter, and it is sound iff it is 'unknown'. */
  lemma WronglyThroughIsSoundIff(w: World, fuel: nat, file: string, ty: Type, steps: seq<Step>, seen: set<Key>)
    requires RelativesExist(w) && file in w && WronglyThrough(ty) && steps != []
    ensures Lookup(w, fuel + 1, TypeNode(file, ty), steps, seen) == Instead(w, fuel, file, ty, steps, seen)
    ensures forall a :: Sound(w, TypeNode(file, ty), steps, a) <==> a == Unknown
  {
    var node := TypeNode(file, ty);
    if ty.Reference? {
      ReferredIs(w, fuel, file, ty.head, ty.kind, ty.args, steps, seen);
    }
    forall n: nat
      ensures !Gives(w, NOTHING, true, n, node, steps) && Gives(w, EVERYTHING, false, n, node, steps)
    {
      if n > 0 {
        assert !TypeGives(w, NOTHING, true, n - 1, file, ty, steps)
          && TypeGives(w, EVERYTHING, false, n - 1, file, ty, steps);
      }
    }
    assert !Must(w, NOTHING, node, steps) && May(w, EVERYTHING, node, steps);
  }

  /** Wherever a name means something in the file or in a file it is imported from, the answer
      is sound iff it is 'unknown' or the exact answer for what the name means: where the file
      binds the name of a wrapper or an array, and where the search finds another declaration. */
  lemma NameIsSoundIff(w: World, fuel: nat, file: string, head: string, args: seq<Type>, steps: seq<Step>,
                       seen: set<Key>, fuel': nat)
    requires RelativesExist(w) && file in w && (Binds(w, file, head) || !LooksThrough(head, args)) && steps != []
    requires Visible(w, MeantNode(w, file, head)) && Lookup(w, fuel', MeantNode(w, file, head), steps, {}).Done?
    requires Reads(w, NOTHING_MISSED, fuel', MeantNode(w, file, head), steps, {})
    requires Fresh(Visits(w, fuel', MeantNode(w, file, head), steps), {})
    ensures var ty := Reference(head, Plain, args);
      && Lookup(w, fuel + 1, TypeNode(file, ty), steps, seen) == Referred(w, fuel, file, head, args, steps, seen)
      && forall a :: Sound(w, TypeNode(file, ty), steps, a) <==>
           a == Unknown || a == Lookup(w, fuel', MeantNode(w, file, head), steps, {}).answer
  {
    ReferredIs(w, fuel, file, head, Plain, args, steps, seen);
    LookupExact(w, fuel', MeantNode(w, file, head), steps, {});
    forall a
      ensures Sound(w, TypeNode(file, Reference(head, Plain, args)), steps, a) <==>
              Sound(w, MeantNode(w, file, head), steps, a)
    {
      NameSound(w, file, head, args, steps, a);
    }
  }

  lemma ReferredIs(w: World, fuel: nat, file: string, head: string, kind: NameKind, args: seq<Type>,
                   steps: seq<Step>, seen: set<Key>)
    requires RelativesExist(w) && file in w && (kind.Qualified? ==> LooksThrough(head, args)) && steps != []
    ensures Lookup(w, fuel + 1, TypeNode(file, Reference(head, kind, args)), steps, seen)
         == Referred(w, fuel, file, head, args, steps, seen)
  {
    NodeUnfolds(w, NOTHING, true, fuel, 0, TypeNode(file, Reference(head, kind, args)), steps, seen);
    NamedVisible(w, file, head);
  }

  lemma NameSound(w: World, file: string, head: string, args: seq<Type>, steps: seq<Step>, a: Answer)
    requires RelativesExist(w) && file in w && (Binds(w, file, head) || !LooksThrough(head, args)) && steps != []
    requires Visible(w, MeantNode(w, file, head))
    ensures Sound(w, TypeNode(file, Reference(head, Plain, args)), steps, a) <==>
            Sound(w, MeantNode(w, file, head), steps, a)
  {
    forall i: Interp
      ensures Must(w, i, TypeNode(file, Reference(head, Plain, args)), steps)
           == Must(w, i, MeantNode(w, file, head), steps)
      ensures May(w, i, TypeNode(file, Reference(head, Plain, args)), steps)
           == May(w, i, MeantNode(w, file, head), steps)
    {
      NamePresence(w, i, file, head, args, steps);
    }
  }

  lemma NamePresence(w: World, i: Interp, file: string, head: string, args: seq<Type>, steps: seq<Step>)
    requires RelativesExist(w) && file in w && (Binds(w, file, head) || !LooksThrough(head, args)) && steps != []
    ensures Visible(w, MeantNode(w, file, head))
    ensures var node := TypeNode(file, Reference(head, Plain, args));
      && Must(w, i, node, steps) == Must(w, i, MeantNode(w, file, head), steps)
      && May(w, i, node, steps) == May(w, i, MeantNode(w, file, head), steps)
  {
    MeantVisible(w, file, head);
    var node, meant := TypeNode(file, Reference(head, Plain, args)), MeantNode(w, file, head);
    forall b: bool, n: nat
      ensures Gives(w, i, b, n + 1, node, steps) == Gives(w, i, b, n, meant, steps)
    {
    }
    OneMoreLevel(w, i, node, meant, steps);
  }

  /** One level of unfolding makes no difference to presence. */
  lemma OneMoreLevel(w: World, i: Interp, node: Node, bound: Node, steps: seq<Step>)
    requires RelativesExist(w) && Visible(w, node) && Visible(w, bound) && steps != []
    requires forall b: bool, n: nat :: Gives(w, i, b, n + 1, node, steps) == Gives(w, i, b, n, bound, steps)
    ensures Must(w, i, node, steps) == Must(w, i, bound, steps)
    ensures May(w, i, node, steps) == May(w, i, bound, steps)
  {
    assert !Gives(w, i, true, 0, node, steps) && Gives(w, i, false, 0, node, steps);
    forall n: nat
      ensures Gives(w, i, true, n, node, steps) ==> Must(w, i, bound, steps)
      ensures Gives(w, i, true, n, bound, steps) ==> Must(w, i, node, steps)
      ensures May(w, i, node, steps) ==> Gives(w, i, false, n, bound, steps)
      ensures May(w, i, bound, steps) ==> Gives(w, i, false, n, node, steps)
    {
      assert Gives(w, i, true, n + 1, node, steps) == Gives(w, i, true, n, bound, steps);
      assert Gives(w, i, false, n + 1, node, steps) == Gives(w, i, false, n, bound, steps);
      if n > 0 {
        assert Gives(w, i, true, n - 1 + 1, node, steps) == Gives(w, i, true, n - 1, bound, steps);
        assert Gives(w, i, false, n - 1 + 1, node, steps) == Gives(w, i, false, n - 1, bound, steps);
      }
    }
  }

  /* ---- Names the search finds elsewhere than they mean ---- */

  lemma EmptyLacks(w: World, d: DeclRef, name: string)
    requires RelativesExist(w) && Declares(w, d) && w[d.0].decls[d.1] == Interface([], [], [])
    ensures Lookup(w, 2, DeclNode(d), [Member(name)], {}) == Done(Missing, {(d.0, d.1, 1)})
  {
    assert BaseNodes(w, d.0, []) == [];
    assert LookupDecl(w, 1, d, [Member(name)], {(d.0, d.1, 1)}) == Done(Missing, {(d.0, d.1, 1)});
  }

  lemma OwnIsGiven(w: World, d: DeclRef, p: Property, i: Interp)
    requires RelativesExist(w) && Declares(w, d) && w[d.0].decls[d.1] == Interface([Signature(p)], [], [])
    requires p.declares == Some(p.written)
    ensures Must(w, i, DeclNode(d), [Member(p.written)])
  {
    assert [Signature(p)] + [] == [Signature(p)];
    assert DeclGives(w, i, true, 0, d, [Member(p.written)]);
    assert Gives(w, i, true, 1, DeclNode(d), [Member(p.written)]);
  }

  /** When the search takes an empty interface for one that has the step, the step is said to be missing. */
  lemma WrongInterfaceIsMissed(w: World, file: string, head: string, found: DeclRef, meant: DeclRef, p: Property)
    requires RelativesExist(w) && file in w && !LooksThrough(head, [])
    requires ResolveName(w, file, head) == Some(found) && MeantDecl(w, file, head) == Some(meant)
    requires Declares(w, found) && w[found.0].decls[found.1] == Interface([], [], [])
    requires Declares(w, meant) && w[meant.0].decls[meant.1] == Interface([Signature(p)], [], [])
    requires p.declares == Some(p.written)
    ensures var (node, path) := (TypeNode(file, Reference(head, Plain, [])), [Member(p.written)]);
      && Lookup(w, 3, node, path, {}) == Done(Missing, {(found.0, found.1, 1)})
      && forall i :: Must(w, i, node, path)
  {
    var path := [Member(p.written)];
    EmptyLacks(w, found, p.written);
    ReferredIs(w, 2, file, head, Plain, [], path, {});
    forall i: Interp
      ensures Must(w, i, TypeNode(file, Reference(head, Plain, [])), path)
    {
      OwnIsGiven(w, meant, p, i);
      NamePresence(w, i, file, head, [], path);
    }
  }

  const FOO: Property := Property("foo", Some("foo"), Some(OtherType("string")))
  const EMPTY: Decl := Interface([], [], [])
  const WITH_FOO: Decl := Interface([Signature(FOO)], [], [])

  /** `import { Y } from './index.ts'` */
  const USER: File := File(map[], map[], map["Y" := Import("Y", RelativeTs("index.ts"))], [])

  function Exporting(exports: seq<ReExport>): File {
    File(map[], map[], map[], exports)
  }

  function Declaring(name: string, decl: Decl, exported: map<string, string>): File {
    File(map[name := decl], exported, map[], [])
  }

  /** index.ts exports everything of a.ts, which has a private empty Y, and of b.ts, which exports Y. */
  const PRIVATE_FIRST: World := map[
    "c.ts" := USER,
    "index.ts" := Exporting([ReExport(Star, RelativeTs("a.ts")), ReExport(Star, RelativeTs("b.ts"))]),
    "a.ts" := Declaring("Y", EMPTY, map[]),
    "b.ts" := Declaring("Y", WITH_FOO, map["Y" := "Y"])]

  /** index.ts exports everything of a.ts, an empty Y included, and then Z of b.ts as Y. */
  const STAR_FIRST: World := map[
    "c.ts" := USER,
    "index.ts" := Exporting([ReExport(Star, RelativeTs("a.ts")), ReExport(Named([("Y", "Z")]), RelativeTs("b.ts"))]),
    "a.ts" := Declaring("Y", EMPTY, map["Y" := "Y"]),
    "b.ts" := Declaring("Z", WITH_FOO, map["Z" := "Z"])]

  lemma PrivateFirstIsMissed()
    ensures RelativesExist(PRIVATE_FIRST)
    ensures var (node, path) := (TypeNode("c.ts", Reference("Y", Plain, [])), [Member("foo")]);
      && Lookup(PRIVATE_FIRST, 3, node, path, {}) == Done(Missing, {("a.ts", "Y", 1)})
      && forall i :: Must(PRIVATE_FIRST, i, node, path)
  {
    var w := PRIVATE_FIRST;
    PrivateIsTaken(w, "index.ts", "a.ts", "b.ts", "Y");
    MeantIs(w, "c.ts", "Y", ("index.ts", "Y"), ("b.ts", "Y"));
    WrongInterfaceIsMissed(w, "c.ts", "Y", ("a.ts", "Y"), ("b.ts", "Y"), FOO);
  }

  lemma StarFirstIsMissed()
    ensures RelativesExist(STAR_FIRST)
    ensures var (node, path) := (TypeNode("c.ts", Reference("Y", Plain, [])), [Member("foo")]);
      && Lookup(STAR_FIRST, 3, node, path, {}) == Done(Missing, {("a.ts", "Y", 1)})
      && forall i :: Must(STAR_FIRST, i, node, path)
  {
    var w := STAR_FIRST;
    StarIsTaken(w, "index.ts", "a.ts", "b.ts", "Y", "Z");
    MeantIs(w, "c.ts", "Y", ("index.ts", "Y"), ("b.ts", "Z"));
    WrongInterfaceIsMissed(w, "c.ts", "Y", ("a.ts", "Y"), ("b.ts", "Z"), FOO);
  }
}
