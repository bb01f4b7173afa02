/** What the answers of `lookupPath` mean: scripts/gen-config-catalog.ts.

    An interpretation says, for everything the walk does not look at, which paths
    it has. `Gives` is the presence of a path under one interpretation, unfolded to
    a given depth. It comes in two strengths: the demanding one wants every
    branch of a union to have the path and an unfolding that ends; the lenient
    one is content with some branch and with an unfolding that never ends. */
module TypeLookupSound {
  import opened Options
  import opened TypeExports
  import opened TypeLookup
  import opened TypeWorld

  datatype Atom =
    | OfType(file: string, ty: Type)
    | OfDecl(decl: DeclRef)
    | OfName(file: string, name: string)
    | OfProperty(file: string, property: string)
    | OfMember(file: string, member: TypeMember)

  type Interp = (Atom, seq<Step>) -> bool

  /** The file gives the name a meaning of its own. */
  predicate Binds(w: World, file: string, name: string)
    requires file in w
  {
    name in w[file].decls || name in w[file].imports
  }

  /* ---- What a name means ---- */

  /** The node that a name means by the rules of the language. */
  ghost function MeantNode(w: World, file: string, name: string): Node
    requires file in w
  {
    match MeantDecl(w, file, name)
    case Some(d) => DeclNode(d)
    case None => OutOfSight(file, name)
  }

  lemma MeantVisible(w: World, file: string, name: string)
    requires file in w
    ensures Visible(w, MeantNode(w, file, name))
  {
    if MeantDecl(w, file, name).Some? {
      MeantIsDeclared(w, file, name);
    }
  }

  ghost function MeantBases(w: World, file: string, bases: seq<Base>): (r: seq<Node>)
    requires file in w
    ensures |r| == |bases|
  {
    if bases == [] then [] else
      [match bases[0]
       case Base(name) => MeantNode(w, file, name)
       case OtherBase(text) => OutOfSight(file, text)] + MeantBases(w, file, bases[1..])
  }

  lemma {:induction false} MeantBasesVisible(w: World, file: string, bases: seq<Base>)
    requires file in w
    ensures forall n :: n in MeantBases(w, file, bases) ==> Visible(w, n)
  {
    if bases != [] {
      MeantBasesVisible(w, file, bases[1..]);
      if bases[0].Base? {
        MeantVisible(w, file, bases[0].name);
      }
    }
  }

  /* ---- What a list of members declares ---- */

  function DeclaredName(m: TypeMember): Option<string> {
    match m
    case Signature(p) => p.declares
    case Method(name) => name
    case Index(_) => None
  }

  /** The first member that declares the name. */
  function Declared(members: seq<TypeMember>, name: string): Option<TypeMember> {
    if members == [] then None
    else if DeclaredName(members[0]) == Some(name) then Some(members[0])
    else Declared(members[1..], name)
  }

  /** A member that may answer for names it does not spell out: a computed name or an index signature. */
  predicate Open(m: TypeMember) {
    match m
    case Signature(p) => p.declares.None?
    case Method(name) => name.None?
    case Index(keys) => !keys.SymbolKeys?
  }

  /** The property signature that the walk finds is what the list declares. */
  predicate WellFound(members: seq<TypeMember>, all: seq<TypeMember>, name: string) {
    var p := FindProperty(members, name);
    p.Some? && Declared(all, name) == Some(Signature(p.value))
  }

  /** The list has a member for the name, or may have one, that the walk does not find. */
  predicate Hides(all: seq<TypeMember>, name: string) {
    Declared(all, name).Some? || exists m :: m in all && Open(m)
  }

  /** The walk does not look at such a member: an index signature for all names has the
      step, any other open member may have it, and what lies behind is not known. */
  predicate OpenGives(i: Interp, file: string, m: TypeMember, steps: seq<Step>)
    requires steps != []
  {
    if m == Index(StringKeys) then |steps| == 1 || i(OfMember(file, m), steps[1..]) else i(OfMember(file, m), steps)
  }

  predicate SomeOpenGives(i: Interp, file: string, all: seq<TypeMember>, steps: seq<Step>)
    requires steps != []
  {
    exists m :: m in all && Open(m) && OpenGives(i, file, m, steps)
  }

  ghost predicate Gives(w: World, i: Interp, demanding: bool, n: nat, node: Node, steps: seq<Step>)
    requires RelativesExist(w) && Visible(w, node)
    decreases n, 1
  {
    steps == [] || (
      if n == 0 then !demanding
      else match node
        case OutOfSight(file, name) => i(OfName(file, name), steps)
        case TypeNode(file, ty) => TypeGives(w, i, demanding, n - 1, file, ty, steps)
        case DeclNode(d) => DeclGives(w, i, demanding, n - 1, d, steps))
  }

  ghost predicate DeclGives(w: World, i: Interp, demanding: bool, n: nat, d: DeclRef, steps: seq<Step>)
    requires RelativesExist(w) && Declares(w, d) && steps != []
    decreases n, 4
  {
    match w[d.0].decls[d.1]
    case Enum => i(OfDecl(d), steps)
    case Alias(body) => Gives(w, i, demanding, n, TypeNode(d.0, body), steps)
    case Interface(members, bases, merged) =>
      if steps[0].Element? then i(OfDecl(d), steps)
      else if Declared(members + merged, steps[0].name).Some? then
        MembersGive(w, i, demanding, n, d.0, members, members + merged, steps)
      else
        MeantBasesVisible(w, d.0, bases);
        || SomeOpenGives(i, d.0, members + merged, steps)
        || SomeGives(w, i, demanding, n, MeantBases(w, d.0, bases), steps)
  }

  /** The members that the walk reads, among all that the type has. */
  ghost predicate MembersGive(w: World, i: Interp, demanding: bool, n: nat, file: string,
                              members: seq<TypeMember>, all: seq<TypeMember>, steps: seq<Step>)
    requires RelativesExist(w) && file in w && steps != [] && steps[0].Member?
    decreases n, 3, 1
  {
    match Declared(all, steps[0].name)
    case Some(m) =>
      if WellFound(members, all, steps[0].name)
      then PropertyGives(w, i, demanding, n, file, FindProperty(members, steps[0].name).value, steps)
      else |steps| == 1 || i(OfMember(file, m), steps[1..])
    case None => SomeOpenGives(i, file, all, steps)
  }

  ghost predicate PropertyGives(w: World, i: Interp, demanding: bool, n: nat, file: string, p: Property,
                                steps: seq<Step>)
    requires RelativesExist(w) && file in w && steps != []
    decreases n, 3, 0
  {
    |steps| == 1 ||
    match p.ty
    case Some(ty) => Gives(w, i, demanding, n, TypeNode(file, ty), steps[1..])
    case None => i(OfProperty(file, p.written), steps[1..])
  }

  ghost predicate TypeGives(w: World, i: Interp, demanding: bool, n: nat, file: string, ty: Type, steps: seq<Step>)
    requires RelativesExist(w) && file in w && steps != []
    decreases n, 4
  {
    match ty
    case Literal(members) =>
      if steps[0].Element? then i(OfType(file, ty), steps)
      else MembersGive(w, i, demanding, n, file, members, members, steps)
    case Paren(inner) => Gives(w, i, demanding, n, TypeNode(file, inner), steps)
    case Operator(word, inner) =>
      if word == "readonly" then Gives(w, i, demanding, n, TypeNode(file, inner), steps) else i(OfType(file, ty), steps)
    case Intersection(parts) => SomeGives(w, i, demanding, n, TypeNodes(file, parts), steps)
    case Union(parts) =>
      if demanding then AllGive(w, i, demanding, n, TypeNodes(file, parts), steps)
      else parts == [] || SomeGives(w, i, demanding, n, TypeNodes(file, parts), steps)
    case ArrayOf(element) =>
      if steps[0].Element? then Gives(w, i, demanding, n, TypeNode(file, element), steps[1..])
      else i(OfType(file, ty), steps)
    case IndexedBy(owner, Some(key)) => Gives(w, i, demanding, n, TypeNode(file, owner), [Member(key)] + steps)
    case IndexedBy(_, None) => i(OfType(file, ty), steps)
    case Reference(head, kind, args) =>
      if !kind.Plain? then i(OfType(file, ty), steps)
      else if Binds(w, file, head) || !(IsWrapper(head, args) || IsArray(head, args)) then
        MeantVisible(w, file, head); Gives(w, i, demanding, n, MeantNode(w, file, head), steps)
      else if IsWrapper(head, args) then Gives(w, i, demanding, n, TypeNode(file, args[0]), steps)
      else if steps[0].Element? then Gives(w, i, demanding, n, TypeNode(file, args[0]), steps[1..])
      else i(OfType(file, ty), steps)
    case OtherType(_) => i(OfType(file, ty), steps)
  }

  ghost predicate SomeGives(w: World, i: Interp, demanding: bool, n: nat, nodes: seq<Node>, steps: seq<Step>)
    requires RelativesExist(w) && forall x :: x in nodes ==> Visible(w, x)
    decreases n, 2, |nodes|
  {
    nodes != [] && (Gives(w, i, demanding, n, nodes[0], steps) || SomeGives(w, i, demanding, n, nodes[1..], steps))
  }

  ghost predicate AllGive(w: World, i: Interp, demanding: bool, n: nat, nodes: seq<Node>, steps: seq<Step>)
    requires RelativesExist(w) && forall x :: x in nodes ==> Visible(w, x)
    decreases n, 2, |nodes|
  {
    nodes == [] || (Gives(w, i, demanding, n, nodes[0], steps) && AllGive(w, i, demanding, n, nodes[1..], steps))
  }

  /** The type certainly has the path. */
  ghost predicate Must(w: World, i: Interp, node: Node, steps: seq<Step>)
    requires RelativesExist(w) && Visible(w, node)
  {
    exists n: nat :: Gives(w, i, true, n, node, steps)
  }

  /** The type may have the path. */
  ghost predicate May(w: World, i: Interp, node: Node, steps: seq<Step>)
    requires RelativesExist(w) && Visible(w, node)
  {
    forall n: nat :: Gives(w, i, false, n, node, steps)
  }

  /** A definite answer holds under every interpretation. */
  ghost predicate Sound(w: World, node: Node, steps: seq<Step>, a: Answer)
    requires RelativesExist(w) && Visible(w, node)
  {
    && (a == Found ==> forall i :: Must(w, i, node, steps))
    && (a == Missing ==> forall i :: !May(w, i, node, steps))
  }

  /* ---- What a walk can misread ---- */

  /** Kinds of misreading. Hidden: something the walk passes over could have the path.
      Doubtful: what the walk reads is not what is written there. Unseen: the walk does
      not find what a name means, though it is in sight. */
  datatype Care = Care(hidden: bool, doubtful: bool, unseen: bool)

  const NO_DOUBT := Care(false, true, false)
  const EVERYTHING_RIGHT := Care(true, true, false)
  const NOTHING_MISSED := Care(true, true, true)

  /** The walk takes the name for what it means. */
  ghost predicate NameRead(w: World, c: Care, file: string, name: string)
    requires RelativesExist(w) && file in w
  {
    && (c.doubtful ==> NameRight(w, file, name))
    && (c.unseen && ResolveName(w, file, name).None? ==> MeantDecl(w, file, name).None?)
  }

  /** A name is found as it is meant, or not found, and then it may be required to be out of sight. */
  lemma ReadAsMeant(w: World, c: Care, file: string, name: string)
    requires RelativesExist(w) && file in w && c.doubtful && NameRead(w, c, file, name)
    ensures NamedNode(w, file, name).DeclNode? || c.unseen ==> MeantNode(w, file, name) == NamedNode(w, file, name)
  {
    if ResolveName(w, file, name).Some? {
      NameRightIff(w, file, name);
    }
  }

  ghost predicate BasesRead(w: World, c: Care, file: string, bases: seq<Base>)
    requires RelativesExist(w) && file in w
  {
    forall b :: b in bases && b.Base? ==> NameRead(w, c, file, b.name)
  }

  /** What was meant, node by node, where the walk knows it. */
  predicate Meant(found: seq<Node>, meant: seq<Node>) {
    |found| == |meant| && forall j :: 0 <= j < |found| ==> found[j].OutOfSight? || meant[j] == found[j]
  }

  lemma {:induction false} BasesAsMeant(w: World, c: Care, file: string, bases: seq<Base>)
    requires RelativesExist(w) && file in w && c.doubtful && BasesRead(w, c, file, bases)
    ensures Meant(BaseNodes(w, file, bases), MeantBases(w, file, bases))
    ensures c.unseen ==> MeantBases(w, file, bases) == BaseNodes(w, file, bases)
  {
    if bases != [] {
      assert forall b :: b in bases[1..] ==> b in bases;
      BasesAsMeant(w, c, file, bases[1..]);
      if bases[0].Base? {
        assert bases[0] in bases;
        ReadAsMeant(w, c, file, bases[0].name);
      }
    }
  }

  /** The walk goes through the reference to its first argument, as if it named a global wrapper or array. */
  predicate LooksThrough(head: string, args: seq<Type>) {
    IsWrapper(head, args) || IsArray(head, args)
  }

  /** The walk takes the type for what it is. */
  ghost predicate ReadRight(w: World, c: Care, file: string, ty: Type)
    requires RelativesExist(w) && file in w
  {
    match ty
    case Operator(word, _) => c.hidden ==> word == "readonly"
    case Reference(head, kind, args) =>
      if LooksThrough(head, args) then
        (c.hidden ==> kind.Plain?) && (c.doubtful && kind.Plain? ==> !Binds(w, file, head))
      else if kind.Plain? then NameRead(w, c, file, head)
      else kind.Parameter? && c.doubtful ==> NamedNode(w, file, head).OutOfSight?
    case _ => true
  }

  /** The walk gives a list of members up only if it hides none for the step, and
      finds only what the list declares. */
  predicate MembersRight(c: Care, members: seq<TypeMember>, all: seq<TypeMember>, name: string) {
    if FindProperty(members, name).None? then c.hidden ==> !Hides(all, name)
    else c.doubtful ==> WellFound(members, all, name)
  }

  /** Everything that the walk from this node reads is read right. */
  ghost predicate Reads(w: World, c: Care, fuel: nat, node: Node, steps: seq<Step>, seen: set<Key>)
    requires RelativesExist(w) && Visible(w, node)
    decreases fuel, 1
  {
    steps == [] || fuel == 0 ||
    match node
    case OutOfSight(_, _) => true
    case TypeNode(file, ty) => TypeReads(w, c, fuel - 1, file, ty, steps, seen)
    case DeclNode(d) =>
      var key := (d.0, d.1, |steps|);
      w[d.0].decls[d.1].Enum? || key in seen || DeclReads(w, c, fuel - 1, d, steps, seen + {key})
  }

  ghost predicate DeclReads(w: World, c: Care, fuel: nat, d: DeclRef, steps: seq<Step>, seen: set<Key>)
    requires RelativesExist(w) && Declares(w, d) && steps != []
    decreases fuel, 4, 0
  {
    match w[d.0].decls[d.1]
    case Enum => true
    case Alias(body) => Reads(w, c, fuel, TypeNode(d.0, body), steps, seen)
    case Interface(members, bases, merged) =>
      steps[0].Element? || (
        && MembersRight(c, members, members + merged, steps[0].name)
        && match FindProperty(members, steps[0].name)
           case Some(p) => PropertyReads(w, c, fuel, d.0, p, steps, seen)
           case None =>
             BasesVisible(w, d.0, bases);
             BasesRead(w, c, d.0, bases) && EachReads(w, c, fuel, BaseNodes(w, d.0, bases), steps, seen))
  }

  ghost predicate PropertyReads(w: World, c: Care, fuel: nat, file: string, p: Property, steps: seq<Step>,
                                seen: set<Key>)
    requires RelativesExist(w) && file in w && steps != []
    decreases fuel, 3, 0
  {
    |steps| == 1 || p.ty.None? || Reads(w, c, fuel, TypeNode(file, p.ty.value), steps[1..], seen)
  }

  ghost predicate TypeReads(w: World, c: Care, fuel: nat, file: string, ty: Type, steps: seq<Step>, seen: set<Key>)
    requires RelativesExist(w) && file in w && steps != []
    decreases fuel, 4, 0
  {
    ReadRight(w, c, file, ty) &&
    match ty
    case Literal(members) =>
      steps[0].Element? || (
        && MembersRight(c, members, members, steps[0].name)
        && (match FindProperty(members, steps[0].name)
            case Some(p) => PropertyReads(w, c, fuel, file, p, steps, seen)
            case None => true))
    case Paren(inner) => Reads(w, c, fuel, TypeNode(file, inner), steps, seen)
    case Operator(_, inner) => Reads(w, c, fuel, TypeNode(file, inner), steps, seen)
    case Intersection(parts) => EachReads(w, c, fuel, TypeNodes(file, parts), steps, seen)
    case Union(parts) => EachReads(w, c, fuel, TypeNodes(file, parts), steps, seen)
    case ArrayOf(element) => steps[0].Element? ==> Reads(w, c, fuel, TypeNode(file, element), steps[1..], seen)
    case IndexedBy(owner, Some(key)) => Reads(w, c, fuel, TypeNode(file, owner), [Member(key)] + steps, seen)
    case IndexedBy(_, None) => true
    case Reference(head, kind, args) =>
      if IsWrapper(head, args) then Reads(w, c, fuel, TypeNode(file, args[0]), steps, seen)
      else if IsArray(head, args) then
        steps[0].Element? ==> Reads(w, c, fuel, TypeNode(file, args[0]), steps[1..], seen)
      else kind.Qualified? || (NamedVisible(w, file, head); Reads(w, c, fuel, NamedNode(w, file, head), steps, seen))
    case OtherType(_) => true
  }

  ghost predicate EachReads(w: World, c: Care, fuel: nat, nodes: seq<Node>, steps: seq<Step>, seen: set<Key>)
    requires RelativesExist(w) && forall x :: x in nodes ==> Visible(w, x)
    decreases fuel, 2, |nodes|
  {
    nodes == [] || (
      && Reads(w, c, fuel, nodes[0], steps, seen)
      && match Lookup(w, fuel, nodes[0], steps, seen)
         case OutOfFuel => true
         case Done(_, seen') => EachReads(w, c, fuel, nodes[1..], steps, seen'))
  }

  /* ---- Both definite answers are sound ---- */

  /** What an answer promises about one interpretation, at the depth of the walk. */
  ghost predicate Honest(a: Answer, certain: bool, possible: bool) {
    (a == Found ==> certain) && (a == Missing ==> !possible)
  }

  lemma {:induction false} LookupHonest(w: World, c: Care, i: Interp, fuel: nat, node: Node, steps: seq<Step>,
                                        seen: set<Key>)
    requires c.hidden && c.doubtful && RelativesExist(w) && Visible(w, node)
    requires Lookup(w, fuel, node, steps, seen).Done? && Reads(w, c, fuel, node, steps, seen)
    decreases fuel, 1
    ensures Honest(Lookup(w, fuel, node, steps, seen).answer,
              Gives(w, i, true, fuel, node, steps), Gives(w, i, false, fuel, node, steps))
  {
    if steps != [] {
      match node
      case OutOfSight(_, _) =>
      case TypeNode(file, ty) =>
        LookupTypeHonest(w, c, i, fuel - 1, file, ty, steps, seen);
        assert Lookup(w, fuel, node, steps, seen) == LookupType(w, fuel - 1, file, ty, steps, seen);
      case DeclNode(d) =>
        var key := (d.0, d.1, |steps|);
        if !w[d.0].decls[d.1].Enum? && key !in seen {
          LookupDeclHonest(w, c, i, fuel - 1, d, steps, seen + {key});
          assert Lookup(w, fuel, node, steps, seen) == LookupDecl(w, fuel - 1, d, steps, seen + {key});
        }
    }
  }

  lemma {:induction false} LookupDeclHonest(w: World, c: Care, i: Interp, fuel: nat, d: DeclRef, steps: seq<Step>,
                                            seen: set<Key>)
    requires c.hidden && c.doubtful && RelativesExist(w) && Declares(w, d) && !w[d.0].decls[d.1].Enum? && steps != []
    requires LookupDecl(w, fuel, d, steps, seen).Done? && DeclReads(w, c, fuel, d, steps, seen)
    decreases fuel, 4, 0
    ensures Honest(LookupDecl(w, fuel, d, steps, seen).answer,
              DeclGives(w, i, true, fuel, d, steps), DeclGives(w, i, false, fuel, d, steps))
  {
    match w[d.0].decls[d.1]
    case Alias(body) => LookupHonest(w, c, i, fuel, TypeNode(d.0, body), steps, seen);
    case Interface(members, bases, merged) =>
      if steps[0].Member? {
        match FindProperty(members, steps[0].name)
        case Some(p) => LookupPropertyHonest(w, c, i, fuel, d.0, p, steps, seen);
        case None =>
          BasesVisible(w, d.0, bases);
          MeantBasesVisible(w, d.0, bases);
          BasesAsMeant(w, c, d.0, bases);
          LookupEachHonest(w, c, i, fuel, BaseNodes(w, d.0, bases), MeantBases(w, d.0, bases), steps, seen);
      }
  }

  lemma {:induction false} LookupPropertyHonest(w: World, c: Care, i: Interp, fuel: nat, file: string, p: Property,
                                                steps: seq<Step>, seen: set<Key>)
    requires c.hidden && c.doubtful && RelativesExist(w) && file in w && steps != []
    requires LookupProperty(w, fuel, file, p, steps, seen).Done?
    requires PropertyReads(w, c, fuel, file, p, steps, seen)
    decreases fuel, 3, 0
    ensures Honest(LookupProperty(w, fuel, file, p, steps, seen).answer,
              PropertyGives(w, i, true, fuel, file, p, steps), PropertyGives(w, i, false, fuel, file, p, steps))
  {
    if |steps| > 1 && p.ty.Some? {
      LookupHonest(w, c, i, fuel, TypeNode(file, p.ty.value), steps[1..], seen);
    }
  }

  lemma {:induction false} LookupTypeHonest(w: World, c: Care, i: Interp, fuel: nat, file: string, ty: Type,
                                            steps: seq<Step>, seen: set<Key>)
    requires c.hidden && c.doubtful && RelativesExist(w) && file in w && steps != []
    requires LookupType(w, fuel, file, ty, steps, seen).Done?
    requires TypeReads(w, c, fuel, file, ty, steps, seen)
    decreases fuel, 4, 0
    ensures Honest(LookupType(w, fuel, file, ty, steps, seen).answer,
              TypeGives(w, i, true, fuel, file, ty, steps), TypeGives(w, i, false, fuel, file, ty, steps))
  {
    match ty
    case Literal(members) =>
      if steps[0].Member? && FindProperty(members, steps[0].name).Some? {
        LookupPropertyHonest(w, c, i, fuel, file, FindProperty(members, steps[0].name).value, steps, seen);
      }
    case Paren(inner) => LookupHonest(w, c, i, fuel, TypeNode(file, inner), steps, seen);
    case Operator(_, inner) => LookupHonest(w, c, i, fuel, TypeNode(file, inner), steps, seen);
    case Intersection(parts) =>
      LookupEachHonest(w, c, i, fuel, TypeNodes(file, parts), TypeNodes(file, parts), steps, seen);
    case Union(parts) =>
      LookupEachHonest(w, c, i, fuel, TypeNodes(file, parts), TypeNodes(file, parts), steps, seen);
    case ArrayOf(element) =>
      if steps[0].Element? {
        LookupHonest(w, c, i, fuel, TypeNode(file, element), steps[1..], seen);
      }
    case IndexedBy(owner, Some(key)) => LookupHonest(w, c, i, fuel, TypeNode(file, owner), [Member(key)] + steps, seen);
    case IndexedBy(_, None) =>
    case Reference(head, kind, args) =>
      if IsWrapper(head, args) {
        LookupHonest(w, c, i, fuel, TypeNode(file, args[0]), steps, seen);
      } else if IsArray(head, args) {
        if steps[0].Element? {
          LookupHonest(w, c, i, fuel, TypeNode(file, args[0]), steps[1..], seen);
        }
      } else if !kind.Qualified? {
        NamedVisible(w, file, head);
        if kind.Plain? {
          MeantVisible(w, file, head);
          ReadAsMeant(w, c, file, head);
        }
        LookupHonest(w, c, i, fuel, NamedNode(w, file, head), steps, seen);
      }
    case OtherType(_) =>
  }

  /** What is not found in sight is answered 'unknown', whatever was meant. */
  lemma {:induction false} LookupEachHonest(w: World, c: Care, i: Interp, fuel: nat, nodes: seq<Node>,
                                            meant: seq<Node>, steps: seq<Step>, seen: set<Key>)
    requires c.hidden && c.doubtful && RelativesExist(w) && Meant(nodes, meant) && steps != []
    requires (forall x :: x in nodes ==> Visible(w, x)) && (forall x :: x in meant ==> Visible(w, x))
    requires LookupEach(w, fuel, nodes, steps, seen).AllDone?
    requires EachReads(w, c, fuel, nodes, steps, seen)
    decreases fuel, 2, |nodes|
    ensures var answers := LookupEach(w, fuel, nodes, steps, seen).answers;
      && Honest(Combine(answers), SomeGives(w, i, true, fuel, meant, steps), SomeGives(w, i, false, fuel, meant, steps))
      && Honest(CombineUnion(answers), AllGive(w, i, true, fuel, meant, steps),
        SomeGives(w, i, false, fuel, meant, steps))
  {
    if nodes != [] {
      LookupHonest(w, c, i, fuel, nodes[0], steps, seen);
      var first := Lookup(w, fuel, nodes[0], steps, seen);
      LookupEachHonest(w, c, i, fuel, nodes[1..], meant[1..], steps, first.seen);
      var rest := LookupEach(w, fuel, nodes[1..], steps, first.seen).answers;
      CombineCons(first.answer, rest);
    }
  }

  lemma CombineCons(a: Answer, rest: seq<Answer>)
    ensures Combine([a] + rest) == Found <==> a == Found || Combine(rest) == Found
    ensures Combine([a] + rest) == Missing <==> a == Missing && Combine(rest) == Missing
    ensures CombineUnion([a] + rest) == Found <==> a == Found && CombineUnion(rest) == Found
    ensures CombineUnion([a] + rest) == Missing <==> a == Missing && (rest == [] || CombineUnion(rest) == Missing)
  {
    var all := [a] + rest;
    assert a in all && forall b :: b in rest ==> b in all;
    assert forall b :: b in all ==> b == a || b in rest;
    if rest != [] {
      assert rest[0] in rest;
    }
  }

  /** When the walk reads everything right, 'found' holds under every interpretation
      of what it does not look at, and 'missing' under none, whatever the guard has seen. */
  lemma LookupSound(w: World, c: Care, fuel: nat, node: Node, steps: seq<Step>, seen: set<Key>)
    requires c.hidden && c.doubtful && RelativesExist(w) && Visible(w, node)
    requires Lookup(w, fuel, node, steps, seen).Done? && Reads(w, c, fuel, node, steps, seen)
    ensures Sound(w, node, steps, Lookup(w, fuel, node, steps, seen).answer)
  {
    var answer := Lookup(w, fuel, node, steps, seen).answer;
    forall i: Interp
      ensures answer == Found ==> Must(w, i, node, steps)
      ensures answer == Missing ==> !May(w, i, node, steps)
    {
      LookupHonest(w, c, i, fuel, node, steps, seen);
    }
  }
}
