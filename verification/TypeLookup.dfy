/** The presence check of scripts/gen-config-catalog.ts, `lookupPath`: does a
    declared type have a member at a key path? The answer is three-valued,
    because types can refer to things the walk cannot see. */
module TypeLookup {
  import opened Options
  import opened TypeWorld

  datatype Step = Member(name: string) | Element

  datatype Answer = Found | Missing | Unknown

  /** The guard's key: file, declared name, and the NUMBER of steps left. */
  type Key = (string, string, nat)

  const PASSTHROUGH_WRAPPERS := {"Partial", "Required", "Readonly", "NonNullable"}
  const ARRAYS := {"Array", "ReadonlyArray"}

  /** The best answer of several: one 'found' decides, and without it one 'unknown' does. */
  function Combine(answers: seq<Answer>): Answer {
    if Found in answers then Found else if Unknown in answers then Unknown else Missing
  }

  /** The common answer of several, if they have one. */
  function CombineUnion(answers: seq<Answer>): Answer {
    if forall a :: a in answers ==> a == Found then Found
    else if forall a :: a in answers ==> a == Missing then Missing
    else Unknown
  }

  /** The first property signature written with this name; other members are skipped. */
  function FindProperty(members: seq<TypeMember>, name: string): Option<Property> {
    if members == [] then None
    else if members[0].Signature? && members[0].property.written == name then Some(members[0].property)
    else FindProperty(members[1..], name)
  }

  /** A node of the walk: a type written in a file, a declaration, or something out of sight. */
  datatype Node = TypeNode(file: string, ty: Type) | DeclNode(decl: DeclRef) | OutOfSight(file: string, text: string)

  /** The node a name refers to. */
  function NamedNode(w: World, file: string, name: string): Node
    requires RelativesExist(w) && file in w
  {
    match ResolveName(w, file, name)
    case Some(d) => DeclNode(d)
    case None => OutOfSight(file, name)
  }

  predicate Visible(w: World, node: Node) {
    match node
    case TypeNode(file, _) => file in w
    case DeclNode(d) => Declares(w, d)
    case OutOfSight(_, _) => true
  }

  function BaseNodes(w: World, file: string, bases: seq<Base>): (r: seq<Node>)
    requires RelativesExist(w) && file in w
    ensures |r| == |bases|
  {
    if bases == [] then [] else
      [match bases[0]
       case Base(name) => NamedNode(w, file, name)
       case OtherBase(text) => OutOfSight(file, text)] + BaseNodes(w, file, bases[1..])
  }

  function TypeNodes(file: string, types: seq<Type>): (r: seq<Node>)
    ensures |r| == |types|
    ensures forall i :: 0 <= i < |types| ==> r[i] == TypeNode(file, types[i])
  {
    if types == [] then [] else [TypeNode(file, types[0])] + TypeNodes(file, types[1..])
  }

  /** The outcome of a walk: it may run out of the fuel that bounds its depth. */
  datatype Outcome = OutOfFuel | Done(answer: Answer, seen: set<Key>)

  datatype Outcomes = SomeOutOfFuel | AllDone(answers: seq<Answer>, seen: set<Key>)

  /** The type that a reference with arguments hands the walk on to, taking the
      head of the name at face value: wrappers pass the steps through, arrays use one up. */
  predicate IsWrapper(head: string, args: seq<Type>) {
    head in PASSTHROUGH_WRAPPERS && args != []
  }

  predicate IsArray(head: string, args: seq<Type>) {
    head in ARRAYS && args != []
  }

  /** Four utility types pass a lookup through, and two names are those of arrays. */
  lemma WrappersAre(head: string, args: seq<Type>)
    ensures IsWrapper(head, args) <==>
      args != [] && (head == "Partial" || head == "Required" || head == "Readonly" || head == "NonNullable")
    ensures IsArray(head, args) <==> args != [] && (head == "Array" || head == "ReadonlyArray")
  {
  }

  /** `lookupPath`. `fuel` bounds the depth of the recursion; the set of guarded
      keys is shared by all branches of the walk, in order. */
  function Lookup(w: World, fuel: nat, node: Node, steps: seq<Step>, seen: set<Key>): Outcome
    requires RelativesExist(w) && Visible(w, node)
    decreases fuel, 1
  {
    if steps == [] then Done(Found, seen)
    else if fuel == 0 then OutOfFuel
    else match node
      case OutOfSight(_, _) => Done(Unknown, seen)
      case TypeNode(file, ty) => LookupType(w, fuel - 1, file, ty, steps, seen)
      case DeclNode(d) =>
        var key := (d.0, d.1, |steps|);
        if w[d.0].decls[d.1].Enum? || key in seen then Done(Unknown, seen)
        else LookupDecl(w, fuel - 1, d, steps, seen + {key})
  }

  function LookupDecl(w: World, fuel: nat, d: DeclRef, steps: seq<Step>, seen: set<Key>): Outcome
    requires RelativesExist(w) && Declares(w, d) && !w[d.0].decls[d.1].Enum? && steps != []
    decreases fuel, 4, 0
  {
    match w[d.0].decls[d.1]
    case Alias(body) => Lookup(w, fuel, TypeNode(d.0, body), steps, seen)
    case Interface(members, bases, _) =>
      if steps[0].Element? then Done(Unknown, seen)
      else match FindProperty(members, steps[0].name)
        case Some(p) => LookupProperty(w, fuel, d.0, p, steps, seen)
        case None =>
          BasesVisible(w, d.0, bases);
          var each := LookupEach(w, fuel, BaseNodes(w, d.0, bases), steps, seen);
          if each.SomeOutOfFuel? then OutOfFuel else Done(Combine(each.answers), each.seen)
  }

  /** A property was found: its own type decides the remaining steps. */
  function LookupProperty(w: World, fuel: nat, file: string, p: Property, steps: seq<Step>, seen: set<Key>): Outcome
    requires RelativesExist(w) && file in w && steps != []
    decreases fuel, 3, 0
  {
    if |steps| == 1 then Done(Found, seen)
    else match p.ty
      case Some(ty) => Lookup(w, fuel, TypeNode(file, ty), steps[1..], seen)
      case None => Done(Unknown, seen)
  }

  function LookupType(w: World, fuel: nat, file: string, ty: Type, steps: seq<Step>, seen: set<Key>): Outcome
    requires RelativesExist(w) && file in w && steps != []
    decreases fuel, 4, 0
  {
    match ty
    case Literal(members) =>
      if steps[0].Element? then Done(Unknown, seen)
      else (match FindProperty(members, steps[0].name)
            case Some(p) => LookupProperty(w, fuel, file, p, steps, seen)
            case None => Done(Missing, seen))
    case Paren(inner) => Lookup(w, fuel, TypeNode(file, inner), steps, seen)
    case Operator(_, inner) => Lookup(w, fuel, TypeNode(file, inner), steps, seen)
    case Intersection(parts) =>
      var each := LookupEach(w, fuel, TypeNodes(file, parts), steps, seen);
      if each.SomeOutOfFuel? then OutOfFuel else Done(Combine(each.answers), each.seen)
    case Union(parts) =>
      var each := LookupEach(w, fuel, TypeNodes(file, parts), steps, seen);
      if each.SomeOutOfFuel? then OutOfFuel else Done(CombineUnion(each.answers), each.seen)
    case ArrayOf(element) =>
      if steps[0].Element? then Lookup(w, fuel, TypeNode(file, element), steps[1..], seen) else Done(Unknown, seen)
    case IndexedBy(owner, Some(key)) =>
      Lookup(w, fuel, TypeNode(file, owner), [Member(key)] + steps, seen)
    case IndexedBy(_, None) => Done(Unknown, seen)
    case Reference(head, kind, args) =>
      if IsWrapper(head, args) then Lookup(w, fuel, TypeNode(file, args[0]), steps, seen)
      else if IsArray(head, args) then
        if steps[0].Element? then Lookup(w, fuel, TypeNode(file, args[0]), steps[1..], seen) else Done(Unknown, seen)
      else if kind.Qualified? then Done(Unknown, seen)
      else
        NamedVisible(w, file, head);
        Lookup(w, fuel, NamedNode(w, file, head), steps, seen)
    case OtherType(_) => Done(Unknown, seen)
  }

  /** Every branch is walked, in order, with the keys of the earlier ones. */
  function LookupEach(w: World, fuel: nat, nodes: seq<Node>, steps: seq<Step>, seen: set<Key>): (r: Outcomes)
    requires RelativesExist(w) && forall n :: n in nodes ==> Visible(w, n)
    decreases fuel, 2, |nodes|
    ensures r.AllDone? ==> |r.answers| == |nodes|
  {
    if nodes == [] then AllDone([], seen) else
      match Lookup(w, fuel, nodes[0], steps, seen)
      case OutOfFuel => SomeOutOfFuel
      case Done(answer, seen') =>
        match LookupEach(w, fuel, nodes[1..], steps, seen')
        case SomeOutOfFuel => SomeOutOfFuel
        case AllDone(answers, seen'') => AllDone([answer] + answers, seen'')
  }

  lemma NamedVisible(w: World, file: string, name: string)
    requires RelativesExist(w) && file in w
    ensures Visible(w, NamedNode(w, file, name))
  {
    if ResolveName(w, file, name).Some? {
      ResolvedIsDeclared(w, file, name);
    }
  }

  lemma {:induction false} BasesVisible(w: World, file: string, bases: seq<Base>)
    requires RelativesExist(w) && file in w
    ensures forall n :: n in BaseNodes(w, file, bases) ==> Visible(w, n)
  {
    if bases != [] {
      BasesVisible(w, file, bases[1..]);
      if bases[0].Base? {
        NamedVisible(w, file, bases[0].name);
      }
    }
  }
}
