/** When `lookupPath` returns: scripts/gen-config-catalog.ts.

    An indexed access puts a step in front of the path, a member or an element
    uses one up, and the guard is keyed by the number of steps left. So only a
    cycle of declarations that gains steps can be walked for ever: when no such
    cycle can be reached, the walk returns. */
module TypeLookupReturns {
  import opened Arithmetic
  import Digraph
  import opened Options
  import opened TypeLookup
  import opened TypeLookupSound
  import opened TypeWorld

  /* ---- Heights ---- */

  function Height(ty: Type): nat
    decreases ty
  {
    1 + match ty
        case Literal(members) => HeightOfMembers(members)
        case Paren(inner) => Height(inner)
        case Operator(_, inner) => Height(inner)
        case Intersection(parts) => HeightOfParts(parts)
        case Union(parts) => HeightOfParts(parts)
        case ArrayOf(element) => Height(element)
        case IndexedBy(owner, _) => Height(owner)
        case Reference(_, _, args) => HeightOfParts(args)
        case OtherType(_) => 0
  }

  function Max(a: int, b: nat): nat {
    if a < b then b else a
  }

  function HeightOfParts(parts: seq<Type>): nat
    decreases parts
  {
    if parts == [] then 0 else Max(Height(parts[0]), HeightOfParts(parts[1..]))
  }

  function MemberHeight(m: TypeMember): nat
    decreases m
  {
    match m
    case Signature(p) => (match p.ty { case Some(ty) => Height(ty) case None => 0 })
    case Method(_) => 0
    case Index(_) => 0
  }

  function HeightOfMembers(members: seq<TypeMember>): nat
    decreases members
  {
    if members == [] then 0
    else Max(MemberHeight(members[0]), HeightOfMembers(members[1..]))
  }

  function DeclHeight(decl: Decl): nat {
    match decl
    case Interface(members, _, _) => HeightOfMembers(members)
    case Alias(body) => Height(body)
    case Enum => 0
  }

  /** No declaration is taller than k. */
  predicate Low(w: World, k: nat) {
    forall f, n {:trigger LowAt(w, k, f, n)} :: f in w && n in w[f].decls ==> LowAt(w, k, f, n)
  }

  predicate LowAt(w: World, k: nat, f: string, n: string)
    requires f in w && n in w[f].decls
  {
    DeclHeight(w[f].decls[n]) <= k
  }

  /* ---- Links between declarations ---- */

  /** A declaration that another leads to, and the steps gained on the way. */
  type Link = (DeclRef, int)

  /** The same links with some steps more on the way. */
  function Shifted(links: seq<Link>, k: int): (r: seq<Link>)
    ensures |r| == |links| && forall j :: 0 <= j < |r| ==> r[j] == (links[j].0, links[j].1 + k)
  {
    seq(|links|, j requires 0 <= j < |links| => (links[j].0, links[j].1 + k))
  }

  function NameLinks(w: World, file: string, name: string): seq<Link>
    requires RelativesExist(w) && file in w
  {
    match ResolveName(w, file, name)
    case Some(d) => [(d, 0)]
    case None => []
  }

  /** The declarations that the walk of a type can come to next. */
  function TypeLinks(w: World, file: string, ty: Type): seq<Link>
    requires RelativesExist(w) && file in w
    decreases ty
  {
    match ty
    case Literal(members) => Shifted(MemberLinks(w, file, members), -1)
    case Paren(inner) => TypeLinks(w, file, inner)
    case Operator(_, inner) => TypeLinks(w, file, inner)
    case Intersection(parts) => PartLinks(w, file, parts)
    case Union(parts) => PartLinks(w, file, parts)
    case ArrayOf(element) => Shifted(TypeLinks(w, file, element), -1)
    case IndexedBy(owner, Some(_)) => Shifted(TypeLinks(w, file, owner), 1)
    case IndexedBy(_, None) => []
    case Reference(head, kind, args) =>
      if IsWrapper(head, args) then TypeLinks(w, file, args[0])
      else if IsArray(head, args) then Shifted(TypeLinks(w, file, args[0]), -1)
      else if kind.Qualified? then []
      else NameLinks(w, file, head)
    case OtherType(_) => []
  }

  function PartLinks(w: World, file: string, parts: seq<Type>): seq<Link>
    requires RelativesExist(w) && file in w
    decreases parts
  {
    if parts == [] then [] else TypeLinks(w, file, parts[0]) + PartLinks(w, file, parts[1..])
  }

  function MemberLinks(w: World, file: string, members: seq<TypeMember>): seq<Link>
    requires RelativesExist(w) && file in w
    decreases members
  {
    if members == [] then [] else OneMemberLinks(w, file, members[0]) + MemberLinks(w, file, members[1..])
  }

  function OneMemberLinks(w: World, file: string, m: TypeMember): seq<Link>
    requires RelativesExist(w) && file in w
    decreases m
  {
    match m
    case Signature(p) => (match p.ty { case Some(ty) => TypeLinks(w, file, ty) case None => [] })
    case Method(_) => []
    case Index(_) => []
  }

  function BaseLinks(w: World, file: string, bases: seq<Base>): seq<Link>
    requires RelativesExist(w) && file in w
  {
    if bases == [] then []
    else (if bases[0].Base? then NameLinks(w, file, bases[0].name) else []) + BaseLinks(w, file, bases[1..])
  }

  function Links(w: World, d: DeclRef): seq<Link>
    requires RelativesExist(w)
  {
    if !Declares(w, d) then []
    else match w[d.0].decls[d.1]
      case Interface(members, bases, _) => Shifted(MemberLinks(w, d.0, members), -1) + BaseLinks(w, d.0, bases)
      case Alias(body) => TypeLinks(w, d.0, body)
      case Enum => []
  }

  /** Links that follow one another, from d on. */
  predicate Trail(w: World, d: DeclRef, links: seq<Link>)
    requires RelativesExist(w)
    decreases |links|
  {
    links == [] || (links[0] in Links(w, d) && Trail(w, links[0].0, links[1..]))
  }

  function End(d: DeclRef, links: seq<Link>): DeclRef {
    if links == [] then d else links[|links| - 1].0
  }

  function Gain(links: seq<Link>): int {
    if links == [] then 0 else links[0].1 + Gain(links[1..])
  }

  ghost predicate LeadsTo(w: World, d: DeclRef, e: DeclRef)
    requires RelativesExist(w)
  {
    exists links :: Trail(w, d, links) && End(d, links) == e
  }

  ghost predicate GainingCycle(w: World, e: DeclRef, cycle: seq<Link>)
    requires RelativesExist(w)
  {
    Trail(w, e, cycle) && End(e, cycle) == e && Gain(cycle) > 0
  }

  /** No cycle of declarations that can be reached from d gains steps. */
  ghost predicate NoGainingCycle(w: World, d: DeclRef)
    requires RelativesExist(w)
  {
    forall e, cycle :: LeadsTo(w, d, e) ==> !GainingCycle(w, e, cycle)
  }

  lemma {:induction false} TrailParts(w: World, d: DeclRef, a: seq<Link>, b: seq<Link>)
    requires RelativesExist(w)
    decreases |a|
    ensures Trail(w, d, a + b) <==> Trail(w, d, a) && Trail(w, End(d, a), b)
    ensures Gain(a + b) == Gain(a) + Gain(b) && End(d, a + b) == End(End(d, a), b)
  {
    if a == [] {
      assert a + b == b;
    } else {
      assert (a + b)[1..] == a[1..] + b;
      TrailParts(w, a[0].0, a[1..], b);
    }
  }

  /* ---- Where a link leads ---- */

  predicate LinksDeclared(w: World, links: seq<Link>) {
    forall l :: l in links ==> Declares(w, l.0)
  }

  lemma {:induction false} TypeLinksDeclared(w: World, file: string, ty: Type)
    requires RelativesExist(w) && file in w
    decreases ty
    ensures LinksDeclared(w, TypeLinks(w, file, ty))
  {
    match ty
    case Literal(members) => MemberLinksDeclared(w, file, members);
    case Paren(inner) => TypeLinksDeclared(w, file, inner);
    case Operator(_, inner) => TypeLinksDeclared(w, file, inner);
    case Intersection(parts) => PartLinksDeclared(w, file, parts);
    case Union(parts) => PartLinksDeclared(w, file, parts);
    case ArrayOf(element) => TypeLinksDeclared(w, file, element);
    case IndexedBy(owner, _) => TypeLinksDeclared(w, file, owner);
    case Reference(head, kind, args) =>
      if LooksThrough(head, args) {
        TypeLinksDeclared(w, file, args[0]);
      } else {
        NameLinksDeclared(w, file, head);
      }
    case OtherType(_) =>
  }

  lemma {:induction false} PartLinksDeclared(w: World, file: string, parts: seq<Type>)
    requires RelativesExist(w) && file in w
    decreases parts
    ensures LinksDeclared(w, PartLinks(w, file, parts))
  {
    if parts != [] {
      TypeLinksDeclared(w, file, parts[0]);
      PartLinksDeclared(w, file, parts[1..]);
    }
  }

  lemma {:induction false} MemberLinksDeclared(w: World, file: string, members: seq<TypeMember>)
    requires RelativesExist(w) && file in w
    decreases members
    ensures LinksDeclared(w, MemberLinks(w, file, members))
  {
    if members != [] {
      OneMemberLinksDeclared(w, file, members[0]);
      MemberLinksDeclared(w, file, members[1..]);
    }
  }

  lemma {:induction false} OneMemberLinksDeclared(w: World, file: string, m: TypeMember)
    requires RelativesExist(w) && file in w
    decreases m
    ensures LinksDeclared(w, OneMemberLinks(w, file, m))
  {
    match m
    case Signature(p) =>
      match p.ty {
        case Some(ty) => TypeLinksDeclared(w, file, ty);
        case None =>
      }
    case Method(_) =>
    case Index(_) =>
  }

  lemma NameLinksDeclared(w: World, file: string, name: string)
    requires RelativesExist(w) && file in w
    ensures LinksDeclared(w, NameLinks(w, file, name))
  {
    if ResolveName(w, file, name).Some? {
      ResolvedIsDeclared(w, file, name);
    }
  }

  lemma {:induction false} BaseLinksDeclared(w: World, file: string, bases: seq<Base>)
    requires RelativesExist(w) && file in w
    ensures LinksDeclared(w, BaseLinks(w, file, bases))
  {
    if bases != [] {
      if bases[0].Base? {
        NameLinksDeclared(w, file, bases[0].name);
      }
      BaseLinksDeclared(w, file, bases[1..]);
    }
  }

  lemma LinkLeadsToDeclared(w: World, d: DeclRef, l: Link)
    requires RelativesExist(w) && l in Links(w, d)
    ensures Declares(w, l.0)
  {
    match w[d.0].decls[d.1]
    case Interface(members, bases, _) =>
      MemberLinksDeclared(w, d.0, members);
      BaseLinksDeclared(w, d.0, bases);
    case Alias(body) => TypeLinksDeclared(w, d.0, body);
    case Enum =>
  }

  /* ---- The most that can be gained ---- */

  /** The most steps that a trail of at most n links gains. */
  function Best(w: World, d: DeclRef, n: nat): nat
    requires RelativesExist(w)
    decreases n, 0
  {
    if n == 0 then 0 else BestOf(w, Links(w, d), n - 1)
  }

  function BestOf(w: World, links: seq<Link>, n: nat): nat
    requires RelativesExist(w)
    decreases n, |links| + 1
  {
    if links == [] then 0 else Max(links[0].1 + Best(w, links[0].0, n), BestOf(w, links[1..], n))
  }

  lemma {:induction false} LinkBelowBest(w: World, links: seq<Link>, n: nat, l: Link)
    requires RelativesExist(w) && l in links
    ensures l.1 + Best(w, l.0, n) <= BestOf(w, links, n)
  {
    if l != links[0] {
      LinkBelowBest(w, links[1..], n, l);
    }
  }

  lemma {:induction false} TrailBelowBest(w: World, d: DeclRef, trail: seq<Link>, n: nat)
    requires RelativesExist(w) && Trail(w, d, trail) && |trail| <= n
    decreases n
    ensures Gain(trail) <= Best(w, d, n)
  {
    if trail != [] {
      TrailBelowBest(w, trail[0].0, trail[1..], n - 1);
      LinkBelowBest(w, Links(w, d), n - 1, trail[0]);
    }
  }

  lemma {:induction false} BestOfIsAttained(w: World, links: seq<Link>, n: nat)
    requires RelativesExist(w)
    ensures BestOf(w, links, n) == 0 || exists l :: l in links && l.1 + Best(w, l.0, n) == BestOf(w, links, n)
  {
    if links != [] {
      BestOfIsAttained(w, links[1..], n);
      assert links[0] in links && forall l :: l in links[1..] ==> l in links;
    }
  }

  lemma {:induction false} BestIsAttained(w: World, d: DeclRef, n: nat) returns (trail: seq<Link>)
    requires RelativesExist(w)
    decreases n
    ensures Trail(w, d, trail) && |trail| <= n && Gain(trail) == Best(w, d, n)
  {
    trail := [];
    if Best(w, d, n) > 0 {
      BestOfIsAttained(w, Links(w, d), n - 1);
      var l :| l in Links(w, d) && l.1 + Best(w, l.0, n - 1) == Best(w, d, n);
      var rest := BestIsAttained(w, l.0, n - 1);
      trail := [l] + rest;
      assert trail[0] == l && trail[1..] == rest;
    }
  }

  function Decls(w: World): set<DeclRef> {
    set f, n | f in w && n in w[f].decls :: (f, n)
  }

  /** A trail with more links than declarations meets one twice; without the cycle it gains no less. */
  lemma CutCycle(w: World, d: DeclRef, trail: seq<Link>) returns (shorter: seq<Link>)
    requires RelativesExist(w) && Declares(w, d) && Trail(w, d, trail) && |trail| > |Decls(w)|
    requires NoGainingCycle(w, d)
    ensures Trail(w, d, shorter) && |shorter| < |trail| && Gain(trail) <= Gain(shorter)
  {
    var stops := seq(|trail| + 1, j requires 0 <= j <= |trail| => End(d, trail[..j]));
    forall j | 0 <= j < |stops|
      ensures stops[j] in Decls(w)
    {
      StopIsDeclared(w, d, trail, j);
    }
    var i, j := Digraph.Pigeonhole(stops, Decls(w));
    var before, cycle, rest := trail[..i], trail[i..j], trail[j..];
    assert before + cycle == trail[..j] && before + cycle + rest == trail;
    DropCycle(w, d, before, cycle, rest);
    shorter := before + rest;
  }

  lemma DropCycle(w: World, d: DeclRef, before: seq<Link>, cycle: seq<Link>, rest: seq<Link>)
    requires RelativesExist(w) && Trail(w, d, before + cycle + rest) && End(d, before) == End(d, before + cycle)
    requires NoGainingCycle(w, d)
    ensures Trail(w, d, before + rest) && Gain(before + cycle + rest) <= Gain(before + rest)
  {
    TrailParts(w, d, before + cycle, rest);
    TrailParts(w, d, before, cycle);
    TrailParts(w, d, before, rest);
    assert LeadsTo(w, d, End(d, before)) && !GainingCycle(w, End(d, before), cycle);
  }

  lemma {:induction false} StopIsDeclared(w: World, d: DeclRef, trail: seq<Link>, j: nat)
    requires RelativesExist(w) && Declares(w, d) && Trail(w, d, trail) && j <= |trail|
    decreases j
    ensures End(d, trail[..j]) in Decls(w)
  {
    if j > 0 {
      LinkLeadsToDeclared(w, d, trail[0]);
      StopIsDeclared(w, trail[0].0, trail[1..], j - 1);
      assert trail[..j][1..] == trail[1..][..j - 1];
    }
  }

  /** Beyond the number of declarations no further link gains anything. */
  lemma BestIsStable(w: World, d: DeclRef, l: Link)
    requires RelativesExist(w) && Declares(w, d) && NoGainingCycle(w, d) && l in Links(w, d)
    ensures l.1 + Best(w, l.0, |Decls(w)|) <= Best(w, d, |Decls(w)|)
  {
    var rest := BestIsAttained(w, l.0, |Decls(w)|);
    var trail := [l] + rest;
    assert trail[1..] == rest;
    if |trail| > |Decls(w)| {
      trail := CutCycle(w, d, trail);
    }
    TrailBelowBest(w, d, trail, |Decls(w)|);
  }

  /* ---- Room ---- */

  /** For some declarations, how many steps a walk from there can gain. */
  type Potential = map<DeclRef, nat>

  /** The links lead only to declarations whose potential the room can hold. */
  predicate Fit(p: Potential, links: seq<Link>, room: int) {
    forall l {:trigger l in links} :: l in links ==> l.0 in p && l.1 + p[l.0] <= room
  }

  predicate KeepsAt(w: World, p: Potential, d: DeclRef)
    requires RelativesExist(w) && d in p
  {
    Declares(w, d) && Fit(p, Links(w, d), p[d])
  }

  predicate Keeps(w: World, p: Potential)
    requires RelativesExist(w)
  {
    forall d {:trigger KeepsAt(w, p, d)} :: d in p ==> KeepsAt(w, p, d)
  }

  lemma ShiftFits(p: Potential, links: seq<Link>, k: int, room: int)
    requires Fit(p, Shifted(links, k), room)
    ensures Fit(p, links, room - k)
  {
    forall l | l in links
      ensures l.0 in p && l.1 + p[l.0] <= room - k
    {
      var j :| 0 <= j < |links| && links[j] == l;
      assert Shifted(links, k)[j] in Shifted(links, k);
    }
  }

  lemma FitParts(p: Potential, a: seq<Link>, b: seq<Link>, room: int)
    requires Fit(p, a + b, room)
    ensures Fit(p, a, room) && Fit(p, b, room)
  {
    assert forall l :: l in a || l in b ==> l in a + b;
  }

  ghost predicate NodeFits(w: World, p: Potential, k: nat, node: Node, room: int)
    requires RelativesExist(w) && Visible(w, node)
  {
    match node
    case OutOfSight(_, _) => true
    case DeclNode(d) => d in p && p[d] <= room
    case TypeNode(file, ty) => Height(ty) <= k && Fit(p, TypeLinks(w, file, ty), room)
  }

  ghost predicate AllFit(w: World, p: Potential, k: nat, nodes: seq<Node>, height: nat, room: int)
    requires RelativesExist(w)
  {
    forall x {:trigger x in nodes} :: x in nodes ==>
      Visible(w, x) && NodeFits(w, p, k, x, room) && NodeHeight(x) <= height
  }

  lemma FirstAndOthersFit(w: World, p: Potential, k: nat, nodes: seq<Node>, height: nat, room: int)
    requires RelativesExist(w) && nodes != [] && AllFit(w, p, k, nodes, height, room)
    ensures Visible(w, nodes[0]) && NodeFits(w, p, k, nodes[0], room) && NodeHeight(nodes[0]) <= height
    ensures AllFit(w, p, k, nodes[1..], height, room)
  {
    assert nodes[0] in nodes && forall x :: x in nodes[1..] ==> x in nodes;
  }

  function NodeHeight(node: Node): nat {
    match node
    case TypeNode(_, ty) => Height(ty)
    case DeclNode(_) => 0
    case OutOfSight(_, _) => 0
  }

  lemma {:induction false} PartFits(w: World, p: Potential, file: string, parts: seq<Type>, t: Type, room: int)
    requires RelativesExist(w) && file in w && t in parts && Fit(p, PartLinks(w, file, parts), room)
    ensures Fit(p, TypeLinks(w, file, t), room) && Height(t) <= HeightOfParts(parts)
  {
    FitParts(p, TypeLinks(w, file, parts[0]), PartLinks(w, file, parts[1..]), room);
    if t != parts[0] {
      PartFits(w, p, file, parts[1..], t, room);
    }
  }

  lemma {:induction false} MemberFits(w: World, p: Potential, file: string, members: seq<TypeMember>, name: string,
                                      room: int)
    requires RelativesExist(w) && file in w && Fit(p, MemberLinks(w, file, members), room)
    ensures var found := FindProperty(members, name); found.Some? && found.value.ty.Some? ==>
      var ty := found.value.ty.value; Fit(p, TypeLinks(w, file, ty), room) && Height(ty) <= HeightOfMembers(members)
  {
    if members != [] {
      FitParts(p, OneMemberLinks(w, file, members[0]), MemberLinks(w, file, members[1..]), room);
      MemberFits(w, p, file, members[1..], name, room);
    }
  }

  lemma NamedFits(w: World, p: Potential, k: nat, file: string, name: string, room: int)
    requires RelativesExist(w) && file in w && Fit(p, NameLinks(w, file, name), room)
    ensures Visible(w, NamedNode(w, file, name)) && NodeFits(w, p, k, NamedNode(w, file, name), room)
    ensures NodeHeight(NamedNode(w, file, name)) == 0
  {
    NamedVisible(w, file, name);
    if ResolveName(w, file, name).Some? {
      assert (ResolveName(w, file, name).value, 0) in NameLinks(w, file, name);
    }
  }

  lemma {:induction false} BasesFit(w: World, p: Potential, k: nat, file: string, bases: seq<Base>, room: int)
    requires RelativesExist(w) && file in w && Fit(p, BaseLinks(w, file, bases), room)
    ensures AllFit(w, p, k, BaseNodes(w, file, bases), 0, room)
  {
    if bases != [] {
      var first := if bases[0].Base? then NameLinks(w, file, bases[0].name) else [];
      FitParts(p, first, BaseLinks(w, file, bases[1..]), room);
      BasesFit(w, p, k, file, bases[1..], room);
      if bases[0].Base? {
        NamedFits(w, p, k, file, bases[0].name, room);
      }
    }
  }

  /* ---- Enough fuel ---- */

  /** The keys with at most b steps. */
  function Keys(w: World, b: nat): set<Key> {
    set f, n, k | f in w && n in w[f].decls && 0 <= k <= b :: (f, n, k)
  }

  function Left(w: World, b: nat, seen: set<Key>): nat {
    |Keys(w, b) - seen|
  }

  lemma SeenMoreLeavesLess(w: World, b: nat, seen: set<Key>, seen': set<Key>)
    requires seen <= seen'
    ensures Left(w, b, seen') <= Left(w, b, seen)
  {
    SubsetIsNoLarger(Keys(w, b) - seen', Keys(w, b) - seen);
  }

  lemma NewKeyLeavesLess(w: World, b: nat, seen: set<Key>, key: Key)
    requires key in Keys(w, b) && key !in seen
    ensures Left(w, b, seen + {key}) < Left(w, b, seen)
  {
    assert key in Keys(w, b) - seen;
    SubsetIsSmaller(Keys(w, b) - (seen + {key}), Keys(w, b) - seen);
  }

  /** What a walk still owes: one declaration's height for every key left. */
  predicate IsDebt(w: World, k: nat, b: nat, seen: set<Key>, debt: nat) {
    debt == Times(Left(w, b, seen), k + 2)
  }

  ghost predicate Affords(w: World, k: nat, b: nat, seen: set<Key>, budget: nat) {
    forall debt: nat {:trigger IsDebt(w, k, b, seen, debt)} :: IsDebt(w, k, b, seen, debt) ==> debt <= budget
  }

  lemma AffordsMoreSeen(w: World, k: nat, b: nat, seen: set<Key>, seen': set<Key>, budget: nat)
    requires seen <= seen' && Affords(w, k, b, seen, budget)
    ensures Affords(w, k, b, seen', budget)
  {
    assert IsDebt(w, k, b, seen, Times(Left(w, b, seen), k + 2));
    SeenMoreLeavesLess(w, b, seen, seen');
    TimesGrows(Left(w, b, seen'), Left(w, b, seen), k + 2);
  }

  lemma NewKeyPays(w: World, k: nat, b: nat, seen: set<Key>, key: Key, budget: nat)
    requires Declares(w, (key.0, key.1)) && key.2 <= b && key !in seen && Affords(w, k, b, seen, budget)
    ensures budget >= k + 2 && Affords(w, k, b, seen + {key}, budget - k - 2)
  {
    assert IsDebt(w, k, b, seen, Times(Left(w, b, seen), k + 2));
    assert key in Keys(w, b);
    NewKeyLeavesLess(w, b, seen, key);
    TimesGrows(Left(w, b, seen + {key}), Left(w, b, seen), k + 2);
  }

  /* ---- The walk returns ---- */

  /** The outcome is an answer, and the guard has forgotten nothing. */
  predicate Returned(out: Outcome, seen: set<Key>) {
    out.Done? && seen <= out.seen
  }

  predicate AllReturned(out: Outcomes, seen: set<Key>) {
    out.AllDone? && seen <= out.seen
  }

  lemma {:induction false} WalkReturns(w: World, p: Potential, k: nat, b: nat, budget: nat, fuel: nat, node: Node,
                                       steps: seq<Step>, seen: set<Key>) returns (out: Outcome)
    requires RelativesExist(w) && Keeps(w, p) && Low(w, k) && Visible(w, node) && NodeFits(w, p, k, node, b - |steps|)
    requires Affords(w, k, b, seen, budget) && fuel > budget + NodeHeight(node)
    decreases fuel, 1
    ensures out == Lookup(w, fuel, node, steps, seen) && Returned(out, seen)
  {
    out := Lookup(w, fuel, node, steps, seen);
    if steps != [] {
      match node
      case OutOfSight(_, _) =>
      case TypeNode(file, ty) =>
        LookupOfType(w, fuel, file, ty, steps, seen);
        out := TypeReturns(w, p, k, b, budget, fuel - 1, file, ty, steps, seen);
      case DeclNode(d) => DeclNodeReturns(w, p, k, b, budget, fuel, d, steps, seen, out);
    }
  }

  lemma {:induction false} DeclNodeReturns(w: World, p: Potential, k: nat, b: nat, budget: nat, fuel: nat, d: DeclRef,
                                           steps: seq<Step>, seen: set<Key>, out: Outcome)
    requires RelativesExist(w) && Keeps(w, p) && Low(w, k) && Declares(w, d) && steps != []
    requires d in p && p[d] <= b - |steps| && Affords(w, k, b, seen, budget) && fuel > budget
    requires out == Lookup(w, fuel, DeclNode(d), steps, seen)
    decreases fuel, 0
    ensures Returned(out, seen)
  {
    LookupOfDecl(w, fuel, d, steps, seen);
    var key: Key := (d.0, d.1, |steps|);
    if !w[d.0].decls[d.1].Enum? && key !in seen {
      NewKeyPays(w, k, b, seen, key, budget);
      var out' := DeclReturns(w, p, k, b, budget - k - 2, fuel - 1, d, steps, seen + {key});
      ReturnedFurther(out', seen, key);
    }
  }

  lemma ReturnedFurther(out: Outcome, seen: set<Key>, key: Key)
    requires Returned(out, seen + {key})
    ensures Returned(out, seen)
  {
    assert seen <= seen + {key};
  }

  lemma LookupOfType(w: World, fuel: nat, file: string, ty: Type, steps: seq<Step>, seen: set<Key>)
    requires RelativesExist(w) && file in w && steps != [] && fuel > 0
    ensures Lookup(w, fuel, TypeNode(file, ty), steps, seen) == LookupType(w, fuel - 1, file, ty, steps, seen)
  {
  }

  /** The lookup passes a declaration on, unless it is an enum or was met before. */
  lemma LookupOfDecl(w: World, fuel: nat, d: DeclRef, steps: seq<Step>, seen: set<Key>)
    requires RelativesExist(w) && Declares(w, d) && steps != [] && fuel > 0
    ensures var key: Key := (d.0, d.1, |steps|);
      Lookup(w, fuel, DeclNode(d), steps, seen) ==
      if w[d.0].decls[d.1].Enum? || key in seen then Done(Unknown, seen)
      else LookupDecl(w, fuel - 1, d, steps, seen + {key})
  {
  }

  lemma {:induction false} DeclReturns(w: World, p: Potential, k: nat, b: nat, budget: nat, fuel: nat, d: DeclRef,
                                       steps: seq<Step>, seen: set<Key>) returns (out: Outcome)
    requires RelativesExist(w) && Keeps(w, p) && Low(w, k) && Declares(w, d) && steps != []
    requires !w[d.0].decls[d.1].Enum? && d in p && p[d] <= b - |steps| && Affords(w, k, b, seen, budget)
    requires fuel > budget + k
    decreases fuel, 4, 0
    ensures out == LookupDecl(w, fuel, d, steps, seen) && Returned(out, seen)
  {
    out := LookupDecl(w, fuel, d, steps, seen);
    assert KeepsAt(w, p, d) && LowAt(w, k, d.0, d.1);
    assert Fit(p, Links(w, d), b - |steps|);
    match w[d.0].decls[d.1]
    case Alias(body) => var _ := WalkReturns(w, p, k, b, budget, fuel, TypeNode(d.0, body), steps, seen);
    case Interface(members, bases, _) =>
      if steps[0].Member? {
        FitParts(p, Shifted(MemberLinks(w, d.0, members), -1), BaseLinks(w, d.0, bases), b - |steps|);
        match FindProperty(members, steps[0].name)
        case Some(found) =>
          ShiftFits(p, MemberLinks(w, d.0, members), -1, b - |steps|);
          MemberFits(w, p, d.0, members, steps[0].name, b - |steps| + 1);
          PropertyReturns(w, p, k, b, budget, fuel, d.0, found, steps, seen);
        case None =>
          BasesFit(w, p, k, d.0, bases, b - |steps|);
          EachReturns(w, p, k, b, budget, fuel, BaseNodes(w, d.0, bases), 0, steps, seen);
      }
  }

  lemma {:induction false} PropertyReturns(w: World, p: Potential, k: nat, b: nat, budget: nat, fuel: nat, file: string,
                                           found: Property, steps: seq<Step>, seen: set<Key>)
    requires RelativesExist(w) && Keeps(w, p) && Low(w, k) && file in w && steps != []
    requires found.ty.Some? ==>
      && NodeFits(w, p, k, TypeNode(file, found.ty.value), b - |steps| + 1)
      && Affords(w, k, b, seen, budget) && fuel > budget + Height(found.ty.value)
    decreases fuel, 3, 0
    ensures Returned(LookupProperty(w, fuel, file, found, steps, seen), seen)
  {
    if |steps| > 1 && found.ty.Some? {
      var _ := WalkReturns(w, p, k, b, budget, fuel, TypeNode(file, found.ty.value), steps[1..], seen);
    }
  }

  lemma {:induction false} TypeReturns(w: World, p: Potential, k: nat, b: nat, budget: nat, fuel: nat, file: string,
                                       ty: Type, steps: seq<Step>, seen: set<Key>) returns (out: Outcome)
    requires RelativesExist(w) && Keeps(w, p) && Low(w, k) && file in w && steps != []
    requires NodeFits(w, p, k, TypeNode(file, ty), b - |steps|) && Affords(w, k, b, seen, budget)
    requires fuel >= budget + Height(ty)
    decreases fuel, 4, 0
    ensures out == LookupType(w, fuel, file, ty, steps, seen) && Returned(out, seen)
  {
    out := LookupType(w, fuel, file, ty, steps, seen);
    match ty
    case Literal(members) =>
      ShiftFits(p, MemberLinks(w, file, members), -1, b - |steps|);
      if steps[0].Member? && FindProperty(members, steps[0].name).Some? {
        MemberFits(w, p, file, members, steps[0].name, b - |steps| + 1);
        PropertyReturns(w, p, k, b, budget, fuel, file, FindProperty(members, steps[0].name).value, steps, seen);
      }
    case Paren(inner) => var _ := WalkReturns(w, p, k, b, budget, fuel, TypeNode(file, inner), steps, seen);
    case Operator(_, inner) => var _ := WalkReturns(w, p, k, b, budget, fuel, TypeNode(file, inner), steps, seen);
    case Intersection(parts) => PartsReturn(w, p, k, b, budget, fuel, file, parts, steps, seen);
    case Union(parts) => PartsReturn(w, p, k, b, budget, fuel, file, parts, steps, seen);
    case ArrayOf(element) =>
      ShiftFits(p, TypeLinks(w, file, element), -1, b - |steps|);
      if steps[0].Element? {
        var _ := WalkReturns(w, p, k, b, budget, fuel, TypeNode(file, element), steps[1..], seen);
      }
    case IndexedBy(owner, Some(key)) =>
      ShiftFits(p, TypeLinks(w, file, owner), 1, b - |steps|);
      var _ := WalkReturns(w, p, k, b, budget, fuel, TypeNode(file, owner), [Member(key)] + steps, seen);
    case IndexedBy(_, None) =>
    case Reference(head, kind, args) =>
      ReferenceReturns(w, p, k, b, budget, fuel, file, head, kind, args, steps, seen);
    case OtherType(_) =>
  }

  /** A reference hands the lookup on to its argument or to what it names. */
  lemma LookupOfReference(w: World, fuel: nat, file: string, head: string, kind: NameKind, args: seq<Type>,
                          steps: seq<Step>, seen: set<Key>)
    requires RelativesExist(w) && file in w && steps != [] && Visible(w, NamedNode(w, file, head))
    ensures LookupType(w, fuel, file, Reference(head, kind, args), steps, seen) ==
      if IsWrapper(head, args) then Lookup(w, fuel, TypeNode(file, args[0]), steps, seen)
      else if IsArray(head, args) then
        if steps[0].Element? then Lookup(w, fuel, TypeNode(file, args[0]), steps[1..], seen) else Done(Unknown, seen)
      else if kind.Qualified? then Done(Unknown, seen)
      else Lookup(w, fuel, NamedNode(w, file, head), steps, seen)
  {
  }

  lemma {:induction false} ReferenceReturns(w: World, p: Potential, k: nat, b: nat, budget: nat, fuel: nat,
                                            file: string, head: string, kind: NameKind, args: seq<Type>,
                                            steps: seq<Step>, seen: set<Key>)
    requires RelativesExist(w) && Keeps(w, p) && Low(w, k) && file in w && steps != []
    requires NodeFits(w, p, k, TypeNode(file, Reference(head, kind, args)), b - |steps|)
    requires Affords(w, k, b, seen, budget) && fuel >= budget + 1 + HeightOfParts(args)
    decreases fuel, 3, 0
    ensures Returned(LookupType(w, fuel, file, Reference(head, kind, args), steps, seen), seen)
  {
    NamedVisible(w, file, head);
    LookupOfReference(w, fuel, file, head, kind, args, steps, seen);
    if IsWrapper(head, args) {
      var _ := WalkReturns(w, p, k, b, budget, fuel, TypeNode(file, args[0]), steps, seen);
    } else if IsArray(head, args) {
      ShiftFits(p, TypeLinks(w, file, args[0]), -1, b - |steps|);
      if steps[0].Element? {
        var _ := WalkReturns(w, p, k, b, budget, fuel, TypeNode(file, args[0]), steps[1..], seen);
      }
    } else if !kind.Qualified? {
      NamedFits(w, p, k, file, head, b - |steps|);
      var _ := WalkReturns(w, p, k, b, budget, fuel, NamedNode(w, file, head), steps, seen);
    }
  }

  lemma {:induction false} PartsReturn(w: World, p: Potential, k: nat, b: nat, budget: nat, fuel: nat, file: string,
                                       parts: seq<Type>, steps: seq<Step>, seen: set<Key>)
    requires RelativesExist(w) && Keeps(w, p) && Low(w, k) && file in w && HeightOfParts(parts) < k
    requires Fit(p, PartLinks(w, file, parts), b - |steps|) && Affords(w, k, b, seen, budget)
    requires fuel > budget + HeightOfParts(parts)
    decreases fuel, 3, 0
    ensures AllReturned(LookupEach(w, fuel, TypeNodes(file, parts), steps, seen), seen)
  {
    forall x | x in TypeNodes(file, parts)
      ensures Visible(w, x) && NodeFits(w, p, k, x, b - |steps|) && NodeHeight(x) <= HeightOfParts(parts)
    {
      PartFits(w, p, file, parts, x.ty, b - |steps|);
    }
    EachReturns(w, p, k, b, budget, fuel, TypeNodes(file, parts), HeightOfParts(parts), steps, seen);
  }

  lemma {:induction false} EachReturns(w: World, p: Potential, k: nat, b: nat, budget: nat, fuel: nat, nodes: seq<Node>,
                                       height: nat, steps: seq<Step>, seen: set<Key>)
    requires RelativesExist(w) && Keeps(w, p) && Low(w, k)
    requires AllFit(w, p, k, nodes, height, b - |steps|) && Affords(w, k, b, seen, budget) && fuel > budget + height
    decreases fuel, 2, |nodes|
    ensures AllReturned(LookupEach(w, fuel, nodes, steps, seen), seen)
  {
    if nodes != [] {
      FirstAndOthersFit(w, p, k, nodes, height, b - |steps|);
      var first := WalkReturns(w, p, k, b, budget, fuel, nodes[0], steps, seen);
      AffordsMoreSeen(w, k, b, seen, first.seen, budget);
      EachReturns(w, p, k, b, budget, fuel, nodes[1..], height, steps, first.seen);
    }
  }

  lemma {:induction false} LowOver(w: World, todo: set<DeclRef>) returns (k: nat)
    requires forall d :: d in todo ==> Declares(w, d)
    ensures forall d :: d in todo && Declares(w, d) ==> DeclHeight(w[d.0].decls[d.1]) <= k
  {
    if todo == {} {
      k := 0;
    } else {
      var d :| d in todo;
      k := LowOver(w, todo - {d});
      k := Max(k, DeclHeight(w[d.0].decls[d.1]));
      forall e | e in todo
        ensures DeclHeight(w[e.0].decls[e.1]) <= k
      {
        assert e != d ==> e in todo - {d};
      }
    }
  }

  /** What can be gained from the declarations that d leads to. */
  ghost function Reserve(w: World, d: DeclRef): Potential
    requires RelativesExist(w)
  {
    map e | e in Decls(w) && LeadsTo(w, d, e) :: Best(w, e, |Decls(w)|)
  }

  lemma LinkLeadsFurther(w: World, d: DeclRef, e: DeclRef, l: Link)
    requires RelativesExist(w) && LeadsTo(w, d, e) && l in Links(w, e)
    ensures LeadsTo(w, d, l.0)
  {
    var trail :| Trail(w, d, trail) && End(d, trail) == e;
    TrailParts(w, d, trail, [l]);
    assert Trail(w, e, [l]) && Trail(w, d, trail + [l]);
  }

  lemma LeadsOn(w: World, d: DeclRef, e: DeclRef, f: DeclRef)
    requires RelativesExist(w) && LeadsTo(w, d, e) && LeadsTo(w, e, f)
    ensures LeadsTo(w, d, f)
  {
    var a :| Trail(w, d, a) && End(d, a) == e;
    var b :| Trail(w, e, b) && End(e, b) == f;
    TrailParts(w, d, a, b);
  }

  lemma ReserveKeeps(w: World, d: DeclRef)
    requires RelativesExist(w) && NoGainingCycle(w, d)
    ensures Keeps(w, Reserve(w, d))
  {
    var p := Reserve(w, d);
    forall e, l | e in p && l in Links(w, e)
      ensures l.0 in p && l.1 + p[l.0] <= p[e]
    {
      LinkLeadsFurther(w, d, e, l);
      LinkLeadsToDeclared(w, e, l);
      forall f, cycle | LeadsTo(w, e, f)
        ensures !GainingCycle(w, f, cycle)
      {
        LeadsOn(w, d, e, f);
      }
      BestIsStable(w, e, l);
    }
  }

  /** The walk returns from every declaration that leads to no cycle of declarations that gains steps. */
  lemma LookupReturns(w: World, d: DeclRef, steps: seq<Step>)
    requires RelativesExist(w) && Declares(w, d) && NoGainingCycle(w, d)
    ensures exists fuel: nat :: Lookup(w, fuel, DeclNode(d), steps, {}).Done?
  {
    var k := LowOver(w, Decls(w));
    forall f, n | f in w && n in w[f].decls
      ensures LowAt(w, k, f, n)
    {
      assert (f, n) in Decls(w);
    }
    var p := Reserve(w, d);
    ReserveKeeps(w, d);
    assert Trail(w, d, []) && d in p;
    var b := |steps| + p[d];
    var budget := Times(Left(w, b, {}), k + 2);
    var _ := WalkReturns(w, p, k, b, budget, budget + 1, DeclNode(d), steps, {});
  }

  /* ---- References to oneself ---- */

  const FOO := Signature(Property("foo", Some("foo"), Some(OtherType("string"))))
  const BAR := Signature(Property("bar", Some("bar"), Some(IndexedBy(Reference("A", Plain, []), Some("foo")))))

  /** `interface A { foo: string; bar: A['foo'] }` */
  const PAID: World := map["a.ts" := File(map["A" := Interface([FOO, BAR], [], [])], map[], map[], [])]

  /** Here the member step pays for the step put in front, so the walk returns. */
  lemma PaidIndexReturns(steps: seq<Step>)
    ensures RelativesExist(PAID) && Declares(PAID, ("a.ts", "A"))
    ensures NoGainingCycle(PAID, ("a.ts", "A"))
    ensures exists fuel: nat :: Lookup(PAID, fuel, DeclNode(("a.ts", "A")), steps, {}).Done?
  {
    forall e, cycle | LeadsTo(PAID, ("a.ts", "A"), e)
      ensures !GainingCycle(PAID, e, cycle)
    {
      if Trail(PAID, e, cycle) {
        PaidTrail(e, cycle);
      }
    }
    LookupReturns(PAID, ("a.ts", "A"), steps);
  }

  lemma PaidLinks(d: DeclRef, l: Link)
    requires RelativesExist(PAID) && l in Links(PAID, d)
    ensures l.1 == 0
  {
    assert ResolveName(PAID, "a.ts", "A") == Some(("a.ts", "A"));
    var owner := Reference("A", Plain, []);
    assert TypeLinks(PAID, "a.ts", owner) == [(("a.ts", "A"), 0)];
    assert Shifted(TypeLinks(PAID, "a.ts", owner), 1) == [(("a.ts", "A"), 1)];
    assert [FOO, BAR][1..] == [BAR] && [BAR][1..] == [];
    assert MemberLinks(PAID, "a.ts", [BAR]) == [(("a.ts", "A"), 1)];
    assert MemberLinks(PAID, "a.ts", [FOO, BAR]) == [(("a.ts", "A"), 1)];
  }

  lemma {:induction false} PaidTrail(d: DeclRef, trail: seq<Link>)
    requires RelativesExist(PAID) && Trail(PAID, d, trail)
    decreases |trail|
    ensures Gain(trail) == 0
  {
    if trail != [] {
      PaidLinks(d, trail[0]);
      PaidTrail(trail[0].0, trail[1..]);
    }
  }

  /** `type A = A['x']` */
  const ENDLESS: World := map["a.ts" := File(
    map["A" := Alias(IndexedBy(Reference("A", Plain, []), Some("x")))], map[], map[], [])]

  /** Looking for any path in it never returns: the number of steps grows, so no key repeats. */
  lemma {:induction false} EndlessAlias(fuel: nat, steps: seq<Step>, seen: set<Key>)
    requires steps != [] && forall k :: k in seen ==> k.2 < |steps|
    ensures RelativesExist(ENDLESS) && Declares(ENDLESS, ("a.ts", "A"))
    ensures Lookup(ENDLESS, fuel, DeclNode(("a.ts", "A")), steps, seen).OutOfFuel?
    decreases fuel
  {
    var d: DeclRef := ("a.ts", "A");
    var self := Reference("A", Plain, []);
    var body := IndexedBy(self, Some("x"));
    var seen', longer := seen + {("a.ts", "A", |steps|)}, [Member("x")] + steps;
    assert ResolveName(ENDLESS, "a.ts", "A") == Some(d);
    if fuel >= 3 {
      EndlessAlias(fuel - 3, longer, seen');
      assert LookupType(ENDLESS, fuel - 3, "a.ts", self, longer, seen').OutOfFuel?;
    }
    if fuel >= 2 {
      assert Lookup(ENDLESS, fuel - 2, TypeNode("a.ts", self), longer, seen').OutOfFuel?;
      assert LookupType(ENDLESS, fuel - 2, "a.ts", body, steps, seen').OutOfFuel?;
    }
    if fuel >= 1 {
      assert Lookup(ENDLESS, fuel - 1, TypeNode("a.ts", body), steps, seen').OutOfFuel?;
      assert LookupDecl(ENDLESS, fuel - 1, d, steps, seen').OutOfFuel?;
    }
  }
}
