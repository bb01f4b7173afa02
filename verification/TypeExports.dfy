/** What a file exports under a name by the rules of the language, and when the
    search of scripts/gen-config-catalog.ts, `findExportedTypeDecl`, agrees.

    Only what is exported counts, an export that names the name takes precedence
    over `export *`, and `export *` passes no default on. The search takes any
    declaration of a file, exported or not, and follows the re-exports in order. */
module TypeExports {
  import opened Digraph
  import opened Options
  import opened TypeWorld

  /* ---- The exports of a file ---- */

  /** What an export chain ends at: a type declaration, or what is none or out of sight. */
  datatype Entity = TheDecl(decl: DeclRef) | Elsewhere

  /** The file that a specifier leads to, if it is in sight. */
  function OriginFile(w: World, origin: Origin): Option<string> {
    match origin
    case RelativeTs(file) => if file in w then Some(file) else None
    case Workspace(entry) => if entry in w then Some(entry) else None
    case RelativeOther => None
    case External => None
  }

  /** The clause names the name. */
  predicate ClauseExports(c: ExportClause, name: string) {
    match c
    case Star => false
    case Named(elements) => exists i :: 0 <= i < |elements| && elements[i].0 == name
    case Namespace(n) => n == name
  }

  predicate ExportsExplicitly(file: File, name: string) {
    name in file.exported || exists i :: 0 <= i < |file.exports| && ClauseExports(file.exports[i].clause, name)
  }

  /** An import that the file exports again leads to the imported file. */
  predicate ImportLeads(w: World, file: File, local: string, k: DeclRef) {
    && local !in file.decls && local in file.imports
    && OriginFile(w, file.imports[local].origin) == Some(k.0) && file.imports[local].imported == k.1
  }

  predicate NamedLeads(w: World, e: ReExport, name: string, k: DeclRef) {
    e.clause.Named? && OriginFile(w, e.origin) == Some(k.0) && (name, k.1) in e.clause.elements
  }

  predicate StarLeads(w: World, e: ReExport, name: string, k: DeclRef) {
    e.clause.Star? && OriginFile(w, e.origin) == Some(k.0) && k.1 == name
  }

  /** Exporting k.1 from the file k.0 is exporting k'.1 from the file k'.0. */
  predicate Continues(w: World, k: DeclRef, k': DeclRef) {
    k.0 in w &&
    var file := w[k.0];
    if ExportsExplicitly(file, k.1) then
      || (k.1 in file.exported && ImportLeads(w, file, file.exported[k.1], k'))
      || exists i :: 0 <= i < |file.exports| && NamedLeads(w, file.exports[i], k.1, k')
    else k.1 != "default" && exists i :: 0 <= i < |file.exports| && StarLeads(w, file.exports[i], k.1, k')
  }

  /** What the file calls the name is this entity. */
  predicate LocalIs(w: World, f: string, local: string, e: Entity)
    requires f in w
  {
    if local in w[f].decls then e == TheDecl((f, local))
    else e == Elsewhere && (local in w[f].imports ==> OriginFile(w, w[f].imports[local].origin).None?)
  }

  /** The re-export gives the name to something out of sight. */
  predicate LeadsElsewhere(w: World, e: ReExport, name: string) {
    e.clause == Namespace(name) ||
    (e.clause.Named? && OriginFile(w, e.origin).None? && ClauseExports(e.clause, name))
  }

  /** The file k.0 itself exports the entity under k.1. */
  predicate Ends(w: World, k: DeclRef, e: Entity) {
    k.0 in w &&
    var file := w[k.0];
    || (k.1 in file.exported && LocalIs(w, k.0, file.exported[k.1], e))
    || (e == Elsewhere && exists i :: 0 <= i < |file.exports| && LeadsElsewhere(w, file.exports[i], k.1))
  }

  ghost predicate ExportChain(w: World, p: seq<DeclRef>) {
    p != [] && forall i :: 0 < i < |p| ==> Continues(w, p[i - 1], p[i])
  }

  /** Some chain of exports ends at the entity. */
  ghost predicate Exports(w: World, k: DeclRef, e: Entity) {
    exists p :: ExportChain(w, p) && p[0] == k && Ends(w, p[|p| - 1], e)
  }

  /** The name means the declaration, and without ambiguity. */
  ghost predicate OnlyExport(w: World, k: DeclRef, d: DeclRef) {
    Exports(w, k, TheDecl(d)) && forall e :: Exports(w, k, e) ==> e == TheDecl(d)
  }

  lemma ChainStep(w: World, k: DeclRef, k': DeclRef, e: Entity)
    requires Continues(w, k, k') && Exports(w, k', e)
    ensures Exports(w, k, e)
  {
    var p :| ExportChain(w, p) && p[0] == k' && Ends(w, p[|p| - 1], e);
    var q := [k] + p;
    forall i | 0 < i < |q|
      ensures Continues(w, q[i - 1], q[i])
    {
      assert i > 1 ==> q[i - 1] == p[i - 2] && q[i] == p[i - 1];
    }
    assert ExportChain(w, q) && q[0] == k && q[|q| - 1] == p[|p| - 1];
  }

  lemma ChainRest(w: World, k: DeclRef, e: Entity) returns (k': DeclRef)
    requires Exports(w, k, e) && !Ends(w, k, e)
    ensures Continues(w, k, k') && Exports(w, k', e)
  {
    var p :| ExportChain(w, p) && p[0] == k && Ends(w, p[|p| - 1], e);
    var q := p[1..];
    k' := p[1];
    forall i | 0 < i < |q|
      ensures Continues(w, q[i - 1], q[i])
    {
      assert Continues(w, p[i], p[i + 1]);
    }
    assert ExportChain(w, q) && q[0] == k' && q[|q| - 1] == p[|p| - 1];
  }

  /** A file exports what it ends at itself and what it continues with. */
  lemma ExportsIff(w: World, k: DeclRef, e: Entity)
    ensures Exports(w, k, e) <==> Ends(w, k, e) || exists k' :: Continues(w, k, k') && Exports(w, k', e)
  {
    if Ends(w, k, e) {
      assert ExportChain(w, [k]) && [k][0] == k && [k][|[k]| - 1] == k;
    } else if Exports(w, k, e) {
      var k' := ChainRest(w, k, e);
    }
    if k' :| Continues(w, k, k') && Exports(w, k', e) {
      ChainStep(w, k, k', e);
    }
  }

  lemma ChainEndsInSight(w: World, k: DeclRef, d: DeclRef)
    requires Exports(w, k, TheDecl(d))
    ensures Declares(w, d)
  {
    var p :| ExportChain(w, p) && p[0] == k && Ends(w, p[|p| - 1], TheDecl(d));
  }

  /* ---- The path of the search ---- */

  /** The searches on the way to the declaration that is found. */
  ghost function SearchPath(w: World, root: string, k: DeclRef, seen: set<DeclRef>): (p: seq<DeclRef>)
    requires RelativesExist(w) && k in Searches(w, root) && FindExported(w, root, k, seen).0.Some?
    decreases |Searches(w, root) - seen|, 0, 0
    ensures p != [] && p[0] == k && p[|p| - 1] == FindExported(w, root, k, seen).0.value
  {
    if Declares(w, k) then [k]
    else
      ForwardStaysInAll(w, root, k);
      SubsetIsSmaller(Searches(w, root) - (seen + {k}), Searches(w, root) - seen);
      [k] + ForwardPath(w, root, Forwarded(w[k.0].exports, k.1), seen + {k})
  }

  ghost function ForwardPath(w: World, root: string, ks: seq<DeclRef>, seen: set<DeclRef>): (p: seq<DeclRef>)
    requires RelativesExist(w) && (forall k :: k in ks ==> k in Searches(w, root))
    requires FindForwarded(w, root, ks, seen).0.Some?
    decreases |Searches(w, root) - seen|, 1, |ks|
    ensures p != [] && p[0] in ks && p[|p| - 1] == FindForwarded(w, root, ks, seen).0.value
  {
    var first := FindExported(w, root, ks[0], seen);
    if first.0.Some? then SearchPath(w, root, ks[0], seen)
    else
      SubsetIsNoLarger(Searches(w, root) - first.1, Searches(w, root) - seen);
      ForwardPath(w, root, ks[1..], first.1)
  }

  lemma ForwardStaysInAll(w: World, root: string, k: DeclRef)
    requires RelativesExist(w) && k in Searches(w, root)
    ensures forall k' :: k' in Forwarded(w[k.0].exports, k.1) ==> k' in Searches(w, root)
  {
    forall k' | k' in Forwarded(w[k.0].exports, k.1)
      ensures k' in Searches(w, root)
    {
      ForwardStaysInSearches(w, root, k, k');
    }
  }

  /* ---- When the search agrees ---- */

  /** Every step is one that the language takes, and the last file exports its declaration under the name. */
  predicate Rightful(w: World, p: seq<DeclRef>)
    requires p != []
  {
    if |p| == 1 then Ends(w, p[0], TheDecl(p[0])) else Continues(w, p[0], p[1]) && Rightful(w, p[1..])
  }

  /** The entity is exported where the language leaves the path: by another step from
      one of its files, or by the last file as something else than its declaration. */
  ghost predicate Beside(w: World, p: seq<DeclRef>, e: Entity)
    requires p != []
    decreases |p|
  {
    if |p| == 1 then
      (Ends(w, p[0], e) && e != TheDecl(p[0])) || exists k :: Continues(w, p[0], k) && Exports(w, k, e)
    else
      || Ends(w, p[0], e)
      || (exists k :: k != p[1] && Continues(w, p[0], k) && Exports(w, k, e))
      || (Continues(w, p[0], p[1]) && Beside(w, p[1..], e))
  }

  lemma {:induction false} ExportedAlongOrBeside(w: World, p: seq<DeclRef>, e: Entity)
    requires p != []
    decreases |p|
    ensures Exports(w, p[0], e) <==> Beside(w, p, e) || (Rightful(w, p) && e == TheDecl(p[|p| - 1]))
  {
    ExportsIff(w, p[0], e);
    if |p| > 1 {
      ExportedAlongOrBeside(w, p[1..], e);
      assert p[1..][|p| - 2] == p[|p| - 1];
    }
  }

  /** The path leads where the language leads, and nothing else is exported beside it. */
  ghost predicate PathAgrees(w: World, p: seq<DeclRef>)
    requires p != []
  {
    && (Rightful(w, p) || Beside(w, p, TheDecl(p[|p| - 1])))
    && forall e :: Beside(w, p, e) ==> e == TheDecl(p[|p| - 1])
  }

  ghost predicate SearchAgrees(w: World, file: string, name: string)
    requires RelativesExist(w) && file in w && ExportedDecl(w, file, name).Some?
  {
    PathAgrees(w, SearchPath(w, name, (file, name), {}))
  }

  /** The search finds what the file exports iff its path agrees. */
  lemma SearchAgreesIff(w: World, file: string, name: string)
    requires RelativesExist(w) && file in w && ExportedDecl(w, file, name).Some?
    ensures OnlyExport(w, (file, name), ExportedDecl(w, file, name).value) <==> SearchAgrees(w, file, name)
  {
    var p := SearchPath(w, name, (file, name), {});
    forall e
      ensures Exports(w, p[0], e) <==> Beside(w, p, e) || (Rightful(w, p) && e == TheDecl(p[|p| - 1]))
    {
      ExportedAlongOrBeside(w, p, e);
    }
  }

  /* ---- What a name means in a file ---- */

  /** The file where an imported name is looked for, and the name there. */
  function ImportedFrom(w: World, file: string, name: string): Option<DeclRef>
    requires file in w
  {
    if name in w[file].decls || name !in w[file].imports then None
    else match OriginFile(w, w[file].imports[name].origin)
      case Some(target) => Some((target, w[file].imports[name].imported))
      case None => None
  }

  /** The declaration that a name in a file means: the file's own, or the one that the
      file it is imported from exports; None when that is out of sight. */
  ghost function MeantDecl(w: World, file: string, name: string): Option<DeclRef>
    requires file in w
  {
    if name in w[file].decls then Some((file, name))
    else match ImportedFrom(w, file, name)
      case Some(k) => if d: DeclRef :| OnlyExport(w, k, d) then Some(d) else None
      case None => None
  }

  lemma MeantIs(w: World, file: string, name: string, k: DeclRef, d: DeclRef)
    requires file in w && ImportedFrom(w, file, name) == Some(k) && OnlyExport(w, k, d)
    ensures MeantDecl(w, file, name) == Some(d)
  {
  }

  lemma MeantIsDeclared(w: World, file: string, name: string)
    requires file in w && MeantDecl(w, file, name).Some?
    ensures Declares(w, MeantDecl(w, file, name).value)
  {
    if name !in w[file].decls {
      ChainEndsInSight(w, ImportedFrom(w, file, name).value, MeantDecl(w, file, name).value);
    }
  }

  lemma ResolvedFrom(w: World, file: string, name: string)
    requires RelativesExist(w) && file in w && name !in w[file].decls && ResolveName(w, file, name).Some?
    ensures ImportedFrom(w, file, name).Some? && ImportedFrom(w, file, name).value.0 in w
    ensures var k := ImportedFrom(w, file, name).value; ExportedDecl(w, k.0, k.1) == ResolveName(w, file, name)
  {
    assert OriginsExist(w, w[file]);
  }

  /** A name that the file does not declare resolves to a declaration that the re-export chains lead to from
      the file it is imported from, and resolves to none iff that file is out of sight or they lead to none. */
  lemma UnresolvedIff(w: World, file: string, name: string)
    requires RelativesExist(w) && file in w && name !in w[file].decls
    ensures ResolveName(w, file, name).None? <==> match ImportedFrom(w, file, name)
      case None => true
      case Some(k) => forall d :: Reaches(ExportGraph(w, k.1), k, d) ==> !Declares(w, d)
    ensures ResolveName(w, file, name).Some? ==>
      && ImportedFrom(w, file, name).Some?
      && var k := ImportedFrom(w, file, name).value;
         Reaches(ExportGraph(w, k.1), k, ResolveName(w, file, name).value)
  {
    assert OriginsExist(w, w[file]);
    if ImportedFrom(w, file, name).Some? {
      var k := ImportedFrom(w, file, name).value;
      ExportedDeclCorrect(w, k.0, k.1);
    }
  }

  /** A declaration of the file itself is taken first. */
  lemma OwnIsResolved(w: World, file: string, name: string)
    requires RelativesExist(w) && file in w && name in w[file].decls
    ensures ResolveName(w, file, name) == Some((file, name))
  {
  }

  /** What the name resolves to, if anything, is the file's own declaration or found by a search that agrees. */
  ghost predicate NameRight(w: World, file: string, name: string)
    requires RelativesExist(w) && file in w
  {
    if ResolveName(w, file, name).Some? && name !in w[file].decls then
      ResolvedFrom(w, file, name);
      var k := ImportedFrom(w, file, name).value;
      SearchAgrees(w, k.0, k.1)
    else true
  }

  /** A name that resolves does so to what it means iff the search agrees. */
  lemma NameRightIff(w: World, file: string, name: string)
    requires RelativesExist(w) && file in w && ResolveName(w, file, name).Some?
    ensures NameRight(w, file, name) <==> MeantDecl(w, file, name) == ResolveName(w, file, name)
  {
    if name !in w[file].decls {
      ResolvedFrom(w, file, name);
      var k := ImportedFrom(w, file, name).value;
      SearchAgreesIff(w, k.0, k.1);
    }
  }

  /* ---- Where it does not agree ---- */

  /** The file exports everything that these two files export, one after the other. */
  predicate StarsBoth(w: World, index: string, a: string, b: string) {
    && index in w && a in w && b in w && w[index].decls == map[] && w[index].exported == map[]
    && w[index].exports == [ReExport(Star, RelativeTs(a)), ReExport(Star, RelativeTs(b))]
  }

  lemma BothForwarded(a: ReExport, b: ReExport, name: string, first: DeclRef, second: DeclRef)
    requires Forwards(a, name) == Some(first) && Forwards(b, name) == Some(second)
    ensures Forwarded([a, b], name) == [first, second]
  {
    assert [a, b][1..] == [b] && [b][1..] == [];
    assert Forwarded([b], name) == [second];
  }

  lemma TwoForwarded(w: World, root: string, k: DeclRef, first: DeclRef, second: DeclRef)
    requires RelativesExist(w) && k in Searches(w, root) && first in Searches(w, root) && second in Searches(w, root)
    requires !Declares(w, k) && Forwarded(w[k.0].exports, k.1) == [first, second] && first != k && Declares(w, first)
    ensures FindExported(w, root, k, {}).0 == Some(first)
  {
    ForwardStaysInAll(w, root, k);
    SubsetIsSmaller(Searches(w, root) - ({} + {k}), Searches(w, root) - {});
    assert FindExported(w, root, first, {} + {k}).0 == Some(first);
    assert FindForwarded(w, root, [first, second], {} + {k}).0 == Some(first);
  }

  /** A private declaration behind the first star is taken for the one that the second exports. */
  lemma PrivateIsTaken(w: World, index: string, a: string, b: string, name: string)
    requires RelativesExist(w) && StarsBoth(w, index, a, b) && name != "default" && index != a
    requires name in w[a].decls && w[a].exported == map[] && w[a].exports == []
    requires name in w[b].decls && w[b].exported == map[name := name] && w[b].exports == []
    ensures ExportedDecl(w, index, name) == Some((a, name)) && OnlyExport(w, (index, name), (b, name))
  {
    var k, first, second := (index, name), (a, name), (b, name);
    var exports := w[index].exports;
    BothForwarded(exports[0], exports[1], name, first, second);
    TwoForwarded(w, name, k, first, second);
    forall e
      ensures Exports(w, k, e) <==> e == TheDecl(second)
    {
      ExportsIff(w, k, e);
      ExportsIff(w, first, e);
      ExportsIff(w, second, e);
      assert StarLeads(w, exports[1], name, second);
      assert Continues(w, k, second);
    }
  }

  /** So is what a star exports, when a later clause of the file names the name. */
  lemma StarIsTaken(w: World, index: string, a: string, b: string, name: string, source: string)
    requires RelativesExist(w) && index in w && a in w && b in w && index != a
    requires w[index].decls == map[] && w[index].exported == map[]
    requires w[index].exports == [ReExport(Star, RelativeTs(a)), ReExport(Named([(name, source)]), RelativeTs(b))]
    requires name in w[a].decls && source in w[b].decls && w[b].exported == map[source := source] && w[b].exports == []
    ensures ExportedDecl(w, index, name) == Some((a, name)) && OnlyExport(w, (index, name), (b, source))
  {
    var k, first, second := (index, name), (a, name), (b, source);
    var exports := w[index].exports;
    BothForwarded(exports[0], exports[1], name, first, second);
    ForwardStaysInSearches(w, name, k, second);
    TwoForwarded(w, name, k, first, second);
    forall e
      ensures Exports(w, k, e) <==> e == TheDecl(second)
    {
      ExportsIff(w, k, e);
      ExportsIff(w, second, e);
      assert [(name, source)][0].0 == name && ClauseExports(exports[1].clause, name);
      assert NamedLeads(w, exports[1], name, second);
      assert Continues(w, k, second);
    }
  }
}
