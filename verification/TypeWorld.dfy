/** Source files as scripts/gen-config-catalog.ts sees them: the type
    declarations, imports and re-exports of each file, and the search for the
    declaration that a file exports under a name (`findExportedTypeDecl`). */
module TypeWorld {
  import opened Digraph
  import opened Options

  /** What a written name is: one to be found by the rules for files, one qualified by a
      namespace, or a type parameter in scope. */
  datatype NameKind = Plain | Qualified | Parameter

  datatype Type =
    | Literal(members: seq<TypeMember>)
    | Paren(inner: Type)
    | Intersection(parts: seq<Type>)
    | Union(parts: seq<Type>)
    | ArrayOf(element: Type)
    | Operator(word: string, inner: Type)
    | IndexedBy(owner: Type, key: Option<string>)
    | Reference(head: string, kind: NameKind, args: seq<Type>)
    | OtherType(text: string)

  /** A property signature: its name as written, the name that declares (None for a
      computed one), and its type annotation, which may be missing. */
  datatype Property = Property(written: string, declares: Option<string>, ty: Option<Type>)

  /** Which names an index signature answers for: all, none, or some. */
  datatype IndexKeys = StringKeys | SymbolKeys | SomeKeys(text: string)

  /** A member of a type: a property signature, a method or accessor, or an index signature. */
  datatype TypeMember =
    | Signature(property: Property)
    | Method(declares: Option<string>)
    | Index(keys: IndexKeys)

  /** One entry of an `extends` clause: a plain name, or some other expression. */
  datatype Base = Base(name: string) | OtherBase(text: string)

  /** The first declaration of a name; `merged` holds the members that later
      declarations of an interface add to it. */
  datatype Decl =
    | Interface(members: seq<TypeMember>, bases: seq<Base>, merged: seq<TypeMember>)
    | Alias(body: Type)
    | Enum

  /** Where a module specifier leads: a file of the package named with its `.ts`
      extension, a workspace package with an entry file, or out of sight. */
  datatype Origin = RelativeTs(file: string) | RelativeOther | Workspace(entry: string) | External

  datatype Import = Import(imported: string, origin: Origin)

  datatype ExportClause = Star | Named(elements: seq<(string, string)>) | Namespace(name: string)

  /** `export … from`: each named element pairs the exported name with the name looked up. */
  datatype ReExport = ReExport(clause: ExportClause, origin: Origin)

  /** `exported` maps each name that the file exports of its own, without `from`, to what it calls it. */
  datatype File =
    File(decls: map<string, Decl>, exported: map<string, string>, imports: map<string, Import>, exports: seq<ReExport>)

  type World = map<string, File>

  predicate OriginExists(w: World, origin: Origin) {
    origin.RelativeTs? ==> origin.file in w
  }

  predicate OriginsExist(w: World, file: File) {
    && (forall n :: n in file.imports ==> OriginExists(w, file.imports[n].origin))
    && (forall i :: 0 <= i < |file.exports| ==> OriginExists(w, file.exports[i].origin))
  }

  /** Relative specifiers lead to files that exist. */
  predicate RelativesExist(w: World) {
    forall f {:trigger OriginsExist(w, w[f])} :: f in w ==> OriginsExist(w, w[f])
  }

  /** A declaration, by file and name. */
  type DeclRef = (string, string)

  predicate Declares(w: World, d: DeclRef) {
    d.0 in w && d.1 in w[d.0].decls
  }

  /* ---- Re-export chains ---- */

  /** The name that the first element exporting `name` looks up. */
  function SourceName(elements: seq<(string, string)>, name: string): Option<string> {
    if elements == [] then None
    else if elements[0].0 == name then Some(elements[0].1)
    else SourceName(elements[1..], name)
  }

  /** Where a re-export sends the search for `name`, if anywhere. */
  function Forwards(e: ReExport, name: string): Option<DeclRef> {
    if !e.origin.RelativeTs? then None
    else match e.clause
      case Star => Some((e.origin.file, name))
      case Named(elements) =>
        (match SourceName(elements, name)
         case Some(source) => Some((e.origin.file, source))
         case None => None)
      case Namespace(_) => None
  }

  /** The searches that `exports` can lead to, in order. */
  function Forwarded(exports: seq<ReExport>, name: string): seq<DeclRef> {
    if exports == [] then [] else
      (match Forwards(exports[0], name)
       case Some(k) => [k]
       case None => []) + Forwarded(exports[1..], name)
  }

  /** Every name an export clause can look up. */
  function ClauseNames(elements: seq<(string, string)>): set<string> {
    set i | 0 <= i < |elements| :: elements[i].1
  }

  function SourceNames(exports: seq<ReExport>): set<string> {
    if exports == [] then {} else
      (if exports[0].clause.Named? then ClauseNames(exports[0].clause.elements) else {})
      + SourceNames(exports[1..])
  }

  /** All searches that can arise from a search for `name`. */
  function Searches(w: World, name: string): set<DeclRef> {
    set f, n | f in w && n in {name} + AllSourceNames(w) :: (f, n)
  }

  function AllSourceNames(w: World): set<string> {
    set f, n | f in w && n in SourceNames(w[f].exports) :: n
  }

  /** From a search to the searches its file forwards it to. */
  function ExportGraph(w: World, name: string): Graph<DeclRef> {
    map k | k in Searches(w, name) :: Forwarded(w[k.0].exports, k.1)
  }

  lemma {:induction false} SourceNameIsListed(elements: seq<(string, string)>, name: string)
    requires SourceName(elements, name).Some?
    ensures SourceName(elements, name).value in ClauseNames(elements)
  {
    if elements[0].0 != name {
      SourceNameIsListed(elements[1..], name);
      var i :| 0 <= i < |elements[1..]| && elements[1..][i].1 == SourceName(elements, name).value;
      assert elements[i + 1].1 == SourceName(elements, name).value;
    }
  }

  lemma {:induction false} ForwardedIsListed(exports: seq<ReExport>, name: string, k: DeclRef)
    requires k in Forwarded(exports, name)
    ensures k.1 == name || k.1 in SourceNames(exports)
    ensures exists i :: 0 <= i < |exports| && exports[i].origin == RelativeTs(k.0)
  {
    if Forwards(exports[0], name) == Some(k) {
      assert exports[0].origin == RelativeTs(k.0);
      if exports[0].clause.Named? {
        SourceNameIsListed(exports[0].clause.elements, name);
      }
    } else {
      assert k in Forwarded(exports[1..], name);
      ForwardedIsListed(exports[1..], name, k);
      var i :| 0 <= i < |exports[1..]| && exports[1..][i].origin == RelativeTs(k.0);
      assert exports[i + 1].origin == RelativeTs(k.0);
    }
  }

  /** The searches are closed under forwarding. */
  lemma ForwardStaysInSearches(w: World, name: string, k: DeclRef, k': DeclRef)
    requires RelativesExist(w) && k in Searches(w, name) && k' in Forwarded(w[k.0].exports, k.1)
    ensures k' in Searches(w, name)
  {
    ForwardedIsListed(w[k.0].exports, k.1, k');
    assert OriginsExist(w, w[k.0]);
    assert k'.0 in w;
    if k'.1 != k.1 {
      assert k'.1 in AllSourceNames(w);
    }
  }

  /** `findExportedTypeDecl`: the first declaration met by a depth-first search
      that enters no search twice. Also returns the searches entered so far. */
  function FindExported(w: World, root: string, k: DeclRef, seen: set<DeclRef>): (r: (Option<DeclRef>, set<DeclRef>))
    requires RelativesExist(w) && k in Searches(w, root)
    decreases |Searches(w, root) - seen|, 0, 0
    ensures seen <= r.1
  {
    if k in seen then (None, seen)
    else if Declares(w, k) then (Some(k), seen + {k})
    else
      var forwarded := Forwarded(w[k.0].exports, k.1);
      assert forall k' :: k' in forwarded ==> k' in Searches(w, root) by {
        forall k' | k' in forwarded { ForwardStaysInSearches(w, root, k, k'); }
      }
      assert Searches(w, root) - (seen + {k}) < Searches(w, root) - seen by {
        assert k in Searches(w, root) - seen;
      }
      SubsetIsSmaller(Searches(w, root) - (seen + {k}), Searches(w, root) - seen);
      FindForwarded(w, root, forwarded, seen + {k})
  }

  function FindForwarded(w: World, root: string, ks: seq<DeclRef>, seen: set<DeclRef>)
    : (r: (Option<DeclRef>, set<DeclRef>))
    requires RelativesExist(w) && forall k :: k in ks ==> k in Searches(w, root)
    decreases |Searches(w, root) - seen|, 1, |ks|
    ensures seen <= r.1
  {
    if ks == [] then (None, seen) else
      var first := FindExported(w, root, ks[0], seen);
      if first.0.Some? then first else
        SubsetIsNoLarger(Searches(w, root) - first.1, Searches(w, root) - seen);
        FindForwarded(w, root, ks[1..], first.1)
  }

  lemma SubsetIsSmaller<T>(a: set<T>, b: set<T>)
    requires a < b
    ensures |a| < |b|
  {
    assert b == a + (b - a);
    assert b - a != {};
  }

  lemma SubsetIsNoLarger<T>(a: set<T>, b: set<T>)
    requires a <= b
    ensures |a| <= |b|
  {
    assert b == a + (b - a);
  }

  /** What a search that found nothing leaves behind: the searches it entered
      declare nothing and forward only to searches entered by then. */
  ghost predicate Exhausted(w: World, before: set<DeclRef>, after: set<DeclRef>) {
    forall x :: x in after && x !in before ==>
      x.0 in w && !Declares(w, x) && ForwardsInto(w, x, after)
  }

  ghost predicate ForwardsInto(w: World, x: DeclRef, s: set<DeclRef>)
    requires x.0 in w
  {
    forall y :: y in Forwarded(w[x.0].exports, x.1) ==> y in s
  }

  lemma ExhaustedChain(w: World, a: set<DeclRef>, b: set<DeclRef>, c: set<DeclRef>)
    requires a <= b <= c && Exhausted(w, a, b) && Exhausted(w, b, c)
    ensures Exhausted(w, a, c)
  {
    forall x | x in c && x !in a
      ensures x.0 in w && !Declares(w, x) && ForwardsInto(w, x, c)
    {
      if x in b {
        assert ForwardsInto(w, x, b);
      }
    }
  }

  lemma {:induction false} SearchResult(w: World, root: string, k: DeclRef, seen: set<DeclRef>)
    requires RelativesExist(w) && k in Searches(w, root)
    decreases |Searches(w, root) - seen|, 0, 0
    ensures var (r, seen') := FindExported(w, root, k, seen);
      match r
      case Some(d) => Declares(w, d) && Reaches(ExportGraph(w, root), k, d)
      case None => k in seen' && Exhausted(w, seen, seen')
  {
    if k !in seen && Declares(w, k) {
      ReachesSelf(ExportGraph(w, root), k);
    } else if k !in seen {
      var forwarded := Forwarded(w[k.0].exports, k.1);
      forall k' | k' in forwarded
        ensures k' in Searches(w, root) && Edge(ExportGraph(w, root), k, k')
      {
        ForwardStaysInSearches(w, root, k, k');
      }
      assert k in Searches(w, root) - seen;
      SubsetIsSmaller(Searches(w, root) - (seen + {k}), Searches(w, root) - seen);
      ForwardedResult(w, root, forwarded, seen + {k});
      match FindForwarded(w, root, forwarded, seen + {k}).0
      case Some(d) =>
        var k' :| k' in forwarded && Reaches(ExportGraph(w, root), k', d);
        EdgeThenReaches(ExportGraph(w, root), k, k', d);
      case None =>
        var seen' := FindForwarded(w, root, forwarded, seen + {k}).1;
        forall x | x in seen' && x !in seen
          ensures x.0 in w && !Declares(w, x) && ForwardsInto(w, x, seen')
        {
          assert x != k ==> x !in seen + {k};
        }
    }
  }

  /** The answer of a search that starts from several names. */
  ghost predicate Answers(w: World, root: string, ks: seq<DeclRef>, seen: set<DeclRef>,
                          r: (Option<DeclRef>, set<DeclRef>))
    requires RelativesExist(w)
  {
    match r.0
    case Some(d) => Declares(w, d) && exists k :: k in ks && Reaches(ExportGraph(w, root), k, d)
    case None => (forall k :: k in ks ==> k in r.1) && Exhausted(w, seen, r.1)
  }

  lemma AnswersLater(w: World, root: string, ks: seq<DeclRef>, seen: set<DeclRef>, seen': set<DeclRef>,
                     r: (Option<DeclRef>, set<DeclRef>))
    requires RelativesExist(w) && seen <= seen' <= r.1 && ks != [] && ks[0] in seen' && Exhausted(w, seen, seen')
    requires Answers(w, root, ks[1..], seen', r)
    ensures Answers(w, root, ks, seen, r)
  {
    assert ks == [ks[0]] + ks[1..];
    match r.0
    case Some(d) =>
      var k' :| k' in ks[1..] && Reaches(ExportGraph(w, root), k', d);
      assert k' in ks;
    case None =>
      ExhaustedChain(w, seen, seen', r.1);
  }

  lemma {:induction false} ForwardedResult(w: World, root: string, ks: seq<DeclRef>, seen: set<DeclRef>)
    requires RelativesExist(w) && forall k :: k in ks ==> k in Searches(w, root)
    decreases |Searches(w, root) - seen|, 1, |ks|
    ensures Answers(w, root, ks, seen, FindForwarded(w, root, ks, seen))
  {
    if ks != [] {
      SearchResult(w, root, ks[0], seen);
      var first := FindExported(w, root, ks[0], seen);
      if first.0.None? {
        SubsetIsNoLarger(Searches(w, root) - first.1, Searches(w, root) - seen);
        ForwardedResult(w, root, ks[1..], first.1);
        AnswersLater(w, root, ks, seen, first.1, FindForwarded(w, root, ks[1..], first.1));
      }
    }
  }

  /** The declaration a file exports under a name, if there is one. */
  function ExportedDecl(w: World, file: string, name: string): Option<DeclRef>
    requires RelativesExist(w) && file in w
  {
    FindExported(w, name, (file, name), {}).0
  }

  /** The search follows re-export chains, cyclic ones included, and misses nothing. */
  lemma ExportedDeclCorrect(w: World, file: string, name: string)
    requires RelativesExist(w) && file in w
    ensures match ExportedDecl(w, file, name)
      case Some(d) => Declares(w, d) && Reaches(ExportGraph(w, name), (file, name), d)
      case None => forall d :: Reaches(ExportGraph(w, name), (file, name), d) ==> !Declares(w, d)
  {
    var g, k := ExportGraph(w, name), (file, name);
    SearchResult(w, name, k, {});
    if ExportedDecl(w, file, name).None? {
      var s := FindExported(w, name, k, {}).1;
      forall a, b | a in s && Edge(g, a, b)
        ensures b in s
      {
        assert ForwardsInto(w, a, s);
      }
      forall d | Reaches(g, k, d)
        ensures !Declares(w, d)
      {
        var p :| Walk(g, p) && p[0] == k && p[|p| - 1] == d;
        ClosedSetHoldsWalk(g, s, p);
      }
    }
  }

  /* ---- Resolving a name inside a file ---- */

  /** `declForTypeName`: declared in the file, or behind one of its imports;
      None when the declaration is out of sight. */
  function ResolveName(w: World, file: string, name: string): Option<DeclRef>
    requires RelativesExist(w) && file in w
  {
    if name in w[file].decls then Some((file, name))
    else if name !in w[file].imports then None
    else
      assert OriginsExist(w, w[file]);
      var imp := w[file].imports[name];
      match imp.origin
      case RelativeTs(target) => ExportedDecl(w, target, imp.imported)
      case Workspace(entry) => if entry in w then ExportedDecl(w, entry, imp.imported) else None
      case RelativeOther => None
      case External => None
  }

  lemma ResolvedIsDeclared(w: World, file: string, name: string)
    requires RelativesExist(w) && file in w && ResolveName(w, file, name).Some?
    ensures Declares(w, ResolveName(w, file, name).value)
  {
    if name !in w[file].decls {
      assert OriginsExist(w, w[file]);
      var imp := w[file].imports[name];
      ExportedDeclCorrect(w, if imp.origin.RelativeTs? then imp.origin.file else imp.origin.entry, imp.imported);
    }
  }
}
