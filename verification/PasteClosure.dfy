/** The closure of a config type over the declarations it refers to:
    scripts/gen-config-catalog.ts, `resolveTypeName` and the paste queue of
    `collectConfigCatalog`. */
module PasteClosure {
  import opened Digraph

  /** Where an import leads: a file of the package named with its `.ts`
      extension, one named without it, or another package. */
  datatype Origin = RelativeTs(file: string) | RelativeOther | Package(specifier: string)

  datatype Import = Import(imported: string, origin: Origin)

  /** A source file: for each type it declares the type names that declaration
      mentions, and its imports by local name. */
  datatype Source = Source(decls: map<string, seq<string>>, imports: map<string, Import>)

  /** The files by path, and the type names that need no import. */
  datatype World = World(files: map<string, Source>, globals: set<string>)

  /** Relative imports lead to files that exist. */
  predicate RelativesExist(w: World) {
    forall f, n :: f in w.files && n in w.files[f].imports && w.files[f].imports[n].origin.RelativeTs? ==>
      w.files[f].imports[n].origin.file in w.files
  }

  /** What a name in a file stands for. */
  datatype Resolution =
    | Declared(file: string)
    | Imported(imported: string, specifier: string)
    | NotFound
    | NoExtension(file: string)
    | Renamed(file: string)
    | Endless

  /** One hop of a package-local import chain: the import names the file to look in next. */
  predicate Hops(w: World, file: string, name: string) {
    && file in w.files && name !in w.files[file].decls && name in w.files[file].imports
    && w.files[file].imports[name].origin.RelativeTs? && w.files[file].imports[name].imported == name
  }

  /** `resolveTypeName`, following at most `hops` package-local imports. */
  function ResolveWithin(w: World, file: string, name: string, hops: nat): Resolution
    requires RelativesExist(w) && file in w.files
    decreases hops
  {
    if name in w.files[file].decls then Declared(file)
    else if name !in w.files[file].imports then NotFound
    else
      var imp := w.files[file].imports[name];
      match imp.origin
      case Package(specifier) => Imported(imp.imported, specifier)
      case RelativeOther => NoExtension(file)
      case RelativeTs(target) =>
        if imp.imported != name then Renamed(file)
        else if hops == 0 then Endless
        else ResolveWithin(w, target, name, hops - 1)
  }

  /** `resolveTypeName`: an import chain longer than there are files runs in a
      circle, and the recursion does not return. */
  function Resolve(w: World, file: string, name: string): Resolution
    requires RelativesExist(w) && file in w.files
  {
    ResolveWithin(w, file, name, |w.files|)
  }

  function Target(w: World, file: string, name: string): (r: string)
    requires RelativesExist(w) && Hops(w, file, name)
    ensures r in w.files
  {
    w.files[file].imports[name].origin.file
  }

  /** The first n files of an import chain that keeps hopping. */
  ghost predicate Chain(w: World, name: string, files: seq<string>)
    requires RelativesExist(w)
  {
    && (forall i :: 0 <= i < |files| ==> Hops(w, files[i], name))
    && forall i :: 0 < i < |files| ==> files[i] == Target(w, files[i - 1], name)
  }

  lemma {:induction false} EndlessChain(w: World, file: string, name: string, hops: nat) returns (files: seq<string>)
    requires RelativesExist(w) && file in w.files && ResolveWithin(w, file, name, hops) == Endless
    ensures |files| == hops + 1 && files[0] == file && Chain(w, name, files)
    decreases hops
  {
    assert Hops(w, file, name);
    if hops == 0 {
      files := [file];
    } else {
      var rest := EndlessChain(w, Target(w, file, name), name, hops - 1);
      files := [file] + rest;
    }
  }

  /** Files that only hop among themselves never resolve the name. */
  lemma {:induction false} TrappedNeverResolves(w: World, trap: set<string>, file: string, name: string, hops: nat)
    requires RelativesExist(w) && file in trap
    requires forall f :: f in trap ==> Hops(w, f, name) && Target(w, f, name) in trap
    ensures file in w.files && ResolveWithin(w, file, name, hops) == Endless
    decreases hops
  {
    if hops > 0 {
      TrappedNeverResolves(w, trap, Target(w, file, name), name, hops - 1);
    }
  }

  /** `Endless` means that no number of hops resolves the name. */
  lemma EndlessNeverReturns(w: World, file: string, name: string, hops: nat)
    requires RelativesExist(w) && file in w.files && Resolve(w, file, name) == Endless
    ensures ResolveWithin(w, file, name, hops) == Endless
  {
    var files := EndlessChain(w, file, name, |w.files|);
    var i, j := Pigeonhole(files, w.files.Keys);
    var trap := set k | 0 <= k < j :: files[k];
    forall f | f in trap
      ensures Hops(w, f, name) && Target(w, f, name) in trap
    {
      var k :| 0 <= k < j && files[k] == f;
      assert Target(w, f, name) == files[k + 1];
      if k + 1 == j {
        assert files[i] in trap;
      } else {
        assert files[k + 1] in trap;
      }
    }
    assert files[0] in trap;
    TrappedNeverResolves(w, trap, file, name, hops);
  }

  /* ---- What a resolution means ---- */

  /** What a file that hops no further makes of the name. */
  ghost predicate EndsAs(w: World, file: string, name: string, r: Resolution) {
    file in w.files &&
    var here, imports := name in w.files[file].decls, w.files[file].imports;
    match r
    case Declared(f) => here && f == file
    case NotFound => !here && name !in imports
    case Imported(imported, specifier) =>
      !here && name in imports && imports[name] == Import(imported, Package(specifier))
    case NoExtension(f) => !here && f == file && name in imports && imports[name].origin == RelativeOther
    case Renamed(f) =>
      !here && f == file && name in imports && imports[name].origin.RelativeTs? && imports[name].imported != name
    case Endless => false
  }

  ghost predicate HopsTo(w: World, name: string, file: string, next: string)
    requires RelativesExist(w)
  {
    Hops(w, file, name) && next == Target(w, file, name)
  }

  /** The import chain goes through these files and ends with r. */
  ghost predicate ResolvesBy(w: World, name: string, files: seq<string>, r: Resolution)
    requires RelativesExist(w)
  {
    && files != [] && EndsAs(w, files[|files| - 1], name, r)
    && forall i :: 0 < i < |files| ==> HopsTo(w, name, files[i - 1], files[i])
  }

  lemma {:induction false} ChainResolves(w: World, name: string, files: seq<string>, r: Resolution, hops: nat)
    requires RelativesExist(w) && ResolvesBy(w, name, files, r) && hops + 1 >= |files|
    ensures files[0] in w.files && ResolveWithin(w, files[0], name, hops) == r
    decreases |files|
  {
    if |files| > 1 {
      var rest := files[1..];
      assert HopsTo(w, name, files[0], files[1]);
      forall i | 0 < i < |rest|
        ensures HopsTo(w, name, rest[i - 1], rest[i])
      {
        assert HopsTo(w, name, files[i], files[i + 1]);
      }
      ChainResolves(w, name, rest, r, hops - 1);
    }
  }

  lemma {:induction false} ResolvedChain(w: World, file: string, name: string, hops: nat) returns (files: seq<string>)
    requires RelativesExist(w) && file in w.files && ResolveWithin(w, file, name, hops) != Endless
    ensures files != [] && files[0] == file && ResolvesBy(w, name, files, ResolveWithin(w, file, name, hops))
    decreases hops
  {
    files := [file];
    if Hops(w, file, name) {
      var rest := ResolvedChain(w, Target(w, file, name), name, hops - 1);
      files := [file] + rest;
      forall i | 0 < i < |files|
        ensures HopsTo(w, name, files[i - 1], files[i])
      {
        if i > 1 {
          assert HopsTo(w, name, rest[i - 2], rest[i - 1]);
        }
      }
    }
  }

  lemma {:induction false} MoreHops(w: World, file: string, name: string, hops: nat, more: nat)
    requires RelativesExist(w) && file in w.files && ResolveWithin(w, file, name, hops) != Endless && hops <= more
    ensures ResolveWithin(w, file, name, more) == ResolveWithin(w, file, name, hops)
    decreases hops
  {
    if Hops(w, file, name) {
      MoreHops(w, Target(w, file, name), name, hops - 1, more - 1);
    }
  }

  /** A name resolves to r iff some chain of package-local imports ends with r: at a declaration, at an import
      from another package, at no import, or at one that lacks the extension or renames. It is
      endless iff no chain ends. */
  lemma ResolutionMeaning(w: World, file: string, name: string, r: Resolution)
    requires RelativesExist(w) && file in w.files && r != Endless
    ensures Resolve(w, file, name) == r <==>
            exists files :: files != [] && files[0] == file && ResolvesBy(w, name, files, r)
  {
    if Resolve(w, file, name) == r {
      var files := ResolvedChain(w, file, name, |w.files|);
    }
    if files :| files != [] && files[0] == file && ResolvesBy(w, name, files, r) {
      var hops := |files| + |w.files|;
      ChainResolves(w, name, files, r, hops);
      if Resolve(w, file, name) == Endless {
        EndlessNeverReturns(w, file, name, hops);
      } else {
        MoreHops(w, file, name, |w.files|, hops);
      }
    }
  }

  /* ---- What the config type refers to ---- */

  /** A name as referred to from a file. */
  type Item = (string, string)

  /** The references that a declaration adds, from its own file. */
  function References(w: World, name: string, file: string): (r: seq<Item>)
    requires file in w.files && name in w.files[file].decls
    ensures forall it :: it in r ==> it.1 == file
  {
    Outside(w.globals, w.files[file].decls[name], file)
  }

  /** The names that are not global, paired with the file. */
  function Outside(globals: set<string>, names: seq<string>, file: string): (r: seq<Item>)
    ensures forall it :: it in r <==> it.0 in names && it.0 !in globals && it.1 == file
  {
    if names == [] then []
    else (if names[0] in globals then [] else [(names[0], file)]) + Outside(globals, names[1..], file)
  }

  function ItemResolution(w: World, it: Item): Resolution
    requires RelativesExist(w)
  {
    if it.1 in w.files then Resolve(w, it.1, it.0) else NotFound
  }

  lemma {:induction false} DeclaredWhere(w: World, file: string, name: string, hops: nat)
    requires RelativesExist(w) && file in w.files && ResolveWithin(w, file, name, hops).Declared?
    ensures var f := ResolveWithin(w, file, name, hops).file; f in w.files && name in w.files[f].decls
    decreases hops
  {
    if Hops(w, file, name) && hops > 0 {
      DeclaredWhere(w, Target(w, file, name), name, hops - 1);
    }
  }

  /** A reference leads to the references of the declaration it resolves to. */
  ghost predicate LeadsTo(w: World, a: Item, b: Item)
    requires RelativesExist(w)
  {
    ItemResolution(w, a).Declared? &&
    var f := ItemResolution(w, a).file;
    f in w.files && a.0 in w.files[f].decls && b in References(w, a.0, f)
  }

  /** It leads to the names that the declaration mentions and that need an import, seen from its file. */
  lemma LeadsToIff(w: World, a: Item, b: Item)
    requires RelativesExist(w)
    ensures LeadsTo(w, a, b) <==>
      && b.1 in w.files && a.0 in w.files[b.1].decls && ItemResolution(w, a) == Declared(b.1)
      && b.0 in w.files[b.1].decls[a.0] && b.0 !in w.globals
  {
  }

  ghost predicate Trail(w: World, p: seq<Item>)
    requires RelativesExist(w)
  {
    p != [] && forall i :: 0 < i < |p| ==> LeadsTo(w, p[i - 1], p[i])
  }

  /** b is referred to, directly or not, from a. */
  ghost predicate Reachable(w: World, a: Item, b: Item)
    requires RelativesExist(w)
  {
    exists p :: Trail(w, p) && p[0] == a && p[|p| - 1] == b
  }

  lemma ReachableSelf(w: World, a: Item)
    requires RelativesExist(w)
    ensures Reachable(w, a, a)
  {
    assert Trail(w, [a]);
  }

  lemma ReachableStep(w: World, a: Item, b: Item, c: Item)
    requires RelativesExist(w) && Reachable(w, a, b) && LeadsTo(w, b, c)
    ensures Reachable(w, a, c)
  {
    var p :| Trail(w, p) && p[0] == a && p[|p| - 1] == b;
    var q := p + [c];
    assert Trail(w, q) && q[0] == a && q[|q| - 1] == c;
  }

  lemma {:induction false} ClosedHoldsTrail(w: World, s: set<Item>, p: seq<Item>)
    requires RelativesExist(w) && Trail(w, p) && p[0] in s
    requires forall a, b :: a in s && LeadsTo(w, a, b) ==> b in s
    ensures p[|p| - 1] in s
  {
    if |p| > 1 {
      var q := p[..|p| - 1];
      assert forall i :: 0 < i < |q| ==> LeadsTo(w, q[i - 1], q[i]) by {
        forall i | 0 < i < |q| ensures LeadsTo(w, q[i - 1], q[i]) { assert LeadsTo(w, p[i - 1], p[i]); }
      }
      ClosedHoldsTrail(w, s, q);
      assert LeadsTo(w, p[|p| - 2], p[|p| - 1]);
    }
  }

  /** Besides the config type itself, no name that needs no import is reached. */
  lemma NoGlobalIsReached(w: World, root: Item, it: Item)
    requires RelativesExist(w) && Reachable(w, root, it) && it != root
    ensures it.0 !in w.globals
  {
    var p :| Trail(w, p) && p[0] == root && p[|p| - 1] == it;
    assert LeadsTo(w, p[|p| - 2], p[|p| - 1]);
    LeadsToIff(w, p[|p| - 2], p[|p| - 1]);
  }

  /** Somewhere among the reachable references the name stands for r. */
  ghost predicate Means(w: World, root: Item, name: string, r: Resolution)
    requires RelativesExist(w)
  {
    exists it :: Reachable(w, root, it) && it.0 == name && ItemResolution(w, it) == r
  }

  /** Import chains that run in a circle aside, every reachable name has one meaning. */
  ghost predicate Coherent(w: World, root: Item)
    requires RelativesExist(w)
  {
    && (forall n, r :: Means(w, root, n, r) && r != Endless ==> r.Declared? || (r.Imported? && n != root.0))
    && forall n, r, r' :: Means(w, root, n, r) && Means(w, root, n, r') && r != Endless && r' != Endless ==> r == r'
  }

  /** The import chain of some reachable reference runs in a circle. */
  ghost predicate ReachesEndless(w: World, root: Item)
    requires RelativesExist(w)
  {
    exists n :: Means(w, root, n, Endless)
  }

  /** Every reachable name has one meaning wherever it is referred to: a declaration
      or an import from another package, and for the config type a declaration. */
  ghost predicate Unambiguous(w: World, root: Item)
    requires RelativesExist(w)
  {
    && (forall n, r :: Means(w, root, n, r) ==> r.Declared? || (r.Imported? && n != root.0))
    && forall n, r, r' :: Means(w, root, n, r) && Means(w, root, n, r') ==> r == r'
  }

  /* ---- The loop ---- */

  datatype Violation =
    | Unresolved(name: string, from: string)
    | LacksExtension(file: string)
    | RenamedLocally(file: string)
    | ConfigTypeImported(name: string)
    | DeclarationAndImport(name: string)
    | TwoImports(name: string)
    | TwoDeclarations(name: string)

  /** What a violation says is so. */
  ghost predicate Explains(w: World, root: Item, v: Violation)
    requires RelativesExist(w)
  {
    match v
    case Unresolved(n, from) =>
      var r := ItemResolution(w, (n, from));
      Reachable(w, root, (n, from)) && (r.NotFound? || r.NoExtension? || r.Renamed?)
    case LacksExtension(file) => exists n :: Means(w, root, n, NoExtension(file))
    case RenamedLocally(file) => exists n :: Means(w, root, n, Renamed(file))
    case ConfigTypeImported(n) => n == root.0 && exists r :: Means(w, root, n, r) && r.Imported?
    case DeclarationAndImport(n) => exists r, r' :: Differ(w, root, n, r, r') && r.Declared? && r'.Imported?
    case TwoImports(n) => exists r, r' :: Differ(w, root, n, r, r') && r.Imported? && r'.Imported?
    case TwoDeclarations(n) => exists r, r' :: Differ(w, root, n, r, r') && r.Declared? && r'.Declared?
  }

  /** The name has these two meanings. */
  ghost predicate Differ(w: World, root: Item, name: string, r: Resolution, r': Resolution)
    requires RelativesExist(w)
  {
    Means(w, root, name, r) && Means(w, root, name, r') && r != r'
  }

  /** The name that a violation is about. */
  predicate IsAbout(v: Violation, name: string) {
    !v.LacksExtension? && !v.RenamedLocally? && v.name == name
  }

  /** No violation is about a name that needs no import, unless it is the config type's own. */
  lemma NoGlobalIsReported(w: World, root: Item, v: Violation, name: string)
    requires RelativesExist(w) && Explains(w, root, v) && IsAbout(v, name) && name in w.globals
    ensures name == root.0
  {
    assert exists it :: Reachable(w, root, it) && it.0 == name by {
      if v.Unresolved? {
        assert Reachable(w, root, (name, v.from));
      }
    }
    var it :| Reachable(w, root, it) && it.0 == name;
    if it != root {
      NoGlobalIsReached(w, root, it);
    }
  }

  datatype Reference = Reference(imported: string, specifier: string)

  datatype Outcome =
    | Overflow
    | Finished(pastes: seq<Item>, refs: map<string, Reference>, violations: seq<Violation>)

  /** The meaning recorded for a name so far. */
  ghost predicate Recorded(pasted: map<string, string>, refs: map<string, Reference>, name: string, r: Resolution) {
    match r
    case Declared(f) => name in pasted && pasted[name] == f
    case Imported(i, s) => name in refs && refs[name] == Reference(i, s)
    case _ => false
  }

  /** Every recorded meaning is that of some reachable reference. */
  ghost predicate Grounded(w: World, root: Item, pasted: map<string, string>, refs: map<string, Reference>)
    requires RelativesExist(w)
  {
    && pasted.Keys !! refs.Keys
    && (forall n :: n in pasted ==> Means(w, root, n, Declared(pasted[n])))
    && (forall n :: n in refs ==>
          n != root.0 && Means(w, root, n, Imported(refs[n].imported, refs[n].specifier)))
  }

  /** The pastes are the recorded declarations, in order of discovery. */
  ghost predicate PastesOk(pasted: map<string, string>, pastes: seq<Item>) {
    && (forall i :: 0 <= i < |pastes| ==> pastes[i].0 in pasted && pasted[pastes[i].0] == pastes[i].1)
    && (forall n :: n in pasted ==> (n, pasted[n]) in pastes)
    && OncePerName(pastes)
  }

  predicate OncePerName(pastes: seq<Item>) {
    forall i, j :: 0 <= i < j < |pastes| ==> pastes[i].0 != pastes[j].0
  }

  /** The references of a pasted declaration have been processed or queued. */
  ghost predicate Expanded(w: World, name: string, file: string, known: set<Item>) {
    file in w.files && name in w.files[file].decls && forall it :: it in References(w, name, file) ==> it in known
  }

  function Known(done: set<Item>, queue: seq<Item>): set<Item> {
    done + set it | it in queue
  }

  /** Everything processed or queued is reachable, and every pasted declaration is expanded. */
  ghost predicate QueueOk(w: World, root: Item, pasted: map<string, string>, known: set<Item>)
    requires RelativesExist(w)
  {
    && root in known
    && (forall it :: it in known ==> it.1 in w.files && Reachable(w, root, it))
    && forall n :: n in pasted ==> Expanded(w, n, pasted[n], known)
  }

  /** Without a violation the processed references have their recorded meanings;
      a violation is reported only for a closure that is not coherent. */
  ghost predicate DoneOk(w: World, root: Item, pasted: map<string, string>, refs: map<string, Reference>,
                         done: set<Item>, clean: bool)
    requires RelativesExist(w)
  {
    if clean then forall it :: it in done ==> Recorded(pasted, refs, it.0, ItemResolution(w, it))
    else !Coherent(w, root)
  }

  lemma IsMeaning(w: World, root: Item, it: Item)
    requires RelativesExist(w) && Reachable(w, root, it)
    ensures Means(w, root, it.0, ItemResolution(w, it))
  {
  }

  function DeclNames(w: World): set<string> {
    set f, n | f in w.files && n in w.files[f].decls :: n
  }

  /** How many declared names are not pasted. */
  function Unpasted(w: World, pasted: map<string, string>): nat {
    |DeclNames(w) - pasted.Keys|
  }

  lemma PasteLeavesFewer(w: World, pasted: map<string, string>, name: string, file: string)
    requires file in w.files && name in w.files[file].decls && name !in pasted
    ensures Unpasted(w, pasted[name := file]) < Unpasted(w, pasted)
  {
    var rest := DeclNames(w) - pasted[name := file].Keys;
    assert DeclNames(w) - pasted.Keys == rest + {name};
  }

  /* ---- One round of the loop ---- */

  lemma KnownNext(done: set<Item>, queue: seq<Item>)
    requires queue != []
    ensures Known(done + {queue[0]}, queue[1..]) == Known(done, queue)
    ensures queue[0] in Known(done, queue)
  {
    assert queue == [queue[0]] + queue[1..];
  }

  /** A new declaration is pasted and its references are queued. */
  lemma PasteIsGrounded(w: World, root: Item, pasted: map<string, string>, refs: map<string, Reference>,
                        pastes: seq<Item>, it: Item, file: string)
    requires RelativesExist(w) && Grounded(w, root, pasted, refs) && PastesOk(pasted, pastes)
    requires Reachable(w, root, it) && ItemResolution(w, it) == Declared(file)
    requires it.0 !in pasted && it.0 !in refs
    ensures Grounded(w, root, pasted[it.0 := file], refs)
    ensures PastesOk(pasted[it.0 := file], pastes + [(it.0, file)])
  {
    IsMeaning(w, root, it);
    PastesGrow(pasted, pastes, it.0, file);
  }

  lemma PastesGrow(pasted: map<string, string>, pastes: seq<Item>, name: string, file: string)
    requires PastesOk(pasted, pastes) && name !in pasted
    ensures PastesOk(pasted[name := file], pastes + [(name, file)])
  {
    var pasted', pastes' := pasted[name := file], pastes + [(name, file)];
    forall n | n in pasted'
      ensures (n, pasted'[n]) in pastes'
    {
      if n != name {
        assert (n, pasted[n]) in pastes;
      } else {
        assert pastes'[|pastes|] == (name, file);
      }
    }
  }

  lemma PasteIsExpanded(w: World, root: Item, pasted: map<string, string>, done: set<Item>, queue: seq<Item>,
                        it: Item, file: string)
    requires RelativesExist(w) && QueueOk(w, root, pasted, Known(done, queue))
    requires it in Known(done, queue) && ItemResolution(w, it) == Declared(file)
    ensures file in w.files && it.0 in w.files[file].decls
    ensures QueueOk(w, root, pasted[it.0 := file], Known(done, queue + References(w, it.0, file)))
  {
    DeclaredWhere(w, it.1, it.0, |w.files|);
    var known := Known(done, queue);
    var known' := Known(done, queue + References(w, it.0, file));
    assert known <= known';
    forall b | b in known'
      ensures b.1 in w.files && Reachable(w, root, b)
    {
      if b !in known {
        assert b in References(w, it.0, file) && LeadsTo(w, it, b);
        ReachableStep(w, root, it, b);
      }
    }
    var pasted' := pasted[it.0 := file];
    forall n | n in pasted'
      ensures Expanded(w, n, pasted'[n], known')
    {
      if n != it.0 {
        assert Expanded(w, n, pasted[n], known);
      }
    }
  }

  /** Recording a new meaning keeps the recorded ones. */
  lemma StillRecorded(w: World, root: Item, pasted: map<string, string>, refs: map<string, Reference>,
                      pasted': map<string, string>, refs': map<string, Reference>, done: set<Item>, it: Item,
                      clean: bool)
    requires RelativesExist(w) && DoneOk(w, root, pasted, refs, done, clean)
    requires forall n :: n in pasted ==> n in pasted' && pasted'[n] == pasted[n]
    requires forall n :: n in refs ==> n in refs' && refs'[n] == refs[n]
    requires Recorded(pasted', refs', it.0, ItemResolution(w, it))
    ensures DoneOk(w, root, pasted', refs', done + {it}, clean)
  {
    if clean {
      forall x | x in done + {it}
        ensures Recorded(pasted', refs', x.0, ItemResolution(w, x))
      {
        if x != it {
          assert Recorded(pasted, refs, x.0, ItemResolution(w, x));
        }
      }
    }
  }

  lemma ImportIsGrounded(w: World, root: Item, pasted: map<string, string>, refs: map<string, Reference>,
                         it: Item, imported: string, specifier: string)
    requires RelativesExist(w) && Grounded(w, root, pasted, refs) && Reachable(w, root, it)
    requires ItemResolution(w, it) == Imported(imported, specifier) && it.0 != root.0 && it.0 !in pasted
    ensures Grounded(w, root, pasted, refs[it.0 := Reference(imported, specifier)])
  {
    IsMeaning(w, root, it);
  }

  /** The reference has no acceptable meaning, or not the one recorded for its name. */
  predicate Clashes(root: Item, pasted: map<string, string>, refs: map<string, Reference>, it: Item, r: Resolution) {
    || !(r.Declared? || (r.Imported? && it.0 != root.0))
    || (it.0 in pasted && r != Declared(pasted[it.0]))
    || (it.0 in refs && r != Imported(refs[it.0].imported, refs[it.0].specifier))
  }

  lemma ClashIsIncoherent(w: World, root: Item, pasted: map<string, string>, refs: map<string, Reference>, it: Item)
    requires RelativesExist(w) && Grounded(w, root, pasted, refs) && Reachable(w, root, it)
    requires Clashes(root, pasted, refs, it, ItemResolution(w, it)) && ItemResolution(w, it) != Endless
    ensures !Coherent(w, root)
  {
    IsMeaning(w, root, it);
  }

  /** What one reference violates, given what has been recorded. */
  function Violations(root: Item, pasted: map<string, string>, refs: map<string, Reference>, it: Item, r: Resolution)
    : seq<Violation>
    requires !r.Endless?
  {
    var name := it.0;
    match r
    case NotFound => [Unresolved(name, it.1)]
    case NoExtension(file) => [LacksExtension(file), Unresolved(name, it.1)]
    case Renamed(file) => [RenamedLocally(file), Unresolved(name, it.1)]
    case Imported(imported, specifier) =>
      if name == root.0 then [ConfigTypeImported(name)]
      else if name in pasted then [DeclarationAndImport(name)]
      else if name in refs && refs[name] != Reference(imported, specifier) then [TwoImports(name)]
      else []
    case Declared(file) =>
      if name in pasted then (if pasted[name] == file then [] else [TwoDeclarations(name)])
      else if name in refs then [DeclarationAndImport(name)]
      else []
  }

  lemma ViolationsAreClashes(root: Item, pasted: map<string, string>, refs: map<string, Reference>, it: Item,
                             r: Resolution)
    requires pasted.Keys !! refs.Keys && !r.Endless?
    ensures Violations(root, pasted, refs, it, r) == [] <==> !Clashes(root, pasted, refs, it, r)
  {
    assert it.0 in pasted ==> it.0 in pasted.Keys;
  }

  lemma TwoMeaningsExplain(w: World, root: Item, name: string, r: Resolution, r': Resolution)
    requires RelativesExist(w) && Means(w, root, name, r) && Means(w, root, name, r') && r != r'
    ensures r.Declared? && r'.Imported? ==> Explains(w, root, DeclarationAndImport(name))
    ensures r.Imported? && r'.Imported? ==> Explains(w, root, TwoImports(name))
    ensures r.Declared? && r'.Declared? ==> Explains(w, root, TwoDeclarations(name))
  {
    assert Differ(w, root, name, r, r');
  }

  lemma DeclaredExplains(w: World, root: Item, pasted: map<string, string>, refs: map<string, Reference>, it: Item,
                         file: string)
    requires RelativesExist(w) && Grounded(w, root, pasted, refs) && Means(w, root, it.0, Declared(file))
    ensures forall v :: v in Violations(root, pasted, refs, it, Declared(file)) ==> Explains(w, root, v)
  {
    var name, r := it.0, Declared(file);
    if name in pasted && pasted[name] != file {
      TwoMeaningsExplain(w, root, name, r, Declared(pasted[name]));
    } else if name in refs {
      TwoMeaningsExplain(w, root, name, r, Imported(refs[name].imported, refs[name].specifier));
    }
  }

  lemma ImportedExplains(w: World, root: Item, pasted: map<string, string>, refs: map<string, Reference>, it: Item,
                         imported: string, specifier: string)
    requires RelativesExist(w) && Grounded(w, root, pasted, refs)
    requires Means(w, root, it.0, Imported(imported, specifier))
    ensures forall v :: v in Violations(root, pasted, refs, it, Imported(imported, specifier)) ==> Explains(w, root, v)
  {
    var name, r := it.0, Imported(imported, specifier);
    if name == root.0 {
      assert Explains(w, root, ConfigTypeImported(name));
    } else if name in pasted {
      TwoMeaningsExplain(w, root, name, Declared(pasted[name]), r);
    } else if name in refs && refs[name] != Reference(imported, specifier) {
      TwoMeaningsExplain(w, root, name, r, Imported(refs[name].imported, refs[name].specifier));
    }
  }

  lemma UnresolvedExplains(w: World, root: Item, it: Item, r: Resolution, v: Violation)
    requires RelativesExist(w) && Reachable(w, root, it) && it.1 in w.files && ItemResolution(w, it) == r
    requires !r.Declared? && !r.Imported? && !r.Endless? && v in Violations(root, map[], map[], it, r)
    ensures Explains(w, root, v)
  {
    IsMeaning(w, root, it);
    assert it == (it.0, it.1);
  }

  lemma ViolationsExplain(w: World, root: Item, pasted: map<string, string>, refs: map<string, Reference>, it: Item)
    requires RelativesExist(w) && Grounded(w, root, pasted, refs) && Reachable(w, root, it)
    requires it.1 in w.files && ItemResolution(w, it) != Endless
    ensures forall v :: v in Violations(root, pasted, refs, it, ItemResolution(w, it)) ==> Explains(w, root, v)
  {
    var r := ItemResolution(w, it);
    IsMeaning(w, root, it);
    if r.Declared? {
      DeclaredExplains(w, root, pasted, refs, it, r.file);
    } else if r.Imported? {
      ImportedExplains(w, root, pasted, refs, it, r.imported, r.specifier);
    } else {
      forall v | v in Violations(root, pasted, refs, it, r)
        ensures Explains(w, root, v)
      {
        UnresolvedExplains(w, root, it, r, v);
      }
    }
  }

  /** The loop invariant: what has been recorded, pasted, processed and queued fits together. */
  ghost predicate LoopOk(w: World, root: Item, pasted: map<string, string>, refs: map<string, Reference>,
                         pastes: seq<Item>, done: set<Item>, queue: seq<Item>, clean: bool)
    requires RelativesExist(w)
  {
    && Grounded(w, root, pasted, refs)
    && PastesOk(pasted, pastes)
    && QueueOk(w, root, pasted, Known(done, queue))
    && DoneOk(w, root, pasted, refs, done, clean)
  }

  lemma Begin(w: World, root: Item)
    requires RelativesExist(w) && root.1 in w.files
    ensures LoopOk(w, root, map[], map[], [], {}, [root], true)
  {
    ReachableSelf(w, root);
    assert Known({}, [root]) == {root};
  }

  lemma NextIsReachable(w: World, root: Item, pasted: map<string, string>, done: set<Item>, queue: seq<Item>)
    requires RelativesExist(w) && QueueOk(w, root, pasted, Known(done, queue)) && queue != []
    ensures queue[0].1 in w.files && Reachable(w, root, queue[0])
  {
    KnownNext(done, queue);
  }

  lemma ClashStep(w: World, root: Item, pasted: map<string, string>, refs: map<string, Reference>,
                  pastes: seq<Item>, done: set<Item>, queue: seq<Item>, clean: bool)
    requires RelativesExist(w) && LoopOk(w, root, pasted, refs, pastes, done, queue, clean) && queue != []
    requires Clashes(root, pasted, refs, queue[0], ItemResolution(w, queue[0]))
    requires ItemResolution(w, queue[0]) != Endless
    ensures LoopOk(w, root, pasted, refs, pastes, done + {queue[0]}, queue[1..], false)
  {
    KnownNext(done, queue);
    ClashIsIncoherent(w, root, pasted, refs, queue[0]);
  }

  lemma ImportStep(w: World, root: Item, pasted: map<string, string>, refs: map<string, Reference>,
                   pastes: seq<Item>, done: set<Item>, queue: seq<Item>, clean: bool,
                   imported: string, specifier: string)
    requires RelativesExist(w) && LoopOk(w, root, pasted, refs, pastes, done, queue, clean) && queue != []
    requires ItemResolution(w, queue[0]) == Imported(imported, specifier)
    requires !Clashes(root, pasted, refs, queue[0], ItemResolution(w, queue[0]))
    ensures LoopOk(w, root, pasted, refs[queue[0].0 := Reference(imported, specifier)], pastes,
              done + {queue[0]}, queue[1..], clean)
  {
    KnownNext(done, queue);
    ImportIsGrounded(w, root, pasted, refs, queue[0], imported, specifier);
    var refs' := refs[queue[0].0 := Reference(imported, specifier)];
    StillRecorded(w, root, pasted, refs, pasted, refs', done, queue[0], clean);
  }

  lemma KnownStep(w: World, root: Item, pasted: map<string, string>, refs: map<string, Reference>,
                  pastes: seq<Item>, done: set<Item>, queue: seq<Item>, clean: bool)
    requires RelativesExist(w) && LoopOk(w, root, pasted, refs, pastes, done, queue, clean) && queue != []
    requires Recorded(pasted, refs, queue[0].0, ItemResolution(w, queue[0]))
    ensures LoopOk(w, root, pasted, refs, pastes, done + {queue[0]}, queue[1..], clean)
  {
    KnownNext(done, queue);
    StillRecorded(w, root, pasted, refs, pasted, refs, done, queue[0], clean);
  }

  lemma PasteStep(w: World, root: Item, pasted: map<string, string>, refs: map<string, Reference>,
                  pastes: seq<Item>, done: set<Item>, queue: seq<Item>, clean: bool, file: string)
    requires RelativesExist(w) && LoopOk(w, root, pasted, refs, pastes, done, queue, clean) && queue != []
    requires ItemResolution(w, queue[0]) == Declared(file) && queue[0].0 !in pasted
    requires !Clashes(root, pasted, refs, queue[0], ItemResolution(w, queue[0]))
    ensures file in w.files && queue[0].0 in w.files[file].decls
    ensures var (name, rest) := (queue[0].0, queue[1..]);
      LoopOk(w, root, pasted[name := file], refs, pastes + [(name, file)],
        done + {queue[0]}, rest + References(w, name, file), clean)
    ensures Unpasted(w, pasted[queue[0].0 := file]) < Unpasted(w, pasted)
  {
    var it := queue[0];
    KnownNext(done, queue);
    PasteIsGrounded(w, root, pasted, refs, pastes, it, file);
    PasteIsExpanded(w, root, pasted, done + {it}, queue[1..], it, file);
    StillRecorded(w, root, pasted, refs, pasted[it.0 := file], refs, done, it, clean);
    PasteLeavesFewer(w, pasted, it.0, file);
  }

  /* ---- When the queue is empty ---- */

  /** What is pasted when nothing was violated: exactly the reachable declarations, each once. */
  ghost predicate PastesExact(w: World, root: Item, pastes: seq<Item>)
    requires RelativesExist(w)
  {
    OncePerName(pastes) && forall n, f :: (n, f) in pastes <==> Means(w, root, n, Declared(f))
  }

  /** What is listed as imported when nothing was violated. */
  ghost predicate RefsExact(w: World, root: Item, refs: map<string, Reference>)
    requires RelativesExist(w)
  {
    forall n, i, s :: (n in refs && refs[n] == Reference(i, s)) <==> Means(w, root, n, Imported(i, s))
  }

  lemma AllReachableDone(w: World, root: Item, pasted: map<string, string>, refs: map<string, Reference>,
                         done: set<Item>)
    requires RelativesExist(w) && QueueOk(w, root, pasted, done) && DoneOk(w, root, pasted, refs, done, true)
    ensures forall it :: Reachable(w, root, it) ==> it in done
  {
    forall a, b | a in done && LeadsTo(w, a, b)
      ensures b in done
    {
      assert Recorded(pasted, refs, a.0, ItemResolution(w, a));
      assert Expanded(w, a.0, pasted[a.0], done);
    }
    forall it | Reachable(w, root, it)
      ensures it in done
    {
      var p :| Trail(w, p) && p[0] == root && p[|p| - 1] == it;
      ClosedHoldsTrail(w, done, p);
    }
  }

  lemma AllMeaningsRecorded(w: World, root: Item, pasted: map<string, string>, refs: map<string, Reference>,
                            done: set<Item>)
    requires RelativesExist(w) && DoneOk(w, root, pasted, refs, done, true)
    requires forall it :: Reachable(w, root, it) ==> it in done
    ensures forall n, r :: Means(w, root, n, r) ==> Recorded(pasted, refs, n, r)
  {
  }

  lemma ClosureExact(w: World, root: Item, pasted: map<string, string>, refs: map<string, Reference>, pastes: seq<Item>)
    requires RelativesExist(w) && Grounded(w, root, pasted, refs) && PastesOk(pasted, pastes)
    requires forall n, r :: Means(w, root, n, r) ==> Recorded(pasted, refs, n, r)
    ensures Unambiguous(w, root) && PastesExact(w, root, pastes) && RefsExact(w, root, refs)
  {
    forall n, r | Means(w, root, n, r)
      ensures r.Declared? || (r.Imported? && n != root.0)
    {
      assert Recorded(pasted, refs, n, r);
    }
    forall n, r, r' | Means(w, root, n, r) && Means(w, root, n, r')
      ensures r == r'
    {
      assert Recorded(pasted, refs, n, r) && Recorded(pasted, refs, n, r');
    }
    forall n, f
      ensures (n, f) in pastes <==> Means(w, root, n, Declared(f))
    {
      if Means(w, root, n, Declared(f)) {
        assert Recorded(pasted, refs, n, Declared(f));
        assert (n, pasted[n]) in pastes;
      }
    }
    forall n, i, s
      ensures (n in refs && refs[n] == Reference(i, s)) <==> Means(w, root, n, Imported(i, s))
    {
      if Means(w, root, n, Imported(i, s)) {
        assert Recorded(pasted, refs, n, Imported(i, s));
      }
    }
  }

  lemma ClosureDone(w: World, root: Item, pasted: map<string, string>, refs: map<string, Reference>,
                    pastes: seq<Item>, done: set<Item>)
    requires RelativesExist(w) && LoopOk(w, root, pasted, refs, pastes, done, [], true)
    ensures Unambiguous(w, root) && PastesExact(w, root, pastes) && RefsExact(w, root, refs)
  {
    assert Known(done, []) == done;
    AllReachableDone(w, root, pasted, refs, done);
    AllMeaningsRecorded(w, root, pasted, refs, done);
    ClosureExact(w, root, pasted, refs, pastes);
  }

  /** One meaning for every reachable name leaves no chain that runs in a circle. */
  lemma UnambiguousIsCoherent(w: World, root: Item)
    requires RelativesExist(w)
    ensures Unambiguous(w, root) <==> Coherent(w, root) && !ReachesEndless(w, root)
  {
  }

  /** The queue of `collectConfigCatalog`: no violation is reported iff every
      reachable name has one meaning, and then the pastes are exactly the
      reachable declarations, each once. It overflows only at a reachable chain that
      runs in a circle, and does so at any such chain if nothing else is wrong. */
  method ClosePastes(w: World, root: Item) returns (r: Outcome)
    requires RelativesExist(w) && root.1 in w.files
    ensures r.Overflow? ==> ReachesEndless(w, root)
    ensures Coherent(w, root) ==> (r.Overflow? <==> ReachesEndless(w, root))
    ensures r.Finished? ==> (r.violations == [] <==> Unambiguous(w, root))
    ensures r.Finished? && r.violations == [] ==> PastesExact(w, root, r.pastes) && RefsExact(w, root, r.refs)
    ensures r.Finished? ==> forall v :: v in r.violations ==> Explains(w, root, v)
  {
    var pastes: seq<Item>, violations: seq<Violation> := [], [];
    var pasted: map<string, string>, refs: map<string, Reference> := map[], map[];
    var queue := [root];
    ghost var done: set<Item> := {};
    Begin(w, root);
    while queue != []
      invariant LoopOk(w, root, pasted, refs, pastes, done, queue, violations == [])
      invariant forall v :: v in violations ==> Explains(w, root, v)
      decreases Unpasted(w, pasted), |queue|
    {
      var it, rest := queue[0], queue[1..];
      NextIsReachable(w, root, pasted, done, queue);
      var resolved := Resolve(w, it.1, it.0);
      if resolved.Endless? {
        IsMeaning(w, root, it);
        return Overflow;
      }
      var found := Violations(root, pasted, refs, it, resolved);
      ViolationsAreClashes(root, pasted, refs, it, resolved);
      ViolationsExplain(w, root, pasted, refs, it);
      if found != [] {
        ClashStep(w, root, pasted, refs, pastes, done, queue, violations == []);
        violations := violations + found;
      } else if resolved.Imported? {
        ImportStep(w, root, pasted, refs, pastes, done, queue, violations == [], resolved.imported, resolved.specifier);
        refs := refs[it.0 := Reference(resolved.imported, resolved.specifier)];
      } else if it.0 in pasted {
        KnownStep(w, root, pasted, refs, pastes, done, queue, violations == []);
      } else {
        PasteStep(w, root, pasted, refs, pastes, done, queue, violations == [], resolved.file);
        pasted := pasted[it.0 := resolved.file];
        pastes := pastes + [(it.0, resolved.file)];
        rest := rest + References(w, it.0, resolved.file);
      }
      done, queue := done + {it}, rest;
    }
    if violations == [] {
      ClosureDone(w, root, pasted, refs, pastes, done);
    }
    UnambiguousIsCoherent(w, root);
    return Finished(pastes, refs, violations);
  }
}
