/** Compiler faces of Project References: scripts/project-reference-faces.ts. */
module ProjectFaces {
  import opened Digraph
  import opened Options
  import opened Sequences
  import Sorting
  import Text

  /** An absolute path, as its components. */
  type Path = seq<string>

  datatype Face = Host | Client

  /** What a file holds: a config with its `extends` text and the `path` values of its
      references (None where the JSON value is no string), or something that is no config. */
  datatype Content =
    | Config(extending: Option<string>, references: seq<Option<string>>)
    | Unreadable

  /** The repository root, the files that exist, and the directories of the workspace manifests. */
  datatype Workspace = Workspace(root: Path, files: map<Path, Content>, packages: seq<Path>)

  /* ---- Paths ---- */

  /** One segment of `path.resolve`. */
  function Enter(base: Path, segment: string): Path {
    if segment == "" || segment == "." then base
    else if segment == ".." then (if base == [] then [] else base[..|base| - 1])
    else base + [segment]
  }

  function EnterAll(base: Path, segments: seq<string>): Path {
    if segments == [] then base
    else Enter(EnterAll(base, segments[..|segments| - 1]), segments[|segments| - 1])
  }

  /** `resolve(base, text)` */
  function Resolve(base: Path, text: string): Path {
    EnterAll(if text != "" && text[0] == '/' then [] else base, Text.Split(text, '/'))
  }

  function Dirname(p: Path): Path {
    if p == [] then [] else p[..|p| - 1]
  }

  predicate EndsWith(s: string, suffix: string) {
    |suffix| <= |s| && s[|s| - |suffix|..] == suffix
  }

  predicate IsJson(p: Path) {
    p != [] && EndsWith(p[|p| - 1], ".json")
  }

  /** `localExtendsConfig` */
  function LocalExtends(config: Path, value: Option<string>): Option<Path> {
    if value.None? || value.value == "" || value.value[0] != '.' then None
    else
      var target := Resolve(Dirname(config), value.value);
      if IsJson(target) then Some(target)
      else if target == [] then Some([".json"])
      else Some(target[..|target| - 1] + [target[|target| - 1] + ".json"])
  }

  /** `referenceConfigPath` */
  function ReferencePath(config: Path, reference: string): Path {
    var target := Resolve(Dirname(config), reference);
    if IsJson(target) then target else target + ["tsconfig.json"]
  }

  function Leaf(face: Face): string {
    match face
    case Host => "tsconfig.host.json"
    case Client => "tsconfig.client.json"
  }

  /* ---- What the paths are ---- */

  lemma EndsWithIff(s: string, suffix: string)
    ensures EndsWith(s, suffix) <==> exists front :: s == front + suffix
  {
    if EndsWith(s, suffix) {
      assert s == s[..|s| - |suffix|] + suffix;
    }
  }

  lemma DirnameOf(dir: Path, name: string)
    ensures Dirname(dir + [name]) == dir && Dirname([]) == []
  {
  }

  /** Going from a directory by one segment. */
  ghost predicate Goes(from: Path, segment: string, to: Path) {
    && (segment == "" || segment == "." ==> to == from)
    && (segment == ".." && from == [] ==> to == [])
    && (segment == ".." && from != [] ==> from == to + [from[|from| - 1]])
    && (segment != "" && segment != "." && segment != ".." ==> to == from + [segment])
  }

  lemma EnterGoes(from: Path, segment: string)
    ensures Goes(from, segment, Enter(from, segment))
  {
  }

  /** A text is resolved segment by segment, from the base or, if it starts with a slash, from the root. */
  lemma ResolveGoes(base: Path, text: string, segment: string)
    requires '/' !in segment
    ensures Goes(base, segment, Resolve(base, segment))
    ensures Goes([], segment, Resolve(base, "/" + segment))
    ensures text != "" ==> Goes(Resolve(base, text), segment, Resolve(base, text + "/" + segment))
  {
    ResolveFirst(base, segment);
    ResolveRoot(base, segment);
    if text != "" {
      ResolveNext(base, text, segment);
    }
  }

  lemma ResolveFirst(base: Path, segment: string)
    requires '/' !in segment
    ensures Goes(base, segment, Resolve(base, segment))
  {
    Text.SplitWithout(segment, '/');
    LastSegment(base, [], segment);
    assert [] + [segment] == [segment];
  }

  lemma ResolveRoot(base: Path, segment: string)
    requires '/' !in segment
    ensures Goes([], segment, Resolve(base, "/" + segment))
  {
    Text.SplitWithout("", '/');
    Text.SplitSnoc("", segment, '/');
    var text := "/" + segment;
    assert "" + ['/'] + segment == text && text != "" && text[0] == '/';
    assert Text.Split(text, '/') == [""] + [segment];
    RootSegment();
    LastSegment([], [""], segment);
  }

  lemma RootSegment()
    ensures EnterAll([], [""]) == []
  {
    LastSegment([], [], "");
    assert [] + [""] == [""];
  }

  lemma ResolveNext(base: Path, text: string, segment: string)
    requires '/' !in segment && text != ""
    ensures Goes(Resolve(base, text), segment, Resolve(base, text + "/" + segment))
  {
    Text.SplitSnoc(text, segment, '/');
    assert text + ['/'] + segment == text + "/" + segment;
    LastSegment(if text[0] == '/' then [] else base, Text.Split(text, '/'), segment);
  }

  lemma LastSegment(base: Path, segments: seq<string>, segment: string)
    ensures Goes(EnterAll(base, segments), segment, EnterAll(base, segments + [segment]))
  {
    assert (segments + [segment])[..|segments|] == segments;
    EnterGoes(EnterAll(base, segments), segment);
  }

  /** A name in a directory. */
  predicate PlainName(segment: string) {
    '/' !in segment && segment != "" && segment != "." && segment != ".."
  }

  lemma ResolveBeside(dir: Path, name: string)
    requires PlainName(name)
    ensures Resolve(dir, "./" + name) == dir + [name]
  {
    ResolveFirst(dir, ".");
    ResolveNext(dir, ".", name);
    assert "." + "/" + name == "./" + name;
  }

  lemma ResolveAbove(parent: Path, here: string, name: string)
    requires PlainName(name)
    ensures Resolve(parent + [here], "../" + name) == parent + [name]
  {
    ResolveFirst(parent + [here], "..");
    var up := Resolve(parent + [here], "..");
    assert up + [here] == parent + [here];
    assert (up + [here])[..|up|] == up && (parent + [here])[..|parent|] == parent;
    ResolveNext(parent + [here], "..", name);
    assert ".." + "/" + name == "../" + name;
  }

  /** A reference to a file of a sibling directory, or to that directory. */
  lemma SiblingReference(parent: Path, here: string, name: string, sibling: string)
    requires PlainName(sibling)
    ensures ReferencePath(parent + [here] + [name], "../" + sibling) ==
      if exists front :: sibling == front + ".json" then parent + [sibling] else parent + [sibling] + ["tsconfig.json"]
  {
    DirnameOf(parent + [here], name);
    ResolveAbove(parent, here, sibling);
    EndsWithIff(sibling, ".json");
  }

  lemma WithExtension(config: Path, dir: Path, value: string, name: string)
    requires value != "" && value[0] == '.' && Resolve(Dirname(config), value) == dir + [name]
    ensures LocalExtends(config, Some(value)) ==
            Some(dir + [if exists front :: name == front + ".json" then name else name + ".json"])
  {
    EndsWithIff(name, ".json");
    assert (dir + [name])[..|dir|] == dir;
  }

  /** A config extends a file beside it or above it, with or without its extension. */
  lemma ExtendedFile(parent: Path, here: string, name: string, other: string)
    requires PlainName(other)
    ensures var (config, full) :=
      (parent + [here] + [name], if exists front :: other == front + ".json" then other else other + ".json");
      && LocalExtends(config, Some("./" + other)) == Some(parent + [here] + [full])
      && LocalExtends(config, Some("../" + other)) == Some(parent + [full])
  {
    var config := parent + [here] + [name];
    DirnameOf(parent + [here], name);
    ResolveBeside(parent + [here], other);
    ResolveAbove(parent, here, other);
    WithExtension(config, parent + [here], "./" + other, other);
    WithExtension(config, parent, "../" + other, other);
  }

  /** A text that does not start with a dot names no local file. */
  lemma OnlyDotsAreLocal(config: Path, value: string)
    ensures LocalExtends(config, Some(value)).Some? <==> value != "" && value[0] == '.'
    ensures LocalExtends(config, None).None?
  {
  }

  /* ---- Split projects ---- */

  /** The length of a path as text; that of "/", which is shorter than all others, counts as 0. */
  function TextLength(p: Path): nat {
    if p == [] then 0 else TextLength(p[..|p| - 1]) + 1 + |p[|p| - 1]|
  }

  predicate IsSplit(ws: Workspace, dir: Path) {
    dir + [Leaf(Host)] in ws.files && dir + [Leaf(Client)] in ws.files
  }

  function LongerFirst(a: Path, b: Path): int {
    TextLength(b) - TextLength(a)
  }

  /** The split packages among the first ones, longest path first. */
  function SplitRootsOf(ws: Workspace, packages: seq<Path>): seq<Path> {
    if packages == [] then []
    else
      var front, last := SplitRootsOf(ws, packages[..|packages| - 1]), packages[|packages| - 1];
      if IsSplit(ws, last) then Sorting.Insert(front, last, LongerFirst) else front
  }

  /** `splitProjectRoots` */
  function SplitRoots(ws: Workspace): seq<Path> {
    SplitRootsOf(ws, ws.packages)
  }

  /** `containingSplitRoot`: the first root the path lies in. */
  function Containing(roots: seq<Path>, target: Path): Option<Path> {
    if roots == [] then None
    else if roots[0] <= target then Some(roots[0])
    else Containing(roots[1..], target)
  }

  predicate IsSplitRoot(ws: Workspace, dir: Path) {
    dir in ws.packages && IsSplit(ws, dir)
  }

  /** The innermost split project the path lies in. */
  ghost predicate Innermost(ws: Workspace, dir: Path, target: Path) {
    && IsSplitRoot(ws, dir) && dir <= target
    && forall other :: IsSplitRoot(ws, other) && other <= target ==> other <= dir
  }

  predicate LongestFirst(dirs: seq<Path>) {
    forall i, j :: 0 <= i < j < |dirs| ==> TextLength(dirs[i]) >= TextLength(dirs[j])
  }

  lemma InsertByLength(dirs: seq<Path>, dir: Path)
    requires LongestFirst(dirs)
    ensures var inserted := Sorting.Insert(dirs, dir, LongerFirst);
      LongestFirst(inserted) && forall d :: d in inserted <==> d == dir || d in dirs
  {
    var inserted := Sorting.Insert(dirs, dir, LongerFirst);
    Sorting.InsertSorts(dirs, dir, LongerFirst);
    Sorting.InsertHolds(dirs, dir, LongerFirst);
    forall i, j | 0 <= i < j < |inserted|
      ensures TextLength(inserted[i]) >= TextLength(inserted[j])
    {
      assert LongerFirst(inserted[i], inserted[j]) <= 0;
    }
  }

  lemma {:induction false} SplitRootsAreSorted(ws: Workspace, packages: seq<Path>)
    ensures LongestFirst(SplitRootsOf(ws, packages))
    ensures forall d :: d in SplitRootsOf(ws, packages) <==> d in packages && IsSplit(ws, d)
  {
    if packages != [] {
      var front, last := packages[..|packages| - 1], packages[|packages| - 1];
      assert packages == front + [last];
      SplitRootsAreSorted(ws, front);
      if IsSplit(ws, last) {
        InsertByLength(SplitRootsOf(ws, front), last);
      }
    }
  }

  lemma {:induction false} PrefixIsShorter(p: Path, q: Path)
    requires p <= q && p != q
    ensures TextLength(p) < TextLength(q)
    decreases |q|
  {
    var front := q[..|q| - 1];
    if p != front {
      PrefixIsShorter(p, front);
    }
  }

  lemma {:induction false} FirstIsLongest(roots: seq<Path>, target: Path)
    requires LongestFirst(roots)
    ensures Containing(roots, target).None? ==> forall d :: d in roots ==> !(d <= target)
    ensures Containing(roots, target).Some? ==>
              var found := Containing(roots, target).value;
              && found in roots && found <= target
              && forall d :: d in roots && d <= target ==> TextLength(d) <= TextLength(found)
  {
    if roots != [] {
      assert roots == [roots[0]] + roots[1..];
      assert forall d :: d in roots ==> TextLength(d) <= TextLength(roots[0]);
      FirstIsLongest(roots[1..], target);
    }
  }

  /** The root found is the innermost one, whatever order the manifests are listed in. */
  lemma ContainingIsInnermost(ws: Workspace, target: Path)
    ensures var found := Containing(SplitRoots(ws), target);
            forall dir :: Innermost(ws, dir, target) <==> found == Some(dir)
  {
    var roots := SplitRoots(ws);
    SplitRootsAreSorted(ws, ws.packages);
    FirstIsLongest(roots, target);
    var found := Containing(roots, target);
    if found.Some? {
      forall other | IsSplitRoot(ws, other) && other <= target
        ensures other <= found.value
      {
        if found.value <= other && found.value != other {
          PrefixIsShorter(found.value, other);
        }
      }
    }
    forall dir
      ensures Innermost(ws, dir, target) <==> found == Some(dir)
    {
      if Innermost(ws, dir, target) {
        assert dir in roots && found.Some? && IsSplitRoot(ws, found.value);
        assert found.value <= dir && dir <= found.value;
        assert found.value == dir;
      }
    }
  }

  /* ---- projectFace ---- */

  /** The face a config has by its own name or place. */
  function OwnFace(ws: Workspace, config: Path): Option<Face> {
    if config != [] && config[|config| - 1] == Leaf(Host) then Some(Host)
    else if config != [] && config[|config| - 1] == Leaf(Client) then Some(Client)
    else if config == ws.root + ["tsconfig.base.json"] then Some(Host)
    else if config == ws.root + ["tsconfig.base.client.json"] then Some(Client)
    else None
  }

  /** The faces, by name and place: leaf configs and the base configs of the root, and no other. */
  lemma OwnFaceIff(ws: Workspace, config: Path)
    ensures OwnFace(ws, config) == Some(Host) <==>
            (exists dir :: config == dir + ["tsconfig.host.json"]) || config == ws.root + ["tsconfig.base.json"]
    ensures OwnFace(ws, config) == Some(Client) <==>
            || (exists dir :: config == dir + ["tsconfig.client.json"])
            || config == ws.root + ["tsconfig.base.client.json"]
  {
    LastIs(config, "tsconfig.host.json");
    LastIs(config, "tsconfig.client.json");
    LastIs(ws.root + ["tsconfig.base.json"], "tsconfig.client.json");
  }

  lemma LastIs(p: Path, name: string)
    ensures (exists dir :: p == dir + [name]) <==> p != [] && p[|p| - 1] == name
  {
    if p != [] && p[|p| - 1] == name {
      assert p == p[..|p| - 1] + [name];
    }
  }

  lemma SplitIff(ws: Workspace, dir: Path)
    ensures IsSplit(ws, dir) <==> dir + ["tsconfig.host.json"] in ws.files && dir + ["tsconfig.client.json"] in ws.files
  {
  }

  predicate IsConfig(ws: Workspace, p: Path) {
    p in ws.files && ws.files[p].Config?
  }

  datatype FaceResult = Known(face: Face) | Faceless | Fails(config: Path)

  /** `projectFace` */
  function ProjectFace(ws: Workspace, config: Path, seen: set<Path>): (r: FaceResult)
    requires IsConfig(ws, config)
    decreases |ws.files.Keys - seen|
  {
    if OwnFace(ws, config).Some? then Known(OwnFace(ws, config).value)
    else if config in seen then Faceless
    else
      var parent := LocalExtends(config, ws.files[config].extending);
      if parent.None? || parent.value !in ws.files then Faceless
      else if !IsConfig(ws, parent.value) then Fails(parent.value)
      else
        FewerLeft(ws.files.Keys, seen, config);
        ProjectFace(ws, parent.value, seen + {config})
  }

  lemma FewerLeft<T>(all: set<T>, seen: set<T>, x: T)
    requires x in all && x !in seen
    ensures |all - (seen + {x})| < |all - seen|
  {
    assert all - seen == (all - (seen + {x})) + {x};
  }

  /** The config this one extends, if it is a local file that exists. */
  function Parent(ws: Workspace, config: Path): Option<Path> {
    if !IsConfig(ws, config) then None
    else
      var parent := LocalExtends(config, ws.files[config].extending);
      if parent.Some? && parent.value in ws.files then parent else None
  }

  /** Following at most n `extends` links leads to the first config with a face of its own, and that is f. */
  predicate FaceWithin(ws: Workspace, config: Path, f: Face, n: nat)
    decreases n
  {
    if OwnFace(ws, config).Some? then OwnFace(ws, config).value == f
    else n > 0 && Parent(ws, config).Some? && FaceWithin(ws, Parent(ws, config).value, f, n - 1)
  }

  /** The first config along the `extends` chain with a face of its own has face f. */
  ghost predicate HasFace(ws: Workspace, config: Path, f: Face) {
    exists n: nat :: FaceWithin(ws, config, f, n)
  }

  lemma {:induction false} OneFace(ws: Workspace, config: Path, m: nat, n: nat)
    ensures !(FaceWithin(ws, config, Host, m) && FaceWithin(ws, config, Client, n))
    decreases m
  {
    if OwnFace(ws, config).None? && m > 0 && n > 0 && Parent(ws, config).Some? {
      OneFace(ws, Parent(ws, config).value, m - 1, n - 1);
    }
  }

  lemma {:induction false} KnownIsFace(ws: Workspace, config: Path, seen: set<Path>) returns (n: nat)
    requires IsConfig(ws, config) && ProjectFace(ws, config, seen).Known?
    ensures FaceWithin(ws, config, ProjectFace(ws, config, seen).face, n)
    decreases |ws.files.Keys - seen|
  {
    n := 0;
    if OwnFace(ws, config).None? {
      FewerLeft(ws.files.Keys, seen, config);
      n := KnownIsFace(ws, Parent(ws, config).value, seen + {config});
      n := n + 1;
    }
  }

  /** Where the search found no face, a chain to one would have to pass a config seen before. */
  lemma {:induction false} FacelessChain(ws: Workspace, config: Path, seen: set<Path>, f: Face, n: nat)
    returns (s: Path, m: nat)
    requires IsConfig(ws, config) && ProjectFace(ws, config, seen).Faceless?
    requires FaceWithin(ws, config, f, n)
    ensures s in seen && m <= n && FaceWithin(ws, s, f, m)
    decreases n
  {
    s, m := config, n;
    if config !in seen {
      s, m := FacelessChain(ws, Parent(ws, config).value, seen + {config}, f, n - 1);
      if s == config {
        s, m := FacelessChain(ws, config, seen, f, m);
      }
    }
  }

  /** The guard against circular `extends` never hides a face. */
  lemma FaceIsExact(ws: Workspace, config: Path, f: Face)
    requires IsConfig(ws, config) && !ProjectFace(ws, config, {}).Fails?
    ensures ProjectFace(ws, config, {}) == Known(f) <==> HasFace(ws, config, f)
  {
    var r := ProjectFace(ws, config, {});
    if r.Known? {
      var n := KnownIsFace(ws, config, {});
      if HasFace(ws, config, f) && r.face != f {
        var m: nat :| FaceWithin(ws, config, f, m);
        if f == Host {
          OneFace(ws, config, m, n);
        } else {
          OneFace(ws, config, n, m);
        }
      }
    } else if HasFace(ws, config, f) {
      var n: nat :| FaceWithin(ws, config, f, n);
      var s, m := FacelessChain(ws, config, {}, f, n);
    }
  }

  /* ---- Reference edges ---- */

  /** What the loop makes of one reference. */
  datatype Verdict =
    | Follows(target: Path)
    | NoFaceEntersSplit(splitRoot: Path)
    | WrongLeaf(splitRoot: Path, expected: Path)
    | ClientFromHost(target: Path)
    | Breaks(file: Path)

  /** A violation names the config, the reference as written, and the reason. */
  datatype Violation = Violation(config: Path, reference: string, reason: Verdict)

  datatype Report = Report(violations: seq<Violation>) | Throws(file: Path)

  /** The last two steps for a reference that keeps to split projects: read the target and compare faces. */
  function JudgeTarget(ws: Workspace, face: FaceResult, target: Path): Verdict {
    if !IsConfig(ws, target) then Breaks(target)
    else
      var targetFace := ProjectFace(ws, target, {});
      if targetFace.Fails? then Breaks(targetFace.config)
      else if face == Known(Host) && targetFace == Known(Client) then ClientFromHost(target)
      else Follows(target)
  }

  /** The loop body for one reference of a config whose face is known. */
  function Judge(ws: Workspace, config: Path, face: FaceResult, reference: string): Verdict {
    var target := ReferencePath(config, reference);
    var splitRoot := Containing(SplitRoots(ws), target);
    if splitRoot.Some? && !face.Known? then NoFaceEntersSplit(splitRoot.value)
    else if splitRoot.Some? && target != splitRoot.value + [Leaf(face.face)]
    then WrongLeaf(splitRoot.value, splitRoot.value + [Leaf(face.face)])
    else JudgeTarget(ws, face, target)
  }

  /** The rule: inside a split project only the leaf of the referencing config's own face, and no
      Client config from a Host config. */
  ghost predicate Obeys(ws: Workspace, config: Path, reference: string) {
    var target := ReferencePath(config, reference);
    && (forall dir :: Innermost(ws, dir, target) ==> exists f :: HasFace(ws, config, f) && target == dir + [Leaf(f)])
    && !(HasFace(ws, config, Host) && HasFace(ws, target, Client))
  }

  lemma JudgeTargetIsRule(ws: Workspace, config: Path, target: Path)
    requires IsConfig(ws, config) && !ProjectFace(ws, config, {}).Fails?
    requires !JudgeTarget(ws, ProjectFace(ws, config, {}), target).Breaks?
    ensures JudgeTarget(ws, ProjectFace(ws, config, {}), target).Follows? <==>
            !(HasFace(ws, config, Host) && HasFace(ws, target, Client))
  {
    FaceIsExact(ws, config, Host);
    FaceIsExact(ws, target, Client);
  }

  /** A reference is followed exactly if it obeys the rule. */
  lemma JudgeIsRule(ws: Workspace, config: Path, reference: string)
    requires IsConfig(ws, config) && !ProjectFace(ws, config, {}).Fails?
    requires !Judge(ws, config, ProjectFace(ws, config, {}), reference).Breaks?
    ensures Judge(ws, config, ProjectFace(ws, config, {}), reference).Follows? <==> Obeys(ws, config, reference)
  {
    var target, face := ReferencePath(config, reference), ProjectFace(ws, config, {});
    var splitRoot := Containing(SplitRoots(ws), target);
    ContainingIsInnermost(ws, target);
    forall f
      ensures face == Known(f) <==> HasFace(ws, config, f)
    {
      FaceIsExact(ws, config, f);
    }
    if splitRoot.Some? {
      assert Innermost(ws, splitRoot.value, target);
      assert (forall dir :: Innermost(ws, dir, target) ==>
        exists f :: HasFace(ws, config, f) && target == dir + [Leaf(f)])
        <==> face.Known? && target == splitRoot.value + [Leaf(face.face)];
    }
    if Judge(ws, config, face, reference) == JudgeTarget(ws, face, target) {
      JudgeTargetIsRule(ws, config, target);
    }
  }

  /* ---- One config ---- */

  /** `projectReferences` */
  function References(references: seq<Option<string>>): seq<string> {
    if references == [] then []
    else if references[0].None? then References(references[1..])
    else [references[0].value] + References(references[1..])
  }

  /** The references that are texts, in order. */
  lemma {:induction false} ReferencesConcat(a: seq<Option<string>>, b: seq<Option<string>>, text: string)
    ensures References(a + b) == References(a) + References(b)
    ensures References([Some(text)]) == [text] && References([None]) == []
    decreases |a|
  {
    if a == [] {
      assert a + b == b;
    } else {
      ReferencesConcat(a[1..], b, text);
      assert (a + b)[1..] == a[1..] + b;
    }
  }

  function ReferencesOf(ws: Workspace, config: Path): seq<string>
    requires IsConfig(ws, config)
  {
    References(ws.files[config].references)
  }

  function JudgeFor(ws: Workspace, config: Path, reference: string): Verdict
    requires IsConfig(ws, config)
  {
    Judge(ws, config, ProjectFace(ws, config, {}), reference)
  }

  /** The targets the given references of the config lead on to. */
  function Targets(ws: Workspace, config: Path, references: seq<string>): seq<Path>
    requires IsConfig(ws, config)
  {
    if references == [] then []
    else
      var rest, verdict :=
        Targets(ws, config, references[..|references| - 1]), JudgeFor(ws, config, references[|references| - 1]);
      if verdict.Follows? then rest + [verdict.target] else rest
  }

  /** The violations among the given references of the config, in order. */
  function Wrongs(ws: Workspace, config: Path, references: seq<string>): seq<Violation>
    requires IsConfig(ws, config)
  {
    if references == [] then []
    else
      var last := references[|references| - 1];
      var rest, verdict := Wrongs(ws, config, references[..|references| - 1]), JudgeFor(ws, config, last);
      if verdict.Follows? || verdict.Breaks? then rest else rest + [Violation(config, last, verdict)]
  }

  /** All targets the config leads on to. */
  function Next(ws: Workspace, config: Path): seq<Path> {
    if IsConfig(ws, config) then Targets(ws, config, ReferencesOf(ws, config)) else []
  }

  /** All violations of the config. */
  function WrongsIn(ws: Workspace, config: Path): seq<Violation> {
    if IsConfig(ws, config) then Wrongs(ws, config, ReferencesOf(ws, config)) else []
  }

  /** The config can be read, and its face and those of the targets it may name can be found. */
  predicate Sound(ws: Workspace, config: Path) {
    && IsConfig(ws, config) && !ProjectFace(ws, config, {}).Fails?
    && forall r :: r in ReferencesOf(ws, config) ==> !JudgeFor(ws, config, r).Breaks?
  }

  lemma {:induction false} TargetsAreFollowed(ws: Workspace, config: Path, references: seq<string>, t: Path)
    requires IsConfig(ws, config)
    ensures t in Targets(ws, config, references) <==>
            exists r :: r in references && JudgeFor(ws, config, r) == Follows(t)
  {
    if references != [] {
      var front, last := references[..|references| - 1], references[|references| - 1];
      assert references == front + [last];
      TargetsAreFollowed(ws, config, front, t);
    }
  }

  /** A violation of the config through this reference. */
  predicate Violates(ws: Workspace, config: Path, reference: string, v: Violation)
    requires IsConfig(ws, config)
  {
    && v == Violation(config, reference, JudgeFor(ws, config, reference))
    && !v.reason.Follows? && !v.reason.Breaks?
  }

  lemma ViolatesNames(ws: Workspace, config: Path, reference: string, v: Violation)
    requires IsConfig(ws, config)
    ensures Violates(ws, config, reference, v) ==> v.reference == reference
  {
  }

  lemma WrongsSnoc(ws: Workspace, config: Path, references: seq<string>, r: string, v: Violation)
    requires IsConfig(ws, config)
    ensures v in Wrongs(ws, config, references + [r]) <==>
      v in Wrongs(ws, config, references) || Violates(ws, config, r, v)
  {
    assert (references + [r])[..|references|] == references;
  }

  lemma {:induction false} WrongsAreViolations(ws: Workspace, config: Path, references: seq<string>, v: Violation)
    requires IsConfig(ws, config)
    ensures v in Wrongs(ws, config, references) <==> v.reference in references && Violates(ws, config, v.reference, v)
  {
    if references != [] {
      var front, last := references[..|references| - 1], references[|references| - 1];
      WrongsAreViolations(ws, config, front, v);
      WrongsSnoc(ws, config, front, last, v);
      SplitLast(references);
      InSnoc(front, last, v.reference);
      ViolatesNames(ws, config, last, v);
    }
  }

  /** How far the inner loop has come: none of these references breaks. */
  predicate Examined(ws: Workspace, config: Path, references: seq<string>, targets: seq<Path>,
                     violations: seq<Violation>) {
    && IsConfig(ws, config)
    && targets == Targets(ws, config, references)
    && violations == Wrongs(ws, config, references)
    && forall r :: r in references ==> !JudgeFor(ws, config, r).Breaks?
  }

  lemma ExaminedStep(ws: Workspace, config: Path, references: seq<string>, r: string, targets: seq<Path>,
                     violations: seq<Violation>)
    requires Examined(ws, config, references, targets, violations) && !JudgeFor(ws, config, r).Breaks?
    ensures var verdict := JudgeFor(ws, config, r);
            Examined(ws, config, references + [r],
                     if verdict.Follows? then targets + [verdict.target] else targets,
                     if verdict.Follows? then violations else violations + [Violation(config, r, verdict)])
  {
    assert (references + [r])[..|references|] == references;
  }

  /** The inner loop: the references of one config, until one breaks. */
  method Examine(ws: Workspace, config: Path)
    returns (broken: Option<Path>, targets: seq<Path>, violations: seq<Violation>)
    requires IsConfig(ws, config)
    ensures broken.None? <==> Sound(ws, config)
    ensures broken.None? ==> targets == Next(ws, config) && violations == WrongsIn(ws, config)
  {
    targets, violations := [], [];
    var face, references := ProjectFace(ws, config, {}), ReferencesOf(ws, config);
    if face.Fails? {
      return Some(face.config), [], [];
    }
    for i := 0 to |references|
      invariant Examined(ws, config, references[..i], targets, violations)
    {
      var verdict := Judge(ws, config, face, references[i]);
      if verdict.Breaks? {
        assert references[i] in ReferencesOf(ws, config);
        return Some(verdict.file), [], [];
      }
      ExaminedStep(ws, config, references[..i], references[i], targets, violations);
      TakeNext(references, i);
      if verdict.Follows? {
        targets := targets + [verdict.target];
      } else {
        violations := violations + [Violation(config, references[i], verdict)];
      }
    }
    assert references[..|references|] == references;
    broken := None;
  }

  /* ---- The traversal ---- */

  /** The aggregate configs of both faces. */
  function Starts(ws: Workspace): seq<Path> {
    [ws.root + [Leaf(Host)], ws.root + [Leaf(Client)]]
  }

  /** The edges the traversal follows. */
  ghost function FollowGraph(ws: Workspace): Graph<Path> {
    map p | p in ws.files && Sound(ws, p) :: Next(ws, p)
  }

  /** All reference edges. */
  ghost function ReferenceGraph(ws: Workspace): Graph<Path> {
    map p | p in ws.files && IsConfig(ws, p) :: ReferenceTargets(p, ReferencesOf(ws, p))
  }

  function ReferenceTargets(config: Path, references: seq<string>): (r: seq<Path>)
    ensures forall t :: t in r <==> exists ref :: ref in references && t == ReferencePath(config, ref)
  {
    if references == [] then []
    else
      assert references == [references[0]] + references[1..];
      [ReferencePath(config, references[0])] + ReferenceTargets(config, references[1..])
  }

  /** The traversal begins with the two aggregate configs of the root. */
  lemma StartsAre(ws: Workspace)
    ensures Starts(ws) == [ws.root + ["tsconfig.host.json"], ws.root + ["tsconfig.client.json"]]
  {
  }

  ghost predicate ReachableIn(g: Graph<Path>, ws: Workspace, p: Path) {
    p in ws.files && exists s :: s in Starts(ws) && Reaches(g, s, p)
  }

  predicate NoRepeats(order: seq<Path>) {
    forall i, j :: 0 <= i < j < |order| ==> order[i] != order[j]
  }

  /** The violations of the configs, config by config. */
  function WrongsOf(ws: Workspace, order: seq<Path>): seq<Violation> {
    if order == [] then []
    else
      var front, last := order[..|order| - 1], order[|order| - 1];
      WrongsOf(ws, front) + WrongsIn(ws, last)
  }

  /** What every pass through the loop keeps. */
  ghost predicate Traversal(ws: Workspace, pending: seq<Path>, order: seq<Path>, violations: seq<Violation>) {
    && NoRepeats(order)
    && (forall p :: p in order ==> Sound(ws, p) && ReachableIn(FollowGraph(ws), ws, p))
    && (forall p :: p in pending && p in ws.files ==> ReachableIn(FollowGraph(ws), ws, p))
    && (forall s :: s in Starts(ws) && s in ws.files ==> s in order || s in pending)
    && (forall p, t :: p in order && t in Next(ws, p) ==> t in order || t in pending)
    && violations == WrongsOf(ws, order)
  }

  lemma TraversalStarts(ws: Workspace)
    ensures Traversal(ws, Starts(ws), [], [])
  {
    forall s | s in Starts(ws)
      ensures Reaches(FollowGraph(ws), s, s)
    {
      ReachesSelf(FollowGraph(ws), s);
    }
  }

  lemma TargetsExist(ws: Workspace, p: Path, t: Path)
    requires t in Next(ws, p)
    ensures t in ws.files
  {
    TargetsAreFollowed(ws, p, ReferencesOf(ws, p), t);
    var r :| r in ReferencesOf(ws, p) && JudgeFor(ws, p, r) == Follows(t);
    FollowedExists(ws, p, ProjectFace(ws, p, {}), r);
  }

  lemma FollowedExists(ws: Workspace, p: Path, face: FaceResult, r: string)
    ensures Judge(ws, p, face, r).Follows? ==> Judge(ws, p, face, r).target in ws.files
  {
  }

  /** A config that was seen, or does not exist, is dropped. */
  lemma TraversalDrops(ws: Workspace, pending: seq<Path>, p: Path, order: seq<Path>, violations: seq<Violation>)
    requires Traversal(ws, pending + [p], order, violations) && (p in order || p !in ws.files)
    ensures Traversal(ws, pending, order, violations)
  {
    forall q, t | q in order && t in Next(ws, q)
      ensures t in order || t in pending
    {
      TargetsExist(ws, q, t);
      assert t in order || t in pending + [p];
    }
    forall q | q in pending && q in ws.files
      ensures ReachableIn(FollowGraph(ws), ws, q)
    {
      assert q in pending + [p];
    }
  }

  lemma TargetsAreReachable(ws: Workspace, p: Path)
    requires Sound(ws, p) && ReachableIn(FollowGraph(ws), ws, p)
    ensures forall t :: t in Next(ws, p) ==> ReachableIn(FollowGraph(ws), ws, t)
  {
    var g := FollowGraph(ws);
    var s :| s in Starts(ws) && Reaches(g, s, p);
    forall t | t in Next(ws, p)
      ensures ReachableIn(g, ws, t)
    {
      TargetsExist(ws, p, t);
      assert Edge(g, p, t);
      ReachesThenEdge(g, s, p, t);
    }
  }

  lemma WrongsOfSnoc(ws: Workspace, order: seq<Path>, p: Path)
    ensures WrongsOf(ws, order + [p]) == WrongsOf(ws, order) + WrongsIn(ws, p)
  {
    assert (order + [p])[..|order|] == order;
  }

  lemma TraversalVisits(ws: Workspace, pending: seq<Path>, p: Path, order: seq<Path>, violations: seq<Violation>)
    requires Traversal(ws, pending + [p], order, violations) && p !in order && Sound(ws, p)
    ensures Traversal(ws, pending + Next(ws, p), order + [p], violations + WrongsIn(ws, p))
  {
    assert p in pending + [p];
    TargetsAreReachable(ws, p);
    WrongsOfSnoc(ws, order, p);
    forall q | q in pending && q in ws.files
      ensures ReachableIn(FollowGraph(ws), ws, q)
    {
      assert q in pending + [p];
    }
    forall q, t | q in order && t in Next(ws, q)
      ensures t in order + [p] || t in pending
    {
      assert t in order || t in pending + [p];
    }
    forall s | s in Starts(ws) && s in ws.files
      ensures s in order + [p] || s in pending
    {
      assert s in order || s in pending + [p];
    }
  }

  /** The configs the traversal reaches, each once, and their violations. */
  ghost predicate Covers(ws: Workspace, order: seq<Path>, violations: seq<Violation>) {
    && NoRepeats(order)
    && (forall p :: p in order ==> Sound(ws, p))
    && (forall p :: p in order <==> ReachableIn(FollowGraph(ws), ws, p))
    && violations == WrongsOf(ws, order)
  }

  ghost predicate Correct(ws: Workspace, r: Report) {
    match r
    case Throws(_) => exists p :: ReachableIn(FollowGraph(ws), ws, p) && !Sound(ws, p)
    case Report(violations) => exists order :: Covers(ws, order, violations)
  }

  lemma ClosedHoldsReachable(g: Graph<Path>, ws: Workspace, order: seq<Path>, p: Path)
    requires forall a, b :: a in order && Edge(g, a, b) ==> b in order
    requires forall a :: a in g ==> a in ws.files
    requires forall s :: s in Starts(ws) && s in ws.files ==> s in order
    requires ReachableIn(g, ws, p)
    ensures p in order
  {
    var start :| start in Starts(ws) && Reaches(g, start, p);
    var walk :| Walk(g, walk) && walk[0] == start && walk[|walk| - 1] == p;
    if |walk| > 1 {
      assert Edge(g, walk[0], walk[1]);
    }
    ClosedSetHoldsWalk(g, (set q | q in order), walk);
  }

  lemma TraversalEnds(ws: Workspace, order: seq<Path>, violations: seq<Violation>)
    requires Traversal(ws, [], order, violations)
    ensures Covers(ws, order, violations)
  {
    forall p | ReachableIn(FollowGraph(ws), ws, p)
      ensures p in order
    {
      ClosedHoldsReachable(FollowGraph(ws), ws, order, p);
    }
  }

  /** `collectProjectReferenceFaceViolations`, up to the text and order of its messages. */
  method CollectViolations(ws: Workspace) returns (r: Report)
    ensures Correct(ws, r)
  {
    var pending, visited: set<Path>, violations := Starts(ws), {}, [];
    ghost var order: seq<Path> := [];
    TraversalStarts(ws);
    while pending != []
      invariant Traversal(ws, pending, order, violations)
      invariant visited <= ws.files.Keys && forall p :: p in visited <==> p in order
      decreases |ws.files.Keys - visited|, |pending|
    {
      var config := pending[|pending| - 1];
      ghost var before := pending;
      pending := pending[..|pending| - 1];
      SplitLast(before);
      if config in visited || config !in ws.files {
        TraversalDrops(ws, pending, config, order, violations);
        continue;
      }
      if !IsConfig(ws, config) {
        return Throws(config);
      }
      var broken, targets, wrongs := Examine(ws, config);
      if broken.Some? {
        return Throws(broken.value);
      }
      TraversalVisits(ws, pending, config, order, violations);
      FewerLeft(ws.files.Keys, visited, config);
      visited, order := visited + {config}, order + [config];
      pending, violations := pending + targets, violations + wrongs;
    }
    TraversalEnds(ws, order, violations);
    r := Report(violations);
  }

  /* ---- What an empty report means ---- */

  lemma FollowedTarget(ws: Workspace, a: Path, b: Path)
    requires b in Next(ws, a)
    ensures exists r :: r in ReferencesOf(ws, a) && b == ReferencePath(a, r)
  {
    TargetsAreFollowed(ws, a, ReferencesOf(ws, a), b);
    var r :| r in ReferencesOf(ws, a) && JudgeFor(ws, a, r) == Follows(b);
    FollowsItsTarget(ws, a, ProjectFace(ws, a, {}), r);
  }

  lemma FollowsItsTarget(ws: Workspace, a: Path, face: FaceResult, r: string)
    ensures Judge(ws, a, face, r).Follows? ==> Judge(ws, a, face, r).target == ReferencePath(a, r)
  {
  }

  lemma FollowedEdge(ws: Workspace, a: Path, b: Path)
    requires Edge(FollowGraph(ws), a, b)
    ensures Edge(ReferenceGraph(ws), a, b)
  {
    assert b in Next(ws, a);
    FollowedTarget(ws, a, b);
  }

  lemma FollowedWalk(ws: Workspace, p: seq<Path>)
    requires Walk(FollowGraph(ws), p)
    ensures Walk(ReferenceGraph(ws), p)
  {
    forall i | 0 < i < |p|
      ensures Edge(ReferenceGraph(ws), p[i - 1], p[i])
    {
      FollowedEdge(ws, p[i - 1], p[i]);
    }
  }

  lemma {:induction false} WrongsOfHolds(ws: Workspace, order: seq<Path>, p: Path, v: Violation)
    requires p in order && v in WrongsIn(ws, p)
    ensures v in WrongsOf(ws, order)
  {
    var front, last := order[..|order| - 1], order[|order| - 1];
    SplitLast(order);
    InSnoc(front, last, p);
    if p != last {
      WrongsOfHolds(ws, front, p, v);
    }
  }

  lemma WrongsNameConfig(ws: Workspace, p: Path, v: Violation)
    requires v in WrongsIn(ws, p)
    ensures v.config == p
  {
    WrongsAreViolations(ws, p, ReferencesOf(ws, p), v);
  }

  lemma {:induction false} WrongsOfComesFrom(ws: Workspace, order: seq<Path>, v: Violation)
    requires v in WrongsOf(ws, order)
    ensures v.config in order && v in WrongsIn(ws, v.config)
  {
    var front, last := order[..|order| - 1], order[|order| - 1];
    assert last in order;
    if v in WrongsIn(ws, last) {
      WrongsNameConfig(ws, last, v);
    } else {
      WrongsOfComesFrom(ws, front, v);
    }
  }

  /** Every reference of every config that can be reached at all, followed or not, obeys the rule. */
  ghost predicate RuleHolds(ws: Workspace) {
    forall p, r :: ReachableIn(ReferenceGraph(ws), ws, p) && IsConfig(ws, p) && r in ReferencesOf(ws, p) ==>
      Obeys(ws, p, r)
  }

  lemma CleanConfig(ws: Workspace, p: Path, r: string)
    requires Sound(ws, p) && WrongsIn(ws, p) == [] && r in ReferencesOf(ws, p)
    ensures Obeys(ws, p, r) && ReferencePath(p, r) in Next(ws, p)
  {
    var v := Violation(p, r, JudgeFor(ws, p, r));
    WrongsAreViolations(ws, p, ReferencesOf(ws, p), v);
    assert JudgeFor(ws, p, r).Follows?;
    JudgeIsRule(ws, p, r);
    TargetsAreFollowed(ws, p, ReferencesOf(ws, p), ReferencePath(p, r));
  }

  lemma NoWrongs(ws: Workspace, order: seq<Path>, p: Path)
    requires WrongsOf(ws, order) == [] && p in order
    ensures WrongsIn(ws, p) == []
  {
    if WrongsIn(ws, p) != [] {
      WrongsOfHolds(ws, order, p, WrongsIn(ws, p)[0]);
    }
  }

  lemma EmptyReportHasRule(ws: Workspace, order: seq<Path>)
    requires Covers(ws, order, [])
    ensures RuleHolds(ws)
  {
    var full := ReferenceGraph(ws);
    forall a, b | a in order && Edge(full, a, b)
      ensures b in order
    {
      var r :| r in ReferencesOf(ws, a) && b == ReferencePath(a, r);
      NoWrongs(ws, order, a);
      CleanConfig(ws, a, r);
      TargetsAreReachable(ws, a);
    }
    forall s | s in Starts(ws) && s in ws.files
      ensures s in order
    {
      ReachesSelf(FollowGraph(ws), s);
    }
    forall p, r | ReachableIn(full, ws, p) && IsConfig(ws, p) && r in ReferencesOf(ws, p)
      ensures Obeys(ws, p, r)
    {
      ClosedHoldsReachable(full, ws, order, p);
      NoWrongs(ws, order, p);
      CleanConfig(ws, p, r);
    }
  }

  lemma RuleGivesEmptyReport(ws: Workspace, order: seq<Path>, violations: seq<Violation>)
    requires Covers(ws, order, violations) && violations != []
    ensures !RuleHolds(ws)
  {
    var v := violations[0];
    WrongsOfComesFrom(ws, order, v);
    WrongsAreViolations(ws, v.config, ReferencesOf(ws, v.config), v);
    var start :| start in Starts(ws) && Reaches(FollowGraph(ws), start, v.config);
    var walk :| Walk(FollowGraph(ws), walk) && walk[0] == start && walk[|walk| - 1] == v.config;
    FollowedWalk(ws, walk);
    assert ReachableIn(ReferenceGraph(ws), ws, v.config);
    JudgeIsRule(ws, v.config, v.reference);
  }

  /** The report is empty exactly if every reference of every reachable config obeys the rule,
      although the traversal does not enter what a wrong reference leads to. */
  lemma EmptyReportMeansRule(ws: Workspace, violations: seq<Violation>)
    requires Correct(ws, Report(violations))
    ensures violations == [] <==> RuleHolds(ws)
  {
    var order :| Covers(ws, order, violations);
    if violations == [] {
      EmptyReportHasRule(ws, order);
    } else {
      RuleGivesEmptyReport(ws, order, violations);
    }
  }

  /* ---- What a report says ---- */

  /** Why the reference breaks the rule, if it does: in the order of the checks. */
  ghost predicate IsReason(ws: Workspace, config: Path, reference: string, reason: Verdict) {
    var target := ReferencePath(config, reference);
    match reason
    case NoFaceEntersSplit(dir) =>
      Innermost(ws, dir, target) && !HasFace(ws, config, Host) && !HasFace(ws, config, Client)
    case WrongLeaf(dir, expected) =>
      && Innermost(ws, dir, target) && target != expected
      && ((HasFace(ws, config, Host) && expected == dir + ["tsconfig.host.json"]) ||
          (HasFace(ws, config, Client) && expected == dir + ["tsconfig.client.json"]))
    case ClientFromHost(t) =>
      && t == target && HasFace(ws, config, Host) && HasFace(ws, target, Client)
      && forall dir :: Innermost(ws, dir, target) ==> target == dir + ["tsconfig.host.json"]
    case Follows(_) => false
    case Breaks(_) => false
  }

  lemma FaceFrom(r: FaceResult, host: bool, client: bool)
    requires !r.Fails? && (r == Known(Host) <==> host) && (r == Known(Client) <==> client)
    ensures r == (if host then Known(Host) else if client then Known(Client) else Faceless) && !(host && client)
  {
    match r
    case Known(face) => assert face == Host || face == Client;
    case Faceless =>
  }

  lemma KnownFace(ws: Workspace, config: Path)
    requires IsConfig(ws, config) && !ProjectFace(ws, config, {}).Fails?
    ensures ProjectFace(ws, config, {}) ==
      if HasFace(ws, config, Host) then Known(Host) else if HasFace(ws, config, Client) then Known(Client) else Faceless
    ensures !(HasFace(ws, config, Host) && HasFace(ws, config, Client))
  {
    FaceIsExact(ws, config, Host);
    FaceIsExact(ws, config, Client);
    FaceFrom(ProjectFace(ws, config, {}), HasFace(ws, config, Host), HasFace(ws, config, Client));
  }

  lemma EnteringReason(ws: Workspace, config: Path, reference: string, root: Path, reason: Verdict)
    requires forall dir :: Innermost(ws, dir, ReferencePath(config, reference)) <==> dir == root
    requires !HasFace(ws, config, Host) && !HasFace(ws, config, Client)
    ensures IsReason(ws, config, reference, reason) <==> reason == NoFaceEntersSplit(root)
  {
  }

  lemma LeafReason(ws: Workspace, config: Path, reference: string, root: Path, face: Face, reason: Verdict)
    requires forall dir :: Innermost(ws, dir, ReferencePath(config, reference)) <==> dir == root
    requires ReferencePath(config, reference) != root + [Leaf(face)]
    requires (HasFace(ws, config, Host) <==> face == Host) && (HasFace(ws, config, Client) <==> face == Client)
    ensures IsReason(ws, config, reference, reason) <==> reason == WrongLeaf(root, root + [Leaf(face)])
  {
    assert Innermost(ws, root, ReferencePath(config, reference));
  }

  lemma TargetReason(ws: Workspace, config: Path, reference: string, splitRoot: Option<Path>, reason: Verdict)
    requires forall dir :: Innermost(ws, dir, ReferencePath(config, reference)) <==> splitRoot == Some(dir)
    requires !(HasFace(ws, config, Host) && HasFace(ws, config, Client))
    requires splitRoot.Some? ==> HasFace(ws, config, Host) || HasFace(ws, config, Client)
    requires splitRoot.Some? && HasFace(ws, config, Host) ==>
      ReferencePath(config, reference) == splitRoot.value + ["tsconfig.host.json"]
    requires splitRoot.Some? && HasFace(ws, config, Client) ==>
      ReferencePath(config, reference) == splitRoot.value + ["tsconfig.client.json"]
    ensures IsReason(ws, config, reference, reason) <==>
      && reason == ClientFromHost(ReferencePath(config, reference))
      && HasFace(ws, config, Host) && HasFace(ws, ReferencePath(config, reference), Client)
  {
  }

  /** The reason a judgement of a readable config gives is the case, and no other is. */
  ghost predicate GivesReason(ws: Workspace, config: Path, reference: string, verdict: Verdict, reason: Verdict) {
    verdict == reason && !reason.Follows? <==> IsReason(ws, config, reference, reason)
  }

  lemma JudgedEntering(ws: Workspace, config: Path, reference: string, root: Path, face: FaceResult, reason: Verdict)
    requires forall dir :: Innermost(ws, dir, ReferencePath(config, reference)) <==> dir == root
    requires Containing(SplitRoots(ws), ReferencePath(config, reference)) == Some(root)
    requires face == if HasFace(ws, config, Host) then Known(Host)
                     else if HasFace(ws, config, Client) then Known(Client) else Faceless
    requires !(HasFace(ws, config, Host) && HasFace(ws, config, Client))
    requires face.Known? ==> ReferencePath(config, reference) != root + [Leaf(face.face)]
    ensures GivesReason(ws, config, reference, Judge(ws, config, face, reference), reason)
  {
    if face.Known? {
      LeafReason(ws, config, reference, root, face.face, reason);
    } else {
      EnteringReason(ws, config, reference, root, reason);
    }
  }

  lemma JudgedTarget(ws: Workspace, config: Path, reference: string, splitRoot: Option<Path>, face: FaceResult,
                     reason: Verdict)
    requires forall dir :: Innermost(ws, dir, ReferencePath(config, reference)) <==> splitRoot == Some(dir)
    requires face == if HasFace(ws, config, Host) then Known(Host)
                     else if HasFace(ws, config, Client) then Known(Client) else Faceless
    requires !(HasFace(ws, config, Host) && HasFace(ws, config, Client))
    requires splitRoot.Some? ==> face.Known? && ReferencePath(config, reference) == splitRoot.value + [Leaf(face.face)]
    requires !JudgeTarget(ws, face, ReferencePath(config, reference)).Breaks?
    ensures GivesReason(ws, config, reference, JudgeTarget(ws, face, ReferencePath(config, reference)), reason)
  {
    KnownFace(ws, ReferencePath(config, reference));
    TargetReason(ws, config, reference, splitRoot, reason);
  }

  lemma JudgedReason(ws: Workspace, config: Path, reference: string, reason: Verdict)
    requires IsConfig(ws, config) && !ProjectFace(ws, config, {}).Fails? && !JudgeFor(ws, config, reference).Breaks?
    ensures GivesReason(ws, config, reference, JudgeFor(ws, config, reference), reason)
  {
    var target, face := ReferencePath(config, reference), ProjectFace(ws, config, {});
    KnownFace(ws, config);
    ContainingIsInnermost(ws, target);
    var splitRoot := Containing(SplitRoots(ws), target);
    if splitRoot.Some? && (!face.Known? || target != splitRoot.value + [Leaf(face.face)]) {
      JudgedEntering(ws, config, reference, splitRoot.value, face, reason);
    } else {
      assert Judge(ws, config, face, reference) == JudgeTarget(ws, face, target);
      JudgedTarget(ws, config, reference, splitRoot, face, reason);
    }
  }

  /** A config that is reached reports a reference for a reason iff the reason is the case. */
  lemma ReportMeaning(ws: Workspace, order: seq<Path>, violations: seq<Violation>, config: Path, reference: string,
                      reason: Verdict)
    requires Covers(ws, order, violations)
    requires ReachableIn(FollowGraph(ws), ws, config)
    ensures IsConfig(ws, config)
    ensures Violation(config, reference, reason) in violations <==>
            reference in ReferencesOf(ws, config) && IsReason(ws, config, reference, reason)
  {
    var v := Violation(config, reference, reason);
    assert config in order && Sound(ws, config);
    WrongsAreViolations(ws, config, ReferencesOf(ws, config), v);
    if reference in ReferencesOf(ws, config) {
      JudgedReason(ws, config, reference, reason);
    }
    if v in violations {
      WrongsOfComesFrom(ws, order, v);
    } else if v in WrongsIn(ws, config) {
      WrongsOfHolds(ws, order, config, v);
    }
  }

  /** A config that extends the Client base, and has no face of its own, is a Client project. */
  lemma ExtendsClientBase(ws: Workspace, config: Path)
    requires IsConfig(ws, config) && OwnFace(ws, config).None?
    requires Parent(ws, config) == Some(ws.root + ["tsconfig.base.client.json"])
    ensures HasFace(ws, config, Client)
  {
    OwnFaceIff(ws, ws.root + ["tsconfig.base.client.json"]);
    assert FaceWithin(ws, ws.root + ["tsconfig.base.client.json"], Client, 0);
    assert FaceWithin(ws, config, Client, 1);
  }

  /** The Host aggregate may not refer to such a project outside all split projects. */
  lemma ClientBaseIsReported(ws: Workspace, order: seq<Path>, violations: seq<Violation>, reference: string)
    requires Covers(ws, order, violations)
    requires var host := ws.root + ["tsconfig.host.json"]; IsConfig(ws, host) && reference in ReferencesOf(ws, host)
    requires var target := ReferencePath(ws.root + ["tsconfig.host.json"], reference);
      && IsConfig(ws, target) && OwnFace(ws, target).None? && (forall dir :: !Innermost(ws, dir, target))
      && Parent(ws, target) == Some(ws.root + ["tsconfig.base.client.json"])
    ensures var host := ws.root + ["tsconfig.host.json"];
      Violation(host, reference, ClientFromHost(ReferencePath(host, reference))) in violations
  {
    var host := ws.root + ["tsconfig.host.json"];
    var target := ReferencePath(host, reference);
    HostAggregate(ws);
    ExtendsClientBase(ws, target);
    ReportMeaning(ws, order, violations, host, reference, ClientFromHost(target));
  }

  lemma HostAggregate(ws: Workspace)
    requires ws.root + ["tsconfig.host.json"] in ws.files
    ensures var host := ws.root + ["tsconfig.host.json"];
      ReachableIn(FollowGraph(ws), ws, host) && HasFace(ws, host, Host)
  {
    var host := ws.root + ["tsconfig.host.json"];
    StartsAre(ws);
    assert host in Starts(ws);
    ReachesSelf(FollowGraph(ws), host);
    OwnFaceIff(ws, host);
    assert FaceWithin(ws, host, Host, 0);
  }
}
