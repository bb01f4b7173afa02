/** The publishing program itself, acting on a registry object: `RegistryPublication`
    and the package check of `ReleaseBundle.create`, scripts/publish-npm-baseline.ts.
    Each method is the imperative form of one function of module Publication. */
module PublicationProgram {
  import opened Options
  import opened Publication
  import opened Sequences
  import Sorting

  function StoredNames(stored: map<(string, string), string>): set<string> {
    set k | k in stored :: k.0
  }

  lemma KnownIff(r: Registry, name: string)
    ensures Known(r, name) <==> name in StoredNames(r.stored)
  {
    forall v | (name, v) in r.stored
      ensures name in StoredNames(r.stored)
    {
      assert (name, v).0 == name;
    }
    if name in StoredNames(r.stored) {
      var k :| k in r.stored && k.0 == name;
      assert k == (name, k.1);
    }
  }

  /** The npm registry behind the command line. A command either gets through, or
      the program is cut off and nothing more happens. */
  class Npm {
    var stored: map<(string, string), string>
    var tags: map<(string, string), string>
    var budget: nat

    constructor (r: Registry, commands: nat)
      ensures After(Going) == Run(r, commands, Going)
    {
      stored, tags, budget := r.stored, r.tags, commands;
    }

    ghost function After(status: Status): Run
      reads this
    {
      Run(Registry(stored, tags), budget, status)
    }

    /** Send one command. */
    method Command() returns (status: Status)
      modifies this`budget
      ensures After(status) == Send(old(After(Going)))
    {
      if budget == 0 {
        return CutOff;
      }
      budget := budget - 1;
      return Going;
    }

    /** `npm view … dist.integrity`; None for E404. */
    method View(name: string, version: string) returns (status: Status, integrity: Option<string>)
      modifies this`budget
      ensures After(status) == Send(old(After(Going)))
      ensures status.Going? ==>
        integrity == if (name, version) in stored then Some(stored[(name, version)]) else None
    {
      status := Command();
      integrity := if (name, version) in stored then Some(stored[(name, version)]) else None;
    }

    /** `npm dist-tag ls`, looked up for one tag; it fails for an unknown package. */
    method DistTag(name: string, tag: string) returns (status: Status, version: Option<string>)
      modifies this`budget
      ensures var sent := Send(old(After(Going)));
        After(status) ==
        if sent.status.Going? && !Known(sent.registry, name) then Fail(sent, UnknownPackage(name)) else sent
      ensures status.Going? ==> version == if (name, tag) in tags then Some(tags[(name, tag)]) else None
    {
      status := Command();
      KnownIff(Registry(stored, tags), name);
      if status.Going? && name !in StoredNames(stored) {
        status := Failed(UnknownPackage(name));
      }
      version := if (name, tag) in tags then Some(tags[(name, tag)]) else None;
    }

    /** `npm publish --tag` */
    method Publish(b: Bundle, p: Package) returns (status: Status)
      modifies this
      ensures var sent := Send(old(After(Going)));
        After(status) == if sent.status.Going? then sent.(registry := WithPackage(sent.registry, b, p)) else sent
    {
      status := Command();
      if status.Going? {
        stored := stored[(p.name, b.version) := p.integrity];
        tags := tags[(p.name, b.distTag) := b.version];
      }
    }

    /** `npm dist-tag add`; it fails for a version that is not stored. */
    method AddDistTag(name: string, version: string, tag: string) returns (status: Status)
      modifies this
      ensures var sent := Send(old(After(Going)));
        After(status) == if !sent.status.Going? then sent
                         else if (name, version) !in sent.registry.stored then Fail(sent, UnknownVersion(name))
                         else sent.(registry := WithTag(sent.registry, name, tag, version))
    {
      status := Command();
      if status.Going? {
        if (name, version) !in stored {
          return Failed(UnknownVersion(name));
        }
        tags := tags[(name, tag) := version];
      }
    }
  }

  class RegistryPublication {
    const bundle: Bundle
    const npm: Npm

    constructor (bundle: Bundle, npm: Npm)
      ensures this.bundle == bundle && this.npm == npm
    {
      this.bundle, this.npm := bundle, npm;
    }

    method EnsureTag(name: string, tag: string) returns (status: Status)
      modifies npm
      ensures npm.After(status) == EnsureDistTag(bundle, old(npm.After(Going)), name, tag)
    {
      var current: Option<string>;
      status, current := npm.DistTag(name, tag);
      if status.Going? && current != Some(bundle.version) {
        status := npm.AddDistTag(name, bundle.version, tag);
      }
    }

    method Store(p: Package) returns (status: Status)
      modifies npm
      ensures npm.After(status) == StorePackage(bundle, old(npm.After(Going)), p)
    {
      var existing: Option<string>;
      status, existing := npm.View(p.name, bundle.version);
      if !status.Going? {
        return;
      }
      match existing
      case None =>
        status := npm.Publish(bundle, p);
      case Some(integrity) =>
        if !Sha512(integrity) {
          status := Failed(NoIntegrity(p.name));
        } else if integrity != p.integrity {
          status := Failed(DifferentIntegrity(p.name));
        }
    }

    method CheckTag(name: string, tag: string) returns (status: Status)
      modifies npm`budget
      ensures npm.After(status) == VerifyTag(bundle, old(npm.After(Going)), name, tag)
    {
      var current: Option<string>;
      status, current := npm.DistTag(name, tag);
      if status.Going? && current != Some(bundle.version) {
        status := Failed(TagMismatch(name));
      }
    }

    method CheckPackage(p: Package) returns (status: Status)
      modifies npm`budget
      ensures npm.After(status) == VerifyPackage(bundle, old(npm.After(Going)), p)
    {
      var existing: Option<string>;
      status, existing := npm.View(p.name, bundle.version);
      if !status.Going? {
        return;
      }
      match existing
      case None =>
        status := Failed(Missing(p.name));
      case Some(integrity) =>
        if !Sha512(integrity) {
          status := Failed(NoIntegrity(p.name));
        } else if integrity != p.integrity {
          status := Failed(DifferentIntegrity(p.name));
        } else {
          status := CheckTag(p.name, bundle.distTag);
        }
    }

    /** `verifyRemote`, then `verifyReleaseEntryDistTag` */
    method CheckAll() returns (status: Status)
      modifies npm`budget
      ensures npm.After(status) == VerifyAll(bundle, old(npm.After(Going)))
    {
      ghost var start := npm.After(Going);
      status := Going;
      for i := 0 to |bundle.packages|
        invariant status.Going? && npm.After(status) == VerifyPackages(bundle, start, bundle.packages[..i])
      {
        assert bundle.packages[..i + 1][..i] == bundle.packages[..i];
        status := CheckPackage(bundle.packages[i]);
        if !status.Going? {
          StoppedVerification(bundle, start, bundle.packages, i + 1);
          return;
        }
      }
      assert bundle.packages[..|bundle.packages|] == bundle.packages;
      status := CheckTag(RELEASE_ENTRY_PACKAGE, LATEST_DIST_TAG);
    }

    method Publish() returns (status: Status)
      modifies npm
      ensures npm.After(status) == PublishRun(bundle, old(npm.After(Going)).registry, old(npm.budget))
    {
      ghost var start := Send(Send(npm.After(Going)));
      status := npm.Command();
      if status.Going? {
        status := npm.Command();
      }
      if !status.Going? {
        assert bundle.packages[..0] == [];
        StoppedPublication(bundle, start, bundle.packages, 0);
        StoppedForGood(bundle, start);
        return;
      }
      for i := 0 to |bundle.packages|
        invariant status.Going? && npm.After(status) == PublishPackages(bundle, start, bundle.packages[..i])
      {
        assert bundle.packages[..i + 1][..i] == bundle.packages[..i];
        status := Store(bundle.packages[i]);
        if status.Going? {
          status := EnsureTag(bundle.packages[i].name, bundle.distTag);
        }
        if !status.Going? {
          StoppedPublication(bundle, start, bundle.packages, i + 1);
          StoppedForGood(bundle, npm.After(status));
          return;
        }
      }
      assert bundle.packages[..|bundle.packages|] == bundle.packages;
      status := EnsureTag(RELEASE_ENTRY_PACKAGE, LATEST_DIST_TAG);
      if status.Going? {
        status := CheckAll();
      } else {
        StoppedForGood(bundle, npm.After(status));
      }
    }

    method Verify() returns (status: Status)
      modifies npm`budget
      ensures npm.After(status) == VerifyRun(bundle, old(npm.After(Going)).registry, old(npm.budget))
    {
      status := npm.Command();
      if status.Going? {
        status := CheckAll();
      } else {
        StoppedForGood(bundle, npm.After(status));
      }
    }
  }

  /** A run that has stopped stays as it is. */
  lemma {:induction false} StoppedVerification(b: Bundle, run: Run, ps: seq<Package>, n: nat)
    requires n <= |ps| && !VerifyPackages(b, run, ps[..n]).status.Going?
    ensures VerifyPackages(b, run, ps) == VerifyPackages(b, run, ps[..n])
  {
    if n < |ps| {
      assert ps[..|ps| - 1][..n] == ps[..n];
      StoppedVerification(b, run, ps[..|ps| - 1], n);
    } else {
      assert ps[..n] == ps;
    }
  }

  lemma StoppedForGood(b: Bundle, run: Run)
    requires !run.status.Going?
    ensures VerifyAll(b, run) == run
    ensures forall name, tag :: EnsureDistTag(b, run, name, tag) == run
  {
    assert b.packages[..0] == [];
    StoppedVerification(b, run, b.packages, 0);
  }

  /* ---- The packages of a bundle ---- */

  /** A value of a package manifest; null, numbers and truth values are not looked into. */
  datatype Json = Text(text: string) | List(items: seq<Json>) | Object(fields: seq<(string, Json)>) | Plain

  const WORKSPACE: string := "workspace:"
  const DEPENDENCY_SECTIONS: seq<string> :=
    ["dependencies", "devDependencies", "optionalDependencies", "peerDependencies"]

  /** `containsWorkspaceProtocol` */
  predicate HoldsWorkspace(value: Json)
    decreases value
  {
    match value
    case Text(text) => WORKSPACE <= text
    case List(items) => exists i :: 0 <= i < |items| && HoldsWorkspace(items[i])
    case Object(fields) => exists i :: 0 <= i < |fields| && HoldsWorkspace(fields[i].1)
    case Plain => false
  }

  /** The text stands in the value, at the place that this path of item and field numbers leads to. */
  ghost predicate StandsAt(value: Json, path: seq<nat>, text: string)
    decreases value
  {
    match value
    case Text(t) => path == [] && t == text
    case List(items) => path != [] && path[0] < |items| && StandsAt(items[path[0]], path[1..], text)
    case Object(fields) => path != [] && path[0] < |fields| && StandsAt(fields[path[0]].1, path[1..], text)
    case Plain => false
  }

  function Children(value: Json): (r: seq<Json>)
    ensures forall c :: c in r ==> c < value
  {
    match value
    case List(items) => items
    case Object(fields) => seq(|fields|, i requires 0 <= i < |fields| => fields[i].1)
    case _ => []
  }

  lemma ChildStandsAt(value: Json, i: nat, path: seq<nat>, text: string)
    requires i < |Children(value)|
    ensures StandsAt(value, [i] + path, text) <==> StandsAt(Children(value)[i], path, text)
  {
    assert ([i] + path)[1..] == path && ([i] + path)[0] == i;
  }

  lemma HoldsInChild(value: Json)
    ensures HoldsWorkspace(value) <==>
      || (value.Text? && "workspace:" <= value.text)
      || exists i :: 0 <= i < |Children(value)| && HoldsWorkspace(Children(value)[i])
  {
    match value
    case Text(_) =>
    case Plain =>
    case List(items) => assert Children(value) == items;
    case Object(fields) =>
      forall i | 0 <= i < |fields|
        ensures Children(value)[i] == fields[i].1
      {
      }
      if i :| 0 <= i < |fields| && HoldsWorkspace(fields[i].1) {
        assert HoldsWorkspace(Children(value)[i]);
      }
  }

  lemma {:induction false} HeldWorkspaceStands(value: Json) returns (path: seq<nat>, text: string)
    requires HoldsWorkspace(value)
    ensures StandsAt(value, path, text) && "workspace:" <= text
    decreases value
  {
    HoldsInChild(value);
    if value.Text? {
      path, text := [], value.text;
    } else {
      var i :| 0 <= i < |Children(value)| && HoldsWorkspace(Children(value)[i]);
      assert Children(value)[i] in Children(value);
      var rest;
      rest, text := HeldWorkspaceStands(Children(value)[i]);
      ChildStandsAt(value, i, rest, text);
      path := [i] + rest;
    }
  }

  lemma {:induction false} StandingWorkspaceIsHeld(value: Json, path: seq<nat>, text: string)
    requires StandsAt(value, path, text) && "workspace:" <= text
    ensures HoldsWorkspace(value)
    decreases value
  {
    HoldsInChild(value);
    if path != [] {
      var i := path[0];
      assert [i] + path[1..] == path && i < |Children(value)|;
      ChildStandsAt(value, i, path[1..], text);
      assert Children(value)[i] in Children(value);
      StandingWorkspaceIsHeld(Children(value)[i], path[1..], text);
    }
  }

  /** At some depth, in lists or under any name, a text starts with the protocol. */
  lemma HoldsWorkspaceIff(value: Json)
    ensures HoldsWorkspace(value) <==>
            exists path: seq<nat>, text :: StandsAt(value, path, text) && "workspace:" <= text
  {
    if HoldsWorkspace(value) {
      var path, text := HeldWorkspaceStands(value);
    }
    if path: seq<nat>, text :| StandsAt(value, path, text) && "workspace:" <= text {
      StandingWorkspaceIsHeld(value, path, text);
      assert exists path: seq<nat>, text :: StandsAt(value, path, text) && "workspace:" <= text;
    }
  }

  function Field(fields: seq<(string, Json)>, name: string): Option<Json> {
    if fields == [] then None else if fields[0].0 == name then Some(fields[0].1) else Field(fields[1..], name)
  }

  /** The first field of the name. */
  lemma {:induction false} FieldIff(fields: seq<(string, Json)>, name: string, value: Json)
    ensures Field(fields, name) == Some(value) <==>
            exists i :: 0 <= i < |fields| && fields[i] == (name, value) && NotNamed(fields[..i], name)
    ensures Field(fields, name) == None <==> NotNamed(fields, name)
  {
    if fields != [] {
      var rest := fields[1..];
      assert fields[0] == (fields[0].0, fields[0].1) && fields[..0] == [];
      FieldIff(rest, name, value);
      forall i | 0 <= i <= |rest|
        ensures NotNamed(fields[..i + 1], name) <==> fields[0].0 != name && NotNamed(rest[..i], name)
      {
        assert fields[..i + 1] == [fields[0]] + rest[..i];
        NotNamedCons(fields[0], rest[..i], name);
      }
      assert rest[..|rest|] == rest && fields[..|rest| + 1] == fields;
      forall i | 0 < i < |fields|
        ensures fields[i] == rest[i - 1]
      {
      }
      if i :| 0 <= i < |rest| && rest[i] == (name, value) && NotNamed(rest[..i], name) {
        assert fields[i + 1] == (name, value);
      }
    }
  }

  predicate NotNamed(fields: seq<(string, Json)>, name: string) {
    forall j :: 0 <= j < |fields| ==> fields[j].0 != name
  }

  lemma NotNamedCons(field: (string, Json), rest: seq<(string, Json)>, name: string)
    ensures NotNamed([field] + rest, name) <==> field.0 != name && NotNamed(rest, name)
  {
    var all := [field] + rest;
    assert all[0] == field && forall j :: 0 <= j < |rest| ==> rest[j] == all[j + 1];
  }

  /** Every package of the bundle that a section names is pinned to the release version. */
  predicate Pinned(fields: seq<(string, Json)>, internal: set<string>, version: string) {
    forall i :: 0 <= i < |fields| && fields[i].0 in internal ==> fields[i].1 == Text(version)
  }

  /** `validateInternalDependencyPins`: each section is an object, and pinned. */
  predicate PinsOk(manifest: seq<(string, Json)>, internal: set<string>, version: string) {
    forall section :: section in DEPENDENCY_SECTIONS ==> SectionOk(manifest, section, internal, version)
  }

  predicate SectionOk(manifest: seq<(string, Json)>, section: string, internal: set<string>, version: string) {
    match Field(manifest, section)
    case None => true
    case Some(Object(fields)) => Pinned(fields, internal, version)
    case Some(_) => false
  }

  /** The section, if it is there, is an object that gives every package of the bundle the release version. */
  ghost predicate SectionPins(manifest: seq<(string, Json)>, section: string, internal: set<string>, version: string)
  {
    Field(manifest, section) != None ==>
      var value := Field(manifest, section).value;
      value.Object? && forall name, r :: (name, r) in value.fields && name in internal ==> r == Text(version)
  }

  lemma SectionOkIff(manifest: seq<(string, Json)>, section: string, internal: set<string>, version: string)
    ensures SectionOk(manifest, section, internal, version) <==> SectionPins(manifest, section, internal, version)
  {
    var value := Field(manifest, section);
    if value.Some? && value.value.Object? {
      PinnedIff(value.value.fields, internal, version);
    }
  }

  /** Each of the four sections pins the packages of the bundle. */
  lemma PinsOkIff(manifest: seq<(string, Json)>, internal: set<string>, version: string)
    ensures PinsOk(manifest, internal, version) <==>
      && SectionPins(manifest, "dependencies", internal, version)
      && SectionPins(manifest, "devDependencies", internal, version)
      && SectionPins(manifest, "optionalDependencies", internal, version)
      && SectionPins(manifest, "peerDependencies", internal, version)
  {
    SectionOkIff(manifest, "dependencies", internal, version);
    SectionOkIff(manifest, "devDependencies", internal, version);
    SectionOkIff(manifest, "optionalDependencies", internal, version);
    SectionOkIff(manifest, "peerDependencies", internal, version);
    assert DEPENDENCY_SECTIONS[0] == "dependencies" && DEPENDENCY_SECTIONS[1] == "devDependencies";
    assert DEPENDENCY_SECTIONS[2] == "optionalDependencies" && DEPENDENCY_SECTIONS[3] == "peerDependencies";
  }

  lemma PinnedIff(fields: seq<(string, Json)>, internal: set<string>, version: string)
    ensures Pinned(fields, internal, version) <==>
            forall name, range :: (name, range) in fields && name in internal ==> range == Text(version)
  {
    forall i | 0 <= i < |fields|
      ensures fields[i] == (fields[i].0, fields[i].1) && fields[i] in fields
    {
    }
  }

  /** A tarball as inspected: what its manifest holds, the digest of its bytes, and
      whether it packs sources or source maps. */
  datatype Tarball = Tarball(name: string, version: string, isPrivate: bool, packsSources: bool,
                             manifest: seq<(string, Json)>, digest: string)

  datatype PackageOrigin = Harness | Vendor

  /** What both creating and loading a bundle check of a tarball. */
  predicate TarballOk(t: Tarball, origin: PackageOrigin, internal: set<string>, version: string) {
    && (origin == Harness ==> !t.packsSources)
    && t.version == version && !t.isPrivate && !HoldsWorkspace(Object(t.manifest))
      && PinsOk(t.manifest, internal, version)
  }

  /** That is: a harness package without sources, the release version, not private, no text of the workspace
      protocol anywhere in the manifest, and all four dependency sections pinned. */
  lemma TarballOkIff(t: Tarball, origin: PackageOrigin, internal: set<string>, version: string)
    ensures TarballOk(t, origin, internal, version) <==>
      && !(origin == Harness && t.packsSources) && t.version == version && !t.isPrivate
      && (forall path: seq<nat>, text :: StandsAt(Object(t.manifest), path, text) ==> !("workspace:" <= text))
      && SectionPins(t.manifest, "dependencies", internal, version)
      && SectionPins(t.manifest, "devDependencies", internal, version)
      && SectionPins(t.manifest, "optionalDependencies", internal, version)
      && SectionPins(t.manifest, "peerDependencies", internal, version)
  {
    HoldsWorkspaceIff(Object(t.manifest));
    PinsOkIff(t.manifest, internal, version);
  }

  /** `packedPackage` */
  function Packed(t: Tarball): (p: Package)
    ensures Sha512(p.integrity)
  {
    Package(t.name, "sha512-" + t.digest)
  }

  function PackedAll(tarballs: seq<Tarball>): seq<Package> {
    seq(|tarballs|, i requires 0 <= i < |tarballs| => Packed(tarballs[i]))
  }

  /** Some tarball of this name has this integrity: the digest of its bytes, by its kind. */
  predicate IsPacked(tarballs: seq<Tarball>, name: string, integrity: string) {
    exists i :: 0 <= i < |tarballs| && tarballs[i].name == name && integrity == "sha512-" + tarballs[i].digest
  }

  lemma PackedAre(tarballs: seq<Tarball>)
    ensures forall p :: p in PackedAll(tarballs) <==> IsPacked(tarballs, p.name, p.integrity)
  {
    forall p: Package | IsPacked(tarballs, p.name, p.integrity)
      ensures p in PackedAll(tarballs)
    {
      var i :| 0 <= i < |tarballs| && tarballs[i].name == p.name && p.integrity == "sha512-" + tarballs[i].digest;
      assert PackedAll(tarballs)[i] == p;
    }
  }

  predicate OncePerName(tarballs: seq<Tarball>) {
    forall i, j :: 0 <= i < j < |tarballs| ==> tarballs[i].name != tarballs[j].name
  }

  function Names(tarballs: seq<Tarball>): set<string> {
    set i | 0 <= i < |tarballs| :: tarballs[i].name
  }

  /** The tarballs are the expected packages, each once, and each passes its checks. */
  predicate Acceptable(expected: map<string, PackageOrigin>, version: string, tarballs: seq<Tarball>) {
    && Names(tarballs) == expected.Keys && OncePerName(tarballs)
    && forall i :: 0 <= i < |tarballs| ==>
         tarballs[i].name in expected && TarballOk(tarballs[i], expected[tarballs[i].name], expected.Keys, version)
  }

  /** How far the loop over the tarballs has come. */
  ghost predicate Checked(expected: map<string, PackageOrigin>, version: string, tarballs: seq<Tarball>,
                          missing: set<string>) {
    && missing == expected.Keys - Names(tarballs) && OncePerName(tarballs)
    && forall i :: 0 <= i < |tarballs| ==>
         tarballs[i].name in expected && TarballOk(tarballs[i], expected[tarballs[i].name], expected.Keys, version)
  }

  lemma NamesNext(tarballs: seq<Tarball>, k: nat)
    requires k < |tarballs|
    ensures Names(tarballs[..k + 1]) == Names(tarballs[..k]) + {tarballs[k].name}
  {
    forall n | n in Names(tarballs[..k + 1])
      ensures n in Names(tarballs[..k]) + {tarballs[k].name}
    {
      var i :| 0 <= i < k + 1 && tarballs[..k + 1][i].name == n;
      assert i < k ==> tarballs[..k][i].name == n;
    }
    forall n | n in Names(tarballs[..k]) + {tarballs[k].name}
      ensures n in Names(tarballs[..k + 1])
    {
      if n == tarballs[k].name {
        assert tarballs[..k + 1][k].name == n;
      } else {
        var i :| 0 <= i < k && tarballs[..k][i].name == n;
        assert tarballs[..k + 1][i].name == n;
      }
    }
  }

  lemma CheckedNext(expected: map<string, PackageOrigin>, version: string, tarballs: seq<Tarball>, k: nat,
                    missing: set<string>)
    requires k < |tarballs| && Checked(expected, version, tarballs[..k], missing)
    requires tarballs[k].name in missing
    requires TarballOk(tarballs[k], expected[tarballs[k].name], expected.Keys, version)
    ensures Checked(expected, version, tarballs[..k + 1], missing - {tarballs[k].name})
  {
    NamesNext(tarballs, k);
    var longer := tarballs[..k + 1];
    forall i, j | 0 <= i < j < |longer|
      ensures longer[i].name != longer[j].name
    {
      assert longer[i] == tarballs[..k][i];
      if j < k {
        assert longer[j] == tarballs[..k][j];
      } else {
        assert longer[i].name in Names(tarballs[..k]);
      }
    }
    forall i | 0 <= i < |longer|
      ensures longer[i].name in expected
      ensures TarballOk(longer[i], expected[longer[i].name], expected.Keys, version)
    {
      assert i < k ==> longer[i] == tarballs[..k][i];
    }
  }

  lemma UnexpectedIsNotAcceptable(expected: map<string, PackageOrigin>, version: string, tarballs: seq<Tarball>,
                                  k: nat, missing: set<string>)
    requires k < |tarballs| && Checked(expected, version, tarballs[..k], missing) && tarballs[k].name !in missing
    ensures !Acceptable(expected, version, tarballs)
  {
    if tarballs[k].name in expected {
      assert tarballs[k].name in Names(tarballs[..k]);
      var i :| 0 <= i < k && tarballs[..k][i].name == tarballs[k].name;
      assert tarballs[i].name == tarballs[k].name;
    }
  }

  function ByName(collate: (string, string) -> int): (Package, Package) -> int {
    (a: Package, b: Package) => collate(a.name, b.name)
  }

  lemma PackedInAnyOrder(tarballs: seq<Tarball>, packages: seq<Package>)
    requires OncePerName(tarballs) && multiset(packages) == multiset(PackedAll(tarballs))
    ensures forall i, j :: 0 <= i < j < |packages| ==> packages[i].name != packages[j].name
    ensures forall p :: p in packages <==> p in PackedAll(tarballs)
  {
    var packed := PackedAll(tarballs);
    forall p
      ensures p in packages <==> p in packed
    {
      assert p in packages <==> p in multiset(packages);
      assert p in packed <==> p in multiset(packed);
    }
    forall i, j | 0 <= i < j < |packages|
      ensures packages[i].name != packages[j].name
    {
      if packages[i].name == packages[j].name {
        SameNameSamePackage(tarballs, packages[i], packages[j]);
        TwiceInSequence(packages, i, j);
        PackedOnce(tarballs, packages[i]);
      }
    }
  }

  lemma SameNameSamePackage(tarballs: seq<Tarball>, p: Package, q: Package)
    requires OncePerName(tarballs) && p in PackedAll(tarballs) && q in PackedAll(tarballs) && p.name == q.name
    ensures p == q
  {
    var i :| 0 <= i < |tarballs| && PackedAll(tarballs)[i] == p;
    var j :| 0 <= j < |tarballs| && PackedAll(tarballs)[j] == q;
    assert tarballs[i].name == tarballs[j].name;
  }

  lemma {:induction false} PackedOnce(tarballs: seq<Tarball>, p: Package)
    requires OncePerName(tarballs)
    ensures multiset(PackedAll(tarballs))[p] <= 1
  {
    if tarballs != [] {
      var front, last := tarballs[..|tarballs| - 1], tarballs[|tarballs| - 1];
      PackedOnce(front, p);
      assert PackedAll(tarballs) == PackedAll(front) + [Packed(last)];
      if p == Packed(last) {
        forall i | 0 <= i < |front|
          ensures PackedAll(front)[i] != p
        {
          assert tarballs[i].name != last.name;
        }
        assert p !in PackedAll(front);
      }
    }
  }

  /** `ReleaseBundle.create`: a bundle is made iff the tarballs are acceptable; it is a
      valid one that lists exactly them, by name, each with the integrity of its bytes. */
  method CreateBundle(expected: map<string, PackageOrigin>, version: string, distTag: string, tarballs: seq<Tarball>,
                      collate: (string, string) -> int) returns (bundle: Option<Bundle>)
    ensures bundle.Some? <==> Acceptable(expected, version, tarballs)
    ensures bundle.Some? ==> var b := bundle.value;
      && ValidBundle(b) && b.version == version && b.distTag == distTag
      && (forall p :: p in b.packages <==> IsPacked(tarballs, p.name, p.integrity)) && |b.packages| == |tarballs|
      && (Sorting.Ordering(ByName(collate)) ==> Sorting.Sorted(b.packages, ByName(collate)))
  {
    var missing := expected.Keys;
    for k := 0 to |tarballs|
      invariant Checked(expected, version, tarballs[..k], missing)
    {
      var t := tarballs[k];
      if t.name !in missing {
        UnexpectedIsNotAcceptable(expected, version, tarballs, k, missing);
        return None;
      }
      if !TarballOk(t, expected[t.name], expected.Keys, version) {
        return None;
      }
      CheckedNext(expected, version, tarballs, k, missing);
      missing := missing - {t.name};
    }
    assert tarballs[..|tarballs|] == tarballs;
    CheckedAll(expected, version, tarballs, missing);
    if missing != {} {
      return None;
    }
    var packages := Sorting.Sort(PackedAll(tarballs), ByName(collate));
    SortedBundle(version, distTag, tarballs, collate);
    PackedAre(tarballs);
    return Some(Bundle(version, distTag, packages));
  }

  lemma CheckedAll(expected: map<string, PackageOrigin>, version: string, tarballs: seq<Tarball>, missing: set<string>)
    requires Checked(expected, version, tarballs, missing)
    ensures Acceptable(expected, version, tarballs) <==> missing == {}
  {
    forall n | n in Names(tarballs)
      ensures n in expected.Keys
    {
      var i :| 0 <= i < |tarballs| && tarballs[i].name == n;
    }
    assert Names(tarballs) <= expected.Keys;
    forall n | n in expected.Keys && n !in missing
      ensures n in Names(tarballs)
    {
      assert n in expected.Keys - Names(tarballs) ==> n in missing;
    }
  }

  lemma SortedBundle(version: string, distTag: string, tarballs: seq<Tarball>, collate: (string, string) -> int)
    requires OncePerName(tarballs)
    ensures var packages := Sorting.Sort(PackedAll(tarballs), ByName(collate));
      && ValidBundle(Bundle(version, distTag, packages))
      && (forall p :: p in packages <==> p in PackedAll(tarballs)) && |packages| == |tarballs|
      && (Sorting.Ordering(ByName(collate)) ==> Sorting.Sorted(packages, ByName(collate)))
  {
    var packages := Sorting.Sort(PackedAll(tarballs), ByName(collate));
    Sorting.SortKeepsAll(PackedAll(tarballs), ByName(collate));
    PackedInAnyOrder(tarballs, packages);
    if Sorting.Ordering(ByName(collate)) {
      Sorting.SortSorts(PackedAll(tarballs), ByName(collate));
    }
    assert |multiset(packages)| == |packages| && |multiset(PackedAll(tarballs))| == |tarballs|;
  }
}
