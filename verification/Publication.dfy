/** Publishing a bundle to an npm registry: scripts/publish-npm-baseline.ts,
    `RegistryPublication`.

    The registry is changed by npm commands, and the program may be cut off after
    any of them. `budget` is the number of commands that still get through; the
    functions below say what the program has done when it completes, fails, or
    is cut off. */
module Publication {
  import opened Options

  const RELEASE_ENTRY_PACKAGE := "@deepseek-ai/dsh"
  const LATEST_DIST_TAG := "latest"

  datatype Package = Package(name: string, integrity: string)

  datatype Bundle = Bundle(version: string, distTag: string, packages: seq<Package>)

  /** Integrities by package and version, versions by package and dist-tag. */
  datatype Registry = Registry(stored: map<(string, string), string>, tags: map<(string, string), string>)

  datatype Error =
    | NoIntegrity(name: string)
    | DifferentIntegrity(name: string)
    | Missing(name: string)
    | UnknownPackage(name: string)
    | UnknownVersion(name: string)
    | TagMismatch(name: string)

  datatype Status = Going | CutOff | Failed(error: Error)

  datatype Run = Run(registry: Registry, budget: nat, status: Status)

  /* ---- npm commands ---- */

  /** One more command is sent, if the program is not cut off before. */
  function Send(run: Run): Run {
    if !run.status.Going? then run
    else if run.budget == 0 then run.(status := CutOff)
    else run.(budget := run.budget - 1)
  }

  function Fail(run: Run, e: Error): Run {
    run.(status := Failed(e))
  }

  /** Some version of the package is stored: `npm dist-tag ls` knows it. */
  ghost predicate Known(r: Registry, name: string) {
    exists v :: (name, v) in r.stored
  }

  predicate Sha512(integrity: string) {
    "sha512-" <= integrity
  }

  predicate Tagged(r: Registry, name: string, tag: string, version: string) {
    (name, tag) in r.tags && r.tags[(name, tag)] == version
  }

  function WithTag(r: Registry, name: string, tag: string, version: string): Registry {
    r.(tags := r.tags[(name, tag) := version])
  }

  /** `npm publish --tag`: store the tarball's integrity and set the tag. */
  function WithPackage(r: Registry, b: Bundle, p: Package): Registry {
    WithTag(r.(stored := r.stored[(p.name, b.version) := p.integrity]), p.name, b.distTag, b.version)
  }

  /* ---- The program, command by command ---- */

  /** `ensureDistTag` */
  ghost function EnsureDistTag(b: Bundle, run: Run, name: string, tag: string): Run {
    var listed := Send(run);
    if !listed.status.Going? then listed
    else if !Known(listed.registry, name) then Fail(listed, UnknownPackage(name))
    else if Tagged(listed.registry, name, tag, b.version) then listed
    else
      var added := Send(listed);
      if !added.status.Going? then added
      else if (name, b.version) !in added.registry.stored then Fail(added, UnknownVersion(name))
      else added.(registry := WithTag(added.registry, name, tag, b.version))
  }

  /** The command that stores one package, unless the registry has it already. */
  function StorePackage(b: Bundle, run: Run, p: Package): Run {
    var viewed := Send(run);
    if !viewed.status.Going? then viewed
    else if (p.name, b.version) !in viewed.registry.stored then
      var published := Send(viewed);
      if !published.status.Going? then published
      else published.(registry := WithPackage(published.registry, b, p))
    else
      var existing := viewed.registry.stored[(p.name, b.version)];
      if !Sha512(existing) then Fail(viewed, NoIntegrity(p.name))
      else if existing != p.integrity then Fail(viewed, DifferentIntegrity(p.name))
      else viewed
  }

  ghost function PublishPackage(b: Bundle, run: Run, p: Package): Run {
    EnsureDistTag(b, StorePackage(b, run, p), p.name, b.distTag)
  }

  ghost function PublishPackages(b: Bundle, run: Run, ps: seq<Package>): Run {
    if ps == [] then run
    else PublishPackage(b, PublishPackages(b, run, ps[..|ps| - 1]), ps[|ps| - 1])
  }

  /** One package of `verifyRemote`. */
  ghost function VerifyPackage(b: Bundle, run: Run, p: Package): Run {
    var viewed := Send(run);
    if !viewed.status.Going? then viewed
    else if (p.name, b.version) !in viewed.registry.stored then Fail(viewed, Missing(p.name))
    else if !Sha512(viewed.registry.stored[(p.name, b.version)]) then Fail(viewed, NoIntegrity(p.name))
    else if viewed.registry.stored[(p.name, b.version)] != p.integrity then Fail(viewed, DifferentIntegrity(p.name))
    else VerifyTag(b, viewed, p.name, b.distTag)
  }

  ghost function VerifyTag(b: Bundle, run: Run, name: string, tag: string): Run {
    var listed := Send(run);
    if !listed.status.Going? then listed
    else if !Known(listed.registry, name) then Fail(listed, UnknownPackage(name))
    else if !Tagged(listed.registry, name, tag, b.version) then Fail(listed, TagMismatch(name))
    else listed
  }

  ghost function VerifyPackages(b: Bundle, run: Run, ps: seq<Package>): Run {
    if ps == [] then run
    else VerifyPackage(b, VerifyPackages(b, run, ps[..|ps| - 1]), ps[|ps| - 1])
  }

  /** `verifyRemote` and `verifyReleaseEntryDistTag` */
  ghost function VerifyAll(b: Bundle, run: Run): Run {
    VerifyTag(b, VerifyPackages(b, run, b.packages), RELEASE_ENTRY_PACKAGE, LATEST_DIST_TAG)
  }

  /** `publish`: ping, whoami, the packages, the entry's `latest`, verification. */
  ghost function PublishRun(b: Bundle, r: Registry, budget: nat): Run {
    VerifyAll(b, PublishAll(b, r, budget))
  }

  ghost function PublishAll(b: Bundle, r: Registry, budget: nat): Run {
    EnsureDistTag(b, PublishPackages(b, Send(Send(Run(r, budget, Going))), b.packages),
                  RELEASE_ENTRY_PACKAGE, LATEST_DIST_TAG)
  }

  /** `verify`: ping, then verification. */
  ghost function VerifyRun(b: Bundle, r: Registry, budget: nat): Run {
    VerifyAll(b, Send(Run(r, budget, Going)))
  }

  /* ---- What a bundle is meant to leave behind ---- */

  /** What creating a bundle guarantees: no name twice, and integrities computed from the packed bytes. */
  predicate ValidBundle(b: Bundle) {
    && (forall i, j :: 0 <= i < j < |b.packages| ==> b.packages[i].name != b.packages[j].name)
    && forall p :: p in b.packages ==> Sha512(p.integrity)
  }

  predicate InBundle(b: Bundle, name: string) {
    exists p :: p in b.packages && p.name == name
  }

  /** The package is stored with its recorded integrity. */
  predicate Stored(b: Bundle, r: Registry, p: Package) {
    (p.name, b.version) in r.stored && r.stored[(p.name, b.version)] == p.integrity
  }

  predicate Published(b: Bundle, r: Registry, p: Package) {
    Stored(b, r, p) && Tagged(r, p.name, b.distTag, b.version)
  }

  predicate AllPublished(b: Bundle, r: Registry, ps: seq<Package>) {
    forall p :: p in ps ==> Published(b, r, p)
  }

  /** The whole bundle is published and the entry's `latest` points to it. */
  predicate Released(b: Bundle, r: Registry) {
    AllPublished(b, r, b.packages) && Tagged(r, RELEASE_ENTRY_PACKAGE, LATEST_DIST_TAG, b.version)
  }

  /** The entry is the harness's own package, and its tag is `latest`. */
  lemma ReleasedEntry(b: Bundle, r: Registry)
    requires Released(b, r)
    ensures ("@deepseek-ai/dsh", "latest") in r.tags && r.tags[("@deepseek-ai/dsh", "latest")] == b.version
  {
  }

  /** The registry holds no other integrity for a package of the bundle. */
  predicate NoConflict(b: Bundle, r: Registry) {
    forall p :: p in b.packages && (p.name, b.version) in r.stored ==> Stored(b, r, p)
  }

  /** `dist-tag add` will accept the tag, or need not be called. */
  ghost predicate TagReady(b: Bundle, r: Registry, name: string, tag: string) {
    (name, b.version) in r.stored || (Known(r, name) && Tagged(r, name, tag, b.version))
  }

  /** The entry package is part of the bundle, or the registry is ready to tag it. */
  ghost predicate HasEntry(b: Bundle, r: Registry) {
    InBundle(b, RELEASE_ENTRY_PACKAGE) || TagReady(b, r, RELEASE_ENTRY_PACKAGE, LATEST_DIST_TAG)
  }

  /** The tags that the program may move. */
  predicate OwnTag(b: Bundle, name: string, tag: string) {
    (InBundle(b, name) && tag == b.distTag) || (name == RELEASE_ENTRY_PACKAGE && tag == LATEST_DIST_TAG)
  }

  /** s differs from r at most by what the bundle adds: stored integrities are kept,
      new ones are the recorded ones, and only own tags move, to the bundle's version. */
  ghost predicate Between(b: Bundle, r: Registry, s: Registry) {
    && (forall n, v :: (n, v) in r.stored ==> (n, v) in s.stored && s.stored[(n, v)] == r.stored[(n, v)])
    && (forall n, v :: (n, v) in s.stored && (n, v) !in r.stored ==>
          v == b.version && Package(n, s.stored[(n, v)]) in b.packages)
    && (forall n, t :: (n, t) in r.tags ==> (n, t) in s.tags)
    && (forall n, t :: (n, t) in s.tags ==>
          || ((n, t) in r.tags && s.tags[(n, t)] == r.tags[(n, t)])
          || (OwnTag(b, n, t) && s.tags[(n, t)] == b.version))
  }

  /** Two registries agree on everything outside the bundle, on what is stored
      for it and on its tags once both have released it. */
  lemma ReleasedIsUnique(b: Bundle, r: Registry, s: Registry, t: Registry)
    requires ValidBundle(b) && Between(b, r, s) && Between(b, r, t)
    requires Released(b, s) && Released(b, t)
    ensures s == t
  {
    forall n, v
      ensures (n, v) in s.stored ==> (n, v) in t.stored && t.stored[(n, v)] == s.stored[(n, v)]
      ensures (n, v) in t.stored ==> (n, v) in s.stored
    {
      if (n, v) in s.stored {
        SameStored(b, r, s, t, n, v);
      }
      if (n, v) in t.stored {
        SameStored(b, r, t, s, n, v);
      }
    }
    SameMap(s.stored, t.stored);
    forall n, tag
      ensures (n, tag) in s.tags ==> (n, tag) in t.tags && t.tags[(n, tag)] == s.tags[(n, tag)]
      ensures (n, tag) in t.tags ==> (n, tag) in s.tags
    {
      if (n, tag) in s.tags {
        SameTag(b, r, s, t, n, tag);
      }
      if (n, tag) in t.tags {
        SameTag(b, r, t, s, n, tag);
      }
    }
    SameMap(s.tags, t.tags);
  }

  lemma SameMap(a: map<(string, string), string>, c: map<(string, string), string>)
    requires forall m, n :: (m, n) in a ==> (m, n) in c && c[(m, n)] == a[(m, n)]
    requires forall m, n :: (m, n) in c ==> (m, n) in a
    ensures a == c
  {
    forall k | k in a || k in c
      ensures k in a && k in c && a[k] == c[k]
    {
      assert k == (k.0, k.1);
    }
  }

  lemma SameStored(b: Bundle, r: Registry, s: Registry, t: Registry, n: string, v: string)
    requires ValidBundle(b) && Between(b, r, s) && Between(b, r, t) && Released(b, t)
    requires (n, v) in s.stored
    ensures (n, v) in t.stored && t.stored[(n, v)] == s.stored[(n, v)]
  {
    if (n, v) !in r.stored {
      assert Published(b, t, Package(n, s.stored[(n, v)]));
    }
  }

  lemma SameTag(b: Bundle, r: Registry, s: Registry, t: Registry, n: string, tag: string)
    requires Between(b, r, s) && Between(b, r, t) && Released(b, s) && Released(b, t)
    requires (n, tag) in s.tags
    ensures (n, tag) in t.tags && t.tags[(n, tag)] == s.tags[(n, tag)]
  {
    if OwnTag(b, n, tag) {
      ReleasedTag(b, s, n, tag);
      ReleasedTag(b, t, n, tag);
    }
  }

  lemma ReleasedTag(b: Bundle, r: Registry, n: string, tag: string)
    requires Released(b, r) && OwnTag(b, n, tag)
    ensures Tagged(r, n, tag, b.version)
  {
    if InBundle(b, n) && tag == b.distTag {
      var p :| p in b.packages && p.name == n;
      assert Published(b, r, p);
    }
  }

  lemma BetweenSelf(b: Bundle, r: Registry)
    ensures Between(b, r, r)
  {
  }

  lemma BetweenChain(b: Bundle, r: Registry, s: Registry, t: Registry)
    requires Between(b, r, s) && Between(b, s, t)
    ensures Between(b, r, t)
  {
  }

  /* ---- Each command keeps to the bundle ---- */

  /** How far a run may have come: it has kept to the bundle, it still goes or was
      cut off, and it fails only over a conflict or a missing entry package. */
  ghost predicate OnTrack(b: Bundle, r: Registry, run: Run) {
    && Between(b, r, run.registry)
    && (run.status.Failed? ==> !NoConflict(b, r) || !HasEntry(b, r))
    && (run.status.CutOff? ==> run.budget == 0)
  }

  lemma StoreKeepsBetween(b: Bundle, r: Registry, p: Package)
    requires ValidBundle(b) && p in b.packages && (p.name, b.version) !in r.stored
    ensures Between(b, r, WithPackage(r, b, p))
  {
    assert InBundle(b, p.name);
  }

  lemma TagKeepsBetween(b: Bundle, r: Registry, name: string, tag: string)
    requires OwnTag(b, name, tag)
    ensures Between(b, r, WithTag(r, name, tag, b.version))
  {
  }

  lemma StoreOnTrack(b: Bundle, r: Registry, run: Run, p: Package)
    requires ValidBundle(b) && p in b.packages && OnTrack(b, r, run)
    ensures OnTrack(b, r, StorePackage(b, run, p))
    ensures Between(b, run.registry, StorePackage(b, run, p).registry)
    ensures StorePackage(b, run, p).status.Going? ==>
      run.status.Going? && Stored(b, StorePackage(b, run, p).registry, p)
  {
    var s, t := run.registry, StorePackage(b, run, p).registry;
    BetweenSelf(b, s);
    if t != s {
      StoreKeepsBetween(b, s, p);
      BetweenChain(b, r, s, t);
    } else if run.status.Going? && StorePackage(b, run, p).status.Failed? {
      ConflictIsOld(b, r, s, p);
    }
  }

  /** A conflicting integrity was there before the program started. */
  lemma ConflictIsOld(b: Bundle, r: Registry, s: Registry, p: Package)
    requires ValidBundle(b) && p in b.packages && Between(b, r, s)
    requires (p.name, b.version) in s.stored && s.stored[(p.name, b.version)] != p.integrity
    ensures !NoConflict(b, r)
  {
    assert Package(p.name, s.stored[(p.name, b.version)]) !in b.packages;
  }

  lemma TagOnTrack(b: Bundle, r: Registry, run: Run, name: string, tag: string)
    requires OwnTag(b, name, tag) && OnTrack(b, r, run)
    requires run.status.Going? ==> TagReady(b, run.registry, name, tag) || !HasEntry(b, r)
    ensures OnTrack(b, r, EnsureDistTag(b, run, name, tag))
    ensures Between(b, run.registry, EnsureDistTag(b, run, name, tag).registry)
    ensures EnsureDistTag(b, run, name, tag).registry.stored == run.registry.stored
    ensures EnsureDistTag(b, run, name, tag).status.Going? ==>
      run.status.Going? && Tagged(EnsureDistTag(b, run, name, tag).registry, name, tag, b.version)
  {
    var s, t := run.registry, EnsureDistTag(b, run, name, tag).registry;
    BetweenSelf(b, s);
    if t != s {
      TagKeepsBetween(b, s, name, tag);
      BetweenChain(b, r, s, t);
    }
  }

  lemma PackageOnTrack(b: Bundle, r: Registry, run: Run, p: Package)
    requires ValidBundle(b) && p in b.packages && OnTrack(b, r, run)
    ensures OnTrack(b, r, PublishPackage(b, run, p))
    ensures Between(b, run.registry, PublishPackage(b, run, p).registry)
    ensures PublishPackage(b, run, p).status.Going? ==>
      run.status.Going? && Published(b, PublishPackage(b, run, p).registry, p)
  {
    assert InBundle(b, p.name);
    StoreOnTrack(b, r, run, p);
    TagOnTrack(b, r, StorePackage(b, run, p), p.name, b.distTag);
    BetweenChain(b, run.registry, StorePackage(b, run, p).registry, PublishPackage(b, run, p).registry);
  }

  /** What is published stays published. */
  lemma PublishedStays(b: Bundle, r: Registry, s: Registry, p: Package)
    requires Between(b, r, s) && Published(b, r, p)
    ensures Published(b, s, p)
  {
  }

  lemma {:induction false} PackagesOnTrack(b: Bundle, r: Registry, run: Run, ps: seq<Package>)
    requires ValidBundle(b) && (forall p :: p in ps ==> p in b.packages) && OnTrack(b, r, run)
    ensures OnTrack(b, r, PublishPackages(b, run, ps))
    ensures PublishPackages(b, run, ps).status.Going? ==>
      run.status.Going? && AllPublished(b, PublishPackages(b, run, ps).registry, ps)
  {
    if ps != [] {
      var front, last := ps[..|ps| - 1], ps[|ps| - 1];
      assert ps == front + [last];
      PackagesOnTrack(b, r, run, front);
      var mid := PublishPackages(b, run, front);
      PackageOnTrack(b, r, mid, last);
      forall p | p in front && mid.status.Going?
        ensures Published(b, PublishPackage(b, mid, last).registry, p)
      {
        PublishedStays(b, mid.registry, PublishPackage(b, mid, last).registry, p);
      }
    }
  }

  /** Whatever the cut-off: the run keeps to the bundle, and if it is still going
      after the last tag the bundle is released. */
  lemma PublishOnTrack(b: Bundle, r: Registry, budget: nat)
    requires ValidBundle(b)
    ensures OnTrack(b, r, PublishAll(b, r, budget))
    ensures PublishAll(b, r, budget).status.Going? ==> Released(b, PublishAll(b, r, budget).registry)
  {
    var start := Send(Send(Run(r, budget, Going)));
    BetweenSelf(b, r);
    PackagesOnTrack(b, r, start, b.packages);
    var mid := PublishPackages(b, start, b.packages);
    if mid.status.Going? && HasEntry(b, r) {
      EntryStaysReady(b, r, mid.registry);
    }
    TagOnTrack(b, r, mid, RELEASE_ENTRY_PACKAGE, LATEST_DIST_TAG);
    var last := PublishAll(b, r, budget);
    forall p | p in b.packages && last.status.Going?
      ensures Published(b, last.registry, p)
    {
      PublishedStays(b, mid.registry, last.registry, p);
    }
  }

  /* ---- Verification only reads ---- */

  lemma TagVerified(b: Bundle, run: Run, name: string, tag: string)
    ensures VerifyTag(b, run, name, tag).registry == run.registry
    ensures (run.status.Going? && (name, b.version) in run.registry.stored
             && Tagged(run.registry, name, tag, b.version)) ==>
      VerifyTag(b, run, name, tag) == Send(run)
    ensures VerifyTag(b, run, name, tag).status.Going? ==>
      run.status.Going? && Tagged(run.registry, name, tag, b.version)
    ensures !run.status.Going? ==> VerifyTag(b, run, name, tag) == run
  {
  }

  /** Verification still goes after ps iff they are published and the budget lasted. */
  lemma {:induction false} PackagesVerified(b: Bundle, run: Run, ps: seq<Package>)
    requires forall p :: p in ps ==> Sha512(p.integrity)
    ensures VerifyPackages(b, run, ps).registry == run.registry
    ensures VerifyPackages(b, run, ps).status.Going? <==>
      run.status.Going? && AllPublished(b, run.registry, ps) && run.budget >= 2 * |ps|
    ensures VerifyPackages(b, run, ps).status.Going? ==> VerifyPackages(b, run, ps).budget == run.budget - 2 * |ps|
  {
    if ps != [] {
      var front, last := ps[..|ps| - 1], ps[|ps| - 1];
      assert ps == front + [last];
      PackagesVerified(b, run, front);
      assert AllPublished(b, run.registry, ps) <==>
        AllPublished(b, run.registry, front) && Published(b, run.registry, last);
    }
  }

  /** Verification succeeds iff the bundle is released and the entry is known, given commands enough. */
  lemma VerifiedIffReleased(b: Bundle, run: Run)
    requires ValidBundle(b)
    ensures VerifyAll(b, run).registry == run.registry
    ensures VerifyAll(b, run).status.Going? <==>
      && run.status.Going? && run.budget >= 2 * |b.packages| + 1
      && Released(b, run.registry) && Known(run.registry, RELEASE_ENTRY_PACKAGE)
  {
    PackagesVerified(b, run, b.packages);
    TagVerified(b, VerifyPackages(b, run, b.packages), RELEASE_ENTRY_PACKAGE, LATEST_DIST_TAG);
  }

  /* ---- What a failure says ---- */

  /** The error tells what is wrong with the registry. */
  ghost predicate Tells(b: Bundle, r: Registry, e: Error) {
    match e
    case NoIntegrity(name) => InBundle(b, name) && (name, b.version) in r.stored && !Sha512(r.stored[(name, b.version)])
    case DifferentIntegrity(name) =>
      && (name, b.version) in r.stored && Sha512(r.stored[(name, b.version)])
      && exists p :: p in b.packages && p.name == name && p.integrity != r.stored[(name, b.version)]
    case Missing(name) => InBundle(b, name) && (name, b.version) !in r.stored
    case UnknownPackage(name) => forall v :: (name, v) !in r.stored
    case UnknownVersion(name) => Known(r, name) && (name, b.version) !in r.stored
    case TagMismatch(name) => Known(r, name) && exists tag :: OwnTag(b, name, tag) && !Tagged(r, name, tag, b.version)
  }

  /** A run that has failed did so for what its error tells. */
  ghost predicate FailsRightly(b: Bundle, run: Run) {
    run.status.Failed? ==> Tells(b, run.registry, run.status.error)
  }

  lemma TagFailsRightly(b: Bundle, run: Run, name: string, tag: string)
    requires FailsRightly(b, run) && OwnTag(b, name, tag)
    ensures FailsRightly(b, EnsureDistTag(b, run, name, tag)) && FailsRightly(b, VerifyTag(b, run, name, tag))
  {
  }

  lemma PackageFailsRightly(b: Bundle, run: Run, p: Package)
    requires FailsRightly(b, run) && p in b.packages
    ensures FailsRightly(b, PublishPackage(b, run, p)) && FailsRightly(b, VerifyPackage(b, run, p))
  {
    assert InBundle(b, p.name);
    TagFailsRightly(b, StorePackage(b, run, p), p.name, b.distTag);
    TagFailsRightly(b, Send(run), p.name, b.distTag);
  }

  lemma {:induction false} PackagesFailRightly(b: Bundle, run: Run, ps: seq<Package>)
    requires FailsRightly(b, run) && forall p :: p in ps ==> p in b.packages
    ensures FailsRightly(b, PublishPackages(b, run, ps)) && FailsRightly(b, VerifyPackages(b, run, ps))
  {
    if ps != [] {
      var front, last := ps[..|ps| - 1], ps[|ps| - 1];
      assert ps == front + [last];
      PackagesFailRightly(b, run, front);
      PackageFailsRightly(b, PublishPackages(b, run, front), last);
      PackageFailsRightly(b, VerifyPackages(b, run, front), last);
    }
  }

  /** Whatever command a publication or a verification stops at: if it fails, the registry it leaves
      behind is as the error says. */
  lemma FailureMeaning(b: Bundle, r: Registry, budget: nat)
    ensures FailsRightly(b, PublishRun(b, r, budget)) && FailsRightly(b, VerifyRun(b, r, budget))
  {
    var start, checking := Send(Send(Run(r, budget, Going))), Send(Run(r, budget, Going));
    PackagesFailRightly(b, start, b.packages);
    TagFailsRightly(b, PublishPackages(b, start, b.packages), RELEASE_ENTRY_PACKAGE, LATEST_DIST_TAG);
    PackagesFailRightly(b, PublishAll(b, r, budget), b.packages);
    PackagesFailRightly(b, checking, b.packages);
    TagFailsRightly(b, VerifyPackages(b, PublishAll(b, r, budget), b.packages), RELEASE_ENTRY_PACKAGE, LATEST_DIST_TAG);
    TagFailsRightly(b, VerifyPackages(b, checking, b.packages), RELEASE_ENTRY_PACKAGE, LATEST_DIST_TAG);
  }

  /* ---- Enough commands ---- */

  /** Commands that a complete run sends at most. */
  function Commands(b: Bundle): nat {
    6 * |b.packages| + 5
  }

  lemma PackageBudget(b: Bundle, run: Run, p: Package)
    ensures var next := PublishPackage(b, run, p);
      && (next.status.Going? ==> next.budget + 4 >= run.budget)
      && (next.status.CutOff? ==> run.status.CutOff? || run.budget < 4)
  {
  }

  lemma {:induction false} PackagesBudget(b: Bundle, run: Run, ps: seq<Package>)
    requires run.status.Going?
    ensures var next := PublishPackages(b, run, ps);
      && (next.status.Going? ==> next.budget + 4 * |ps| >= run.budget)
      && (next.status.CutOff? ==> run.budget < 4 * |ps|)
  {
    if ps != [] {
      var front := ps[..|ps| - 1];
      PackagesBudget(b, run, front);
      PackageBudget(b, PublishPackages(b, run, front), ps[|ps| - 1]);
    }
  }

  /** Without a conflict, and with the entry package at hand, a run that is not cut
      off releases the bundle and its verification succeeds. */
  lemma PublishCompletes(b: Bundle, r: Registry, budget: nat)
    requires ValidBundle(b) && NoConflict(b, r) && HasEntry(b, r) && budget >= Commands(b)
    ensures PublishRun(b, r, budget).status.Going?
    ensures Released(b, PublishRun(b, r, budget).registry) && Between(b, r, PublishRun(b, r, budget).registry)
  {
    var last := PublishAll(b, r, budget);
    PublishOnTrack(b, r, budget);
    PackagesBudget(b, Send(Send(Run(r, budget, Going))), b.packages);
    assert last.status.Going?;
    EntryStaysReady(b, r, last.registry);
    VerifiedIffReleased(b, last);
  }

  lemma EntryStaysReady(b: Bundle, r: Registry, s: Registry)
    requires HasEntry(b, r) && Between(b, r, s) && AllPublished(b, s, b.packages)
    ensures TagReady(b, s, RELEASE_ENTRY_PACKAGE, LATEST_DIST_TAG) && Known(s, RELEASE_ENTRY_PACKAGE)
  {
    if InBundle(b, RELEASE_ENTRY_PACKAGE) {
      var p :| p in b.packages && p.name == RELEASE_ENTRY_PACKAGE;
      assert Published(b, s, p);
    } else if (RELEASE_ENTRY_PACKAGE, b.version) !in r.stored {
      var v :| (RELEASE_ENTRY_PACKAGE, v) in r.stored;
      assert (RELEASE_ENTRY_PACKAGE, v) in s.stored;
      assert (RELEASE_ENTRY_PACKAGE, LATEST_DIST_TAG) in s.tags;
    }
  }

  /** The condition is exact: given commands enough, a run completes iff the registry
      holds no conflicting integrity and the entry package is at hand. */
  lemma CompletesIff(b: Bundle, r: Registry, budget: nat)
    requires ValidBundle(b) && budget >= Commands(b)
    ensures PublishRun(b, r, budget).status.Going? <==> NoConflict(b, r) && HasEntry(b, r)
  {
    if NoConflict(b, r) && HasEntry(b, r) {
      PublishCompletes(b, r, budget);
    } else if PublishRun(b, r, budget).status.Going? {
      CompletesOnlyWithout(b, r, budget);
    }
  }

  lemma CompletesOnlyWithout(b: Bundle, r: Registry, budget: nat)
    requires ValidBundle(b) && PublishRun(b, r, budget).status.Going?
    ensures NoConflict(b, r) && HasEntry(b, r)
  {
    var start, last := Send(Send(Run(r, budget, Going))), PublishAll(b, r, budget);
    VerifiedIffReleased(b, last);
    PublishOnTrack(b, r, budget);
    forall p | p in b.packages && (p.name, b.version) in r.stored
      ensures Stored(b, r, p)
    {
      assert Published(b, last.registry, p);
    }
    if !InBundle(b, RELEASE_ENTRY_PACKAGE) {
      OtherPackagesKeepEntry(b, start, b.packages);
      EntryWasReady(b, PublishPackages(b, start, b.packages));
    }
  }

  /** Tagging the entry succeeds only if it was ready. */
  lemma EntryWasReady(b: Bundle, run: Run)
    requires EnsureDistTag(b, run, RELEASE_ENTRY_PACKAGE, LATEST_DIST_TAG).status.Going?
    ensures TagReady(b, run.registry, RELEASE_ENTRY_PACKAGE, LATEST_DIST_TAG)
  {
  }

  ghost predicate SameEntry(r: Registry, s: Registry) {
    && SameLatest(r, s)
    && forall v :: (RELEASE_ENTRY_PACKAGE, v) in r.stored <==> (RELEASE_ENTRY_PACKAGE, v) in s.stored
  }

  lemma OtherPackageKeepsEntry(b: Bundle, run: Run, p: Package)
    requires p.name != RELEASE_ENTRY_PACKAGE
    ensures SameEntry(run.registry, PublishPackage(b, run, p).registry)
  {
    var stored := StorePackage(b, run, p);
    assert SameEntry(run.registry, stored.registry);
    assert SameEntry(stored.registry, EnsureDistTag(b, stored, p.name, b.distTag).registry);
  }

  lemma {:induction false} OtherPackagesKeepEntry(b: Bundle, run: Run, ps: seq<Package>)
    requires forall p :: p in ps ==> p.name != RELEASE_ENTRY_PACKAGE
    ensures SameEntry(run.registry, PublishPackages(b, run, ps).registry)
  {
    if ps != [] {
      var front, last := ps[..|ps| - 1], ps[|ps| - 1];
      assert ps == front + [last];
      OtherPackagesKeepEntry(b, run, front);
      OtherPackageKeepsEntry(b, PublishPackages(b, run, front), last);
    }
  }

  /* ---- Crashing and resuming ---- */

  /** The registry after a series of runs, each cut off after some number of commands. */
  ghost function Sessions(b: Bundle, r: Registry, budgets: seq<nat>): Registry {
    if budgets == [] then r
    else PublishRun(b, Sessions(b, r, budgets[..|budgets| - 1]), budgets[|budgets| - 1]).registry
  }

  lemma RunKeepsBetween(b: Bundle, r: Registry, budget: nat)
    requires ValidBundle(b)
    ensures Between(b, r, PublishRun(b, r, budget).registry)
  {
    PublishOnTrack(b, r, budget);
    VerifiedIffReleased(b, PublishAll(b, r, budget));
  }

  lemma {:induction false} SessionsKeepBetween(b: Bundle, r: Registry, budgets: seq<nat>)
    requires ValidBundle(b)
    ensures Between(b, r, Sessions(b, r, budgets))
  {
    BetweenSelf(b, r);
    if budgets != [] {
      var k := budgets[|budgets| - 1];
      var s := Sessions(b, r, budgets[..|budgets| - 1]);
      SessionsKeepBetween(b, r, budgets[..|budgets| - 1]);
      RunKeepsBetween(b, s, k);
      BetweenChain(b, r, s, Sessions(b, r, budgets));
    }
  }

  /** However often a publication is cut off, no stored integrity is replaced. */
  lemma IntegritiesAreKept(b: Bundle, r: Registry, budgets: seq<nat>, name: string, version: string)
    requires ValidBundle(b) && (name, version) in r.stored
    ensures var s := Sessions(b, r, budgets);
      (name, version) in s.stored && s.stored[(name, version)] == r.stored[(name, version)]
  {
    SessionsKeepBetween(b, r, budgets);
  }

  /** However often a publication is cut off, running it again to the end gives the
      registry that an undisturbed run gives, and `verify` succeeds on it. */
  lemma ResumeReachesRelease(b: Bundle, r: Registry, budgets: seq<nat>, budget: nat)
    requires ValidBundle(b) && NoConflict(b, r) && HasEntry(b, r) && budget >= Commands(b)
    ensures var resumed := PublishRun(b, Sessions(b, r, budgets), budget);
      && resumed.status.Going? && Released(b, resumed.registry)
      && resumed.registry == PublishRun(b, r, budget).registry
      && VerifyRun(b, resumed.registry, budget).status.Going?
  {
    var s := Sessions(b, r, budgets);
    SessionsKeepBetween(b, r, budgets);
    forall p | p in b.packages && (p.name, b.version) in s.stored
      ensures Stored(b, s, p)
    {
      if !Stored(b, s, p) {
        ConflictIsOld(b, r, s, p);
      }
    }
    PublishCompletes(b, r, budget);
    PublishCompletes(b, s, budget);
    var t := PublishRun(b, s, budget).registry;
    BetweenChain(b, r, s, t);
    ReleasedIsUnique(b, r, t, PublishRun(b, r, budget).registry);
    EntryStaysReady(b, r, t);
    VerifiedIffReleased(b, Send(Run(t, budget, Going)));
  }

  /* ---- The entry's latest moves last ---- */

  predicate SameLatest(r: Registry, s: Registry) {
    var k := (RELEASE_ENTRY_PACKAGE, LATEST_DIST_TAG);
    (k in r.tags <==> k in s.tags) && (k in r.tags && k in s.tags ==> r.tags[k] == s.tags[k])
  }

  /** The bundle's own dist-tag is not `latest`, or the entry package, if any, comes last. */
  predicate EntryComesLast(b: Bundle) {
    b.distTag != LATEST_DIST_TAG || forall i :: 0 <= i < |b.packages| - 1 ==>
      b.packages[i].name != RELEASE_ENTRY_PACKAGE
  }

  /** `latest` of the entry is where it was, or the bundle is published. */
  predicate LatestIsSafe(b: Bundle, r: Registry, s: Registry) {
    SameLatest(r, s) || AllPublished(b, s, b.packages)
  }

  lemma PackageKeepsLatest(b: Bundle, run: Run, p: Package)
    requires b.distTag != LATEST_DIST_TAG || p.name != RELEASE_ENTRY_PACKAGE
    ensures SameLatest(run.registry, PublishPackage(b, run, p).registry)
  {
  }

  lemma {:induction false} PackagesKeepLatest(b: Bundle, run: Run, ps: seq<Package>)
    requires b.distTag != LATEST_DIST_TAG || forall p :: p in ps ==> p.name != RELEASE_ENTRY_PACKAGE
    ensures SameLatest(run.registry, PublishPackages(b, run, ps).registry)
  {
    if ps != [] {
      PackagesKeepLatest(b, run, ps[..|ps| - 1]);
      PackageKeepsLatest(b, PublishPackages(b, run, ps[..|ps| - 1]), ps[|ps| - 1]);
    }
  }

  lemma AllPublishedStays(b: Bundle, r: Registry, s: Registry, ps: seq<Package>)
    requires Between(b, r, s) && AllPublished(b, r, ps)
    ensures AllPublished(b, s, ps)
  {
    forall p | p in ps
      ensures Published(b, s, p)
    {
      PublishedStays(b, r, s, p);
    }
  }

  /** Storing the entry package under `latest` publishes it at once. */
  lemma EntryIsPublishedAtOnce(b: Bundle, run: Run, p: Package)
    requires ValidBundle(b) && p in b.packages && run.status.Going?
    ensures var t := PublishPackage(b, run, p).registry; SameLatest(run.registry, t) || Published(b, t, p)
  {
    BetweenSelf(b, run.registry);
    StoreOnTrack(b, run.registry, run, p);
  }

  /** The state of `latest` after all packages, before the entry's own tag is set. */
  lemma PackagesAreSafe(b: Bundle, r: Registry, start: Run)
    requires ValidBundle(b) && EntryComesLast(b) && OnTrack(b, r, start) && start.registry == r
    ensures LatestIsSafe(b, r, PublishPackages(b, start, b.packages).registry)
  {
    var ps := b.packages;
    if b.distTag != LATEST_DIST_TAG || ps == [] {
      PackagesKeepLatest(b, start, ps);
    } else {
      var front, last := ps[..|ps| - 1], ps[|ps| - 1];
      assert ps == front + [last];
      var mid := PublishPackages(b, start, front);
      PackagesKeepLatest(b, start, front);
      PackagesOnTrack(b, r, start, front);
      PackageOnTrack(b, r, mid, last);
      if mid.status.Going? {
        EntryIsPublishedAtOnce(b, mid, last);
        AllPublishedStays(b, mid.registry, PublishPackage(b, mid, last).registry, front);
      }
    }
  }

  /** At whatever command a run is cut off, the entry's `latest` is where it was,
      or the whole bundle is stored with its recorded integrities and dist-tag. */
  lemma LatestMovesLast(b: Bundle, r: Registry, budget: nat)
    requires ValidBundle(b) && EntryComesLast(b)
    ensures LatestIsSafe(b, r, PublishRun(b, r, budget).registry)
  {
    var start := Send(Send(Run(r, budget, Going)));
    var mid, last := PublishPackages(b, start, b.packages), PublishAll(b, r, budget);
    BetweenSelf(b, r);
    PackagesAreSafe(b, r, start);
    PackagesOnTrack(b, r, start, b.packages);
    PublishOnTrack(b, r, budget);
    VerifiedIffReleased(b, last);
    if mid.status.Going? {
      TagKeepsPublished(b, mid, b.packages);
    }
  }

  lemma TagKeepsPublished(b: Bundle, run: Run, ps: seq<Package>)
    requires AllPublished(b, run.registry, ps)
    ensures AllPublished(b, EnsureDistTag(b, run, RELEASE_ENTRY_PACKAGE, LATEST_DIST_TAG).registry, ps)
  {
    forall p | p in ps
      ensures Published(b, EnsureDistTag(b, run, RELEASE_ENTRY_PACKAGE, LATEST_DIST_TAG).registry, p)
    {
      assert Published(b, run.registry, p);
    }
  }

  /* ---- Otherwise it does not ---- */

  /** A run that has stopped stays as it is. */
  lemma {:induction false} StoppedPublication(b: Bundle, run: Run, ps: seq<Package>, n: nat)
    requires n <= |ps| && !PublishPackages(b, run, ps[..n]).status.Going?
    ensures PublishPackages(b, run, ps) == PublishPackages(b, run, ps[..n])
  {
    if n < |ps| {
      assert ps[..|ps| - 1][..n] == ps[..n];
      StoppedPublication(b, run, ps[..|ps| - 1], n);
    } else {
      assert ps[..n] == ps;
    }
  }

  /** Nothing but these packages is stored. */
  ghost predicate OnlyStored(b: Bundle, r: Registry, ps: seq<Package>) {
    forall n, v :: (n, v) in r.stored ==> exists i :: 0 <= i < |ps| && ps[i].name == n
  }

  lemma FreshPackage(b: Bundle, run: Run, p: Package)
    requires run.status.Going? && run.budget >= 3 && (p.name, b.version) !in run.registry.stored
    ensures PublishPackage(b, run, p) == Run(WithPackage(run.registry, b, p), run.budget - 3, Going)
  {
    var stored := StorePackage(b, run, p);
    assert stored == Run(WithPackage(run.registry, b, p), run.budget - 2, Going);
    assert (p.name, b.version) in stored.registry.stored;
  }

  lemma StoredOneMore(b: Bundle, r: Registry, ps: seq<Package>, p: Package)
    requires OnlyStored(b, r, ps)
    ensures OnlyStored(b, WithPackage(r, b, p), ps + [p])
  {
    forall n, v | (n, v) in WithPackage(r, b, p).stored
      ensures exists i :: 0 <= i < |ps + [p]| && (ps + [p])[i].name == n
    {
      if (n, v) in r.stored {
        var i :| 0 <= i < |ps| && ps[i].name == n;
        assert (ps + [p])[i].name == n;
      } else {
        assert (ps + [p])[|ps|].name == n;
      }
    }
  }

  lemma NotYetStored(b: Bundle, r: Registry, n: nat)
    requires ValidBundle(b) && n < |b.packages| && OnlyStored(b, r, b.packages[..n])
    ensures (b.packages[n].name, b.version) !in r.stored
  {
    assert forall i :: 0 <= i < n ==> b.packages[..n][i].name != b.packages[n].name;
  }

  lemma PublishNext(b: Bundle, run: Run, n: nat)
    requires n < |b.packages|
    ensures PublishPackages(b, run, b.packages[..n + 1])
      == PublishPackage(b, PublishPackages(b, run, b.packages[..n]), b.packages[n])
    ensures b.packages[..n + 1] == b.packages[..n] + [b.packages[n]]
  {
    assert b.packages[..n + 1][..n] == b.packages[..n];
  }

  lemma FreshStep(b: Bundle, start: Run, n: nat)
    requires ValidBundle(b) && n < |b.packages|
    requires var before := PublishPackages(b, start, b.packages[..n]);
      before.status.Going? && before.budget >= 3 && OnlyStored(b, before.registry, b.packages[..n])
    ensures var before, run :=
      PublishPackages(b, start, b.packages[..n]), PublishPackages(b, start, b.packages[..n + 1]);
      run.status.Going? && run.budget == before.budget - 3 && OnlyStored(b, run.registry, b.packages[..n + 1])
  {
    var before := PublishPackages(b, start, b.packages[..n]);
    NotYetStored(b, before.registry, n);
    FreshPackage(b, before, b.packages[n]);
    StoredOneMore(b, before.registry, b.packages[..n], b.packages[n]);
    PublishNext(b, start, n);
  }

  /** A run that starts on an empty registry. */
  predicate Fresh(start: Run) {
    start.status.Going? && start.registry == Registry(map[], map[])
  }

  /** On an empty registry each package takes three commands. */
  lemma {:induction false} FreshPrefix(b: Bundle, start: Run, n: nat)
    requires ValidBundle(b) && n <= |b.packages| && Fresh(start) && start.budget >= 3 * n
    ensures var run := PublishPackages(b, start, b.packages[..n]);
      run.status.Going? && run.budget == start.budget - 3 * n && OnlyStored(b, run.registry, b.packages[..n])
  {
    if n > 0 {
      FreshPrefix(b, start, n - 1);
      FreshStep(b, start, n - 1);
    }
  }

  lemma CutPackage(b: Bundle, run: Run, p: Package)
    requires run.status.Going? && run.budget == 2 && (p.name, b.version) !in run.registry.stored
    ensures PublishPackage(b, run, p) == Run(WithPackage(run.registry, b, p), 0, CutOff)
  {
    assert StorePackage(b, run, p) == Run(WithPackage(run.registry, b, p), 0, Going);
  }

  lemma CutPackages(b: Bundle, start: Run, i: nat)
    requires ValidBundle(b) && i < |b.packages| && Fresh(start) && start.budget == 3 * i + 2
    ensures var run := PublishPackages(b, start, b.packages);
      && !run.status.Going? && Tagged(run.registry, b.packages[i].name, b.distTag, b.version)
      && OnlyStored(b, run.registry, b.packages[..i + 1])
  {
    var before := PublishPackages(b, start, b.packages[..i]);
    FreshPrefix(b, start, i);
    NotYetStored(b, before.registry, i);
    CutPackage(b, before, b.packages[i]);
    StoredOneMore(b, before.registry, b.packages[..i], b.packages[i]);
    PublishNext(b, start, i);
    StoppedPublication(b, start, b.packages, i + 1);
  }

  /** Cut off right after the package is stored. */
  lemma CutAfterPackage(b: Bundle, i: nat) returns (run: Run)
    requires ValidBundle(b) && i < |b.packages|
    ensures run == PublishAll(b, Registry(map[], map[]), 3 * i + 4) && !run.status.Going?
    ensures Tagged(run.registry, b.packages[i].name, b.distTag, b.version)
    ensures OnlyStored(b, run.registry, b.packages[..i + 1])
  {
    var start := Send(Send(Run(Registry(map[], map[]), 3 * i + 4, Going)));
    CutPackages(b, start, i);
    run := PublishPackages(b, start, b.packages);
  }

  /** A bundle tagged `latest` that lists the entry package before another one moves
      the entry's `latest` too early, in some run on an empty registry. */
  lemma LatestMovesEarly(b: Bundle) returns (budget: nat)
    requires ValidBundle(b) && !EntryComesLast(b)
    ensures var r := Registry(map[], map[]); !LatestIsSafe(b, r, PublishRun(b, r, budget).registry)
  {
    var i: nat :| i < |b.packages| - 1 && b.packages[i].name == RELEASE_ENTRY_PACKAGE;
    var run := CutAfterPackage(b, i);
    budget := 3 * i + 4;
    VerifiedIffReleased(b, run);
    NotYetStored(b, run.registry, i + 1);
    assert b.packages[i + 1] in b.packages;
  }

  /** `latest` moves last in every run exactly for such bundles. */
  lemma LatestMovesLastIff(b: Bundle)
    requires ValidBundle(b)
    ensures EntryComesLast(b) <==> forall r, budget: nat :: LatestIsSafe(b, r, PublishRun(b, r, budget).registry)
  {
    if EntryComesLast(b) {
      forall r, budget: nat
        ensures LatestIsSafe(b, r, PublishRun(b, r, budget).registry)
      {
        LatestMovesLast(b, r, budget);
      }
    } else {
      var budget := LatestMovesEarly(b);
    }
  }

  /** Also over a series of runs, each cut off at some command. */
  lemma {:induction false} SessionsMoveLatestLast(b: Bundle, r: Registry, budgets: seq<nat>)
    requires ValidBundle(b) && EntryComesLast(b)
    ensures LatestIsSafe(b, r, Sessions(b, r, budgets))
  {
    if budgets != [] {
      var front, k := budgets[..|budgets| - 1], budgets[|budgets| - 1];
      var s := Sessions(b, r, front);
      SessionsMoveLatestLast(b, r, front);
      LatestMovesLast(b, s, k);
      if AllPublished(b, s, b.packages) {
        RunKeepsBetween(b, s, k);
        AllPublishedStays(b, s, PublishRun(b, s, k).registry, b.packages);
      }
    }
  }

  lemma OneSession(b: Bundle, r: Registry, budget: nat)
    ensures Sessions(b, r, [budget]) == PublishRun(b, r, budget).registry
  {
    var once: seq<nat> := [budget];
    assert once[..|once| - 1] == [] && Sessions(b, r, once[..|once| - 1]) == r;
  }

  ghost predicate SafeAfter(b: Bundle, r: Registry, budgets: seq<nat>) {
    LatestIsSafe(b, r, Sessions(b, r, budgets))
  }

  /** `latest` moves last in every series of runs exactly for such bundles. */
  lemma SessionsMoveLatestLastIff(b: Bundle)
    requires ValidBundle(b)
    ensures EntryComesLast(b) <==> forall r, budgets: seq<nat> :: SafeAfter(b, r, budgets)
  {
    if EntryComesLast(b) {
      forall r, budgets: seq<nat>
        ensures SafeAfter(b, r, budgets)
      {
        SessionsMoveLatestLast(b, r, budgets);
      }
    } else {
      var budget := LatestMovesEarly(b);
      var r := Registry(map[], map[]);
      OneSession(b, r, budget);
      assert !SafeAfter(b, r, [budget]);
    }
  }
}
