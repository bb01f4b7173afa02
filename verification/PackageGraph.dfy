/** The layered package order: scripts/package-graph.ts, `topoSort` and
    `comparePackages`. */
module PackageGraph {
  import opened Sequences
  import Sorting
  import opened Digraph

  datatype Package = Package(short: string, group: string, deps: seq<string>)

  /** The caller's group order and the locale's string comparison. */
  datatype Ordering = Ordering(groups: seq<string>, collate: (string, string) -> int)

  datatype Result = Ordered(packages: seq<Package>) | CycleAmong(shorts: seq<string>)

  /* ---- comparePackages ---- */

  /** A comparison result is only looked at for its sign. */
  ghost predicate Collation(collate: (string, string) -> int) {
    && (forall a, b :: collate(a, b) <= 0 <==> collate(b, a) >= 0)
    && (forall a, b, c :: collate(a, b) <= 0 && collate(b, c) <= 0 ==> collate(a, c) <= 0)
  }

  /** Only equal strings compare equal. */
  ghost predicate TellsApart(collate: (string, string) -> int) {
    forall a, b :: collate(a, b) == 0 ==> a == b
  }

  const MAX_SAFE_INTEGER: int := 9007199254740991

  /** `indexOf`: the first position, or -1. */
  function IndexOf(s: seq<string>, x: string): (r: int)
    ensures r == -1 <==> x !in s
    ensures r != -1 ==> 0 <= r < |s| && s[r] == x && x !in s[..r]
  {
    if s == [] then -1
    else if s[0] == x then 0
    else
      var i := IndexOf(s[1..], x);
      if i == -1 then -1 else
        assert s[..i + 1] == [s[0]] + s[1..][..i];
        i + 1
  }

  function GroupRank(groups: seq<string>, group: string): int {
    var i := IndexOf(groups, group);
    if i == -1 then MAX_SAFE_INTEGER else i
  }

  /** `comparePackages` */
  function Compare(a: Package, b: Package, order: Ordering): int {
    var byRank := GroupRank(order.groups, a.group) - GroupRank(order.groups, b.group);
    if byRank != 0 then byRank
    else if order.collate(a.group, b.group) != 0 then order.collate(a.group, b.group)
    else order.collate(a.short, b.short)
  }

  lemma CompareIsOrder(a: Package, b: Package, c: Package, order: Ordering)
    requires Collation(order.collate)
    ensures Compare(a, b, order) <= 0 <==> Compare(b, a, order) >= 0
    ensures Compare(a, b, order) <= 0 && Compare(b, c, order) <= 0 ==> Compare(a, c, order) <= 0
    ensures TellsApart(order.collate) && Compare(a, b, order) == 0 ==> a.group == b.group && a.short == b.short
  {
    var collate := order.collate;
    assert collate(a.group, b.group) <= 0 <==> collate(b.group, a.group) >= 0;
    assert collate(b.group, a.group) <= 0 <==> collate(a.group, b.group) >= 0;
    assert collate(a.short, b.short) <= 0 <==> collate(b.short, a.short) >= 0;
    assert collate(c.group, b.group) <= 0 <==> collate(b.group, c.group) >= 0;
    assert collate(c.group, a.group) <= 0 <==> collate(a.group, c.group) >= 0;
  }

  /** The group is listed, and the other one is not, or only later. */
  ghost predicate ListedBefore(groups: seq<string>, group: string, other: string) {
    exists i :: 0 <= i < |groups| && groups[i] == group && other !in groups[..i + 1]
  }

  lemma FirstIsNoLater(s: seq<string>, x: string, k: nat)
    requires k < |s| && s[k] == x
    ensures 0 <= IndexOf(s, x) <= k
  {
    var i := IndexOf(s, x);
    forall m | 0 <= m < i
      ensures s[m] != x
    {
      assert s[..i][m] == s[m];
    }
  }

  lemma ListedBehind(s: seq<string>, x: string, k: nat, j: nat)
    requires k < |s| && j < |s| && s[j] == x && x !in s[..k + 1]
    ensures j > k
  {
    forall m | 0 <= m < k + 1
      ensures s[m] != x
    {
      assert s[..k + 1][m] == s[m];
    }
  }

  lemma RankIsPlace(groups: seq<string>, group: string, other: string)
    requires |groups| < MAX_SAFE_INTEGER
    ensures GroupRank(groups, group) < GroupRank(groups, other) <==> ListedBefore(groups, group, other)
  {
    var i, j := IndexOf(groups, group), IndexOf(groups, other);
    if i != -1 && GroupRank(groups, group) < GroupRank(groups, other) {
      forall k | 0 <= k < i + 1
        ensures groups[k] != other
      {
        assert j != -1 && k < j ==> groups[k] == groups[..j][k];
        assert j == -1 ==> groups[k] in groups;
      }
      assert groups[i] == group && other !in groups[..i + 1];
    }
    if k :| 0 <= k < |groups| && groups[k] == group && other !in groups[..k + 1] {
      FirstIsNoLater(groups, group, k);
      if j != -1 {
        ListedBehind(groups, other, k, j);
      }
    }
  }

  /** The package of the group that is listed earlier comes first. Within a group, and between groups that
      are not listed, the groups and then the names are collated. */
  lemma CompareMeaning(a: Package, b: Package, order: Ordering)
    requires |order.groups| < MAX_SAFE_INTEGER
    ensures ListedBefore(order.groups, a.group, b.group) ==> Compare(a, b, order) < 0
    ensures ListedBefore(order.groups, b.group, a.group) ==> Compare(a, b, order) > 0
    ensures !ListedBefore(order.groups, a.group, b.group) && !ListedBefore(order.groups, b.group, a.group) ==>
      Compare(a, b, order) ==
      if order.collate(a.group, b.group) == 0 then order.collate(a.short, b.short) else order.collate(a.group, b.group)
  {
    RankIsPlace(order.groups, a.group, b.group);
    RankIsPlace(order.groups, b.group, a.group);
  }

  /* ---- Sorting ---- */

  function ByCompare(order: Ordering): (Package, Package) -> int {
    (a: Package, b: Package) => Compare(a, b, order)
  }

  function Sort(s: seq<Package>, order: Ordering): seq<Package> {
    Sorting.Sort(s, ByCompare(order))
  }

  ghost predicate Sorted(s: seq<Package>, order: Ordering) {
    forall i, j :: 0 <= i < j < |s| ==> Compare(s[i], s[j], order) <= 0
  }

  lemma SortKeepsAll(s: seq<Package>, order: Ordering)
    ensures multiset(Sort(s, order)) == multiset(s)
  {
    Sorting.SortKeepsAll(s, ByCompare(order));
  }

  lemma SortSorts(s: seq<Package>, order: Ordering)
    requires Collation(order.collate)
    ensures Sorted(Sort(s, order), order)
  {
    var compare := ByCompare(order);
    forall a, b, c
      ensures compare(a, b) <= 0 <==> compare(b, a) >= 0
      ensures compare(a, b) <= 0 && compare(b, c) <= 0 ==> compare(a, c) <= 0
    {
      CompareIsOrder(a, b, c, order);
    }
    Sorting.SortSorts(s, compare);
    forall i, j | 0 <= i < j < |Sort(s, order)|
      ensures Compare(Sort(s, order)[i], Sort(s, order)[j], order) <= 0
    {
      assert compare(Sort(s, order)[i], Sort(s, order)[j]) <= 0;
    }
  }

  /* ---- The dependency graph and its rounds ---- */

  /** The place of a name, or the length. */
  function PlaceOf(packages: seq<Package>, short: string): (r: nat)
    ensures r <= |packages|
    ensures forall i :: 0 <= i < r ==> packages[i].short != short
    ensures r < |packages| ==> packages[r].short == short
  {
    if packages == [] || packages[0].short == short then 0 else 1 + PlaceOf(packages[1..], short)
  }

  predicate Unique(packages: seq<Package>) {
    forall i, j :: 0 <= i < j < |packages| ==> packages[i].short != packages[j].short
  }

  /** `Map.set`: a repeated name keeps its place and takes the later package. */
  function Put(entries: seq<Package>, p: Package): (r: seq<Package>)
    requires Unique(entries)
    ensures Unique(r) && p in r
    ensures forall e :: e in r <==> e == p || (e in entries && e.short != p.short)
  {
    var i := PlaceOf(entries, p.short);
    if i < |entries| then
      var r := entries[i := p];
      assert r[i] == p;
      assert forall k :: 0 <= k < |r| && k != i ==> r[k] == entries[k];
      r
    else entries + [p]
  }

  /** The entries of `new Map(packages.map(...))`, in their order. */
  function Entries(packages: seq<Package>): (r: seq<Package>)
    ensures Unique(r)
  {
    if packages == [] then []
    else Put(Entries(packages[..|packages| - 1]), packages[|packages| - 1])
  }

  predicate NotAgain(packages: seq<Package>, i: nat)
    requires i < |packages|
  {
    forall j :: i < j < |packages| ==> packages[j].short != packages[i].short
  }

  /** e is the last package of its name. */
  predicate IsLast(packages: seq<Package>, e: Package) {
    exists i :: 0 <= i < |packages| && packages[i] == e && NotAgain(packages, i)
  }

  lemma IsLastSnoc(packages: seq<Package>, p: Package, e: Package)
    ensures IsLast(packages + [p], e) <==> e == p || (IsLast(packages, e) && e.short != p.short)
  {
    var all := packages + [p];
    if IsLast(all, e) {
      var i :| 0 <= i < |all| && all[i] == e && NotAgain(all, i);
      if i < |packages| {
        assert all[|packages|] == p;
        assert forall j :: i < j < |packages| ==> packages[j] == all[j];
        assert packages[i] == e && NotAgain(packages, i);
      }
    }
    if e == p {
      assert all[|packages|] == e && NotAgain(all, |packages|);
    } else if IsLast(packages, e) && e.short != p.short {
      var i :| 0 <= i < |packages| && packages[i] == e && NotAgain(packages, i);
      assert all[i] == e && NotAgain(all, i);
    }
  }

  /** Each name once, with its last package. */
  lemma {:induction false} EntriesAreLast(packages: seq<Package>, e: Package)
    ensures e in Entries(packages) <==> IsLast(packages, e)
  {
    if packages != [] {
      EntriesAreLast(packages[..|packages| - 1], e);
      IsLastSnoc(packages[..|packages| - 1], packages[|packages| - 1], e);
      assert packages == packages[..|packages| - 1] + [packages[|packages| - 1]];
    }
  }

  /** The names stand in the order of their first packages. */
  predicate ByFirstPlace(packages: seq<Package>, entries: seq<Package>) {
    forall i, j :: 0 <= i < j < |entries| ==>
      PlaceOf(packages, entries[i].short) < PlaceOf(packages, entries[j].short) < |packages|
  }

  lemma {:induction false} PlaceOfSnoc(packages: seq<Package>, p: Package, short: string)
    ensures PlaceOf(packages + [p], short) ==
      if PlaceOf(packages, short) == |packages| && p.short != short then |packages| + 1 else PlaceOf(packages, short)
    decreases |packages|
  {
    if packages == [] {
      assert [p][1..] == [];
    } else {
      PlaceOfSnoc(packages[1..], p, short);
      assert (packages + [p])[1..] == packages[1..] + [p];
    }
  }

  /** Every name has an entry and every entry a name. */
  lemma {:induction false} EntriesHaveNames(packages: seq<Package>, short: string)
    ensures PlaceOf(packages, short) < |packages| <==> PlaceOf(Entries(packages), short) < |Entries(packages)|
  {
    if packages != [] {
      var front, p := packages[..|packages| - 1], packages[|packages| - 1];
      assert packages == front + [p];
      EntriesHaveNames(front, short);
      PlaceOfSnoc(front, p, short);
      PutHasName(Entries(front), p, short);
    }
  }

  lemma PutHasName(entries: seq<Package>, p: Package, short: string)
    requires Unique(entries)
    ensures PlaceOf(Put(entries, p), short) < |Put(entries, p)| <==>
            PlaceOf(entries, short) < |entries| || short == p.short
  {
    var i, all := PlaceOf(entries, p.short), Put(entries, p);
    var j := PlaceOf(entries, short);
    if i < |entries| {
      assert forall k :: 0 <= k < |entries| ==> all[k].short == entries[k].short;
      assert j < |entries| ==> all[j].short == short;
      assert PlaceOf(all, short) < |all| ==> entries[PlaceOf(all, short)].short == short;
    } else {
      PlaceOfSnoc(entries, p, short);
    }
  }

  lemma {:induction false} EntriesByFirstPlace(packages: seq<Package>)
    ensures ByFirstPlace(packages, Entries(packages))
  {
    if packages != [] {
      var front, p := packages[..|packages| - 1], packages[|packages| - 1];
      assert packages == front + [p];
      EntriesByFirstPlace(front);
      EntriesHaveNames(front, p.short);
      PutByFirstPlace(front, p, Entries(front));
    }
  }

  lemma PutByFirstPlace(packages: seq<Package>, p: Package, entries: seq<Package>)
    requires Unique(entries) && ByFirstPlace(packages, entries)
    requires forall e :: e in entries ==> PlaceOf(packages, e.short) < |packages|
    requires PlaceOf(packages, p.short) < |packages| <==> PlaceOf(entries, p.short) < |entries|
    ensures ByFirstPlace(packages + [p], Put(entries, p))
  {
    var all := Put(entries, p);
    forall short
      ensures PlaceOf(packages + [p], short) ==
        if PlaceOf(packages, short) == |packages| && p.short != short then |packages| + 1 else PlaceOf(packages, short)
    {
      PlaceOfSnoc(packages, p, short);
    }
    forall k | 0 <= k < |entries|
      ensures all[k].short == entries[k].short && entries[k] in entries
    {
    }
  }

  lemma {:induction false} UniqueEntries(packages: seq<Package>)
    requires Unique(packages)
    ensures Entries(packages) == packages
  {
    if packages != [] {
      var front, last := packages[..|packages| - 1], packages[|packages| - 1];
      UniqueEntries(front);
      assert PlaceOf(front, last.short) == |front|;
      assert packages == front + [last];
    }
  }

  function Needs(entries: seq<Package>): (g: Graph<string>)
    requires Unique(entries)
    ensures forall e :: e in entries ==> e.short in g && g[e.short] == e.deps
    ensures forall a :: a in g <==> exists e :: e in entries && e.short == a
  {
    if entries == [] then map[]
    else
      var front, last := entries[..|entries| - 1], entries[|entries| - 1];
      assert entries == front + [last];
      Needs(front)[last.short := last.deps]
  }

  /** Every chain of dependencies from a stays among the packages and has fewer than k edges. */
  predicate Below(g: Graph<string>, a: string, k: nat)
    decreases k
  {
    k > 0 && a in g && forall d :: d in g[a] ==> Below(g, d, k - 1)
  }

  predicate InRound(g: Graph<string>, a: string, k: nat) {
    Below(g, a, k + 1) && !Below(g, a, k)
  }

  lemma {:induction false} BelowMore(g: Graph<string>, a: string, k: nat, n: nat)
    requires Below(g, a, k) && k <= n
    ensures Below(g, a, n)
    decreases k
  {
    forall d | d in g[a]
      ensures Below(g, d, n - 1)
    {
      BelowMore(g, d, k - 1, n - 1);
    }
  }

  lemma RoundIsUnique(g: Graph<string>, a: string, j: nat, k: nat)
    requires InRound(g, a, j) && InRound(g, a, k)
    ensures j == k
  {
    if j < k {
      BelowMore(g, a, j + 1, k);
    } else if k < j {
      BelowMore(g, a, k + 1, j);
    }
  }

  lemma {:induction false} SomeRound(g: Graph<string>, a: string, n: nat) returns (k: nat)
    requires Below(g, a, n)
    ensures k < n && InRound(g, a, k)
  {
    if Below(g, a, n - 1) {
      k := SomeRound(g, a, n - 1);
    } else {
      k := n - 1;
    }
  }

  /* ---- What the rounds mean ---- */

  lemma {:induction false} ChainIsShort(g: Graph<string>, p: seq<string>, k: nat)
    requires Walk(g, p) && Below(g, p[0], k)
    ensures |p| <= k && p[|p| - 1] in g
    decreases k
  {
    if |p| > 1 {
      assert Edge(g, p[0], p[1]);
      forall i | 0 < i < |p[1..]|
        ensures Edge(g, p[1..][i - 1], p[1..][i])
      {
        assert Edge(g, p[i], p[i + 1]);
      }
      ChainIsShort(g, p[1..], k - 1);
    }
  }

  /** A package that is not below k starts a chain of k edges, or one that leaves the packages. */
  lemma {:induction false} LongChain(g: Graph<string>, a: string, k: nat) returns (p: seq<string>)
    requires !Below(g, a, k)
    ensures Walk(g, p) && p[0] == a && (|p| == k + 1 || (|p| <= k && p[|p| - 1] !in g))
    decreases k
  {
    p := [a];
    if k > 0 && a in g {
      var d :| d in g[a] && !Below(g, d, k - 1);
      var q := LongChain(g, d, k - 1);
      p := [a] + q;
      assert Edge(g, a, d);
      forall i | 0 < i < |p|
        ensures Edge(g, p[i - 1], p[i])
      {
        if i > 1 {
          assert Edge(g, q[i - 2], q[i - 1]);
        }
      }
    }
  }

  /** The longest dependency chain from a has k edges, and no chain leaves the packages. */
  ghost predicate LongestChain(g: Graph<string>, a: string, k: nat) {
    && (exists p :: Walk(g, p) && p[0] == a && |p| == k + 1)
    && (forall p :: Walk(g, p) && p[0] == a ==> |p| <= k + 1 && p[|p| - 1] in g)
  }

  lemma RoundIsLongestChain(g: Graph<string>, a: string, k: nat)
    ensures InRound(g, a, k) <==> LongestChain(g, a, k)
  {
    if InRound(g, a, k) {
      var p := LongChain(g, a, k);
      forall q | Walk(g, q) && q[0] == a
        ensures |q| <= k + 1 && q[|q| - 1] in g
      {
        ChainIsShort(g, q, k + 1);
      }
    }
    if LongestChain(g, a, k) {
      if !Below(g, a, k + 1) {
        var p := LongChain(g, a, k + 1);
      }
      if Below(g, a, k) {
        var p :| Walk(g, p) && p[0] == a && |p| == k + 1;
        ChainIsShort(g, p, k);
      }
    }
  }

  /** a depends, directly or not, on a name no package has or on a package that depends on itself. */
  ghost predicate Blocked(g: Graph<string>, a: string) {
    || (exists m :: m !in g && Reaches(g, a, m))
    || (exists c :: IsCycle(g, c) && Reaches(g, a, c[0]))
  }

  /** Going round a cycle gives chains of every length. */
  lemma {:induction false} CycleIsNeverBelow(g: Graph<string>, c: seq<string>, k: nat)
    requires IsCycle(g, c)
    ensures !Below(g, c[0], k)
    decreases k
  {
    if Below(g, c[0], k) {
      ChainIsShort(g, c, k);
      BelowAlong(g, c, k);
      CycleIsNeverBelow(g, c, k - (|c| - 1));
    }
  }

  lemma {:induction false} BelowAlong(g: Graph<string>, p: seq<string>, k: nat)
    requires Walk(g, p) && Below(g, p[0], k) && |p| <= k
    ensures Below(g, p[|p| - 1], k - (|p| - 1))
    decreases k
  {
    if |p| > 1 {
      assert Edge(g, p[0], p[1]);
      forall i | 0 < i < |p[1..]|
        ensures Edge(g, p[1..][i - 1], p[1..][i])
      {
        assert Edge(g, p[i], p[i + 1]);
      }
      BelowAlong(g, p[1..], k - 1);
    }
  }

  lemma BlockedIsNeverBelow(g: Graph<string>, a: string, k: nat)
    requires Blocked(g, a)
    ensures !Below(g, a, k)
  {
    if Below(g, a, k) {
      if m :| m !in g && Reaches(g, a, m) {
        var p :| Walk(g, p) && p[0] == a && p[|p| - 1] == m;
        ChainIsShort(g, p, k);
      } else {
        var c :| IsCycle(g, c) && Reaches(g, a, c[0]);
        var p :| Walk(g, p) && p[0] == a && p[|p| - 1] == c[0];
        ChainIsShort(g, p, k);
        BelowAlong(g, p, k);
        CycleIsNeverBelow(g, c, k - (|p| - 1));
      }
    }
  }

  /** No package joins the ones below k. */
  ghost predicate Stuck(g: Graph<string>, k: nat) {
    forall a :: a in g && Below(g, a, k + 1) ==> Below(g, a, k)
  }

  /** When no package can be placed any more, exactly the blocked ones are left. */
  lemma StuckMeansBlocked(g: Graph<string>, a: string, k: nat)
    requires Stuck(g, k) && a in g
    ensures Below(g, a, k) <==> !Blocked(g, a)
  {
    if Blocked(g, a) {
      BlockedIsNeverBelow(g, a, k);
    }
    if !Below(g, a, k) && forall m :: m !in g ==> !Reaches(g, a, m) {
      var left := set b | b in g && !Below(g, b, k) && Reaches(g, a, b);
      forall b | b in left
        ensures HasSuccessorIn(g, b, left)
      {
        assert !Below(g, b, k + 1);
        var d :| d in g[b] && !Below(g, d, k);
        assert Edge(g, b, d);
        ReachesThenEdge(g, a, b, d);
        assert d in left;
      }
      ReachesSelf(g, a);
      assert a in left;
      var c := TrapHasCycle(g, left);
      assert c[0] in left;
    }
  }

  /* ---- topoSort ---- */

  /** The entries whose name is not placed yet. */
  function Remaining(entries: seq<Package>, placed: set<string>): seq<Package> {
    if entries == [] then []
    else
      var front, last := entries[..|entries| - 1], entries[|entries| - 1];
      if last.short in placed then Remaining(front, placed) else Remaining(front, placed) + [last]
  }

  lemma {:induction false} RemainingMembers(entries: seq<Package>, placed: set<string>)
    ensures forall e :: e in Remaining(entries, placed) <==> e in entries && e.short !in placed
    ensures Unique(entries) ==> Unique(Remaining(entries, placed))
  {
    if entries != [] {
      var front, last := entries[..|entries| - 1], entries[|entries| - 1];
      assert entries == front + [last];
      RemainingMembers(front, placed);
    }
  }

  predicate AllPlaced(deps: seq<string>, placed: set<string>) {
    forall d :: d in deps ==> d in placed
  }

  function ReadyAmong(remaining: seq<Package>, placed: set<string>): seq<Package> {
    if remaining == [] then []
    else
      var front, last := remaining[..|remaining| - 1], remaining[|remaining| - 1];
      if AllPlaced(last.deps, placed) then ReadyAmong(front, placed) + [last] else ReadyAmong(front, placed)
  }

  lemma {:induction false} ReadyMembers(remaining: seq<Package>, placed: set<string>)
    ensures forall e :: e in ReadyAmong(remaining, placed) <==> e in remaining && AllPlaced(e.deps, placed)
    ensures Unique(remaining) ==> Unique(ReadyAmong(remaining, placed))
  {
    if remaining != [] {
      var front, last := remaining[..|remaining| - 1], remaining[|remaining| - 1];
      assert remaining == front + [last];
      ReadyMembers(front, placed);
    }
  }

  lemma {:induction false} ReadySelect(remaining: seq<Package>, placed: set<string>)
    ensures Selects(remaining, (e: Package) => AllPlaced(e.deps, placed), ReadyAmong(remaining, placed))
  {
    var p := (e: Package) => AllPlaced(e.deps, placed);
    if remaining == [] {
      SelectsNone(p);
    } else {
      var front, last := remaining[..|remaining| - 1], remaining[|remaining| - 1];
      ReadySelect(front, placed);
      SelectsSnoc(front, last, p, ReadyAmong(front, placed));
      assert front + [last] == remaining;
    }
  }

  /** `Map.delete` */
  function Without(entries: seq<Package>, short: string): (r: seq<Package>)
    ensures |r| <= |entries|
  {
    if entries == [] then []
    else
      var front, last := entries[..|entries| - 1], entries[|entries| - 1];
      assert entries == front + [last];
      if last.short == short then Without(front, short) else Without(front, short) + [last]
  }

  lemma {:induction false} WithoutIsShorter(entries: seq<Package>, e: Package)
    requires e in entries
    ensures |Without(entries, e.short)| < |entries|
  {
    var front, last := entries[..|entries| - 1], entries[|entries| - 1];
    assert entries == front + [last];
    if last.short != e.short {
      WithoutIsShorter(front, e);
    }
  }

  lemma RemainingSnoc(entries: seq<Package>, e: Package, placed: set<string>)
    ensures Remaining(entries + [e], placed) ==
            if e.short in placed then Remaining(entries, placed) else Remaining(entries, placed) + [e]
  {
    assert (entries + [e])[..|entries|] == entries;
  }

  lemma WithoutSnoc(entries: seq<Package>, e: Package, short: string)
    ensures Without(entries + [e], short) ==
            if e.short == short then Without(entries, short) else Without(entries, short) + [e]
  {
    assert (entries + [e])[..|entries|] == entries;
  }

  lemma {:induction false} DeletePlaced(entries: seq<Package>, placed: set<string>, short: string)
    ensures Without(Remaining(entries, placed), short) == Remaining(entries, placed + {short})
  {
    if entries != [] {
      var front, last := entries[..|entries| - 1], entries[|entries| - 1];
      DeletePlaced(front, placed, short);
      RemainingSnoc(front, last, placed);
      RemainingSnoc(front, last, placed + {short});
      WithoutSnoc(Remaining(front, placed), last, short);
      assert entries == front + [last];
    }
  }

  function Shorts(packages: seq<Package>): (r: seq<string>)
    ensures |r| == |packages| && forall i :: 0 <= i < |r| ==> r[i] == packages[i].short
  {
    seq(|packages|, i requires 0 <= i < |packages| => packages[i].short)
  }

  ghost function NameSet(packages: seq<Package>): set<string> {
    set e | e in packages :: e.short
  }

  /** a may stand before b: it belongs to an earlier round, or to the same and does not compare greater. */
  ghost predicate Earlier(g: Graph<string>, a: Package, b: Package, order: Ordering) {
    forall i, j :: InRound(g, a.short, i) && InRound(g, b.short, j) ==>
                     i < j || (i == j && Compare(a, b, order) <= 0)
  }

  ghost predicate PairwiseEarlier(g: Graph<string>, out: seq<Package>, order: Ordering) {
    forall i, j :: 0 <= i < j < |out| ==> Earlier(g, out[i], out[j], order)
  }

  /** The packages below k, each once, in order. */
  ghost predicate Layered(entries: seq<Package>, order: Ordering, out: seq<Package>, k: nat)
    requires Unique(entries)
  {
    var g := Needs(entries);
    && Unique(out)
    && (forall e :: e in out <==> e in entries && Below(g, e.short, k))
    && PairwiseEarlier(g, out, order)
  }

  ghost predicate PlacedAre(g: Graph<string>, placed: set<string>, k: nat) {
    forall a :: a in placed <==> Below(g, a, k)
  }

  /** One round takes exactly the packages whose longest chain has k edges. */
  lemma RoundIsReady(entries: seq<Package>, placed: set<string>, k: nat, e: Package)
    requires Unique(entries) && PlacedAre(Needs(entries), placed, k)
    ensures e in ReadyAmong(Remaining(entries, placed), placed) <==> e in entries && InRound(Needs(entries), e.short, k)
  {
    RemainingMembers(entries, placed);
    ReadyMembers(Remaining(entries, placed), placed);
    if e in entries {
      assert Needs(entries)[e.short] == e.deps;
    }
  }

  lemma UniqueSort(s: seq<Package>, order: Ordering)
    requires Unique(s)
    ensures Unique(Sort(s, order)) && forall e :: e in Sort(s, order) <==> e in s
  {
    var r := Sort(s, order);
    SortKeepsAll(s, order);
    forall e
      ensures e in r <==> e in s
    {
      assert e in multiset(r) <==> e in multiset(s);
    }
    assert |r| == |multiset(r)| == |multiset(s)| == |s|;
    if i, j :| 0 <= i < j < |r| && r[i].short == r[j].short {
      assert r[i] in s && r[j] in s;
      assert r[i] == r[j];
      TwiceInSequence(r, i, j);
      OnceInUnique(s, r[i]);
    }
  }

  lemma {:induction false} OnceInUnique(s: seq<Package>, e: Package)
    requires Unique(s)
    ensures multiset(s)[e] <= 1
  {
    if s != [] {
      OnceInUnique(s[1..], e);
      assert s == [s[0]] + s[1..];
    }
  }

  /** Placing one round makes the packages below k + 1 the placed ones. */
  lemma RoundIsPlaced(entries: seq<Package>, placed: set<string>, round: seq<Package>, k: nat)
    requires Unique(entries) && PlacedAre(Needs(entries), placed, k)
    requires forall e :: e in round <==> e in entries && InRound(Needs(entries), e.short, k)
    ensures PlacedAre(Needs(entries), placed + NameSet(round), k + 1)
  {
    var g := Needs(entries);
    forall a
      ensures a in placed + NameSet(round) <==> Below(g, a, k + 1)
    {
      if Below(g, a, k) {
        BelowMore(g, a, k, k + 1);
      } else if Below(g, a, k + 1) {
        var e :| e in entries && e.short == a;
        assert e in round;
      }
    }
  }

  lemma EarlierRound(g: Graph<string>, a: Package, b: Package, k: nat, order: Ordering)
    requires Below(g, a.short, k) && InRound(g, b.short, k)
    ensures Earlier(g, a, b, order)
  {
    forall i: nat, j: nat | InRound(g, a.short, i) && InRound(g, b.short, j)
      ensures i < j
    {
      RoundIsUnique(g, b.short, j, k);
      if i >= k {
        BelowMore(g, a.short, k, i);
      }
    }
  }

  lemma SameRound(g: Graph<string>, a: Package, b: Package, k: nat, order: Ordering)
    requires InRound(g, a.short, k) && InRound(g, b.short, k) && Compare(a, b, order) <= 0
    ensures Earlier(g, a, b, order)
  {
    forall i: nat, j: nat | InRound(g, a.short, i) && InRound(g, b.short, j)
      ensures i == j
    {
      RoundIsUnique(g, a.short, i, k);
      RoundIsUnique(g, b.short, j, k);
    }
  }

  /** Appending a sorted round keeps the order. */
  lemma RoundKeepsOrder(g: Graph<string>, out: seq<Package>, round: seq<Package>, order: Ordering, k: nat)
    requires PairwiseEarlier(g, out, order) && Sorted(round, order)
    requires forall e :: e in out ==> Below(g, e.short, k)
    requires forall e :: e in round ==> InRound(g, e.short, k)
    ensures PairwiseEarlier(g, out + round, order)
  {
    var all := out + round;
    forall i, j | 0 <= i < j < |all|
      ensures Earlier(g, all[i], all[j], order)
    {
      if j < |out| {
        assert Earlier(g, out[i], out[j], order);
      } else {
        var b := round[j - |out|];
        assert b in round;
        if i < |out| {
          assert out[i] in out;
          EarlierRound(g, out[i], b, k, order);
        } else {
          assert round[i - |out|] in round;
          SameRound(g, round[i - |out|], b, k, order);
        }
      }
    }
  }

  lemma RoundKeepsUnique(out: seq<Package>, round: seq<Package>)
    requires Unique(out) && Unique(round)
    requires forall a, b :: a in out && b in round ==> a.short != b.short
    ensures Unique(out + round)
  {
    var all := out + round;
    forall i, j | 0 <= i < j < |all|
      ensures all[i].short != all[j].short
    {
      if i < |out| <= j {
        assert out[i] in out && round[j - |out|] in round;
      }
    }
  }

  lemma RoundKeepsLayered(entries: seq<Package>, order: Ordering, out: seq<Package>, round: seq<Package>, k: nat)
    requires Unique(entries) && Layered(entries, order, out, k) && Sorted(round, order) && Unique(round)
    requires forall e :: e in round <==> e in entries && InRound(Needs(entries), e.short, k)
    ensures Layered(entries, order, out + round, k + 1)
  {
    var g := Needs(entries);
    RoundKeepsOrder(g, out, round, order, k);
    RoundKeepsUnique(out, round);
    forall e
      ensures e in out + round <==> e in entries && Below(g, e.short, k + 1)
    {
      if Below(g, e.short, k) {
        BelowMore(g, e.short, k, k + 1);
      }
    }
  }

  /** The names of the blocked entries, in their order. */
  ghost function BlockedNames(g: Graph<string>, entries: seq<Package>): seq<string> {
    if entries == [] then []
    else
      var front, last := entries[..|entries| - 1], entries[|entries| - 1];
      if Blocked(g, last.short) then BlockedNames(g, front) + [last.short] else BlockedNames(g, front)
  }

  ghost predicate NoneBlocked(g: Graph<string>, entries: seq<Package>) {
    forall e :: e in entries ==> !Blocked(g, e.short)
  }

  /** All entries, each once, by the length of the longest chain and then by comparison. */
  ghost predicate LayeredOrder(entries: seq<Package>, order: Ordering, out: seq<Package>)
    requires Unique(entries)
  {
    var g := Needs(entries);
    && Unique(out)
    && (forall e :: e in out <==> e in entries)
    && PairwiseEarlier(g, out, order)
    && forall e :: e in entries ==> HasRound(g, e.short)
  }

  ghost predicate HasRound(g: Graph<string>, a: string) {
    exists k :: LongestChain(g, a, k)
  }

  ghost predicate Correct(entries: seq<Package>, order: Ordering, r: Result)
    requires Unique(entries)
  {
    var g := Needs(entries);
    match r
    case Ordered(out) => NoneBlocked(g, entries) && LayeredOrder(entries, order, out)
    case CycleAmong(names) => !NoneBlocked(g, entries) && names == BlockedNames(g, entries)
  }

  lemma {:induction false} RemainingAreBlocked(g: Graph<string>, entries: seq<Package>, placed: set<string>)
    requires forall e :: e in entries ==> (e.short in placed <==> !Blocked(g, e.short))
    ensures Shorts(Remaining(entries, placed)) == BlockedNames(g, entries)
  {
    if entries != [] {
      var front, last := entries[..|entries| - 1], entries[|entries| - 1];
      assert entries == front + [last];
      RemainingAreBlocked(g, front, placed);
    }
  }

  /** Nothing is ready: the remaining packages are the blocked ones. */
  lemma FailureIsCorrect(entries: seq<Package>, order: Ordering, placed: set<string>, k: nat)
    requires Unique(entries) && PlacedAre(Needs(entries), placed, k)
    requires Remaining(entries, placed) != [] && ReadyAmong(Remaining(entries, placed), placed) == []
    ensures Correct(entries, order, CycleAmong(Shorts(Remaining(entries, placed))))
  {
    var g, remaining := Needs(entries), Remaining(entries, placed);
    RemainingMembers(entries, placed);
    forall a | a in g && Below(g, a, k + 1)
      ensures Below(g, a, k)
    {
      var e :| e in entries && e.short == a;
      RoundIsReady(entries, placed, k, e);
    }
    forall e | e in entries
      ensures e.short in placed <==> !Blocked(g, e.short)
    {
      StuckMeansBlocked(g, e.short, k);
    }
    RemainingAreBlocked(g, entries, placed);
    assert remaining[0] in remaining;
  }

  lemma SuccessIsCorrect(entries: seq<Package>, order: Ordering, placed: set<string>, out: seq<Package>, k: nat)
    requires Unique(entries) && PlacedAre(Needs(entries), placed, k) && Layered(entries, order, out, k)
    requires Remaining(entries, placed) == []
    ensures Correct(entries, order, Ordered(out))
  {
    var g := Needs(entries);
    RemainingMembers(entries, placed);
    forall e | e in entries
      ensures Below(g, e.short, k) && !Blocked(g, e.short) && HasRound(g, e.short)
    {
      assert e !in Remaining(entries, placed);
      if Blocked(g, e.short) {
        BlockedIsNeverBelow(g, e.short, k);
      }
      var j := SomeRound(g, e.short, k);
      RoundIsLongestChain(g, e.short, j);
    }
  }

  /** Layer after layer: all packages whose dependencies are placed, sorted. */
  method TopoSort(packages: seq<Package>, order: Ordering) returns (r: Result)
    requires Collation(order.collate)
    ensures Correct(Entries(packages), order, r)
  {
    var entries := Entries(packages);
    var remaining, placed, out: seq<Package> := entries, {}, [];
    ghost var k := 0;
    NothingPlaced(entries);
    while |remaining| > 0
      invariant remaining == Remaining(entries, placed)
      invariant PlacedAre(Needs(entries), placed, k)
      invariant Layered(entries, order, out, k)
      decreases |remaining|
    {
      var ready := Sort(ReadyAmong(remaining, placed), order);
      ReadyRound(entries, order, placed, k);
      if |ready| == 0 {
        FailureIsCorrect(entries, order, placed, k);
        return CycleAmong(Shorts(remaining));
      }
      RoundIsPlaced(entries, placed, ready, k);
      RoundKeepsLayered(entries, order, out, ready, k);
      remaining, placed, out := Place(entries, remaining, placed, out, ready);
      k := k + 1;
    }
    SuccessIsCorrect(entries, order, placed, out, k);
    return Ordered(out);
  }

  lemma {:induction false} NothingPlaced(entries: seq<Package>)
    ensures Remaining(entries, {}) == entries
  {
    if entries != [] {
      NothingPlaced(entries[..|entries| - 1]);
      assert entries == entries[..|entries| - 1] + [entries[|entries| - 1]];
    }
  }

  lemma ReadyRound(entries: seq<Package>, order: Ordering, placed: set<string>, k: nat)
    requires Collation(order.collate) && Unique(entries) && PlacedAre(Needs(entries), placed, k)
    ensures var ready := ReadyAmong(Remaining(entries, placed), placed);
            var round := Sort(ready, order);
            && Sorted(round, order) && Unique(round) && (round == [] <==> ready == [])
            && (forall e :: e in round ==> e in Remaining(entries, placed))
            && forall e :: e in round <==> e in entries && InRound(Needs(entries), e.short, k)
  {
    var ready := ReadyAmong(Remaining(entries, placed), placed);
    RemainingMembers(entries, placed);
    ReadyMembers(Remaining(entries, placed), placed);
    SortSorts(ready, order);
    SortKeepsAll(ready, order);
    UniqueSort(ready, order);
    forall e
      ensures e in ready <==> e in entries && InRound(Needs(entries), e.short, k)
    {
      RoundIsReady(entries, placed, k, e);
    }
  }

  lemma NameNext(s: seq<Package>, i: nat)
    requires i < |s|
    ensures s[..i + 1] == s[..i] + [s[i]]
    ensures NameSet(s[..i + 1]) == NameSet(s[..i]) + {s[i].short}
  {
    assert s[..i + 1] == s[..i] + [s[i]];
  }

  /** The inner loop: move the ready packages to the output. */
  method Place(ghost entries: seq<Package>, remaining: seq<Package>, placed: set<string>, out: seq<Package>,
               ready: seq<Package>)
    returns (remaining': seq<Package>, placed': set<string>, out': seq<Package>)
    requires remaining == Remaining(entries, placed) && ready != []
    requires forall e :: e in ready ==> e in remaining
    ensures out' == out + ready && placed' == placed + NameSet(ready)
    ensures remaining' == Remaining(entries, placed') && |remaining'| < |remaining|
  {
    remaining', placed', out' := remaining, placed, out;
    for i := 0 to |ready|
      invariant out' == out + ready[..i] && placed' == placed + NameSet(ready[..i])
      invariant remaining' == Remaining(entries, placed')
      invariant |remaining'| <= |remaining| && (i > 0 ==> |remaining'| < |remaining|)
    {
      var pkg := ready[i];
      assert pkg in ready;
      if i == 0 {
        WithoutIsShorter(remaining, pkg);
      }
      DeletePlaced(entries, placed', pkg.short);
      NameNext(ready, i);
      out' := out' + [pkg];
      placed' := placed' + {pkg.short};
      remaining' := Without(remaining', pkg.short);
    }
    assert ready[..|ready|] == ready;
  }

  /* ---- What the order promises ---- */

  /** Every dependency of a listed package stands before it. */
  lemma DependenciesFirst(entries: seq<Package>, order: Ordering, out: seq<Package>, i: nat, d: string)
    requires Unique(entries) && LayeredOrder(entries, order, out)
    requires i < |out| && d in out[i].deps
    ensures exists j :: 0 <= j < i && out[j].short == d
  {
    var g, e := Needs(entries), out[i];
    assert e in out && g[e.short] == e.deps;
    var k :| LongestChain(g, e.short, k);
    RoundIsLongestChain(g, e.short, k);
    assert Below(g, d, k);
    var m := SomeRound(g, d, k);
    var p :| p in entries && p.short == d;
    assert p in out;
    var j :| 0 <= j < |out| && out[j] == p;
    EarlierRoundStandsBefore(g, order, out, i, k, j, m);
  }

  lemma EarlierRoundStandsBefore(g: Graph<string>, order: Ordering, out: seq<Package>, i: nat, k: nat, j: nat, m: nat)
    requires PairwiseEarlier(g, out, order) && i < |out| && j < |out|
    requires InRound(g, out[i].short, k) && InRound(g, out[j].short, m) && m < k
    ensures j < i
  {
    if j == i {
      RoundIsUnique(g, out[i].short, m, k);
    } else if i < j {
      EarlierMeans(g, out[i], out[j], order, k, m);
    }
  }

  lemma EarlierMeans(g: Graph<string>, a: Package, b: Package, order: Ordering, i: nat, j: nat)
    requires Earlier(g, a, b, order) && InRound(g, a.short, i) && InRound(g, b.short, j)
    ensures i <= j
  {
  }

  lemma {:induction false} SameNeeds(entries: seq<Package>, others: seq<Package>)
    requires Unique(entries) && Unique(others) && forall e :: e in entries <==> e in others
    ensures Needs(entries) == Needs(others)
  {
    var g, h := Needs(entries), Needs(others);
    forall a
      ensures a in g <==> a in h
      ensures a in g && a in h ==> g[a] == h[a]
    {
      if a in g {
        var e :| e in entries && e.short == a;
        assert h[a] == e.deps;
      }
      if a in h {
        var e :| e in others && e.short == a;
        assert g[a] == e.deps;
      }
    }
  }

  lemma EarlierBothWays(g: Graph<string>, a: Package, b: Package, order: Ordering)
    requires Collation(order.collate) && TellsApart(order.collate)
    requires HasRound(g, a.short) && HasRound(g, b.short)
    requires Earlier(g, a, b, order) && Earlier(g, b, a, order)
    ensures a.short == b.short
  {
    var i :| LongestChain(g, a.short, i);
    var j :| LongestChain(g, b.short, j);
    RoundIsLongestChain(g, a.short, i);
    RoundIsLongestChain(g, b.short, j);
    CompareIsOrder(a, b, a, order);
  }

  /** Two orders of the same packages agree from the front on. */
  lemma {:induction false} SameOrder(g: Graph<string>, order: Ordering, out: seq<Package>, other: seq<Package>)
    requires Collation(order.collate) && TellsApart(order.collate)
    requires Unique(out) && Unique(other) && forall e :: e in out <==> e in other
    requires PairwiseEarlier(g, out, order) && PairwiseEarlier(g, other, order)
    requires forall e :: e in out ==> HasRound(g, e.short)
    ensures out == other
  {
    if out == [] {
      HasMember(other);
    } else {
      SameFirst(g, order, out, other);
      var rest, others := out[1..], other[1..];
      forall e
        ensures e in rest <==> e in others
      {
        RestHolds(out, e);
        RestHolds(other, e);
      }
      forall i, j | 0 <= i < j < |rest|
        ensures Earlier(g, rest[i], rest[j], order)
      {
        assert Earlier(g, out[i + 1], out[j + 1], order);
      }
      forall i, j | 0 <= i < j < |others|
        ensures Earlier(g, others[i], others[j], order)
      {
        assert Earlier(g, other[i + 1], other[j + 1], order);
      }
      SameOrder(g, order, rest, others);
    }
  }

  lemma RestHolds(s: seq<Package>, e: Package)
    requires s != [] && Unique(s)
    ensures e in s[1..] <==> e in s && e != s[0]
  {
    assert s == [s[0]] + s[1..];
  }

  lemma SameFirst(g: Graph<string>, order: Ordering, out: seq<Package>, other: seq<Package>)
    requires Collation(order.collate) && TellsApart(order.collate)
    requires out != [] && Unique(out) && Unique(other) && forall e :: e in out <==> e in other
    requires PairwiseEarlier(g, out, order) && PairwiseEarlier(g, other, order)
    requires forall e :: e in out ==> HasRound(g, e.short)
    ensures other != [] && out[0] == other[0]
  {
    assert out[0] in other;
    assert other[0] in out;
    var i :| 0 <= i < |out| && out[i] == other[0];
    var j :| 0 <= j < |other| && other[j] == out[0];
    if i > 0 && j > 0 {
      assert Earlier(g, out[0], out[i], order) && Earlier(g, other[0], other[j], order);
      EarlierBothWays(g, out[0], other[0], order);
    }
  }

  lemma BlockedNamesSnoc(g: Graph<string>, front: seq<Package>, last: Package)
    ensures BlockedNames(g, front + [last]) ==
            if Blocked(g, last.short) then BlockedNames(g, front) + [last.short] else BlockedNames(g, front)
    ensures Shorts(front + [last]) == Shorts(front) + [last.short]
  {
    assert (front + [last])[..|front|] == front;
  }

  /** The names of the blocked entries, in the order of the entries. */
  lemma {:induction false} BlockedNamesSelect(g: Graph<string>, entries: seq<Package>, p: string -> bool)
    requires forall e :: e in entries ==> p(e.short) == Blocked(g, e.short)
    ensures Selects(Shorts(entries), p, BlockedNames(g, entries))
  {
    if entries == [] {
      SelectsNone(p);
    } else {
      var front, last := entries[..|entries| - 1], entries[|entries| - 1];
      SplitLast(entries);
      InSnoc(front, last, last);
      BlockedNamesSelect(g, front, p);
      BlockedNamesSnoc(g, front, last);
      SelectsSnoc(Shorts(front), last.short, p, BlockedNames(g, front));
    }
  }

  lemma {:induction false} BlockedNamesAre(g: Graph<string>, entries: seq<Package>, short: string)
    ensures short in BlockedNames(g, entries) <==> Blocked(g, short) && exists e :: e in entries && e.short == short
  {
    if entries != [] {
      var front, last := entries[..|entries| - 1], entries[|entries| - 1];
      assert entries == front + [last];
      BlockedNamesAre(g, front, short);
    }
  }

  /** The order in which the packages are given matters neither to an order nor to which names fail. */
  lemma InputOrderDoesNotMatter(packages: seq<Package>, others: seq<Package>, order: Ordering, r: Result, q: Result)
    requires Collation(order.collate) && TellsApart(order.collate)
    requires Unique(packages) && Unique(others) && forall p :: p in packages <==> p in others
    requires Correct(Entries(packages), order, r) && Correct(Entries(others), order, q)
    ensures r.Ordered? <==> q.Ordered?
    ensures r.Ordered? ==> r == q
    ensures r.CycleAmong? && q.CycleAmong? ==> forall short :: short in r.shorts <==> short in q.shorts
  {
    UniqueEntries(packages);
    UniqueEntries(others);
    SameNeeds(packages, others);
    if r.Ordered? && q.Ordered? {
      SameOrder(Needs(packages), order, r.packages, q.packages);
    }
    forall short
      ensures short in BlockedNames(Needs(packages), packages) <==> short in BlockedNames(Needs(others), others)
    {
      BlockedNamesAre(Needs(packages), packages, short);
      BlockedNamesAre(Needs(others), others, short);
    }
  }
}
