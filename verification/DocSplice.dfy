/** Rewriting link destinations in place: scripts/project-doc-site.ts, the
    replacement pass of `rewriteMarkdown`. */
module DocSplice {
  import opened Destinations
  import opened Options
  import opened Sequences
  import Sorting

  /** A new value for the source text from start to end. */
  datatype Replacement = Replacement(start: nat, end: nat, value: string)

  predicate Inside(source: string, r: Replacement) {
    r.start <= r.end <= |source|
  }

  /** `slice` takes a position beyond the end for the end. */
  function Clamp(source: string, i: nat): (r: nat)
    ensures r <= |source|
  {
    if i <= |source| then i else |source|
  }

  function Splice(source: string, r: Replacement): string {
    source[..Clamp(source, r.start)] + r.value + source[Clamp(source, r.end)..]
  }

  /* ---- Order ---- */

  function FromTheEnd(a: Replacement, b: Replacement): int {
    b.start - a.start
  }

  /** `replacements.sort((a, b) => b.start - a.start)` */
  function Descending(rs: seq<Replacement>): seq<Replacement> {
    Sorting.Sort(rs, FromTheEnd)
  }

  predicate HighestFirst(rs: seq<Replacement>) {
    forall i, j :: 0 <= i < j < |rs| ==> rs[i].start >= rs[j].start
  }

  lemma DescendingIsSorted(rs: seq<Replacement>)
    ensures HighestFirst(Descending(rs)) && multiset(Descending(rs)) == multiset(rs)
  {
    Sorting.SortSorts(rs, FromTheEnd);
    Sorting.SortKeepsAll(rs, FromTheEnd);
    forall i, j | 0 <= i < j < |Descending(rs)|
      ensures Descending(rs)[i].start >= Descending(rs)[j].start
    {
      assert FromTheEnd(Descending(rs)[i], Descending(rs)[j]) <= 0;
    }
  }

  /* ---- Disjoint ranges ---- */

  predicate Apart(a: Replacement, b: Replacement) {
    a.start != b.start && (a.end <= b.start || b.end <= a.start)
  }

  /** Every range lies inside the source, and no two overlap or start together. */
  predicate Disjoint(source: string, rs: seq<Replacement>) {
    && (forall i :: 0 <= i < |rs| ==> Inside(source, rs[i]))
    && forall i, j :: 0 <= i < j < |rs| ==> Apart(rs[i], rs[j])
  }

  lemma {:induction false} OnceApart(source: string, rs: seq<Replacement>, r: Replacement)
    requires Disjoint(source, rs)
    ensures multiset(rs)[r] <= 1
  {
    if rs != [] {
      OnceApart(source, rs[1..], r);
      assert rs == [rs[0]] + rs[1..];
    }
  }

  /** Disjointness does not depend on the order. */
  lemma DisjointInAnyOrder(source: string, rs: seq<Replacement>, other: seq<Replacement>)
    requires Disjoint(source, rs) && multiset(rs) == multiset(other)
    ensures Disjoint(source, other)
  {
    forall i | 0 <= i < |other|
      ensures other[i] in rs
    {
      assert other[i] in multiset(other);
      assert other[i] in multiset(rs);
    }
    forall i, j | 0 <= i < j < |other|
      ensures Apart(other[i], other[j])
    {
      var k :| 0 <= k < |rs| && rs[k] == other[i];
      var m :| 0 <= m < |rs| && rs[m] == other[j];
      if k == m {
        TwiceInSequence(other, i, j);
        OnceApart(source, rs, other[i]);
      }
    }
  }

  /* ---- Left-to-right merge ---- */

  /** The replacements come left to right, from `from` on. */
  predicate LeftToRight(source: string, rs: seq<Replacement>, from: nat) {
    from <= |source|
    && (rs != [] ==> from <= rs[0].start && Inside(source, rs[0]) && LeftToRight(source, rs[1..], rs[0].end))
  }

  /** One pass over the source: untouched gaps and new values, from left to right. */
  function Merge(source: string, rs: seq<Replacement>, from: nat): string
    requires LeftToRight(source, rs, from)
  {
    if rs == [] then source[from..]
    else source[from..rs[0].start] + rs[0].value + Merge(source, rs[1..], rs[0].end)
  }

  function Reverse(rs: seq<Replacement>): seq<Replacement> {
    if rs == [] then [] else [rs[|rs| - 1]] + Reverse(rs[..|rs| - 1])
  }

  /** Apply in the given order. */
  function ApplyAll(source: string, rs: seq<Replacement>): string {
    if rs == [] then source
    else Splice(ApplyAll(source, rs[..|rs| - 1]), rs[|rs| - 1])
  }

  lemma SliceJoins(s: string, a: nat, b: nat, c: nat)
    requires a <= b <= c <= |s|
    ensures s[a..c] == s[a..b] + s[b..c] && s[b..|s|] == s[b..] && s[a..|s|] == s[a..]
  {
  }

  lemma Associates(a: string, b: string, c: string, d: string)
    ensures a + b + c + d == a + (b + c + d)
  {
  }

  /** Up to the first replacement the merge copies the source. */
  lemma MergeCopies(source: string, rs: seq<Replacement>, from: nat, k: nat)
    requires from <= k && LeftToRight(source, rs, k)
    ensures LeftToRight(source, rs, from) && Merge(source, rs, from) == source[from..k] + Merge(source, rs, k)
  {
    if rs == [] {
      SliceJoins(source, from, k, |source|);
    } else {
      SliceJoins(source, from, k, rs[0].start);
      Associates(source[from..k], source[k..rs[0].start], rs[0].value, Merge(source, rs[1..], rs[0].end));
    }
  }

  lemma {:induction false} ReverseIsLeftToRight(source: string, rs: seq<Replacement>, from: nat)
    requires HighestFirst(rs) && Disjoint(source, rs)
    requires from <= |source| && forall i :: 0 <= i < |rs| ==> from <= rs[i].start
    ensures LeftToRight(source, Reverse(rs), from)
  {
    if rs != [] {
      var front, last := rs[..|rs| - 1], rs[|rs| - 1];
      forall i | 0 <= i < |front|
        ensures last.end <= front[i].start
      {
        assert Apart(rs[i], rs[|rs| - 1]);
      }
      ReverseIsLeftToRight(source, front, last.end);
    }
  }

  lemma SpliceBefore(source: string, r: Replacement, merged: string, rest: string)
    requires Inside(source, r) && merged == source[0..r.end] + rest
    ensures Splice(merged, r) == source[0..r.start] + r.value + rest
  {
    assert merged[..r.start] == source[0..r.start];
    assert merged[r.end..] == rest;
  }

  /** Applying from the highest offset down is one merge from left to right. */
  lemma {:induction false} HighestFirstMerges(source: string, rs: seq<Replacement>)
    requires HighestFirst(rs) && Disjoint(source, rs)
    ensures LeftToRight(source, Reverse(rs), 0) && ApplyAll(source, rs) == Merge(source, Reverse(rs), 0)
  {
    ReverseIsLeftToRight(source, rs, 0);
    if rs != [] {
      var front, last := rs[..|rs| - 1], rs[|rs| - 1];
      HighestFirstMerges(source, front);
      assert LeftToRight(source, Reverse(front), last.end);
      MergeCopies(source, Reverse(front), 0, last.end);
      SpliceBefore(source, last, ApplyAll(source, front), Merge(source, Reverse(front), last.end));
    }
  }

  lemma {:induction false} ReverseKeepsAll(rs: seq<Replacement>)
    ensures multiset(Reverse(rs)) == multiset(rs)
  {
    if rs != [] {
      ReverseKeepsAll(rs[..|rs| - 1]);
      assert rs == rs[..|rs| - 1] + [rs[|rs| - 1]];
    }
  }

  /** The replacements of disjoint ranges in text order. */
  function InTextOrder(rs: seq<Replacement>): seq<Replacement> {
    Reverse(Descending(rs))
  }

  /** Whatever order the replacements of disjoint ranges were collected in, the
      pass yields the left-to-right merge of exactly these replacements. */
  lemma PassIsMerge(source: string, rs: seq<Replacement>)
    requires Disjoint(source, rs)
    ensures LeftToRight(source, InTextOrder(rs), 0) && multiset(InTextOrder(rs)) == multiset(rs)
    ensures ApplyAll(source, Descending(rs)) == Merge(source, InTextOrder(rs), 0)
  {
    DescendingIsSorted(rs);
    DisjointInAnyOrder(source, rs, Descending(rs));
    HighestFirstMerges(source, Descending(rs));
    ReverseKeepsAll(Descending(rs));
  }

  lemma SameFirst(source: string, a: seq<Replacement>, b: seq<Replacement>)
    requires HighestFirst(a) && HighestFirst(b) && Disjoint(source, a)
    requires multiset(a) == multiset(b) && a != []
    ensures b != [] && a[0] == b[0]
  {
    assert a[0] in multiset(a);
    assert a[0] in multiset(b);
    var j :| 0 <= j < |b| && b[j] == a[0];
    assert b[0] in multiset(b);
    assert b[0] in multiset(a);
    var i :| 0 <= i < |a| && a[i] == b[0];
  }

  lemma WithoutFirst(a: seq<Replacement>)
    requires a != []
    ensures multiset(a[1..]) == multiset(a) - multiset{a[0]}
  {
    assert a == [a[0]] + a[1..];
  }

  lemma {:induction false} OneSortedOrder(source: string, a: seq<Replacement>, b: seq<Replacement>)
    requires HighestFirst(a) && HighestFirst(b) && Disjoint(source, a)
    requires multiset(a) == multiset(b)
    ensures a == b
  {
    if a == [] {
      assert |multiset(b)| == 0;
    } else {
      SameFirst(source, a, b);
      WithoutFirst(a);
      WithoutFirst(b);
      OneSortedOrder(source, a[1..], b[1..]);
      assert a == [a[0]] + a[1..] && b == [b[0]] + b[1..];
    }
  }

  /** The order of collection does not matter. */
  lemma CollectionOrderDoesNotMatter(source: string, rs: seq<Replacement>, other: seq<Replacement>)
    requires Disjoint(source, rs) && multiset(rs) == multiset(other)
    ensures ApplyAll(source, Descending(rs)) == ApplyAll(source, Descending(other))
  {
    DescendingIsSorted(rs);
    DescendingIsSorted(other);
    DisjointInAnyOrder(source, rs, Descending(rs));
    OneSortedOrder(source, Descending(rs), Descending(other));
  }

  /* ---- Links in a document tree ---- */

  /** A node with its offsets. `rewrite` is the kind and the new destination of a link,
      image or definition whose destination is to be rewritten. */
  datatype Node = Node(start: nat, end: nat, rewrite: Option<(Kind, string)>, children: seq<Node>)

  datatype Outcome = Collected(replacements: seq<Replacement>) | Throws(problem: Problem)

  /** `source.slice(start, end)` */
  function RawNode(source: string, node: Node): string {
    if Clamp(source, node.start) <= Clamp(source, node.end)
    then source[Clamp(source, node.start)..Clamp(source, node.end)] else ""
  }

  /** The replacement for a node of its own. */
  ghost predicate OwnReplacement(source: string, node: Node, r: Replacement) {
    && node.rewrite.Some?
    && r.value == node.rewrite.value.1 && r.start >= node.start && r.end >= node.start
    && r.end >= r.start
    && Correct(RawNode(source, node), node.rewrite.value.0, Found(Range(r.start - node.start, r.end - node.start)))
  }

  /** The replacements of a node and of everything below it, parents first. */
  ghost predicate CollectedFrom(source: string, node: Node, rs: seq<Replacement>)
    decreases node
  {
    if node.rewrite.None? then CollectedFromAll(source, node.children, rs)
    else rs != [] && OwnReplacement(source, node, rs[0]) && CollectedFromAll(source, node.children, rs[1..])
  }

  ghost predicate CollectedFromAll(source: string, nodes: seq<Node>, rs: seq<Replacement>)
    decreases nodes
  {
    if nodes == [] then rs == []
    else exists a, b :: rs == a + b && CollectedFrom(source, nodes[0], a) && CollectedFromAll(source, nodes[1..], b)
  }

  /** Some link, image or definition to be rewritten has this problem instead of a destination range. */
  ghost predicate Fails(source: string, node: Node, p: Problem)
    decreases node
  {
    || (node.rewrite.Some? && Correct(RawNode(source, node), node.rewrite.value.0, Result.Problem(p)))
    || exists child :: child in node.children && Fails(source, child, p)
  }

  ghost predicate HasProblem(source: string, node: Node) {
    exists p :: Fails(source, node, p)
  }

  /** Where something is collected nothing fails. */
  lemma {:induction false} CollectedDoesNotFail(source: string, node: Node, rs: seq<Replacement>, p: Problem)
    requires CollectedFrom(source, node, rs)
    decreases node
    ensures !Fails(source, node, p)
  {
    if node.rewrite.Some? {
      var own := Found(Range(rs[0].start - node.start, rs[0].end - node.start));
      if Correct(RawNode(source, node), node.rewrite.value.0, Result.Problem(p)) {
        CorrectIsUnique(RawNode(source, node), node.rewrite.value.0, own, Result.Problem(p));
      }
      AllCollectedDoNotFail(source, node.children, rs[1..], p);
    } else {
      AllCollectedDoNotFail(source, node.children, rs, p);
    }
  }

  lemma {:induction false} AllCollectedDoNotFail(source: string, nodes: seq<Node>, rs: seq<Replacement>, p: Problem)
    requires CollectedFromAll(source, nodes, rs)
    decreases nodes
    ensures forall node :: node in nodes ==> !Fails(source, node, p)
  {
    if nodes != [] {
      var a, b :| rs == a + b && CollectedFrom(source, nodes[0], a) && CollectedFromAll(source, nodes[1..], b);
      CollectedDoesNotFail(source, nodes[0], a, p);
      AllCollectedDoNotFail(source, nodes[1..], b, p);
      OthersFollow(nodes);
    }
  }

  lemma CollectedMeansNoProblem(source: string, node: Node, rs: seq<Replacement>)
    requires CollectedFrom(source, node, rs)
    ensures !HasProblem(source, node)
  {
    forall p
      ensures !Fails(source, node, p)
    {
      CollectedDoesNotFail(source, node, rs, p);
    }
  }

  /* ---- rewriteMarkdown ---- */

  lemma CollectedCons(source: string, node: Node, nodes: seq<Node>, a: seq<Replacement>, b: seq<Replacement>,
                      rs: seq<Replacement>)
    requires CollectedFrom(source, node, a) && CollectedFromAll(source, nodes, b) && rs == a + b
    ensures CollectedFromAll(source, [node] + nodes, rs)
  {
    assert ([node] + nodes)[1..] == nodes;
  }

  lemma {:induction false} CollectedSnoc(source: string, nodes: seq<Node>, rs: seq<Replacement>, node: Node,
                                         more: seq<Replacement>)
    requires CollectedFromAll(source, nodes, rs) && CollectedFrom(source, node, more)
    ensures CollectedFromAll(source, nodes + [node], rs + more)
    decreases nodes
  {
    if nodes == [] {
      assert nodes + [node] == [node] + [];
      CollectedCons(source, node, [], more, [], rs + more);
    } else {
      var first, others := nodes[0], nodes[1..];
      var a, b :| rs == a + b && CollectedFrom(source, first, a) && CollectedFromAll(source, others, b);
      CollectedSnoc(source, others, b, node, more);
      Associate([first], others, [node]);
      Associate(a, b, more);
      assert nodes == [first] + others;
      CollectedCons(source, first, others + [node], a, b + more, rs + more);
    }
  }

  lemma CollectedOwn(source: string, node: Node, own: Replacement, rest: seq<Replacement>)
    requires OwnReplacement(source, node, own) && CollectedFromAll(source, node.children, rest)
    ensures CollectedFrom(source, node, [own] + rest)
  {
    assert ([own] + rest)[1..] == rest;
  }

  /** `visit`: the node itself, then its children in order. */
  method Visit(source: string, node: Node) returns (r: Outcome)
    ensures r.Collected? ==> CollectedFrom(source, node, r.replacements) && !HasProblem(source, node)
    ensures r.Throws? ==> Fails(source, node, r.problem) && HasProblem(source, node)
    decreases node
  {
    var own: seq<Replacement> := [];
    if node.rewrite.Some? {
      var found := DestinationRange(RawNode(source, node), node.rewrite.value.0);
      if found.Problem? {
        assert Fails(source, node, found.problem);
        return Throws(found.problem);
      }
      RangeIsInside(RawNode(source, node), node.rewrite.value.0, found);
      own := [Replacement(node.start + found.range.start, node.start + found.range.end, node.rewrite.value.1)];
      assert OwnReplacement(source, node, own[0]);
    }
    r := VisitAll(source, node.children);
    if r.Collected? {
      if node.rewrite.Some? {
        CollectedOwn(source, node, own[0], r.replacements);
      }
      assert own == [] ==> own + r.replacements == r.replacements;
      r := Collected(own + r.replacements);
      CollectedMeansNoProblem(source, node, r.replacements);
    } else {
      assert Fails(source, node, r.problem);
    }
  }

  /** The loop over the children. */
  method VisitAll(source: string, nodes: seq<Node>) returns (r: Outcome)
    ensures r.Collected? ==> CollectedFromAll(source, nodes, r.replacements)
    ensures r.Throws? ==> exists node :: node in nodes && Fails(source, node, r.problem)
    decreases nodes
  {
    var rest: seq<Replacement> := [];
    for i := 0 to |nodes|
      invariant CollectedFromAll(source, nodes[..i], rest)
    {
      var child := Visit(source, nodes[i]);
      if child.Throws? {
        return child;
      }
      CollectedSnoc(source, nodes[..i], rest, nodes[i], child.replacements);
      TakeNext(nodes, i);
      rest := rest + child.replacements;
    }
    assert nodes[..|nodes|] == nodes;
    r := Collected(rest);
  }

  /** The loop over the sorted replacements. */
  method ApplyPass(source: string, sorted: seq<Replacement>) returns (text: string)
    ensures text == ApplyAll(source, sorted)
  {
    text := source;
    for i := 0 to |sorted|
      invariant text == ApplyAll(source, sorted[..i])
    {
      assert sorted[..i + 1][..i] == sorted[..i];
      text := text[..Clamp(text, sorted[i].start)] + sorted[i].value + text[Clamp(text, sorted[i].end)..];
    }
    assert sorted[..|sorted|] == sorted;
  }

  /** `rewriteMarkdown`, for a parsed document. */
  method RewriteMarkdown(source: string, tree: Node) returns (projected: Option<string>)
    ensures projected.None? <==> HasProblem(source, tree)
    ensures projected.Some? ==>
      exists rs :: CollectedFrom(source, tree, rs) && projected.value == ApplyAll(source, Descending(rs))
  {
    var outcome := Visit(source, tree);
    if outcome.Throws? {
      return None;
    }
    var text := ApplyPass(source, Descending(outcome.replacements));
    projected := Some(text);
  }

  /* ---- Well-nested documents ---- */

  /** Where the children of a node must end: before the end of its label, if its destination is rewritten. */
  ghost predicate ChildrenEnd(source: string, node: Node, limit: nat) {
    if node.rewrite.None? then limit == node.end
    else node.start <= limit && IsLabelEnd(RawNode(source, node), limit - node.start)
  }

  /** Nodes lie inside the source, children inside their parent, one after the other. */
  ghost predicate Nested(source: string, node: Node)
    decreases node
  {
    && node.start <= node.end <= |source|
    && exists limit :: ChildrenEnd(source, node, limit) && NestedAll(source, node.children, node.start, limit)
  }

  ghost predicate NestedAll(source: string, nodes: seq<Node>, from: nat, to: nat)
    decreases nodes
  {
    nodes == [] || (from <= nodes[0].start && nodes[0].end <= to && Nested(source, nodes[0])
                    && NestedAll(source, nodes[1..], nodes[0].end, to))
  }

  /** All ranges lie between two offsets, and start behind the first. */
  predicate Between(rs: seq<Replacement>, from: nat, to: nat) {
    forall i :: 0 <= i < |rs| ==> from < rs[i].start <= rs[i].end <= to
  }

  lemma DisjointConcat(source: string, a: seq<Replacement>, b: seq<Replacement>, from: nat, middle: nat, to: nat)
    requires Disjoint(source, a) && Disjoint(source, b)
    requires (Between(a, from, middle) && Between(b, middle, to))
      || (Between(b, from, middle) && Between(a, middle, to))
    requires from <= middle <= to
    ensures Disjoint(source, a + b) && Between(a + b, from, to)
  {
    var all := a + b;
    forall i, j | 0 <= i < j < |all|
      ensures Apart(all[i], all[j])
    {
      if j < |a| {
        assert all[i] == a[i] && all[j] == a[j];
      } else if i >= |a| {
        assert all[i] == b[i - |a|] && all[j] == b[j - |a|];
      } else {
        assert all[i] == a[i] && all[j] == b[j - |a|];
      }
    }
  }

  lemma DisjointAfter(source: string, a: seq<Replacement>, b: seq<Replacement>, from: nat, start: nat, end: nat,
                      to: nat)
    requires Disjoint(source, a) && Between(a, start, end) && Disjoint(source, b) && Between(b, end, to)
    requires from <= start <= end <= to
    ensures Disjoint(source, a + b) && Between(a + b, from, to)
  {
    assert Between(a, from, end);
    DisjointConcat(source, a, b, from, end, to);
  }

  /** A replacement behind the others, though collected first. */
  lemma OwnBehindChildren(source: string, rs: seq<Replacement>, from: nat, limit: nat, to: nat)
    requires rs != [] && from <= limit < rs[0].start <= rs[0].end <= to <= |source|
    requires Disjoint(source, rs[1..]) && Between(rs[1..], from, limit)
    ensures Disjoint(source, rs) && Between(rs, from, to)
  {
    DisjointConcat(source, [rs[0]], rs[1..], from, limit, to);
    assert rs == [rs[0]] + rs[1..];
  }

  lemma {:induction false} NestedIsDisjoint(source: string, node: Node, rs: seq<Replacement>)
    requires Nested(source, node) && CollectedFrom(source, node, rs)
    ensures Disjoint(source, rs) && Between(rs, node.start, node.end)
    decreases node
  {
    var limit :| ChildrenEnd(source, node, limit) && NestedAll(source, node.children, node.start, limit);
    if node.rewrite.None? {
      NestedAllIsDisjoint(source, node.children, node.start, limit, rs);
    } else {
      OwnIsBehindLabel(source, node, limit, rs[0]);
      NestedAllIsDisjoint(source, node.children, node.start, limit, rs[1..]);
      OwnBehindChildren(source, rs, node.start, limit, node.end);
    }
  }

  lemma OwnIsBehindLabel(source: string, node: Node, limit: nat, r: Replacement)
    requires node.start <= node.end <= |source|
    requires OwnReplacement(source, node, r) && ChildrenEnd(source, node, limit)
    ensures node.start <= limit < r.start <= r.end <= node.end
  {
    var raw, found := RawNode(source, node), Found(Range(r.start - node.start, r.end - node.start));
    RangeIsInside(raw, node.rewrite.value.0, found);
    var bracket :| IsLabelEnd(raw, bracket) && 0 <= bracket && bracket + 2 <= found.range.start;
    LabelIsUnique(raw, bracket, limit - node.start);
  }

  lemma {:induction false} NestedAllIsDisjoint(source: string, nodes: seq<Node>, from: nat, to: nat,
                                               rs: seq<Replacement>)
    requires NestedAll(source, nodes, from, to) && CollectedFromAll(source, nodes, rs) && from <= to
    ensures Disjoint(source, rs) && Between(rs, from, to)
    decreases nodes
  {
    if nodes != [] {
      var a, b :| rs == a + b && CollectedFrom(source, nodes[0], a) && CollectedFromAll(source, nodes[1..], b);
      NestedIsDisjoint(source, nodes[0], a);
      NestedAllIsDisjoint(source, nodes[1..], nodes[0].end, to, b);
      DisjointAfter(source, a, b, from, nodes[0].start, nodes[0].end, to);
    }
  }

  /** In a well-nested document the rewritten text is the source with exactly the
      collected destinations exchanged, merged from left to right. */
  lemma RewriteIsMerge(source: string, tree: Node, rs: seq<Replacement>)
    requires Nested(source, tree) && CollectedFrom(source, tree, rs)
    ensures Disjoint(source, rs) && LeftToRight(source, InTextOrder(rs), 0)
    ensures ApplyAll(source, Descending(rs)) == Merge(source, InTextOrder(rs), 0)
  {
    NestedIsDisjoint(source, tree, rs);
    PassIsMerge(source, rs);
  }

  /* ---- One link ---- */

  lemma OneReplacement(source: string, r: Replacement)
    ensures ApplyAll(source, Descending([r])) == Splice(source, r)
  {
    assert Sorting.Sort([r], FromTheEnd) == [r];
  }

  lemma SpliceMiddle(before: string, middle: string, after: string, value: string)
    ensures Splice(before + middle + after, Replacement(|before|, |before| + |middle|, value)) == before + value + after
  {
    var source := before + middle + after;
    assert source[..|before|] == before && source[|before| + |middle|..] == after;
  }

  /** The replacement of a node whose text is a link covers exactly the destination. */
  lemma LinkIsReplaced(source: string, node: Node, text: string, dest: string, r: Replacement)
    requires IsLabel(text) && IsDestination(dest) && node.start <= node.end <= |source|
    requires source[node.start..node.end] == "" + "[" + text + "](" + dest + ")"
    requires OwnReplacement(source, node, r) && node.rewrite.value.0 == Link
    ensures r == Replacement(node.start + |text| + 3, node.start + |text| + 3 + |dest|, node.rewrite.value.1)
  {
    InlineDestinationIsFound("", text, dest, ")", Link, Found(Range(r.start - node.start, r.end - node.start)));
  }

  /** Applied alone, it puts the new destination for the old one and changes nothing else. */
  lemma OneLinkIsSpliced(head: string, dest: string, after: string, url: string, source: string)
    requires source == head + dest + ")" + after
    ensures ApplyAll(source, Descending([Replacement(|head|, |head| + |dest|, url)])) == head + url + ")" + after
  {
    OneReplacement(source, Replacement(|head|, |head| + |dest|, url));
    Associate(head + dest, ")", after);
    Associate(head + url, ")", after);
    SpliceMiddle(head, dest, ")" + after, url);
  }
}
