/** Exact text edits: scripts/rescope-vendor.ts, `exactEditState` and the planned
    edits of `main`. */
module ExactEdits {
  import opened Sequences
  import opened Substrings

  /** `text.split(sep)`: cut at the leftmost occurrence, again and again. The empty
      separator cuts between all characters. */
  function Split(text: string, sep: string): (r: seq<string>)
    decreases |text|
  {
    if sep == "" then seq(|text|, i requires 0 <= i < |text| => [text[i]])
    else
      var i := IndexOf(text, sep, 0);
      if i == -1 then [text] else [text[..i]] + Split(text[i + |sep|..], sep)
  }

  /** `pieces.join(sep)` */
  function Join(pieces: seq<string>, sep: string): string {
    if pieces == [] then ""
    else if |pieces| == 1 then pieces[0]
    else pieces[0] + sep + Join(pieces[1..], sep)
  }

  /** How often w is cut out of the text. */
  function Count(text: string, w: string): int {
    |Split(text, w)| - 1
  }

  /* ---- The classification ---- */

  datatype EditState = Pending | Applied | Invalid

  /** `exactEditState` */
  function State(text: string, find: string, replace: string, wanted: int): EditState {
    var hits, landed := Count(text, find), Count(text, replace);
    if Includes(replace, find) then
      if landed == wanted then Applied
      else if landed == 0 && hits == wanted then Pending else Invalid
    else if Includes(find, replace) then
      if hits == 0 then (if landed == wanted then Applied else Invalid)
      else if hits == wanted then Pending else Invalid
    else if hits == 0 && landed == wanted then Applied
    else if hits == wanted && landed == 0 then Pending else Invalid
  }

  /** The planned rewriting of one file. */
  function Apply(text: string, find: string, replace: string): string {
    Join(Split(text, find), replace)
  }

  /** An edit is applied when the target form is there as often as wanted and, unless it holds the source
      form, no source form is left. Otherwise it is pending when the source form is there as often as
      wanted and, unless it holds the target form, no target form is. */
  lemma StateMeaning(text: string, find: string, replace: string, wanted: int)
    requires find != "" && replace != "" && wanted >= 1
    ensures State(text, find, replace, wanted) == Applied <==>
            Count(text, replace) == wanted && (Includes(replace, find) || !Includes(text, find))
    ensures State(text, find, replace, wanted) == Pending <==>
            && State(text, find, replace, wanted) != Applied
            && Count(text, find) == wanted && (Includes(find, replace) || !Includes(text, replace))
  {
    CountZero(text, find);
    CountZero(text, replace);
    if Includes(find, replace) && Includes(replace, find) {
      IncludesBoth(find, replace);
    }
  }

  lemma IncludesBoth(a: string, b: string)
    requires Includes(a, b) && Includes(b, a)
    ensures a == b
  {
    var i :| 0 <= i <= |a| && OccursAt(a, b, i);
    var j :| 0 <= j <= |b| && OccursAt(b, a, j);
    assert a[0..|a|] == a;
  }

  /** Swapping the forms swaps 'pending' and 'applied'. */
  lemma SwappedForms(text: string, find: string, replace: string, wanted: int)
    requires find != replace && wanted >= 1
    ensures State(text, find, replace, wanted) == Pending <==> State(text, replace, find, wanted) == Applied
    ensures State(text, find, replace, wanted) == Applied <==> State(text, replace, find, wanted) == Pending
  {
    if Includes(find, replace) && Includes(replace, find) {
      IncludesBoth(find, replace);
    }
  }

  /* ---- Cutting and joining ---- */

  /** The first cut: either the separator does not occur and the text is one
      piece, or the text is a piece without it, the separator, and the rest. */
  lemma FirstCut(text: string, sep: string) returns (gap: string, rest: string)
    requires sep != ""
    ensures !Includes(text, sep) ==> Split(text, sep) == [text]
    ensures Includes(text, sep) ==>
              && !Includes(gap, sep) && text == gap + sep + rest && IndexOf(text, sep, 0) == |gap|
              && Split(text, sep) == [gap] + Split(rest, sep)
  {
    gap, rest := "", "";
    var i := IndexOf(text, sep, 0);
    if i != -1 {
      gap, rest := text[..i], text[i + |sep|..];
      assert text == gap + text[i..i + |sep|] + rest;
      NotBeforeFirst(text, sep, i);
    }
  }

  lemma NotBeforeFirst(text: string, sep: string, i: nat)
    requires sep != "" && IndexOf(text, sep, 0) == i
    ensures !Includes(text[..i], sep)
  {
    forall k | 0 <= k <= i
      ensures !OccursAt(text[..i], sep, k)
    {
      if k < i {
        assert !OccursAt(text, sep, k);
        if k + |sep| <= i {
          assert text[..i][k..k + |sep|] == text[k..k + |sep|];
        }
      }
    }
  }

  lemma SplitIsNotEmpty(text: string, sep: string)
    requires sep != ""
    ensures Split(text, sep) != []
  {
  }

  lemma JoinCons(piece: string, pieces: seq<string>, sep: string)
    requires pieces != []
    ensures Join([piece] + pieces, sep) == piece + sep + Join(pieces, sep)
  {
    assert ([piece] + pieces)[1..] == pieces;
  }

  lemma {:induction false} SplitThenJoin(text: string, sep: string)
    requires sep != ""
    ensures Split(text, sep) != [] && Join(Split(text, sep), sep) == text
    decreases |text|
  {
    var gap, rest := FirstCut(text, sep);
    if Includes(text, sep) {
      SplitThenJoin(rest, sep);
      JoinCons(gap, Split(rest, sep), sep);
    }
  }

  predicate NoneIncludes(pieces: seq<string>, w: string) {
    forall i :: 0 <= i < |pieces| ==> !Includes(pieces[i], w)
  }

  lemma NoneIncludesCons(piece: string, pieces: seq<string>, w: string)
    ensures NoneIncludes([piece] + pieces, w) <==> !Includes(piece, w) && NoneIncludes(pieces, w)
  {
    var all := [piece] + pieces;
    assert all[0] == piece;
    assert forall i :: 0 <= i < |pieces| ==> pieces[i] == all[i + 1];
  }

  /** An occurrence in a part is an occurrence in the whole. */
  lemma PartIncludes(before: string, part: string, after: string, w: string)
    requires Includes(part, w)
    ensures Includes(before + part + after, w)
  {
    var i :| 0 <= i <= |part| && OccursAt(part, w, i);
    var text, k := before + part + after, |before| + i;
    assert text[k..k + |w|] == part[i..i + |w|];
    assert OccursAt(text, w, k);
  }

  lemma OuterPartsInclude(before: string, part: string, after: string, w: string)
    requires Includes(before, w) || Includes(after, w)
    ensures Includes(before + part + after, w)
  {
    if Includes(before, w) {
      PartIncludes("", before, part + after, w);
      assert "" + before + (part + after) == before + part + after;
    } else {
      PartIncludes(before + part, after, "", w);
      assert before + part + after + "" == before + part + after;
    }
  }

  lemma {:induction false} PiecesIncludeNone(text: string, sep: string, w: string)
    requires sep != "" && !Includes(text, w)
    ensures NoneIncludes(Split(text, sep), w)
    decreases |text|
  {
    var gap, rest := FirstCut(text, sep);
    if Includes(text, sep) {
      if Includes(gap, w) || Includes(rest, w) {
        OuterPartsInclude(gap, sep, rest, w);
      }
      PiecesIncludeNone(rest, sep, w);
      NoneIncludesCons(gap, Split(rest, sep), w);
    }
  }

  lemma {:induction false} PiecesIncludeNoSeparator(text: string, sep: string)
    requires sep != ""
    ensures NoneIncludes(Split(text, sep), sep)
    decreases |text|
  {
    var gap, rest := FirstCut(text, sep);
    if Includes(text, sep) {
      PiecesIncludeNoSeparator(rest, sep);
      NoneIncludesCons(gap, Split(rest, sep), sep);
    }
  }

  lemma CountZero(text: string, w: string)
    requires w != ""
    ensures Count(text, w) == 0 <==> !Includes(text, w)
  {
    var gap, rest := FirstCut(text, w);
    if Includes(text, w) {
      SplitIsNotEmpty(rest, w);
    }
  }

  /* ---- Forms that do not overlap ---- */

  /** Some proper nonempty suffix of a is a proper prefix of b. */
  predicate Overlaps(a: string, b: string) {
    exists k :: 0 < k < |a| && k < |b| && SuffixMeetsPrefix(a, b, k)
  }

  predicate SuffixMeetsPrefix(a: string, b: string, k: nat) {
    k <= |a| && k <= |b| && a[|a| - k..] == b[..k]
  }

  /** Where w can lie in g + r + rest: in one of the parts, around r, or across one end of it. */
  lemma AcrossOverlaps(g: string, r: string, rest: string, w: string, p: nat)
    requires OccursAt(g + r + rest, w, p)
    ensures p + |w| <= |g| ==> OccursAt(g, w, p)
    ensures p >= |g| + |r| ==> OccursAt(rest, w, p - |g| - |r|)
    ensures p <= |g| && p + |w| >= |g| + |r| ==> OccursAt(w, r, |g| - p)
    ensures p >= |g| && p + |w| <= |g| + |r| ==> OccursAt(r, w, p - |g|)
    ensures p < |g| < p + |w| < |g| + |r| ==> SuffixMeetsPrefix(w, r, p + |w| - |g|)
    ensures |g| < p < |g| + |r| < p + |w| ==> SuffixMeetsPrefix(r, w, |g| + |r| - p)
  {
    var text := g + r + rest;
    forall i | 0 <= i < |w|
      ensures w[i] == text[p + i]
    {
      assert w[i] == text[p..p + |w|][i];
    }
    if p + |w| <= |g| {
      OccursIfSame(g, w, p);
    } else if p >= |g| + |r| {
      OccursIfSame(rest, w, p - |g| - |r|);
    }
    if p <= |g| && p + |w| >= |g| + |r| {
      OccursIfSame(w, r, |g| - p);
    }
    if p >= |g| && p + |w| <= |g| + |r| {
      OccursIfSame(r, w, p - |g|);
    }
    if p < |g| < p + |w| < |g| + |r| {
      MeetsIfSame(w, r, p + |w| - |g|);
    }
    if |g| < p < |g| + |r| < p + |w| {
      MeetsIfSame(r, w, |g| + |r| - p);
    }
  }

  lemma OccursIfSame(text: string, w: string, i: nat)
    requires i + |w| <= |text| && forall k :: 0 <= k < |w| ==> w[k] == text[i + k]
    ensures OccursAt(text, w, i)
  {
  }

  lemma MeetsIfSame(a: string, b: string, k: nat)
    requires k <= |a| && k <= |b| && forall i :: 0 <= i < k ==> b[i] == a[|a| - k + i]
    ensures SuffixMeetsPrefix(a, b, k)
  {
  }

  /* ---- Gaps that can be found again ---- */

  /** The first occurrence of r in g + r is the one after g. */
  predicate CleanGap(g: string, r: string) {
    IndexOf(g + r, r, 0) == |g|
  }

  /** Every gap but the last is clean, and the last holds no r. */
  predicate CleanGaps(pieces: seq<string>, r: string)
    requires pieces != []
  {
    if |pieces| == 1 then !Includes(pieces[0], r) else CleanGap(pieces[0], r) && CleanGaps(pieces[1..], r)
  }

  /** Whether a gap is clean does not depend on what follows the form. */
  lemma FirstAfterGap(g: string, r: string, rest: string)
    requires r != ""
    ensures 0 <= IndexOf(g + r + rest, r, 0) <= |g|
    ensures IndexOf(g + r + rest, r, 0) == |g| <==> CleanGap(g, r)
  {
    forall p | 0 <= p <= |g|
      ensures OccursAt(g + r + rest, r, p) <==> OccursAt(g + r, r, p)
    {
      assert (g + r + rest)[p..p + |r|] == (g + r)[p..p + |r|];
    }
    assert (g + r)[|g|..|g| + |r|] == r;
    assert OccursAt(g + r, r, |g|);
  }

  /** A gap without r is clean if r does not overlap itself. */
  lemma GapIsClean(g: string, r: string)
    requires r != "" && !Overlaps(r, r) && !Includes(g, r)
    ensures CleanGap(g, r)
  {
    FirstAfterGap(g, r, "");
    assert g + r + "" == g + r;
    var p := IndexOf(g + r, r, 0);
    if p < |g| {
      AcrossOverlaps(g, r, "", r, p);
    }
  }

  /** Cutting after a clean gap. */
  lemma SplitCons(gap: string, sep: string, rest: string)
    requires sep != "" && CleanGap(gap, sep)
    ensures Split(gap + sep + rest, sep) == [gap] + Split(rest, sep)
  {
    FirstAfterGap(gap, sep, rest);
    var text := gap + sep + rest;
    assert text[..|gap|] == gap;
    assert text[|gap| + |sep|..] == rest;
  }

  lemma SplitWithout(text: string, sep: string)
    requires sep != "" && !Includes(text, sep)
    ensures Split(text, sep) == [text]
  {
    var _, _ := FirstCut(text, sep);
  }

  lemma SplitOnlyIfWithout(text: string, sep: string)
    requires sep != "" && Split(text, sep) == [text]
    ensures !Includes(text, sep)
  {
    var gap, rest := FirstCut(text, sep);
    if Includes(text, sep) {
      SplitIsNotEmpty(rest, sep);
    }
  }

  lemma SameTail<T>(x: T, a: seq<T>, b: seq<T>)
    requires [x] + a == [x] + b
    ensures a == b
  {
    assert ([x] + a)[1..] == a && ([x] + b)[1..] == b;
  }

  /** Joining pieces with a form can be undone by cutting iff the gaps are clean. */
  lemma {:induction false} JoinThenSplit(pieces: seq<string>, sep: string)
    requires pieces != [] && sep != ""
    ensures Split(Join(pieces, sep), sep) == pieces <==> CleanGaps(pieces, sep)
    decreases |pieces|
  {
    var first, others := pieces[0], pieces[1..];
    assert pieces == [first] + others;
    if others == [] {
      if Includes(first, sep) {
        if Split(first, sep) == [first] {
          SplitOnlyIfWithout(first, sep);
        }
      } else {
        SplitWithout(first, sep);
      }
    } else {
      JoinCons(first, others, sep);
      var rest := Join(others, sep);
      FirstAfterGap(first, sep, rest);
      if CleanGap(first, sep) {
        SplitCons(first, sep, rest);
        JoinThenSplit(others, sep);
        if Split(first + sep + rest, sep) == pieces {
          SameTail(first, Split(rest, sep), others);
        }
      } else {
        assert |Split(first + sep + rest, sep)[0]| < |first|;
      }
    }
  }

  lemma {:induction false} CleanIfNoOverlap(pieces: seq<string>, sep: string)
    requires pieces != [] && sep != "" && !Overlaps(sep, sep) && NoneIncludes(pieces, sep)
    ensures CleanGaps(pieces, sep)
    decreases |pieces|
  {
    assert pieces == [pieces[0]] + pieces[1..];
    NoneIncludesCons(pieces[0], pieces[1..], sep);
    if pieces[1..] != [] {
      GapIsClean(pieces[0], sep);
      CleanIfNoOverlap(pieces[1..], sep);
    }
  }

  /** Neither form occurs in the other or runs into it. */
  predicate Apart(w: string, r: string) {
    !Includes(r, w) && !Includes(w, r) && !Overlaps(w, r) && !Overlaps(r, w)
  }

  /** A form w apart from r does not occur in g + r + rest unless it occurs in g or rest. */
  lemma NotAcross(g: string, r: string, rest: string, w: string)
    requires Apart(w, r) && !Includes(g, w) && !Includes(rest, w)
    ensures !Includes(g + r + rest, w)
  {
    var text := g + r + rest;
    forall p | 0 <= p <= |text|
      ensures !OccursAt(text, w, p)
    {
      if OccursAt(text, w, p) {
        AcrossOverlaps(g, r, rest, w, p);
      }
    }
  }

  lemma {:induction false} JoinedIncludesNone(pieces: seq<string>, r: string, w: string)
    requires pieces != [] && NoneIncludes(pieces, w) && Apart(w, r)
    ensures !Includes(Join(pieces, r), w)
    decreases |pieces|
  {
    var first, others := pieces[0], pieces[1..];
    assert pieces == [first] + others;
    NoneIncludesCons(first, others, w);
    if others != [] {
      JoinedIncludesNone(others, r, w);
      NotAcross(first, r, Join(others, r), w);
      JoinCons(first, others, r);
    }
  }

  /* ---- Edits apply and undo ---- */

  /** Two lists of pieces that are joined to the same texts by both forms, the one
      as f cuts the first text and the other as r cuts the second, are the same. */
  lemma {:induction false} SamePieces(a: seq<string>, b: seq<string>, f: string, r: string)
    requires a != [] && b != [] && f != "" && r != "" && CleanGaps(a, f) && CleanGaps(b, r)
    requires Join(a, f) == Join(b, f) && Join(a, r) == Join(b, r)
    ensures a == b
    decreases |a|
  {
    assert a == [a[0]] + a[1..] && b == [b[0]] + b[1..];
    if a[1..] == [] && b[1..] != [] {
      IncludesItself(f);
      PartIncludes(b[0], f, Join(b[1..], f), f);
    } else if a[1..] != [] && b[1..] == [] {
      IncludesItself(r);
      PartIncludes(a[0], r, Join(a[1..], r), r);
    } else if a[1..] != [] {
      SameLength(a[0], b[0], f, Join(a[1..], f), Join(b[1..], f));
      SameLength(b[0], a[0], r, Join(b[1..], r), Join(a[1..], r));
      SameParts(a[0], b[0], f, Join(a[1..], f), Join(b[1..], f));
      SameParts(a[0], b[0], r, Join(a[1..], r), Join(b[1..], r));
      SamePieces(a[1..], b[1..], f, r);
    }
  }

  lemma IncludesItself(w: string)
    ensures Includes(w, w)
  {
    assert w[0..|w|] == w;
    assert OccursAt(w, w, 0);
  }

  /** A clean gap is no longer than any other text before the form. */
  lemma SameLength(a: string, b: string, s: string, rest: string, rest': string)
    requires s != "" && CleanGap(a, s) && a + s + rest == b + s + rest'
    ensures |a| <= |b|
  {
    FirstAfterGap(a, s, rest);
    FirstAfterGap(b, s, rest');
  }

  lemma SameParts(a: string, b: string, s: string, rest: string, rest': string)
    requires |a| == |b| && a + s + rest == b + s + rest'
    ensures a == b && rest == rest'
  {
    assert (a + s + rest)[..|a|] == a && (b + s + rest')[..|b|] == b;
    assert (a + s + rest)[|a| + |s|..] == rest && (b + s + rest')[|b| + |s|..] == rest';
  }

  /** Swapping the forms takes a rewritten text back iff the gaps between the
      occurrences of the source form are clean for the target form. */
  lemma UndoneIff(text: string, find: string, replace: string)
    requires find != "" && replace != ""
    ensures Split(text, find) != []
    ensures Apply(Apply(text, find, replace), replace, find) == text <==> CleanGaps(Split(text, find), replace)
  {
    var pieces := Split(text, find);
    var landed := Join(pieces, replace);
    SplitThenJoin(text, find);
    SplitThenJoin(landed, replace);
    JoinThenSplit(pieces, replace);
    if Join(Split(landed, replace), find) == text {
      JoinThenSplit(pieces, find);
      JoinThenSplit(Split(landed, replace), replace);
      SamePieces(pieces, Split(landed, replace), find, replace);
    }
  }

  predicate EndsWith(text: string, w: string) {
    |w| <= |text| && text[|text| - |w|..] == w
  }

  /** The gaps, with r between them, begin with w. Reads no further than w is long. */
  predicate BeginsWith(pieces: seq<string>, r: string, w: string)
    requires pieces != []
    decreases |pieces|
  {
    if |pieces| == 1 then w <= pieces[0]
    else w <= pieces[0] + r || (pieces[0] + r <= w && BeginsWith(pieces[1..], r, w[|pieces[0] + r|..]))
  }

  /** What stands before a joint ends with w up to its r at q, and the gaps behind the
      joint begin with the rest of w. */
  predicate Crosses(before: string, behind: seq<string>, r: string, w: string, q: nat)
    requires behind != []
  {
    OccursAt(w, r, q) && EndsWith(before, w[..q]) && BeginsWith(behind, r, w[q + |r|..])
  }

  /** w does not occur where a gap meets the forms beside it, and crosses no joint.
      `left` stands before the first gap. */
  predicate FreeJoins(left: string, pieces: seq<string>, r: string, w: string)
    requires pieces != []
    decreases |pieces|
  {
    if |pieces| == 1 then !Includes(left + pieces[0], w)
    else
      && !Includes(left + pieces[0] + r, w)
      && (forall q: nat :: q < |w| ==> !Crosses(left + pieces[0], pieces[1..], r, w, q))
      && FreeJoins(r, pieces[1..], r, w)
  }

  lemma {:induction false} BeginsWithJoined(pieces: seq<string>, r: string, w: string)
    requires pieces != []
    ensures BeginsWith(pieces, r, w) <==> w <= Join(pieces, r)
    decreases |pieces|
  {
    if |pieces| > 1 {
      var head, rest := pieces[0] + r, Join(pieces[1..], r);
      if head <= w {
        BeginsWithJoined(pieces[1..], r, w[|head|..]);
        assert w == head + w[|head|..];
        PrefixBehind(head, w[|head|..], rest);
      } else if w <= head + rest {
        ShorterPrefix(head, w, rest);
      }
    }
  }

  lemma PrefixBehind(head: string, w: string, rest: string)
    ensures head + w <= head + rest <==> w <= rest
  {
    if head + w <= head + rest {
      assert (head + rest)[|head|..] == rest && (head + w)[|head|..] == w;
      assert (head + rest)[..|head + w|] == head + w;
      assert rest[..|w|] == (head + rest)[|head|..|head + w|];
    }
  }

  lemma ShorterPrefix(head: string, w: string, rest: string)
    requires w <= head + rest && !(head <= w)
    ensures w <= head
  {
    assert (head + rest)[..|w|] == w;
    if |w| < |head| {
      assert head[..|w|] == (head + rest)[..|w|];
    }
  }

  /** Where w lies across the whole r of g + r + rest, it crosses the joint. */
  lemma CrossesHere(g: string, r: string, rest: string, w: string, q: nat)
    requires q <= |g| && q + |r| <= |w| && OccursAt(g + r + rest, w, |g| - q)
    ensures OccursAt(w, r, q) && EndsWith(g, w[..q]) && w[q + |r|..] <= rest
  {
    var text, p := g + r + rest, |g| - q;
    AcrossOverlaps(g, r, rest, w, p);
    assert w[..q] == text[p..p + |w|][..q] == g[p..];
    assert w[q + |r|..] == text[p..p + |w|][q + |r|..] == rest[..|w| - q - |r|];
  }

  lemma CrossingOccurs(g: string, r: string, rest: string, w: string, q: nat)
    requires OccursAt(w, r, q) && EndsWith(g, w[..q]) && w[q + |r|..] <= rest
    ensures Includes(g + r + rest, w)
  {
    var text, p := g + r + rest, |g| - q;
    forall k | 0 <= k < |w|
      ensures w[k] == text[p + k]
    {
      if k < q {
        assert w[k] == w[..q][k] == g[p..][k];
      } else if k < q + |r| {
        assert w[k] == w[q..q + |r|][k - q];
      } else {
        assert w[k] == w[q + |r|..][k - q - |r|];
      }
    }
    OccursIfSame(text, w, p);
  }

  /** An occurrence in g + r + rest ends with r, starts behind g, or crosses the joint. */
  lemma BesideOrAcross(g: string, r: string, rest: string, w: string, p: nat)
    requires OccursAt(g + r + rest, w, p)
    ensures Includes(g + r, w) || Includes(r + rest, w) || (p < |g| && |g| - p + |r| < |w|)
  {
    var text := g + r + rest;
    if p + |w| <= |g| + |r| {
      assert (g + r)[p..p + |w|] == text[p..p + |w|];
      assert OccursAt(g + r, w, p);
    } else if p >= |g| {
      assert (r + rest)[p - |g|..p - |g| + |w|] == text[p..p + |w|];
      assert OccursAt(r + rest, w, p - |g|);
    }
  }

  /** At one joint: w occurs iff it does on one side of it or crosses it. */
  lemma OneJoint(g: string, r: string, behind: seq<string>, w: string)
    requires behind != []
    ensures var rest := Join(behind, r);
            Includes(g + r + rest, w) <==>
              || Includes(g + r, w) || Includes(r + rest, w)
              || (exists q: nat :: q < |w| && Crosses(g, behind, r, w, q))
  {
    var rest := Join(behind, r);
    assert g + r + rest == g + (r + rest);
    if Includes(g + r, w) || Includes(r + rest, w) {
      JoinedInclude(g, r, rest, w);
    }
    if Includes(g + r + rest, w) {
      var p :| 0 <= p <= |g + r + rest| && OccursAt(g + r + rest, w, p);
      BesideOrAcross(g, r, rest, w, p);
      if p < |g| && |g| - p + |r| < |w| {
        CrossesHere(g, r, rest, w, |g| - p);
        BeginsWithJoined(behind, r, w[|g| - p + |r|..]);
        assert Crosses(g, behind, r, w, |g| - p);
      }
    }
    forall q: nat | q < |w| && Crosses(g, behind, r, w, q)
      ensures Includes(g + r + rest, w)
    {
      BeginsWithJoined(behind, r, w[q + |r|..]);
      CrossingOccurs(g, r, rest, w, q);
    }
  }

  lemma JoinedInclude(g: string, r: string, rest: string, w: string)
    requires Includes(g + r, w) || Includes(r + rest, w)
    ensures Includes(g + r + rest, w)
  {
    assert g + r + "" + rest == g + r + rest && g + "" + (r + rest) == g + r + rest;
    if Includes(g + r, w) {
      OuterPartsInclude(g + r, "", rest, w);
    } else {
      OuterPartsInclude(g, "", r + rest, w);
    }
  }

  /** A form w occurs in the joined text iff it does at some gap or across some joint. */
  lemma {:induction false} FreeJoinsIff(left: string, pieces: seq<string>, r: string, w: string)
    requires pieces != []
    ensures FreeJoins(left, pieces, r, w) <==> !Includes(left + Join(pieces, r), w)
    decreases |pieces|
  {
    if |pieces| > 1 {
      FreeJoinsIff(r, pieces[1..], r, w);
      OneJoint(left + pieces[0], r, pieces[1..], w);
      assert left + Join(pieces, r) == left + pieces[0] + r + Join(pieces[1..], r);
    }
  }

  /** What the gaps must be like for an edit to land and to be undone: clean for the
      target form and, unless that form holds the source form, free of it when joined. */
  predicate Reversible(text: string, find: string, replace: string)
    requires find != ""
  {
    var pieces := Split(text, find);
    SplitIsNotEmpty(text, find);
    CleanGaps(pieces, replace) && (Includes(replace, find) || FreeJoins("", pieces, replace, find))
  }

  lemma PendingIsCounted(text: string, find: string, replace: string, wanted: int)
    requires find != "" && replace != "" && State(text, find, replace, wanted) == Pending
    ensures wanted >= 1 && find != replace && Count(text, find) == wanted
  {
    SplitIsNotEmpty(text, find);
    SplitIsNotEmpty(text, replace);
    assert OccursAt(find, find, 0);
  }

  /** A pending edit lands as 'applied' and is undone by the swapped edit iff its gaps allow it. */
  lemma LandsAndReturnsIff(text: string, find: string, replace: string, wanted: int)
    requires find != "" && replace != "" && State(text, find, replace, wanted) == Pending
    ensures var landed := Apply(text, find, replace);
      && (State(landed, find, replace, wanted) == Applied && Apply(landed, replace, find) == text
          <==> Reversible(text, find, replace))
      && (Reversible(text, find, replace) ==> State(landed, replace, find, wanted) == Pending)
  {
    var pieces, landed := Split(text, find), Apply(text, find, replace);
    PendingIsCounted(text, find, replace, wanted);
    UndoneIff(text, find, replace);
    JoinThenSplit(pieces, replace);
    CountZero(landed, find);
    FreeJoinsIff("", pieces, replace, find);
    assert "" + Join(pieces, replace) == Join(pieces, replace);
    SwappedForms(landed, find, replace, wanted);
  }

  /* ---- Deletions: the source form holds the target form ---- */

  /** What stands before joint i: a gap and, unless it is the first, the form before it. */
  function Before(left: string, pieces: seq<string>, r: string, i: nat): string
    requires i < |pieces|
  {
    (if i == 0 then left else r) + pieces[i]
  }

  /** w crosses joint i with its r at q. */
  predicate CrossesAt(left: string, pieces: seq<string>, r: string, w: string, q: nat, i: nat)
    requires i + 1 < |pieces|
  {
    Crosses(Before(left, pieces, r, i), pieces[i + 1..], r, w, q)
  }

  lemma CrossesBehind(left: string, pieces: seq<string>, r: string, w: string, q: nat, i: nat)
    requires i + 2 < |pieces|
    ensures CrossesAt(r, pieces[1..], r, w, q, i) <==> CrossesAt(left, pieces, r, w, q, i + 1)
  {
    assert pieces[1..][i + 1..] == pieces[i + 2..];
    assert Before(r, pieces[1..], r, i) == Before(left, pieces, r, i + 1);
  }

  /** An r that does not overlap itself occurs in g + r + rest in a part or as the joint. */
  lemma AtJointOrInPart(g: string, r: string, rest: string, s: nat)
    requires !Overlaps(r, r) && OccursAt(g + r + rest, r, s)
    ensures s == |g| || s + |r| <= |g| || s >= |g| + |r|
  {
    AcrossOverlaps(g, r, rest, r, s);
  }

  /** An occurrence of w whose first r is at s: it crosses this joint, or lies behind it. */
  lemma CrossedOrBehind(g: string, r: string, behind: seq<string>, w: string, q: nat, p: nat)
    requires behind != [] && r != "" && !Overlaps(r, r) && p + q + |r| > |g|
    requires OccursAt(w, r, q) && forall k: nat :: k < q ==> !OccursAt(w, r, k)
    requires OccursAt(g + r + Join(behind, r), w, p)
    ensures Crosses(g, behind, r, w, q) || (p >= |g| && p + q >= |g| + |r|)
  {
    var rest := Join(behind, r);
    OccursWithin(g + r + rest, w, p, r, q);
    AtJointOrInPart(g, r, rest, p + q);
    if p + q == |g| {
      CrossesHere(g, r, rest, w, q);
      BeginsWithJoined(behind, r, w[q + |r|..]);
    } else if p < |g| {
      AcrossOverlaps(g, r, rest, w, p);
    }
  }

  /** Behind `left`, which it does not reach, the first r of w stands at a joint, if no gap holds one. */
  lemma {:induction false} SomeJointIsCrossed(left: string, pieces: seq<string>, r: string, w: string, q: nat, p: nat)
      returns (i: nat)
    requires pieces != [] && r != "" && !Overlaps(r, r) && NoneIncludes(pieces, r)
    requires OccursAt(w, r, q) && forall k: nat :: k < q ==> !OccursAt(w, r, k)
    requires OccursAt(left + Join(pieces, r), w, p) && p + q >= |left|
    ensures i + 1 < |pieces| && CrossesAt(left, pieces, r, w, q, i)
    decreases |pieces|
  {
    i := 0;
    var g, others := left + pieces[0], pieces[1..];
    var tail := if others == [] then "" else r + Join(others, r);
    assert left + Join(pieces, r) == g + tail;
    OccursWithin(g + tail, w, p, r, q);
    NotInGap(left, pieces[0], tail, r, p + q);
    assert g + tail == g + r + Join(others, r);
    CrossedOrBehind(g, r, others, w, q, p);
    if !Crosses(g, others, r, w, q) {
      assert g + r + Join(others, r) == g + (r + Join(others, r));
      OccursBehind(g, r + Join(others, r), w, p);
      i := SomeJointIsCrossed(r, others, r, w, q, p - |g|);
      CrossesBehind(left, pieces, r, w, q, i);
      i := i + 1;
    }
  }

  lemma NotInGap(left: string, gap: string, tail: string, r: string, s: nat)
    requires !Includes(gap, r) && s >= |left| && OccursAt(left + gap + tail, r, s)
    ensures s + |r| > |left + gap|
  {
    if s + |r| <= |left + gap| {
      forall k | 0 <= k < |r|
        ensures r[k] == gap[s - |left| + k]
      {
        assert r[k] == (left + gap + tail)[s..s + |r|][k];
      }
      OccursIfSame(gap, r, s - |left|);
    }
  }

  lemma OccursWithin(text: string, w: string, p: nat, r: string, q: nat)
    requires OccursAt(text, w, p) && OccursAt(w, r, q)
    ensures OccursAt(text, r, p + q)
  {
    forall k | 0 <= k < |r|
      ensures r[k] == text[p + q + k]
    {
      assert r[k] == w[q..q + |r|][k] && w[q + k] == text[p..p + |w|][q + k];
    }
    OccursIfSame(text, r, p + q);
  }

  lemma OccursBehind(a: string, b: string, w: string, p: nat)
    requires OccursAt(a + b, w, p) && p >= |a|
    ensures OccursAt(b, w, p - |a|) && Includes(b, w)
  {
    var i := p - |a|;
    assert (a + b)[p..p + |w|] == b[i..i + |w|];
    assert 0 <= i <= |b| && OccursAt(b, w, i);
  }

  lemma {:induction false} FreeIsCrossedNowhere(left: string, pieces: seq<string>, r: string, w: string, q: nat, i: nat)
    requires i + 1 < |pieces| && r != "" && FreeJoins(left, pieces, r, w)
    ensures !CrossesAt(left, pieces, r, w, q, i)
    decreases |pieces|
  {
    if i > 0 {
      FreeIsCrossedNowhere(r, pieces[1..], r, w, q, i - 1);
      CrossesBehind(left, pieces, r, w, q, i - 1);
    }
  }

  lemma CleanGapIncludesNone(g: string, r: string)
    requires r != "" && CleanGap(g, r)
    ensures !Includes(g, r)
  {
    NotBeforeFirst(g + r, r, |g|);
    assert (g + r)[..|g|] == g;
  }

  lemma {:induction false} CleanIncludeNone(pieces: seq<string>, r: string)
    requires pieces != [] && r != "" && CleanGaps(pieces, r)
    ensures NoneIncludes(pieces, r)
    decreases |pieces|
  {
    assert pieces == [pieces[0]] + pieces[1..];
    if |pieces| > 1 {
      CleanGapIncludesNone(pieces[0], r);
      CleanIncludeNone(pieces[1..], r);
      NoneIncludesCons(pieces[0], pieces[1..], r);
    }
  }

  /** The gaps begin with a form that holds no r iff the first one does, with the joint behind it if there is one. */
  lemma BeginsWithNext(pieces: seq<string>, r: string, w: string)
    requires pieces != [] && !Includes(w, r)
    ensures BeginsWith(pieces, r, w) <==> w <= pieces[0] + if |pieces| > 1 then r else ""
  {
    assert |pieces| == 1 ==> pieces[0] + "" == pieces[0];
    if |pieces| > 1 && pieces[0] + r <= w {
      assert w[|pieces[0]|..|pieces[0]| + |r|] == r;
      assert OccursAt(w, r, |pieces[0]|);
    }
  }

  /** A deletion lands and returns iff no gap holds the target form and the source form crosses
      no joint: at no joint do the texts around the first target form in it come together. */
  lemma DeletionReturnsIff(text: string, find: string, replace: string)
    requires find != "" && replace != "" && find != replace && Includes(find, replace) && !Overlaps(replace, replace)
    ensures Split(text, find) != []
    ensures var pieces, q := Split(text, find), IndexOf(find, replace, 0);
      && q >= 0
      && (Reversible(text, find, replace) <==>
            && NoneIncludes(pieces, replace)
            && forall i: nat :: i + 1 < |pieces| ==> !CrossesAt("", pieces, replace, find, q, i))
  {
    var pieces, q := Split(text, find), IndexOf(find, replace, 0);
    SplitIsNotEmpty(text, find);
    if Includes(replace, find) {
      IncludesBoth(find, replace);
    }
    if NoneIncludes(pieces, replace) {
      CleanIfNoOverlap(pieces, replace);
      var landed := "" + Join(pieces, replace);
      FreeJoinsIff("", pieces, replace, find);
      if Includes(landed, find) {
        var p :| 0 <= p <= |landed| && OccursAt(landed, find, p);
        var i := SomeJointIsCrossed("", pieces, replace, find, q, p);
      } else {
        forall i: nat | i + 1 < |pieces|
          ensures !CrossesAt("", pieces, replace, find, q, i)
        {
          FreeIsCrossedNowhere("", pieces, replace, find, q, i);
        }
      }
    } else if CleanGaps(pieces, replace) {
      CleanIncludeNone(pieces, replace);
    }
  }

  /** Where the source form is x, the target form, and y, and y does not hold the target form:
      iff nowhere does a gap, with the joint before it, end with x and the next one, with the
      joint behind it, begin with y. */
  lemma PlainDeletionReturnsIff(text: string, x: string, replace: string, y: string)
    requires replace != "" && x + y != "" && !Overlaps(replace, replace)
    requires IndexOf(x + replace + y, replace, 0) == |x| && !Includes(y, replace)
    ensures var pieces := Split(text, x + replace + y);
      && pieces != []
      && (Reversible(text, x + replace + y, replace) <==>
            && NoneIncludes(pieces, replace)
            && forall i: nat :: i + 1 < |pieces| ==>
                 !(EndsWith(Before("", pieces, replace, i), x) &&
                   y <= pieces[i + 1] + if i + 2 < |pieces| then replace else ""))
  {
    var find := x + replace + y;
    DeletionReturnsIff(text, find, replace);
    var pieces := Split(text, find);
    assert find[..|x|] == x && find[|x| + |replace|..] == y;
    forall i: nat | i + 1 < |pieces|
      ensures CrossesAt("", pieces, replace, find, |x|, i) <==>
                && EndsWith(Before("", pieces, replace, i), x)
                && y <= pieces[i + 1] + if i + 2 < |pieces| then replace else ""
    {
      BeginsWithNext(pieces[i + 1..], replace, y);
    }
  }

  /** The forms of an insertion (the target keeps the source form) or of an
      unrelated replacement, such that occurrences cannot overlap. */
  predicate CleanForms(find: string, replace: string) {
    && find != "" && replace != "" && find != replace && !Overlaps(replace, replace)
    && (Includes(replace, find) || Apart(find, replace))
  }

  /** A form that contains another occurs only where the other does. */
  lemma LargerFormOccursLess(text: string, find: string, replace: string)
    requires Includes(replace, find) && Includes(text, replace)
    ensures Includes(text, find)
  {
    var p :| 0 <= p <= |text| && OccursAt(text, replace, p);
    assert text[..p] + text[p..p + |replace|] + text[p + |replace|..] == text;
    PartIncludes(text[..p], replace, text[p + |replace|..], find);
  }

  /** With such forms every pending text allows it. */
  lemma CleanFormsAreReversible(text: string, find: string, replace: string, wanted: int)
    requires CleanForms(find, replace) && State(text, find, replace, wanted) == Pending
    ensures Reversible(text, find, replace)
  {
    var pieces := Split(text, find);
    SplitThenJoin(text, find);
    PiecesIncludeNoSeparator(text, find);
    CountZero(text, find);
    CountZero(text, replace);
    if Includes(replace, find) {
      forall i | 0 <= i < |pieces|
        ensures !Includes(pieces[i], replace)
      {
        if Includes(pieces[i], replace) {
          LargerFormOccursLess(pieces[i], find, replace);
        }
      }
    } else {
      PiecesIncludeNone(text, find, replace);
      JoinedIncludesNone(pieces, replace, find);
      FreeJoinsIff("", pieces, replace, find);
      assert "" + Join(pieces, replace) == Join(pieces, replace);
    }
    CleanIfNoOverlap(pieces, replace);
  }

  /* ---- Edits that do not interfere ---- */

  /** Two lists of pieces around a text: the last piece, the text and the first piece become one. */
  function Fuse(a: seq<string>, s: string, b: seq<string>): seq<string>
    requires a != [] && b != []
  {
    if |a| == 1 then [a[0] + s + b[0]] + b[1..] else [a[0]] + Fuse(a[1..], s, b)
  }

  lemma FuseCons(piece: string, a: seq<string>, s: string, b: seq<string>)
    requires a != [] && b != []
    ensures Fuse([piece] + a, s, b) == [piece] + Fuse(a, s, b)
  {
    assert ([piece] + a)[1..] == a;
  }

  lemma FuseOne(g: string, s: string, piece: string, more: seq<string>)
    ensures Fuse([g], s, [piece] + more) == [g + s + piece] + more
  {
    assert ([piece] + more)[1..] == more;
  }

  /** Where w can first occur in g + s + rest, if it is apart from s. */
  lemma FirstAcross(g: string, s: string, rest: string, w: string, p: nat)
    requires Apart(w, s) && OccursAt(g + s + rest, w, p)
    ensures OccursAt(g, w, p) || (p >= |g| + |s| && OccursAt(rest, w, p - |g| - |s|))
  {
    AcrossOverlaps(g, s, rest, w, p);
  }

  lemma CutInGap(g: string, s: string, rest: string, w: string, gap: string, r: string)
    requires w != "" && Apart(w, s) && g == gap + w + r && IndexOf(g, w, 0) == |gap|
    ensures Split(g + s + rest, w) == [gap] + Split(r + s + rest, w)
  {
    var text := g + s + rest;
    Associate(gap + w, r, s);
    Associate(gap + w, r + s, rest);
    forall k | 0 <= k < |gap|
      ensures !OccursAt(text, w, k)
    {
      if OccursAt(text, w, k) {
        FirstAcross(g, s, rest, w, k);
      }
    }
    SplitAtFirst(text, w, gap, r + s + rest);
  }

  lemma CutInRest(g: string, s: string, rest: string, w: string, gap: string, r: string)
    requires w != "" && Apart(w, s) && !Includes(g, w) && rest == gap + w + r && IndexOf(rest, w, 0) == |gap|
    ensures Split(g + s + rest, w) == [g + s + gap] + Split(r, w)
  {
    var text := g + s + rest;
    Associate(g + s, gap + w, r);
    Associate(g + s, gap, w);
    forall k | 0 <= k < |g + s + gap|
      ensures !OccursAt(text, w, k)
    {
      if OccursAt(text, w, k) {
        FirstAcross(g, s, rest, w, k);
      }
    }
    SplitAtFirst(text, w, g + s + gap, r);
  }

  /** Cutting does not see a text that is apart from the separator. */
  lemma {:induction false} SplitAcross(g: string, s: string, rest: string, w: string)
    requires w != "" && Apart(w, s)
    ensures Split(g, w) != [] && Split(rest, w) != [] && Split(g + s + rest, w) == Fuse(Split(g, w), s, Split(rest, w))
    decreases |g|
  {
    SplitIsNotEmpty(g, w);
    SplitIsNotEmpty(rest, w);
    var gap, r := FirstCut(g, w);
    if Includes(g, w) {
      CutInGap(g, s, rest, w, gap, r);
      SplitAcross(r, s, rest, w);
      FuseCons(gap, Split(r, w), s, Split(rest, w));
    } else {
      var gap', r' := FirstCut(rest, w);
      if Includes(rest, w) {
        CutInRest(g, s, rest, w, gap', r');
        FuseOne(g, s, gap', Split(r', w));
      } else {
        NotAcross(g, s, rest, w);
        SplitWithout(g + s + rest, w);
        FuseOne(g, s, rest, []);
      }
    }
  }

  lemma {:induction false} JoinFuse(a: seq<string>, s: string, b: seq<string>, sep: string)
    requires a != [] && b != []
    ensures Fuse(a, s, b) != [] && Join(Fuse(a, s, b), sep) == Join(a, sep) + s + Join(b, sep)
    ensures |Fuse(a, s, b)| == |a| + |b| - 1
  {
    if |a| == 1 {
      assert a == [a[0]] && b == [b[0]] + b[1..];
      FuseOne(a[0], s, b[0], b[1..]);
      if b[1..] != [] {
        JoinCons(a[0] + s + b[0], b[1..], sep);
        JoinCons(b[0], b[1..], sep);
        Associate(a[0] + s, b[0], sep + Join(b[1..], sep));
        Associate(b[0], sep, Join(b[1..], sep));
        Associate(a[0] + s + b[0], sep, Join(b[1..], sep));
      }
    } else {
      JoinFuse(a[1..], s, b, sep);
      assert a == [a[0]] + a[1..];
      JoinCons(a[0], a[1..], sep);
      JoinCons(a[0], Fuse(a[1..], s, b), sep);
      Associate(a[0] + sep + Join(a[1..], sep), s, Join(b, sep));
      Associate(a[0] + sep, Join(a[1..], sep), s + Join(b, sep));
      Associate(Join(a[1..], sep), s, Join(b, sep));
    }
  }

  function ApplyEach(pieces: seq<string>, find: string, replace: string): (r: seq<string>)
    ensures |r| == |pieces|
  {
    if pieces == [] then [] else [Apply(pieces[0], find, replace)] + ApplyEach(pieces[1..], find, replace)
  }

  function CountEach(pieces: seq<string>, w: string): int {
    if pieces == [] then 0 else Count(pieces[0], w) + CountEach(pieces[1..], w)
  }

  /** An edit apart from s works on pieces joined by s piece by piece. */
  lemma {:induction false} ApplyJoined(pieces: seq<string>, s: string, find: string, replace: string)
    requires pieces != [] && find != "" && Apart(find, s)
    ensures Apply(Join(pieces, s), find, replace) == Join(ApplyEach(pieces, find, replace), s)
    ensures Count(Join(pieces, s), find) == CountEach(pieces, find)
    decreases |pieces|
  {
    var first, others := pieces[0], pieces[1..];
    assert pieces == [first] + others;
    if others != [] {
      ApplyJoined(others, s, find, replace);
      JoinCons(first, others, s);
      SplitAcross(first, s, Join(others, s), find);
      JoinFuse(Split(first, find), s, Split(Join(others, s), find), replace);
      JoinCons(Apply(first, find, replace), ApplyEach(others, find, replace), s);
    }
  }

  /** The forms of the two edits are apart from each other. */
  predicate FormsApart(find: string, replace: string, find': string, replace': string) {
    Apart(find, find') && Apart(find, replace') && Apart(replace, find') && Apart(replace, replace')
  }

  lemma ApartBothWays(a: string, b: string)
    ensures Apart(a, b) <==> Apart(b, a)
  {
  }

  /** An edit whose forms are apart from w does not change how often w is cut out. */
  lemma CountIsKept(text: string, find: string, replace: string, w: string)
    requires find != "" && w != "" && Apart(w, find) && Apart(w, replace)
    ensures Count(Apply(text, find, replace), w) == Count(text, w)
  {
    var pieces := Split(text, find);
    SplitThenJoin(text, find);
    ApplyJoined(pieces, find, w, w);
    ApplyJoined(pieces, replace, w, w);
  }

  lemma StateIsKept(text: string, find: string, replace: string, find': string, replace': string, wanted: int)
    requires find != "" && find' != "" && replace' != "" && FormsApart(find, replace, find', replace')
    ensures State(Apply(text, find, replace), find', replace', wanted) == State(text, find', replace', wanted)
  {
    ApartBothWays(find, find');
    ApartBothWays(find, replace');
    ApartBothWays(replace, find');
    ApartBothWays(replace, replace');
    CountIsKept(text, find, replace, find');
    CountIsKept(text, find, replace, replace');
  }

  /** Where w begins before the end of a gap x + s + y, if it is apart from s. */
  lemma OccursAcross(x: string, s: string, y: string, w: string, p: nat)
    requires Apart(w, s) && p < |x + s + y|
    ensures OccursAt(x + s + y + w, w, p) <==>
            OccursAt(x, w, p) || (p >= |x| + |s| && OccursAt(y + w, w, p - |x| - |s|))
  {
    var text := x + s + (y + w);
    assert x + s + y + w == text;
    if OccursAt(text, w, p) {
      FirstAcross(x, s, y + w, w, p);
    }
    if OccursAt(x, w, p) {
      assert text[p..p + |w|] == x[p..p + |w|];
    }
    if p >= |x| + |s| && OccursAt(y + w, w, p - |x| - |s|) {
      assert text[p..p + |w|] == (y + w)[p - |x| - |s|..p - |x| - |s| + |w|];
    }
  }

  /** In a clean gap no occurrence begins. */
  lemma CleanMeansNone(g: string, w: string)
    requires w != ""
    ensures CleanGap(g, w) <==> forall p :: 0 <= p < |g| ==> !OccursAt(g + w, w, p)
  {
    FirstAfterGap(g, w, "");
    assert g + w + "" == g + w;
  }

  /** A text apart from the form does not matter to a gap. */
  lemma CleanAcross(x: string, s: string, y: string, w: string)
    requires w != "" && Apart(w, s)
    ensures CleanGap(x + s + y, w) <==> !Includes(x, w) && CleanGap(y, w)
  {
    CleanMeansNone(x + s + y, w);
    CleanMeansNone(y, w);
    forall p | 0 <= p < |x + s + y|
      ensures OccursAt(x + s + y + w, w, p) <==>
              OccursAt(x, w, p) || (p >= |x| + |s| && OccursAt(y + w, w, p - |x| - |s|))
    {
      OccursAcross(x, s, y, w, p);
    }
    if p :| 0 <= p <= |x| && OccursAt(x, w, p) {
      assert OccursAt(x + s + y + w, w, p);
    } else if p :| 0 <= p < |y| && OccursAt(y + w, w, p) {
      assert OccursAt(x + s + y + w, w, |x| + |s| + p);
    }
  }

  /** The last of the pieces is clean, and the others do not hold the form. */
  predicate CleanTail(pieces: seq<string>, w: string)
    requires pieces != []
  {
    if |pieces| == 1 then CleanGap(pieces[0], w) else !Includes(pieces[0], w) && CleanTail(pieces[1..], w)
  }

  lemma {:induction false} CleanJoined(pieces: seq<string>, s: string, w: string)
    requires pieces != [] && w != "" && Apart(w, s)
    ensures CleanGap(Join(pieces, s), w) <==> CleanTail(pieces, w)
    decreases |pieces|
  {
    if |pieces| > 1 {
      CleanJoined(pieces[1..], s, w);
      CleanAcross(pieces[0], s, Join(pieces[1..], s), w);
    }
  }

  /** An edit whose forms are apart from w keeps a gap clean for w. */
  lemma GapStaysClean(g: string, find: string, replace: string, w: string)
    requires find != "" && w != "" && Apart(w, find) && Apart(w, replace)
    ensures CleanGap(Apply(g, find, replace), w) <==> CleanGap(g, w)
  {
    SplitThenJoin(g, find);
    CleanJoined(Split(g, find), find, w);
    CleanJoined(Split(g, find), replace, w);
  }

  lemma {:induction false} GapsStayClean(pieces: seq<string>, find: string, replace: string, w: string)
    requires pieces != [] && find != "" && w != "" && Apart(w, find) && Apart(w, replace) && CleanGaps(pieces, w)
    ensures CleanGaps(ApplyEach(pieces, find, replace), w)
    decreases |pieces|
  {
    var first, others := pieces[0], pieces[1..];
    if others == [] {
      CountZero(first, w);
      CountIsKept(first, find, replace, w);
      CountZero(Apply(first, find, replace), w);
    } else {
      GapStaysClean(first, find, replace, w);
      GapsStayClean(others, find, replace, w);
      assert ApplyEach(pieces, find, replace)[1..] == ApplyEach(others, find, replace);
    }
  }

  /** Edits whose forms are apart commute. */
  lemma EditsCommute(text: string, find: string, replace: string, find': string, replace': string)
    requires find != "" && find' != "" && FormsApart(find, replace, find', replace')
    ensures Apply(Apply(text, find, replace), find', replace') == Apply(Apply(text, find', replace'), find, replace)
  {
    var pieces := Split(text, find);
    SplitThenJoin(text, find);
    ApartBothWays(find, find');
    ApartBothWays(replace, find');
    ApplyJoined(pieces, find, find', replace');
    ApplyJoined(pieces, replace, find', replace');
    JoinThenSplit(pieces, find);
    GapsStayClean(pieces, find', replace', find);
    JoinThenSplit(ApplyEach(pieces, find', replace'), find);
  }

  /* ---- Texts that do not allow it ---- */

  lemma Differs(text: string, w: string, i: nat, j: nat)
    requires j < |w| && (i + j >= |text| || text[i + j] != w[j])
    ensures !OccursAt(text, w, i)
  {
    if i + |w| <= |text| {
      assert text[i..i + |w|][j] == text[i + j];
    }
  }

  lemma SplitAtFirst(text: string, sep: string, gap: string, rest: string)
    requires sep != "" && text == gap + sep + rest
    requires forall k :: 0 <= k < |gap| ==> !OccursAt(text, sep, k)
    ensures Split(text, sep) == [gap] + Split(rest, sep)
  {
    assert text[|gap|..|gap| + |sep|] == sep;
    assert OccursAt(text, sep, |gap|);
    assert IndexOf(text, sep, 0) == |gap|;
    assert text[..|gap|] == gap;
    assert text[|gap| + |sep|..] == rest;
  }

  /** A separator with a character the text lacks does not cut it. */
  lemma SplitWithoutChar(text: string, sep: string, j: nat)
    requires j < |sep| && sep[j] !in text
    ensures !Includes(text, sep) && Split(text, sep) == [text]
  {
    forall i | 0 <= i <= |text|
      ensures !OccursAt(text, sep, i)
    {
      Differs(text, sep, i, j);
    }
    SplitWithout(text, sep);
  }

  lemma SelfOverlapSource()
    ensures Split("ax", "x") == ["a", ""] && Split("ax", "aa") == ["ax"]
    ensures Apply("ax", "x", "aa") == "aaa"
  {
    Differs("ax", "x", 0, 0);
    SplitAtFirst("ax", "x", "a", "");
    Differs("ax", "aa", 0, 1);
    JoinTwo("a", "", "aa");
  }

  lemma SelfOverlapTarget()
    ensures Split("aaa", "x") == ["aaa"] && Split("aaa", "aa") == ["", "a"]
  {
    SplitWithoutChar("aaa", "x", 0);
    SplitAtFirst("aaa", "aa", "", "a");
  }

  lemma JoinTwo(a: string, b: string, sep: string)
    ensures Join([a, b], sep) == a + sep + b
  {
    assert [a, b][1..] == [b];
  }

  lemma UnrelatedState(text: string, find: string, replace: string, wanted: int, hits: int, landed: int)
    requires !Includes(replace, find) && !Includes(find, replace)
    requires Count(text, find) == hits && Count(text, replace) == landed
    ensures State(text, find, replace, wanted) ==
            if hits == 0 && landed == wanted then Applied
            else if hits == wanted && landed == 0 then Pending else Invalid
  {
  }

  lemma SelfOverlapUnrelated()
    ensures !Includes("aa", "x") && !Includes("x", "aa") && Overlaps("aa", "aa")
  {
    SplitWithoutChar("aa", "x", 0);
    assert SuffixMeetsPrefix("aa", "aa", 1);
  }

  /** A target form that overlaps itself, and a gap that is not clean: the edit cannot be undone. */
  lemma SelfOverlapCannotBeUndone()
    ensures State("ax", "x", "aa", 1) == Pending && Overlaps("aa", "aa")
    ensures State(Apply("ax", "x", "aa"), "x", "aa", 1) == Applied
    ensures Apply(Apply("ax", "x", "aa"), "aa", "x") != "ax"
  {
    SelfOverlapSource();
    SelfOverlapTarget();
    SelfOverlapUnrelated();
    UnrelatedState("ax", "x", "aa", 1, 1, 0);
    UnrelatedState("aaa", "x", "aa", 1, 0, 1);
    JoinTwo("", "a", "x");
  }

  lemma RemovalSource()
    ensures Split("abb", "ab") == ["", "b"] && Split("ab", "ab") == ["", ""]
    ensures Apply("abb", "ab", "a") == "ab"
  {
    SplitAtFirst("abb", "ab", "", "b");
    SplitAtFirst("ab", "ab", "", "");
    JoinTwo("", "b", "a");
  }

  lemma RemovalState(text: string, hits: int)
    requires Count(text, "ab") == hits == 1
    ensures State(text, "ab", "a", 1) == Pending
  {
    SplitWithoutChar("a", "ab", 1);
    assert OccursAt("ab", "a", 0);
  }

  /** A deletion whose source form crosses a joint: written, it is pending again. */
  lemma RemovedFormReappears()
    ensures State("abb", "ab", "a", 1) == Pending
    ensures State(Apply("abb", "ab", "a"), "ab", "a", 1) == Pending
    ensures !Overlaps("a", "a") && Split("abb", "ab") == ["", "b"] && CrossesAt("", ["", "b"], "a", "ab", 0, 0)
  {
    RemovalSource();
    RemovalState("abb", 1);
    RemovalState("ab", 1);
    assert ["", "b"][1..] == ["b"] && "ab"[1..] == "b" && "ab"[..0] == "";
    assert OccursAt("ab", "a", 0) && EndsWith("" + "", "") && BeginsWith(["b"], "a", "b");
  }

  lemma PartialOverlapSource()
    ensures Split("aab", "ab") == ["a", ""] && Split("aab", "bc") == ["aab"]
    ensures Apply("aab", "ab", "bc") == "abc"
  {
    Differs("aab", "ab", 0, 1);
    SplitAtFirst("aab", "ab", "a", "");
    SplitWithoutChar("aab", "bc", 1);
    JoinTwo("a", "", "bc");
  }

  lemma PartialOverlapTarget()
    ensures Split("abc", "ab") == ["", "c"]
  {
    SplitAtFirst("abc", "ab", "", "c");
    Differs("c", "ab", 0, 1);
  }

  lemma PartialOverlapUnrelated()
    ensures !Includes("bc", "ab") && !Includes("ab", "bc") && Overlaps("ab", "bc")
  {
    SplitWithoutChar("bc", "ab", 0);
    SplitWithoutChar("ab", "bc", 1);
    assert SuffixMeetsPrefix("ab", "bc", 1);
  }

  /** Forms that partially overlap, and a join that is not free: the applied edit is classified invalid. */
  lemma PartialOverlapIsInvalid()
    ensures State("aab", "ab", "bc", 1) == Pending && Overlaps("ab", "bc")
    ensures State(Apply("aab", "ab", "bc"), "ab", "bc", 1) == Invalid
  {
    PartialOverlapSource();
    PartialOverlapTarget();
    PartialOverlapUnrelated();
    UnrelatedState("aab", "ab", "bc", 1, 1, 0);
    UnrelatedState("abc", "ab", "bc", 1, 1, Count("abc", "bc"));
  }

  /* ---- The whole plan ---- */

  datatype Edit = Edit(file: string, find: string, replace: string, wanted: int)

  datatype Mode = Dry | Check | Write

  type Files = map<string, string>

  /** Why the run stops before it writes: a file it cannot read, or edits it rejects. */
  datatype Outcome = Unreadable(file: string) | Rejected(edits: seq<nat>) | Done

  function Oriented(e: Edit, reverse: bool): Edit {
    if reverse then e.(find := e.replace, replace := e.find) else e
  }

  function StateIn(files: Files, e: Edit): EditState
    requires e.file in files
  {
    State(files[e.file], e.find, e.replace, e.wanted)
  }

  predicate Readable(files: Files, edits: seq<Edit>) {
    forall i :: 0 <= i < |edits| ==> edits[i].file in files
  }

  predicate AllIn(files: Files, edits: seq<Edit>, state: EditState)
    requires Readable(files, edits)
  {
    forall i :: 0 <= i < |edits| ==> StateIn(files, edits[i]) == state
  }

  predicate NoneIn(files: Files, edits: seq<Edit>, state: EditState)
    requires Readable(files, edits)
  {
    forall i :: 0 <= i < |edits| ==> StateIn(files, edits[i]) != state
  }

  /** The pending edits, in order. */
  function Planned(files: Files, edits: seq<Edit>): (r: seq<Edit>)
    requires Readable(files, edits)
    ensures Readable(files, r)
  {
    if edits == [] then []
    else
      var front, last := edits[..|edits| - 1], edits[|edits| - 1];
      if StateIn(files, last) == Pending then Planned(files, front) + [last] else Planned(files, front)
  }

  function WriteOne(files: Files, e: Edit): (r: Files)
    requires e.file in files
    ensures r.Keys == files.Keys
  {
    files[e.file := Apply(files[e.file], e.find, e.replace)]
  }

  /** Each planned edit rewrites what the earlier ones left. */
  function WriteAll(files: Files, edits: seq<Edit>): (r: Files)
    requires Readable(files, edits)
    ensures r.Keys == files.Keys
  {
    if edits == [] then files
    else
      WriteOne(WriteAll(files, edits[..|edits| - 1]), edits[|edits| - 1])
  }

  function OrientedAll(edits: seq<Edit>, reverse: bool): seq<Edit> {
    seq(|edits|, i requires 0 <= i < |edits| => Oriented(edits[i], reverse))
  }

  /** The failing edits, in order: a check wants all applied, the other modes none invalid. */
  predicate RejectsExactly(files: Files, edits: seq<Edit>, mode: Mode, rejected: seq<nat>)
    requires Readable(files, edits)
  {
    && (forall i, j :: 0 <= i < j < |rejected| ==> rejected[i] < rejected[j])
    && (forall j :: j in rejected ==> j < |edits|)
    && (mode == Check ==> forall i :: 0 <= i < |edits| ==> (i in rejected <==> StateIn(files, edits[i]) != Applied))
    && (mode != Check ==> forall i :: 0 <= i < |edits| ==> (i in rejected <==> StateIn(files, edits[i]) == Invalid))
  }

  /** How far the classifying loop has come. */
  ghost predicate Classified(files: Files, edits: seq<Edit>, mode: Mode, rejected: seq<nat>, planned: seq<Edit>) {
    && Readable(files, edits)
    && RejectsExactly(files, edits, mode, rejected)
    && planned == if mode == Check then [] else Planned(files, edits)
  }

  lemma ClassifiedStep(files: Files, edits: seq<Edit>, e: Edit, mode: Mode, rejected: seq<nat>, planned: seq<Edit>)
    requires Classified(files, edits, mode, rejected, planned) && e.file in files
    ensures var state := StateIn(files, e);
      Classified(files, edits + [e], mode,
        if state == Invalid || (mode == Check && state == Pending) then rejected + [|edits|] else rejected,
        if mode != Check && state == Pending then planned + [e] else planned)
  {
    var all := edits + [e];
    assert all[..|all| - 1] == edits;
    assert forall i :: 0 <= i < |edits| ==> all[i] == edits[i];
    assert forall i :: 0 <= i < |rejected| ==> rejected[i] in rejected;
    forall i: nat
      ensures i in rejected + [|edits|] <==> i in rejected || i == |edits|
    {
      InSnoc(rejected, |edits|, i);
    }
  }

  lemma ClassifiedTake(files: Files, all: seq<Edit>, i: nat, mode: Mode, rejected: seq<nat>, planned: seq<Edit>)
    requires i < |all| && Classified(files, all[..i], mode, rejected, planned) && all[i].file in files
    ensures var state := StateIn(files, all[i]);
      Classified(files, all[..i + 1], mode,
        if state == Invalid || (mode == Check && state == Pending) then rejected + [i] else rejected,
        if mode != Check && state == Pending then planned + [all[i]] else planned)
  {
    ClassifiedStep(files, all[..i], all[i], mode, rejected, planned);
    TakeNext(all, i);
  }

  lemma RejectsNone(files: Files, edits: seq<Edit>, mode: Mode, rejected: seq<nat>)
    requires Readable(files, edits) && RejectsExactly(files, edits, mode, rejected)
    ensures rejected == [] <==> if mode == Check then AllIn(files, edits, Applied) else NoneIn(files, edits, Invalid)
  {
    if rejected != [] {
      var k := rejected[0];
      assert k in rejected;
      assert StateIn(files, edits[k]) != Applied && (mode != Check ==> StateIn(files, edits[k]) == Invalid);
    } else {
      forall i | 0 <= i < |edits|
        ensures if mode == Check then StateIn(files, edits[i]) == Applied else StateIn(files, edits[i]) != Invalid
      {
        assert i !in rejected;
      }
    }
  }

  lemma WriteAllSnoc(files: Files, edits: seq<Edit>, e: Edit)
    requires Readable(files, edits) && e.file in files
    ensures Readable(files, edits + [e])
    ensures WriteAll(files, edits + [e]) == WriteOne(WriteAll(files, edits), e)
  {
    assert (edits + [e])[..|edits + [e]| - 1] == edits;
  }

  /** What the outcome says about the files and the oriented edits: the first file that cannot be read
      stops everything; a check is done iff all edits are applied, another run iff none is invalid. */
  ghost predicate Decides(files: Files, edits: seq<Edit>, mode: Mode, outcome: Outcome) {
    && (outcome.Unreadable? ==> FirstUnreadable(files, edits, outcome.file))
    && (outcome.Rejected? ==> Readable(files, edits) && RejectsExactly(files, edits, mode, outcome.edits))
    && (mode == Check ==> (outcome.Done? <==> Readable(files, edits) && AllIn(files, edits, Applied)))
    && (mode != Check ==> (outcome.Done? <==> Readable(files, edits) && NoneIn(files, edits, Invalid)))
  }

  ghost predicate FirstUnreadable(files: Files, edits: seq<Edit>, file: string) {
    exists i :: 0 <= i < |edits| && edits[i].file == file && file !in files && Readable(files, edits[..i])
  }

  predicate IsPending(files: Files, e: Edit) {
    e.file in files && StateIn(files, e) == Pending
  }

  lemma AllClassified(files: Files, edits: seq<Edit>, mode: Mode, rejected: seq<nat>, planned: seq<Edit>)
    requires Classified(files, edits, mode, rejected, planned)
    ensures Decides(files, edits, mode, if rejected != [] then Rejected(rejected) else Done)
    ensures mode != Check ==> planned == Planned(files, edits)
  {
    RejectsNone(files, edits, mode, rejected);
  }

  /** The plan is exactly the pending edits, in their order. */
  lemma {:induction false} PlannedSelects(files: Files, edits: seq<Edit>)
    requires Readable(files, edits)
    ensures Selects(edits, e => IsPending(files, e), Planned(files, edits))
  {
    var p := e => IsPending(files, e);
    if edits == [] {
      SelectsNone(p);
    } else {
      var front, last := edits[..|edits| - 1], edits[|edits| - 1];
      PlannedSelects(files, front);
      SelectsSnoc(front, last, p, Planned(files, front));
      assert front + [last] == edits;
    }
  }

  /** A forward run takes the edits as listed, a reverse run with the forms exchanged. */
  lemma OrientedIs(edits: seq<Edit>)
    ensures OrientedAll(edits, false) == edits
    ensures forall i :: 0 <= i < |edits| ==>
      OrientedAll(edits, true)[i] == Edit(edits[i].file, edits[i].replace, edits[i].find, edits[i].wanted)
  {
  }

  class WorkingTree {
    var files: Files

    constructor (files: Files)
      ensures this.files == files
    {
      this.files := files;
    }

    /** The exact-edit part of `main`: every edit is classified before any is
        written, and one failure means that nothing is written. */
    method Run(edits: seq<Edit>, mode: Mode, reverse: bool) returns (outcome: Outcome)
      modifies this
      ensures Decides(old(files), OrientedAll(edits, reverse), mode, outcome)
      ensures files == if outcome.Done? && mode == Write
                       then WriteAll(old(files), Planned(old(files), OrientedAll(edits, reverse)))
                       else old(files)
    {
      var planned: seq<Edit>;
      outcome, planned := Classify(edits, mode, reverse);
      if outcome.Done? && mode == Write {
        WritePlanned(planned);
      }
    }

    method Classify(edits: seq<Edit>, mode: Mode, reverse: bool) returns (outcome: Outcome, planned: seq<Edit>)
      ensures Decides(files, OrientedAll(edits, reverse), mode, outcome)
      ensures outcome.Done? && mode != Check ==> planned == Planned(files, OrientedAll(edits, reverse))
    {
      planned := [];
      var rejected: seq<nat> := [];
      ghost var all := OrientedAll(edits, reverse);
      for i := 0 to |edits|
        invariant Classified(files, all[..i], mode, rejected, planned)
      {
        var e := Oriented(edits[i], reverse);
        assert all[i] == e;
        if e.file !in files {
          assert FirstUnreadable(files, all, e.file);
          return Unreadable(e.file), [];
        }
        ClassifiedTake(files, all, i, mode, rejected, planned);
        var state := State(files[e.file], e.find, e.replace, e.wanted);
        if state == Invalid {
          rejected := rejected + [i];
        } else if mode == Check {
          if state != Applied {
            rejected := rejected + [i];
          }
        } else if state == Pending {
          planned := planned + [e];
        }
      }
      assert all[..|edits|] == all;
      outcome := if rejected != [] then Rejected(rejected) else Done;
      AllClassified(files, all, mode, rejected, planned);
    }

    method WritePlanned(planned: seq<Edit>)
      requires Readable(files, planned)
      modifies this
      ensures files == WriteAll(old(files), planned)
    {
      for i := 0 to |planned|
        invariant Readable(old(files), planned[..i])
        invariant files == WriteAll(old(files), planned[..i])
      {
        var e := planned[i];
        WriteAllSnoc(old(files), planned[..i], e);
        TakeNext(planned, i);
        files := files[e.file := Join(Split(files[e.file], e.find), e.replace)];
      }
      assert planned[..|planned|] == planned;
    }
  }

  predicate HasForms(e: Edit) {
    e.find != "" && e.replace != ""
  }

  predicate AllHaveForms(edits: seq<Edit>) {
    forall i :: 0 <= i < |edits| ==> HasForms(edits[i])
  }

  predicate AllReversible(files: Files, edits: seq<Edit>)
    requires Readable(files, edits) && AllHaveForms(edits)
  {
    forall i :: 0 <= i < |edits| ==> Reversible(files[edits[i].file], edits[i].find, edits[i].replace)
  }

  /** Writing the edit lands it, and the swapped edit takes the files back. */
  predicate Returns(files: Files, e: Edit)
    requires e.file in files
  {
    var written := WriteOne(files, e);
    StateIn(written, e) == Applied && WriteOne(written, Oriented(e, true)) == files
  }

  predicate AllReturn(files: Files, edits: seq<Edit>)
    requires Readable(files, edits)
  {
    forall i :: 0 <= i < |edits| ==> Returns(files, edits[i])
  }

  /** The edits concern different files, or forms that are apart. */
  predicate Independent(a: Edit, b: Edit) {
    a.file != b.file || FormsApart(a.find, a.replace, b.find, b.replace)
  }

  predicate AllIndependent(edits: seq<Edit>) {
    forall i, j :: 0 <= i < j < |edits| ==> Independent(edits[i], edits[j])
  }

  lemma AllInSnoc(files: Files, edits: seq<Edit>, e: Edit, state: EditState)
    requires Readable(files, edits + [e])
    ensures Readable(files, edits) && e.file in files
    ensures AllIn(files, edits + [e], state) <==> AllIn(files, edits, state) && StateIn(files, e) == state
  {
    var all := edits + [e];
    assert forall i :: 0 <= i < |edits| ==> all[i] == edits[i];
    assert all[|edits|] == e;
    if AllIn(files, all, state) {
      forall i | 0 <= i < |edits|
        ensures StateIn(files, edits[i]) == state
      {
        assert StateIn(files, all[i]) == state;
      }
    }
  }

  lemma {:induction false} AllPendingArePlanned(files: Files, edits: seq<Edit>)
    requires Readable(files, edits) && AllIn(files, edits, Pending)
    ensures Planned(files, edits) == edits
  {
    if edits != [] {
      var front, last := edits[..|edits| - 1], edits[|edits| - 1];
      SplitLast(edits);
      AllInSnoc(files, front, last, Pending);
      AllPendingArePlanned(files, front);
      PlannedSnoc(files, front, last);
    }
  }

  lemma PlannedSnoc(files: Files, edits: seq<Edit>, e: Edit)
    requires Readable(files, edits) && e.file in files
    ensures Readable(files, edits + [e])
    ensures Planned(files, edits + [e]) == Planned(files, edits) + if StateIn(files, e) == Pending then [e] else []
  {
    assert (edits + [e])[..|edits|] == edits;
  }

  /** An edit does not change the state of an independent one. */
  lemma StateSurvives(files: Files, a: Edit, b: Edit)
    requires a.file in files && b.file in files && Independent(a, b) && HasForms(a) && HasForms(b)
    ensures StateIn(WriteOne(files, a), b) == StateIn(files, b)
  {
    if a.file == b.file {
      StateIsKept(files[a.file], a.find, a.replace, b.find, b.replace, b.wanted);
    }
  }

  lemma {:induction false} StateSurvivesAll(files: Files, edits: seq<Edit>, b: Edit)
    requires Readable(files, edits) && AllHaveForms(edits) && b.file in files && HasForms(b)
    requires forall i :: 0 <= i < |edits| ==> Independent(edits[i], b)
    ensures StateIn(WriteAll(files, edits), b) == StateIn(files, b)
  {
    if edits != [] {
      var front, last := edits[..|edits| - 1], edits[|edits| - 1];
      StateSurvivesAll(files, front, b);
      StateSurvives(WriteAll(files, front), last, b);
    }
  }

  lemma IndependentBothWays(a: Edit, b: Edit)
    ensures Independent(a, b) <==> Independent(b, a)
    ensures Independent(a, b) <==> Independent(Oriented(a, true), b)
    ensures Independent(a, b) <==> Independent(a, Oriented(b, true))
  {
  }

  /** Independent edits commute. */
  lemma WritesCommute(files: Files, a: Edit, b: Edit)
    requires a.file in files && b.file in files && Independent(a, b) && a.find != "" && b.find != ""
    ensures WriteOne(WriteOne(files, a), b) == WriteOne(WriteOne(files, b), a)
  {
    if a.file == b.file {
      EditsCommute(files[a.file], a.find, a.replace, b.find, b.replace);
    }
  }

  /** An edit that returns does so after an independent one as well. */
  lemma ReturnsSurvives(files: Files, a: Edit, b: Edit)
    requires a.file in files && b.file in files && Independent(a, b) && HasForms(a) && HasForms(b)
    requires Returns(files, b)
    ensures Returns(WriteOne(files, a), b)
  {
    IndependentBothWays(a, b);
    WritesCommute(files, a, b);
    StateSurvives(WriteOne(files, b), a, b);
    WritesCommute(WriteOne(files, b), a, Oriented(b, true));
  }

  lemma {:induction false} ReturnsSurvivesAll(files: Files, edits: seq<Edit>, b: Edit)
    requires Readable(files, edits) && AllHaveForms(edits) && b.file in files && HasForms(b)
    requires forall i :: 0 <= i < |edits| ==> Independent(edits[i], b)
    requires Returns(files, b)
    ensures Returns(WriteAll(files, edits), b)
  {
    if edits != [] {
      var front, last := edits[..|edits| - 1], edits[|edits| - 1];
      ReturnsSurvivesAll(files, front, b);
      ReturnsSurvives(WriteAll(files, front), last, b);
    }
  }

  /** All edits of an independent plan land, if each alone does. */
  lemma {:induction false} PlanLands(files: Files, edits: seq<Edit>)
    requires Readable(files, edits) && AllIndependent(edits) && AllHaveForms(edits) && AllReturn(files, edits)
    ensures AllIn(WriteAll(files, edits), edits, Applied)
  {
    if edits != [] {
      var front, last := edits[..|edits| - 1], edits[|edits| - 1];
      SplitLast(edits);
      PlanLands(files, front);
      ReturnsSurvivesAll(files, front, last);
      var before := WriteAll(files, front);
      StatesSurvive(before, last, front);
      AllInSnoc(WriteOne(before, last), front, last, Applied);
    }
  }

  lemma StatesSurvive(files: Files, a: Edit, edits: seq<Edit>)
    requires a.file in files && HasForms(a) && Readable(files, edits) && AllHaveForms(edits)
    requires forall i :: 0 <= i < |edits| ==> Independent(edits[i], a)
    requires AllIn(files, edits, Applied)
    ensures AllIn(WriteOne(files, a), edits, Applied)
  {
    forall i | 0 <= i < |edits|
      ensures StateIn(WriteOne(files, a), edits[i]) == Applied
    {
      IndependentBothWays(edits[i], a);
      StateSurvives(files, a, edits[i]);
      assert StateIn(files, edits[i]) == Applied;
    }
  }

  lemma {:induction false} WriteMovesBehind(files: Files, undo: seq<Edit>, b: Edit)
    requires Readable(files, undo) && b.file in files && b.find != ""
    requires forall i :: 0 <= i < |undo| ==> undo[i].find != "" && Independent(undo[i], b)
    ensures WriteAll(WriteOne(files, b), undo) == WriteOne(WriteAll(files, undo), b)
  {
    if undo != [] {
      var front, last := undo[..|undo| - 1], undo[|undo| - 1];
      WriteMovesBehind(files, front, b);
      WritesCommute(WriteAll(files, front), last, b);
    }
  }

  lemma OrientedSnoc(edits: seq<Edit>, e: Edit, reverse: bool)
    ensures OrientedAll(edits + [e], reverse) == OrientedAll(edits, reverse) + [Oriented(e, reverse)]
  {
  }

  lemma OrientedFiles(files: Files, edits: seq<Edit>)
    requires Readable(files, edits)
    ensures Readable(files, OrientedAll(edits, true))
  {
  }

  lemma UndoesBehind(files: Files, edits: seq<Edit>, b: Edit)
    requires Readable(files, edits) && AllHaveForms(edits) && b.file in files && HasForms(b)
    requires forall i :: 0 <= i < |edits| ==> Independent(edits[i], b)
    ensures Readable(files, OrientedAll(edits, true))
    ensures WriteAll(WriteOne(files, b), OrientedAll(edits, true))
      == WriteOne(WriteAll(files, OrientedAll(edits, true)), b)
  {
    var undo := OrientedAll(edits, true);
    forall i | 0 <= i < |undo|
      ensures undo[i].find != "" && Independent(undo[i], b)
    {
      IndependentBothWays(edits[i], b);
    }
    WriteMovesBehind(files, undo, b);
  }

  /** Undoing an independent plan, in its own order, restores every file, if each edit alone returns. */
  lemma {:induction false} PlanIsUndone(files: Files, edits: seq<Edit>)
    requires Readable(files, edits) && AllIndependent(edits) && AllHaveForms(edits) && AllReturn(files, edits)
    ensures Readable(files, OrientedAll(edits, true))
    ensures WriteAll(WriteAll(files, edits), OrientedAll(edits, true)) == files
  {
    OrientedFiles(files, edits);
    if edits != [] {
      var front, last := edits[..|edits| - 1], edits[|edits| - 1];
      SplitLast(edits);
      PlanIsUndone(files, front);
      UndoesBehind(WriteAll(files, front), front, last);
      OrientedSnoc(front, last, true);
      WriteAllSnoc(WriteAll(files, edits), OrientedAll(front, true), Oriented(last, true));
      assert Returns(files, last);
    }
  }

  lemma LandedArePending(files: Files, edits: seq<Edit>)
    requires Readable(files, edits) && AllIn(files, edits, Applied)
    requires forall i :: 0 <= i < |edits| ==> edits[i].wanted >= 1 && edits[i].find != edits[i].replace
    ensures Readable(files, OrientedAll(edits, true)) && AllIn(files, OrientedAll(edits, true), Pending)
  {
    var swapped := OrientedAll(edits, true);
    forall i | 0 <= i < |edits|
      ensures StateIn(files, swapped[i]) == Pending
    {
      assert StateIn(files, edits[i]) == Applied;
      SwappedForms(files[edits[i].file], edits[i].find, edits[i].replace, edits[i].wanted);
    }
  }

  /** A plan of pending, independent edits whose gaps allow it lands: afterwards every
      edit is applied, and the reverse run takes every file back. */
  lemma PlanAppliesAndUndoes(files: Files, edits: seq<Edit>)
    requires Readable(files, edits) && AllIndependent(edits) && AllHaveForms(edits)
    requires AllIn(files, edits, Pending) && AllReversible(files, edits)
    ensures Readable(files, OrientedAll(edits, true))
    ensures var written, swapped := WriteAll(files, Planned(files, edits)), OrientedAll(edits, true);
            && AllIn(written, edits, Applied)
            && WriteAll(written, Planned(written, swapped)) == files
  {
    AllPendingArePlanned(files, edits);
    forall i | 0 <= i < |edits|
      ensures Returns(files, edits[i]) && edits[i].wanted >= 1 && edits[i].find != edits[i].replace
    {
      var e := edits[i];
      assert StateIn(files, e) == Pending && Reversible(files[e.file], e.find, e.replace);
      PendingIsCounted(files[e.file], e.find, e.replace, e.wanted);
      LandsAndReturnsIff(files[e.file], e.find, e.replace, e.wanted);
    }
    PlanLands(files, edits);
    LandedArePending(WriteAll(files, edits), edits);
    AllPendingArePlanned(WriteAll(files, edits), OrientedAll(edits, true));
    PlanIsUndone(files, edits);
  }
}
