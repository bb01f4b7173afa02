/** What the comment ranges of scripts/markdown.ts have to do with the comments of
    the source: `htmlCommentRanges`.

    The ranges are computed from the value of a parsed HTML node and then placed
    at the node's offset. The value is not the source text of the node: parsing
    drops what indents or quotes the later lines inside a list item or a quotation. */
module CommentSource {
  import opened CommentMask
  import opened Substrings
  import Text

  /* ---- The comments that the source has ---- */

  /** A comment of source[..stop]: it begins with an opening mark and ends behind the
      first closing mark after that, or at `stop` if there is none. */
  predicate IsComment(source: string, stop: nat, c: Range)
    requires stop <= |source|
  {
    OccursAt(source[..stop], OPENING, c.start) && c.end == CommentEnd(source[..stop], c.start)
  }

  /** The comments between two offsets of the source. */
  function SourceComments(source: string, offset: nat, stop: nat): seq<Range>
    requires offset <= stop <= |source|
  {
    Shift(CommentsFrom(source[offset..stop], 0), offset)
  }

  lemma OccursInRest(text: string, offset: nat, w: string, p: nat)
    requires offset <= |text|
    ensures OccursAt(text[offset..], w, p) <==> OccursAt(text, w, offset + p)
  {
    if offset + p + |w| <= |text| {
      assert text[offset..][p..p + |w|] == text[offset + p..offset + p + |w|];
    }
  }

  lemma IndexInRest(text: string, offset: nat, w: string, from: nat)
    requires offset + from <= |text|
    ensures var i := IndexOf(text[offset..], w, from);
      IndexOf(text, w, offset + from) == if i < 0 then -1 else offset + i
  {
    forall p | 0 <= p <= |text| - offset
      ensures OccursAt(text[offset..], w, p) <==> OccursAt(text, w, offset + p)
    {
      OccursInRest(text, offset, w, p);
    }
    var i := IndexOf(text[offset..], w, from);
    forall q | offset + from <= q <= |text| && (i < 0 || q < offset + i)
      ensures !OccursAt(text, w, q)
    {
      assert !OccursAt(text[offset..], w, q - offset);
    }
  }

  lemma CommentOfPart(source: string, offset: nat, stop: nat, start: nat)
    requires offset <= stop <= |source| && OccursAt(source[offset..stop], OPENING, start)
    ensures IsComment(source, stop, Range(offset + start, offset + CommentEnd(source[offset..stop], start)))
  {
    var text := source[..stop];
    assert text[offset..] == source[offset..stop];
    OccursInRest(text, offset, OPENING, start);
    IndexInRest(text, offset, CLOSING, start + |OPENING|);
  }

  lemma {:induction false} CommentsOfPart(source: string, offset: nat, stop: nat, cursor: nat, c: Range)
    requires offset <= stop <= |source| && cursor <= stop - offset
    requires c in CommentsFrom(source[offset..stop], cursor)
    ensures IsComment(source, stop, Range(offset + c.start, offset + c.end))
    decreases stop - offset - cursor
  {
    var raw := source[offset..stop];
    var start := IndexOf(raw, OPENING, cursor);
    CommentOfPart(source, offset, stop, start);
    if c != Range(start, CommentEnd(raw, start)) {
      CommentsOfPart(source, offset, stop, CommentEnd(raw, start), c);
    }
  }

  lemma {:induction false} ShiftMember(rs: seq<Range>, offset: nat, c: Range)
    ensures c in Shift(rs, offset) <==>
      c.start >= offset && c.end >= offset && Range(c.start - offset, c.end - offset) in rs
  {
    if rs != [] {
      var front, last := rs[..|rs| - 1], rs[|rs| - 1];
      assert rs == front + [last];
      ShiftMember(front, offset, c);
    }
  }

  lemma SourceCommentsAreComments(source: string, offset: nat, stop: nat, c: Range)
    requires offset <= stop <= |source| && c in SourceComments(source, offset, stop)
    ensures IsComment(source, stop, c)
  {
    ShiftMember(CommentsFrom(source[offset..stop], 0), offset, c);
    var own := Range(c.start - offset, c.end - offset);
    CommentsOfPart(source, offset, stop, 0, own);
    assert c == Range(offset + own.start, offset + own.end);
  }

  /** The node's value is the source text at its offset. */
  predicate Verbatim(source: string, node: Html) {
    node.offset + |node.value| <= |source| && source[node.offset..node.offset + |node.value|] == node.value
  }

  /** Then every range computed for the node is a comment of the source. */
  lemma VerbatimRangesAreComments(source: string, node: Html, c: Range)
    requires Verbatim(source, node) && c in Shift(CommentsFrom(node.value, 0), node.offset)
    ensures IsComment(source, node.offset + |node.value|, c)
  {
    SourceCommentsAreComments(source, node.offset, node.offset + |node.value|, c);
  }

  /* ---- Values that lost the prefixes of their lines ---- */

  /** Behind a line end, blanks and quotation marks may be dropped. */
  predicate InPrefix(raw: string, kept: seq<nat>, p: nat)
    requires p < |raw|
  {
    && (raw[p] == ' ' || raw[p] == '\t' || raw[p] == '>')
    && p > 0 && (raw[p - 1] == '\n' || (p - 1) !in kept)
  }

  /** The value consists of the characters of `raw` at the kept places. */
  ghost predicate Stripped(raw: string, kept: seq<nat>, value: string) {
    && |kept| == |value|
    && (forall j :: 0 <= j < |kept| ==> kept[j] < |raw| && raw[kept[j]] == value[j])
    && (forall i, j :: 0 <= i < j < |kept| ==> kept[i] < kept[j])
    && (forall p: nat :: p < |raw| ==> p in kept || InPrefix(raw, kept, p))
  }

  /** Where a place of the value is in the raw text. */
  function Place(raw: string, kept: seq<nat>, j: nat): nat
    requires j <= |kept|
  {
    if j == |kept| then |raw| else kept[j]
  }

  lemma PlacesAscend(raw: string, kept: seq<nat>, value: string, i: nat, j: nat)
    requires Stripped(raw, kept, value) && i < j <= |kept|
    ensures Place(raw, kept, i) < Place(raw, kept, j) <= |raw|
  {
  }

  /** No character is dropped within a line. */
  lemma NextPlace(raw: string, kept: seq<nat>, value: string, j: nat)
    requires Stripped(raw, kept, value) && j < |value| && value[j] != '\n'
    ensures Place(raw, kept, j + 1) == Place(raw, kept, j) + 1
  {
    var p := kept[j] + 1;
    PlacesAscend(raw, kept, value, j, j + 1);
    if p < |raw| {
      assert p - 1 in kept;
      assert !InPrefix(raw, kept, p);
      var i :| 0 <= i < |kept| && kept[i] == p;
      if i > j + 1 {
        assert kept[j] < kept[j + 1] < kept[i];
      }
      assert i > j;
    }
  }

  /** A word that a dropped prefix cannot hold the beginning of, and that no line end interrupts. */
  predicate Solid(w: string) {
    && w != "" && w[0] != ' ' && w[0] != '\t' && w[0] != '>'
    && forall k :: 0 <= k < |w| ==> w[k] != '\n'
  }

  lemma {:induction false} RunOfValue(raw: string, kept: seq<nat>, value: string, i: nat, k: nat)
    requires Stripped(raw, kept, value) && i + k <= |value|
    requires forall m :: i <= m < i + k ==> value[m] != '\n'
    ensures Place(raw, kept, i + k) == Place(raw, kept, i) + k
  {
    if k > 0 {
      RunOfValue(raw, kept, value, i, k - 1);
      NextPlace(raw, kept, value, i + k - 1);
    }
  }

  lemma {:induction false} RunOfRaw(raw: string, kept: seq<nat>, value: string, i: nat, k: nat)
    requires Stripped(raw, kept, value) && i < |value| && kept[i] + k <= |raw|
    requires forall m :: kept[i] <= m < kept[i] + k ==> raw[m] != '\n'
    ensures i + k <= |value| && Place(raw, kept, i + k) == kept[i] + k
  {
    if k > 0 {
      RunOfRaw(raw, kept, value, i, k - 1);
      assert raw[kept[i] + (k - 1)] != '\n';
      NextPlace(raw, kept, value, i + k - 1);
    }
  }

  /** A mark of the value is a mark of the raw text, and the other way round. */
  lemma MarkStays(raw: string, kept: seq<nat>, value: string, w: string, i: nat)
    requires Stripped(raw, kept, value) && Solid(w) && i < |value|
    ensures OccursAt(value, w, i) <==> OccursAt(raw, w, kept[i])
    ensures OccursAt(value, w, i) ==> Place(raw, kept, i + |w|) == kept[i] + |w|
  {
    if OccursAt(value, w, i) {
      MarkInRaw(raw, kept, value, w, i);
    }
    if OccursAt(raw, w, kept[i]) {
      MarkInValue(raw, kept, value, w, i);
    }
  }

  lemma MarkInRaw(raw: string, kept: seq<nat>, value: string, w: string, i: nat)
    requires Stripped(raw, kept, value) && Solid(w) && i < |value| && OccursAt(value, w, i)
    ensures OccursAt(raw, w, kept[i]) && Place(raw, kept, i + |w|) == kept[i] + |w|
  {
    forall m | i <= m < i + |w|
      ensures value[m] == w[m - i] && value[m] != '\n'
    {
      assert value[i..i + |w|][m - i] == value[m];
    }
    forall k | 0 <= k < |w|
      ensures kept[i] + k < |raw| && raw[kept[i] + k] == w[k]
    {
      RunOfValue(raw, kept, value, i, k);
    }
    RunOfValue(raw, kept, value, i, |w|);
    assert raw[kept[i]..kept[i] + |w|] == w;
  }

  lemma MarkInValue(raw: string, kept: seq<nat>, value: string, w: string, i: nat)
    requires Stripped(raw, kept, value) && Solid(w) && i < |value| && OccursAt(raw, w, kept[i])
    ensures OccursAt(value, w, i)
  {
    var p := kept[i];
    forall m | p <= m < p + |w|
      ensures raw[m] == w[m - p] && raw[m] != '\n'
    {
      assert raw[p..p + |w|][m - p] == raw[m];
    }
    RunOfRaw(raw, kept, value, i, |w|);
    forall k | 0 <= k < |w|
      ensures value[i + k] == w[k]
    {
      RunOfRaw(raw, kept, value, i, k);
      assert raw[p + k] == w[k];
    }
    assert value[i..i + |w|] == w;
  }

  /** A mark of the raw text begins at a kept place. */
  lemma MarkIsKept(raw: string, kept: seq<nat>, value: string, w: string, p: nat) returns (i: nat)
    requires Stripped(raw, kept, value) && Solid(w) && OccursAt(raw, w, p)
    ensures i < |value| && kept[i] == p
  {
    assert raw[p..p + |w|][0] == raw[p];
    assert !InPrefix(raw, kept, p);
    i :| 0 <= i < |kept| && kept[i] == p;
  }

  /** The next mark of the value is the next mark of the raw text. */
  lemma NextMark(raw: string, kept: seq<nat>, value: string, w: string, c: nat)
    requires Stripped(raw, kept, value) && Solid(w) && c <= |value| && Place(raw, kept, c) <= |raw|
    ensures var i := IndexOf(value, w, c);
      IndexOf(raw, w, Place(raw, kept, c)) == if i < 0 then -1 else Place(raw, kept, i)
  {
    var i, from := IndexOf(value, w, c), Place(raw, kept, c);
    forall p | from <= p <= |raw| && (i < 0 || p < Place(raw, kept, i))
      ensures !OccursAt(raw, w, p)
    {
      if OccursAt(raw, w, p) {
        var j := MarkIsKept(raw, kept, value, w, p);
        MarkStays(raw, kept, value, w, j);
        if j < c {
          PlacesAscend(raw, kept, value, j, c);
        }
      }
    }
    if i >= 0 {
      MarkStays(raw, kept, value, w, i);
      if i > c {
        PlacesAscend(raw, kept, value, c, i);
      }
    }
  }

  lemma MarksAreSolid()
    ensures Solid(OPENING) && Solid(CLOSING)
  {
  }

  function Placed(raw: string, kept: seq<nat>, rs: seq<Range>): seq<Range>
    requires forall r :: r in rs ==> r.start <= |kept| && r.end <= |kept|
  {
    if rs == [] then []
    else [Range(Place(raw, kept, rs[0].start), Place(raw, kept, rs[0].end))] + Placed(raw, kept, rs[1..])
  }

  lemma {:induction false} CommentsFit(value: string, cursor: nat, c: Range)
    requires cursor <= |value| && c in CommentsFrom(value, cursor)
    ensures c.start < c.end <= |value|
    decreases |value| - cursor
  {
    var start := IndexOf(value, OPENING, cursor);
    if c != Range(start, CommentEnd(value, start)) {
      CommentsFit(value, CommentEnd(value, start), c);
    }
  }

  /** The end of a comment of the value is the end of that comment in the raw text. */
  lemma EndStays(raw: string, kept: seq<nat>, value: string, start: nat)
    requires Stripped(raw, kept, value) && OccursAt(value, OPENING, start)
    ensures OccursAt(raw, OPENING, Place(raw, kept, start))
    ensures CommentEnd(raw, Place(raw, kept, start)) == Place(raw, kept, CommentEnd(value, start))
  {
    MarksAreSolid();
    MarkStays(raw, kept, value, OPENING, start);
    NextMark(raw, kept, value, CLOSING, start + |OPENING|);
    var close := IndexOf(value, CLOSING, start + |OPENING|);
    if close >= 0 {
      MarkStays(raw, kept, value, CLOSING, close);
    }
  }

  /** The comments of the source text of a node are the comments of its value, put in their places. */
  lemma {:induction false} CommentsStay(raw: string, kept: seq<nat>, value: string, cursor: nat)
    requires Stripped(raw, kept, value) && cursor <= |value|
    ensures Place(raw, kept, cursor) <= |raw|
    ensures forall r :: r in CommentsFrom(value, cursor) ==> r.start <= |kept| && r.end <= |kept|
    ensures CommentsFrom(raw, Place(raw, kept, cursor)) == Placed(raw, kept, CommentsFrom(value, cursor))
    decreases |value| - cursor
  {
    MarksAreSolid();
    forall r | r in CommentsFrom(value, cursor)
      ensures r.start <= |kept| && r.end <= |kept|
    {
      CommentsFit(value, cursor, r);
    }
    NextMark(raw, kept, value, OPENING, cursor);
    var start := IndexOf(value, OPENING, cursor);
    if start >= 0 {
      EndStays(raw, kept, value, start);
      CommentsStay(raw, kept, value, CommentEnd(value, start));
    }
  }

  /* ---- When the computed ranges are right ---- */

  /** Every place before this one is kept. */
  predicate NothingDropped(kept: seq<nat>, before: nat) {
    forall p: nat :: p < before ==> p in kept
  }

  lemma NoneBetween(raw: string, kept: seq<nat>, value: string, j: nat, p: nat)
    requires Stripped(raw, kept, value) && j < |value| && kept[j] < p < Place(raw, kept, j + 1)
    ensures p !in kept
  {
    forall i | 0 <= i < |kept|
      ensures kept[i] != p
    {
      assert i < j ==> kept[i] < kept[j];
      assert j + 1 < i ==> kept[j + 1] < kept[i];
    }
  }

  /** Up to the first dropped place, a place of the value is the same place of the raw text. */
  lemma {:induction false} PlaceIsOwn(raw: string, kept: seq<nat>, value: string, j: nat)
    requires Stripped(raw, kept, value) && j <= |value|
    ensures Place(raw, kept, j) >= j
    ensures Place(raw, kept, j) == j <==> NothingDropped(kept, Place(raw, kept, j))
  {
    var q := Place(raw, kept, j);
    if j > 0 {
      PlaceIsOwn(raw, kept, value, j - 1);
      PlacesAscend(raw, kept, value, j - 1, j);
      if kept[j - 1] + 1 < q {
        NoneBetween(raw, kept, value, j - 1, kept[j - 1] + 1);
      }
      assert kept[j - 1] in kept;
    } else if q > 0 {
      NoneBefore(raw, kept, value);
    }
  }

  lemma NoneBefore(raw: string, kept: seq<nat>, value: string)
    requires Stripped(raw, kept, value) && Place(raw, kept, 0) > 0
    ensures 0 !in kept
  {
    forall i | 0 <= i < |kept|
      ensures kept[i] != 0
    {
      assert 0 < i ==> kept[0] < kept[i];
    }
  }

  lemma {:induction false} LaterComment(value: string, cursor: nat, c: Range)
    requires cursor <= |value| && c in CommentsFrom(value, cursor)
    ensures cursor <= c.start
    decreases |value| - cursor
  {
    var start := IndexOf(value, OPENING, cursor);
    if c != Range(start, CommentEnd(value, start)) {
      LaterComment(value, CommentEnd(value, start), c);
    }
  }

  lemma {:induction false} PlacedAt(raw: string, kept: seq<nat>, rs: seq<Range>)
    requires forall r :: r in rs ==> r.start <= |kept| && r.end <= |kept|
    ensures |Placed(raw, kept, rs)| == |rs|
    ensures forall k :: 0 <= k < |rs| ==>
      Placed(raw, kept, rs)[k] == Range(Place(raw, kept, rs[k].start), Place(raw, kept, rs[k].end))
  {
    if rs != [] {
      PlacedAt(raw, kept, rs[1..]);
    }
  }

  lemma {:induction false} ShiftAt(rs: seq<Range>, offset: nat)
    ensures |Shift(rs, offset)| == |rs|
    ensures forall k :: 0 <= k < |rs| ==> Shift(rs, offset)[k] == Range(offset + rs[k].start, offset + rs[k].end)
  {
    if rs != [] {
      ShiftAt(rs[..|rs| - 1], offset);
    }
  }

  /** A range of the value is the same range of the raw text iff nothing is dropped before its end. */
  lemma RangeIsOwn(raw: string, kept: seq<nat>, value: string, c: Range)
    requires Stripped(raw, kept, value) && c.start < c.end <= |value|
    ensures c.start <= Place(raw, kept, c.start) < Place(raw, kept, c.end) && c.end <= Place(raw, kept, c.end)
    ensures Place(raw, kept, c.start) == c.start && Place(raw, kept, c.end) == c.end <==>
            NothingDropped(kept, Place(raw, kept, c.end))
  {
    PlaceIsOwn(raw, kept, value, c.start);
    PlaceIsOwn(raw, kept, value, c.end);
    PlacesAscend(raw, kept, value, c.start, c.end);
  }

  /** The ranges stay where they are iff nothing is dropped before the end of the last one. */
  lemma {:induction false} RangesAreOwn(raw: string, kept: seq<nat>, value: string, cursor: nat)
    requires Stripped(raw, kept, value) && cursor <= |value|
    requires forall r :: r in CommentsFrom(value, cursor) ==> r.start <= |kept| && r.end <= |kept|
    decreases |value| - cursor
    ensures var cs := CommentsFrom(value, cursor);
      Placed(raw, kept, cs) == cs <==> cs == [] || NothingDropped(kept, Place(raw, kept, cs[|cs| - 1].end))
  {
    var cs := CommentsFrom(value, cursor);
    if cs != [] {
      var rest := CommentsFrom(value, cs[0].end);
      assert cs == [cs[0]] + rest;
      CommentsFit(value, cursor, cs[0]);
      RangeIsOwn(raw, kept, value, cs[0]);
      RangesAreOwn(raw, kept, value, cs[0].end);
      if rest != [] {
        var last := rest[|rest| - 1];
        LaterComment(value, cs[0].end, last);
        CommentsFit(value, cs[0].end, last);
        PlacesAscend(raw, kept, value, cs[0].end, last.end);
        assert cs[|cs| - 1] == last;
      }
      ConsSame(Range(Place(raw, kept, cs[0].start), Place(raw, kept, cs[0].end)), Placed(raw, kept, rest), cs[0], rest);
    }
  }

  lemma ConsSame<T>(x: T, a: seq<T>, y: T, b: seq<T>)
    ensures [x] + a == [y] + b <==> x == y && a == b
  {
    if [x] + a == [y] + b {
      assert ([x] + a)[0] == x && ([y] + b)[0] == y;
      assert ([x] + a)[1..] == a && ([y] + b)[1..] == b;
    }
  }

  /** The same for all comments of a node's value. */
  lemma CommentsAreOwnIff(raw: string, kept: seq<nat>, value: string)
    requires Stripped(raw, kept, value)
    ensures var (cs, actual) := (CommentsFrom(value, 0), CommentsFrom(raw, 0));
      |cs| == |actual| && (cs == actual <==> cs == [] || NothingDropped(kept, actual[|actual| - 1].end))
  {
    FirstPlace(raw, kept, value);
    CommentsStay(raw, kept, value, 0);
    RangesAreOwn(raw, kept, value, 0);
    PlacedAt(raw, kept, CommentsFrom(value, 0));
  }

  /** None of them lies behind its place. */
  lemma CommentsAreNoLater(raw: string, kept: seq<nat>, value: string, k: nat)
    requires Stripped(raw, kept, value) && k < |CommentsFrom(value, 0)|
    ensures k < |CommentsFrom(raw, 0)|
    ensures CommentsFrom(value, 0)[k].start <= CommentsFrom(raw, 0)[k].start
    ensures CommentsFrom(value, 0)[k].end <= CommentsFrom(raw, 0)[k].end
  {
    var c := CommentsFrom(value, 0)[k];
    FirstPlace(raw, kept, value);
    CommentsStay(raw, kept, value, 0);
    PlacedAt(raw, kept, CommentsFrom(value, 0));
    CommentsFit(value, 0, c);
    RangeIsOwn(raw, kept, value, c);
  }

  lemma FirstPlace(raw: string, kept: seq<nat>, value: string)
    requires Stripped(raw, kept, value)
    ensures Place(raw, kept, 0) == 0
  {
    if Place(raw, kept, 0) > 0 {
      NoneBefore(raw, kept, value);
      assert false;
    }
  }

  /** As many ranges, and each begins and ends no later than its partner. */
  predicate NoLater(a: seq<Range>, b: seq<Range>) {
    |a| == |b| && forall k :: 0 <= k < |a| ==> a[k].start <= b[k].start && a[k].end <= b[k].end
  }

  /** The ranges computed for a node begin and end no later than the comments of its
      source text, and they are these comments iff nothing is dropped before the end of the last one. */
  lemma RangesAgreeIff(source: string, node: Html, stop: nat, kept: seq<nat>)
    requires node.offset <= stop <= |source| && Stripped(source[node.offset..stop], kept, node.value)
    ensures var (computed, actual) :=
      (Shift(CommentsFrom(node.value, 0), node.offset), SourceComments(source, node.offset, stop));
      && NoLater(computed, actual)
      && (computed == actual <==> actual == [] || NothingDropped(kept, actual[|actual| - 1].end - node.offset))
  {
    var raw := source[node.offset..stop];
    var cs, actual := CommentsFrom(node.value, 0), CommentsFrom(raw, 0);
    CommentsAreOwnIff(raw, kept, node.value);
    forall k | 0 <= k < |cs|
      ensures cs[k].start <= actual[k].start && cs[k].end <= actual[k].end
    {
      CommentsAreNoLater(raw, kept, node.value, k);
    }
    ShiftedCompare(cs, actual, node.offset);
  }

  lemma ShiftedCompare(a: seq<Range>, b: seq<Range>, offset: nat)
    requires NoLater(a, b)
    ensures NoLater(Shift(a, offset), Shift(b, offset)) && |Shift(b, offset)| == |b|
    ensures Shift(a, offset) == Shift(b, offset) <==> a == b
    ensures b != [] ==> Shift(b, offset)[|b| - 1].end == offset + b[|b| - 1].end
  {
    ShiftAt(a, offset);
    ShiftAt(b, offset);
    ShiftSame(a, b, offset);
  }

  lemma ShiftSame(a: seq<Range>, b: seq<Range>, offset: nat)
    ensures Shift(a, offset) == Shift(b, offset) <==> a == b
  {
    ShiftAt(a, offset);
    ShiftAt(b, offset);
    if Shift(a, offset) == Shift(b, offset) {
      forall k | 0 <= k < |a|
        ensures a[k] == b[k]
      {
        assert Shift(a, offset)[k] == Shift(b, offset)[k];
      }
    }
  }

  predicate AllVerbatim(source: string, nodes: seq<Html>) {
    forall k :: 0 <= k < |nodes| ==> Verbatim(source, nodes[k])
  }

  /** The range is a comment of one of the nodes. */
  predicate IsCommentOfOne(source: string, nodes: seq<Html>, c: Range) {
    exists k :: 0 <= k < |nodes| && IsCommentOf(source, nodes[k], c)
  }

  predicate IsCommentOf(source: string, node: Html, c: Range) {
    node.offset + |node.value| <= |source| && IsComment(source, node.offset + |node.value|, c)
  }

  predicate IsRangeOf(node: Html, c: Range) {
    c in Shift(CommentsFrom(node.value, 0), node.offset)
  }

  lemma {:induction false} RangeOfOne(nodes: seq<Html>, c: Range) returns (k: nat)
    requires c in AllComments(nodes)
    ensures k < |nodes| && IsRangeOf(nodes[k], c)
  {
    k := |nodes| - 1;
    if !IsRangeOf(nodes[k], c) {
      k := RangeOfOne(nodes[..k], c);
    }
  }

  /** When every node's value is the source at its offset, a computed range is a comment of the source. */
  lemma AllRangesAreComments(source: string, nodes: seq<Html>, c: Range)
    requires AllVerbatim(source, nodes) && c in AllComments(nodes)
    ensures IsCommentOfOne(source, nodes, c)
  {
    var k := RangeOfOne(nodes, c);
    VerbatimRangesAreComments(source, nodes[k], c);
    assert IsCommentOf(source, nodes[k], c);
  }

  /* ---- A comment in a list item ---- */

  lemma NoMark(text: string, w: string, p: nat)
    requires p < |text| && w != "" && text[p] != w[0]
    ensures !OccursAt(text, w, p)
  {
    if p + |w| <= |text| {
      assert text[p..p + |w|][0] == text[p];
    }
  }

  /** A text that consists of one comment and closes nothing before its end. */
  lemma OneComment(middle: string)
    requires '-' !in middle
    ensures var text := OPENING + middle + CLOSING; CommentsFrom(text, 0) == [Range(0, |text|)]
  {
    var text, close := OPENING + middle + CLOSING, |OPENING| + |middle|;
    assert text[0..|OPENING|] == OPENING && text[close..close + |CLOSING|] == CLOSING;
    forall p | |OPENING| <= p < close
      ensures !OccursAt(text, CLOSING, p)
    {
      assert text[p] == middle[p - |OPENING|];
      NoMark(text, CLOSING, p);
    }
    assert IndexOf(text, OPENING, 0) == 0 && CommentEnd(text, 0) == |text|;
    assert IndexOf(text, OPENING, |text|) == -1;
  }

  lemma {:induction false} UncoveredOfNone(raw: string, rs: seq<Range>, shift: nat, hi: nat)
    requires hi <= |raw| && forall i: int :: shift <= i < shift + hi ==> Covered(rs, i)
    ensures Uncovered(raw, rs, shift, 0, hi) == ""
  {
    if hi > 0 {
      UncoveredOfNone(raw, rs, shift, hi - 1);
    }
  }

  lemma CoveredByOne(c: Range, i: int)
    ensures Covered([c], i) <==> Contains(c, i)
  {
    if Contains(c, i) {
      assert Contains([c][0], i);
    }
  }

  /** `<!-- a -->` is a comment from its first to its last character. */
  lemma ExampleComment()
    ensures CommentsFrom("<!-- a -->", 0) == [Range(0, 10)]
  {
    assert "<!-- a -->" == OPENING + " a " + CLOSING;
    OneComment(" a ");
  }

  const BEFORE: string := "- x\n\n  "

  /** `- x`, an empty line, and the comment `<!-- a` … `b -->`, indented on both of its lines. */
  const LIST_ITEM: string := BEFORE + (OPENING + " a\n  b " + CLOSING)
  const LIST_LINES: seq<string> := ["- x", "", "  <!-- a", "  b -->"]

  /** The parsed node: the second line has lost its indentation. */
  const IN_ITEM := Html(7, OPENING + " a\nb " + CLOSING)

  /** The places of its characters in the source text of the node. */
  const IN_ITEM_KEPT: seq<nat> := seq(12, j requires 0 <= j < 12 => if j < 7 then j else j + 2)

  lemma ItemIsStripped()
    ensures |LIST_ITEM| == 21 && Stripped(LIST_ITEM[7..21], IN_ITEM_KEPT, IN_ITEM.value)
    ensures !NothingDropped(IN_ITEM_KEPT, 14)
  {
    var raw, kept := OPENING + " a\n  b " + CLOSING, IN_ITEM_KEPT;
    assert LIST_ITEM[7..21] == raw;
    assert raw[6] == '\n' && raw[7] == ' ' && raw[8] == ' ';
    assert forall j :: 0 <= j < |kept| ==> kept[j] != 7;
    assert 7 !in kept;
    assert IN_ITEM.value == raw[..7] + raw[9..];
    forall p: nat | p < |raw|
      ensures p in kept || InPrefix(raw, kept, p)
    {
      if p < 7 {
        assert kept[p] == p;
      } else if p > 8 {
        assert kept[p - 2] == p;
      }
    }
  }

  lemma ItemComments()
    ensures AllComments([IN_ITEM]) == [Range(7, 19)]
    ensures |LIST_ITEM| == 21 && SourceComments(LIST_ITEM, 7, 21) == [Range(7, 21)]
  {
    OneComment(" a\nb ");
    OneComment(" a\n  b ");
    assert LIST_ITEM[7..21] == OPENING + " a\n  b " + CLOSING;
    ShiftAt([Range(0, 12)], 7);
    ShiftAt([Range(0, 14)], 7);
    AllCommentsSnoc([], IN_ITEM);
    assert [] + [IN_ITEM] == [IN_ITEM];
  }

  lemma ItemLines()
    ensures Text.Split(LIST_ITEM, '\n') == LIST_LINES && LineOffset(LIST_LINES, 3) == 14
  {
    var firsts := ["- x", "", "  <!-- a"];
    Text.JoinSnoc(["- x"], "", '\n');
    Text.JoinSnoc(["- x", ""], firsts[2], '\n');
    Text.JoinSnoc(firsts, "  b -->", '\n');
    assert ["- x"] + [""] == ["- x", ""] && ["- x", ""] + [firsts[2]] == firsts && firsts + ["  b -->"] == LIST_LINES;
    assert Text.Join(LIST_LINES, '\n') == LIST_ITEM;
    Text.JoinThenSplit(LIST_LINES, '\n');
    ThirdOffset(LIST_LINES);
  }

  lemma ThirdOffset(lines: seq<string>)
    requires |lines| >= 3
    ensures LineOffset(lines, 3) == |lines[0]| + |lines[1]| + |lines[2]| + 3
  {
    assert LineOffset(lines, 1) == |lines[0]| + 1;
    assert LineOffset(lines, 2) == |lines[0]| + |lines[1]| + 2;
  }

  /** The last line of the item, under a comment that covers its first columns. */
  lemma LastLine(end: nat)
    requires 15 <= end <= 21 && LineOffset(LIST_LINES, 3) == 14
    ensures Masked(LIST_LINES, [Range(7, end)], 3) <==> end == 21
  {
    var raw, rs := LIST_LINES[3], [Range(7, end)];
    forall i: int
      ensures Covered(rs, i) <==> Contains(Range(7, end), i)
    {
      CoveredByOne(Range(7, end), i);
    }
    assert Covered(rs, 14);
    if end == 21 {
      UncoveredOfNone(raw, rs, 14, 7);
    } else {
      UncoveredKeeps(raw, rs, 14, 7, 6);
    }
  }

  /** The parsed node has lost two blanks before the end of its comment, so the computed range ends two
      characters early: the last line is all comment, and yet it is kept. */
  lemma CommentInItemIsKept()
    ensures Text.Split(LIST_ITEM, '\n') == LIST_LINES && |LIST_ITEM| == 21 && IsComment(LIST_ITEM, 21, Range(7, 21))
    ensures Stripped(LIST_ITEM[7..21], IN_ITEM_KEPT, IN_ITEM.value) && !NothingDropped(IN_ITEM_KEPT, 14)
    ensures Line(4, "  b -->") in Prose(LIST_LINES, AllComments([IN_ITEM]), [], 4)
    ensures Line(4, "  b -->") !in Prose(LIST_LINES, SourceComments(LIST_ITEM, 7, 21), [], 4)
  {
    ItemComments();
    ItemLines();
    ItemIsStripped();
    assert Range(7, 21) in SourceComments(LIST_ITEM, 7, 21);
    SourceCommentsAreComments(LIST_ITEM, 7, 21, Range(7, 21));
    KeptExactly(LIST_LINES, [Range(7, 19)], [], 4, Line(4, "  b -->"));
    KeptExactly(LIST_LINES, [Range(7, 21)], [], 4, Line(4, "  b -->"));
    LastLine(19);
    LastLine(21);
  }
}
