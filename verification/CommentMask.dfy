/** Prose lines outside HTML comments and code: scripts/markdown.ts,
    `htmlCommentRanges`, `hasRenderedTextOutsideComments` and `markdownProseLines`. */
module CommentMask {
  import opened Options
  import opened Sequences
  import Sorting
  import opened Substrings
  import Text
  import opened Whitespace

  /** From the start up to, and without, the end. */
  datatype Range = Range(start: nat, end: nat)

  predicate Contains(r: Range, i: int) {
    r.start <= i < r.end
  }

  predicate Covered(rs: seq<Range>, i: int) {
    exists k :: 0 <= k < |rs| && Contains(rs[k], i)
  }

  /** The characters of `raw` at the columns from lo up to hi that no range covers, in order. */
  function Outside(raw: string, rs: seq<Range>, lo: nat, hi: nat): (r: string)
    requires lo <= hi <= |raw|
    decreases hi - lo
  {
    if lo == hi then ""
    else Outside(raw, rs, lo, hi - 1) + if Covered(rs, hi - 1) then "" else [raw[hi - 1]]
  }

  lemma {:induction false} OutsideJoins(raw: string, rs: seq<Range>, lo: nat, mid: nat, hi: nat)
    requires lo <= mid <= hi <= |raw|
    ensures Outside(raw, rs, lo, hi) == Outside(raw, rs, lo, mid) + Outside(raw, rs, mid, hi)
    decreases hi - mid
  {
    if mid == hi {
      assert Outside(raw, rs, lo, hi) + "" == Outside(raw, rs, lo, hi);
    } else {
      OutsideJoins(raw, rs, lo, mid, hi - 1);
    }
  }

  lemma {:induction false} OutsideOfNone(raw: string, rs: seq<Range>, lo: nat, hi: nat)
    requires lo <= hi <= |raw| && forall i :: lo <= i < hi ==> !Covered(rs, i)
    ensures Outside(raw, rs, lo, hi) == raw[lo..hi]
    decreases hi - lo
  {
    if lo < hi {
      OutsideOfNone(raw, rs, lo, hi - 1);
      assert raw[lo..hi] == raw[lo..hi - 1] + [raw[hi - 1]];
    }
  }

  lemma {:induction false} OutsideOfAll(raw: string, rs: seq<Range>, lo: nat, hi: nat)
    requires lo <= hi <= |raw| && forall i :: lo <= i < hi ==> Covered(rs, i)
    ensures Outside(raw, rs, lo, hi) == ""
    decreases hi - lo
  {
    if lo < hi {
      OutsideOfAll(raw, rs, lo, hi - 1);
    }
  }

  /** Only which columns are covered matters. */
  lemma {:induction false} OutsideByCover(raw: string, rs: seq<Range>, other: seq<Range>, shift: nat, lo: nat, hi: nat)
    requires lo <= hi <= |raw|
    requires forall i: int {:trigger Covered(rs, i)} :: lo <= i < hi ==> (Covered(rs, i) <==> Covered(other, shift + i))
    ensures |Outside(raw, rs, lo, hi)| <= hi - lo
    ensures Outside(raw, rs, lo, hi) == Uncovered(raw, other, shift, lo, hi)
    decreases hi - lo
  {
    if lo < hi {
      OutsideByCover(raw, rs, other, shift, lo, hi - 1);
      assert Covered(rs, hi - 1) <==> Covered(other, shift + (hi - 1));
    }
  }

  /** The same, for ranges of offsets into a text in which `raw` starts at `shift`. */
  function Uncovered(raw: string, rs: seq<Range>, shift: nat, lo: nat, hi: nat): string
    requires lo <= hi <= |raw|
    decreases hi - lo
  {
    if lo == hi then ""
    else Uncovered(raw, rs, shift, lo, hi - 1) + if Covered(rs, shift + (hi - 1)) then "" else [raw[hi - 1]]
  }

  /* ---- Sorting the ranges of a line ---- */

  function FromTheStart(a: Range, b: Range): int {
    a.start - b.start
  }

  /** `[...ranges].sort((left, right) => left[0] - right[0])` */
  function ByStart(rs: seq<Range>): seq<Range> {
    Sorting.Sort(rs, FromTheStart)
  }

  predicate Ascending(rs: seq<Range>) {
    forall i, j :: 0 <= i < j < |rs| ==> rs[i].start <= rs[j].start
  }

  lemma ByStartSorts(rs: seq<Range>)
    ensures Ascending(ByStart(rs)) && forall x :: x in ByStart(rs) <==> x in rs
  {
    Sorting.SortSorts(rs, FromTheStart);
    Sorting.SortHolds(rs, FromTheStart);
    forall i, j | 0 <= i < j < |ByStart(rs)|
      ensures ByStart(rs)[i].start <= ByStart(rs)[j].start
    {
      assert FromTheStart(ByStart(rs)[i], ByStart(rs)[j]) <= 0;
    }
  }

  lemma SameCover(rs: seq<Range>, other: seq<Range>, i: int)
    requires forall x :: x in rs <==> x in other
    ensures Covered(rs, i) <==> Covered(other, i)
  {
    if Covered(rs, i) {
      var k :| 0 <= k < |rs| && Contains(rs[k], i);
      assert rs[k] in other;
    }
    if Covered(other, i) {
      var k :| 0 <= k < |other| && Contains(other[k], i);
      assert other[k] in rs;
    }
  }

  /* ---- hasRenderedTextOutsideComments ---- */

  predicate WithinLine(raw: string, rs: seq<Range>) {
    forall k :: 0 <= k < |rs| ==> rs[k].start <= rs[k].end <= |raw|
  }

  /** What the loop has read after the first n ranges in ascending order. */
  ghost predicate Swept(raw: string, rs: seq<Range>, n: nat, cursor: nat, visible: string) {
    && n <= |rs| && cursor <= |raw|
    && visible == Outside(raw, rs, 0, cursor)
    && (forall k :: 0 <= k < n ==> rs[k].end <= cursor)
  }

  lemma SweepStep(raw: string, rs: seq<Range>, n: nat, cursor: nat, visible: string)
    requires Ascending(rs) && WithinLine(raw, rs) && n < |rs| && Swept(raw, rs, n, cursor, visible)
    ensures var Range(start, end) := rs[n];
            Swept(raw, rs, n + 1, if cursor < end then end else cursor,
                  if cursor < start then visible + raw[cursor..start] else visible)
  {
    var Range(start, end) := rs[n];
    if cursor < start {
      forall i | cursor <= i < start
        ensures !Covered(rs, i)
      {
      }
      OutsideOfNone(raw, rs, cursor, start);
      OutsideJoins(raw, rs, 0, cursor, start);
    }
    var from := if cursor < start then start else cursor;
    if from < end {
      forall i | from <= i < end
        ensures Covered(rs, i)
      {
        assert Contains(rs[n], i);
      }
      OutsideOfAll(raw, rs, from, end);
      OutsideJoins(raw, rs, 0, from, end);
    }
  }

  lemma SweepEnds(raw: string, rs: seq<Range>, cursor: nat, visible: string)
    requires Swept(raw, rs, |rs|, cursor, visible)
    ensures visible + raw[cursor..] == Outside(raw, rs, 0, |raw|)
  {
    forall i | cursor <= i < |raw|
      ensures !Covered(rs, i)
    {
    }
    OutsideOfNone(raw, rs, cursor, |raw|);
    OutsideJoins(raw, rs, 0, cursor, |raw|);
    assert raw[cursor..] == raw[cursor..|raw|];
  }

  lemma SweptInAnyOrder(raw: string, rs: seq<Range>)
    ensures Outside(raw, ByStart(rs), 0, |raw|) == Outside(raw, rs, 0, |raw|)
  {
    ByStartSorts(rs);
    forall i: int
      ensures Covered(ByStart(rs), i) <==> Covered(rs, i)
    {
      SameCover(ByStart(rs), rs, i);
    }
    OutsideByCover(raw, ByStart(rs), rs, 0, 0, |raw|);
    forall i: int
      ensures Covered(rs, i) <==> Covered(rs, 0 + i)
    {
    }
    OutsideByCover(raw, rs, rs, 0, 0, |raw|);
  }

  /** The text the loop collects is exactly what lies outside all ranges, overlapping or not. */
  method VisibleText(raw: string, ranges: seq<Range>) returns (visible: string)
    requires WithinLine(raw, ranges)
    ensures visible == Outside(raw, ranges, 0, |raw|)
  {
    var sorted := ByStart(ranges);
    ByStartSorts(ranges);
    assert WithinLine(raw, sorted) by {
      forall k | 0 <= k < |sorted|
        ensures sorted[k].start <= sorted[k].end <= |raw|
      {
        assert sorted[k] in ranges;
      }
    }
    var cursor := 0;
    visible := "";
    for n := 0 to |sorted|
      invariant Swept(raw, sorted, n, cursor, visible)
    {
      var Range(start, end) := sorted[n];
      SweepStep(raw, sorted, n, cursor, visible);
      if cursor < start {
        visible := visible + raw[cursor..start];
      }
      if cursor < end {
        cursor := end;
      }
    }
    SweepEnds(raw, sorted, cursor, visible);
    SweptInAnyOrder(raw, ranges);
    visible := visible + raw[cursor..];
  }

  /** `hasRenderedTextOutsideComments` */
  method HasRenderedText(raw: string, ranges: Option<seq<Range>>) returns (rendered: bool)
    requires ranges.Some? ==> WithinLine(raw, ranges.value)
    ensures rendered <==> ranges.None? || !OnlySpace(Outside(raw, ranges.value, 0, |raw|))
  {
    if ranges.None? {
      return true;
    }
    var visible := VisibleText(raw, ranges.value);
    rendered := !OnlySpace(visible);
  }

  /* ---- Comments of the HTML nodes ---- */

  /** A raw HTML node of the parsed document. */
  datatype Html = Html(offset: nat, value: string)

  const OPENING: string := "<!--"
  const CLOSING: string := "-->"

  /** Where a comment that starts at `start` ends: behind the first closing mark, or with the text. */
  function CommentEnd(value: string, start: nat): (end: nat)
    requires OccursAt(value, OPENING, start)
    ensures start + |OPENING| <= end <= |value|
  {
    var close := IndexOf(value, CLOSING, start + |OPENING|);
    if close < 0 then |value| else close + |CLOSING|
  }

  /** The comments of one node from the cursor on. */
  function CommentsFrom(value: string, cursor: nat): seq<Range>
    requires cursor <= |value|
    decreases |value| - cursor
  {
    var start := IndexOf(value, OPENING, cursor);
    if start < 0 then []
    else [Range(start, CommentEnd(value, start))] + CommentsFrom(value, CommentEnd(value, start))
  }

  predicate NoneOpens(value: string, from: nat, to: nat) {
    forall i :: from <= i < to ==> !OccursAt(value, OPENING, i)
  }

  /** The next comment behind `from`: nothing opens one before it, and it ends with its first closing mark. */
  predicate IsNextComment(value: string, from: nat, c: Range) {
    && from <= c.start && OccursAt(value, OPENING, c.start) && NoneOpens(value, from, c.start)
    && c.end == CommentEnd(value, c.start)
  }

  /** Comments follow one another; between them, and behind the last, nothing opens a comment. */
  predicate IsScan(value: string, cs: seq<Range>, cursor: nat) {
    if cs == [] then NoneOpens(value, cursor, |value|)
    else IsNextComment(value, cursor, cs[0]) && IsScan(value, cs[1..], cs[0].end)
  }

  lemma {:induction false} CommentsAreScan(value: string, cursor: nat)
    requires cursor <= |value|
    ensures IsScan(value, CommentsFrom(value, cursor), cursor)
    decreases |value| - cursor
  {
    var start := IndexOf(value, OPENING, cursor);
    if start >= 0 {
      CommentsAreScan(value, CommentEnd(value, start));
    }
  }

  function Shift(rs: seq<Range>, offset: nat): seq<Range> {
    if rs == [] then []
    else Shift(rs[..|rs| - 1], offset) + [Range(offset + rs[|rs| - 1].start, offset + rs[|rs| - 1].end)]
  }

  /** The comments of all nodes' values, each placed at its node's offset. */
  function AllComments(nodes: seq<Html>): seq<Range> {
    if nodes == [] then []
    else
      var last := nodes[|nodes| - 1];
      AllComments(nodes[..|nodes| - 1]) + Shift(CommentsFrom(last.value, 0), last.offset)
  }

  lemma ShiftSnoc(rs: seq<Range>, r: Range, offset: nat)
    ensures Shift(rs + [r], offset) == Shift(rs, offset) + [Range(offset + r.start, offset + r.end)]
  {
    assert (rs + [r])[..|rs|] == rs;
  }

  lemma AllCommentsSnoc(nodes: seq<Html>, node: Html)
    ensures AllComments(nodes + [node]) == AllComments(nodes) + Shift(CommentsFrom(node.value, 0), node.offset)
  {
    assert (nodes + [node])[..|nodes|] == nodes;
  }

  /** The scan of one node. */
  method NodeComments(node: Html) returns (comments: seq<Range>)
    ensures comments == Shift(CommentsFrom(node.value, 0), node.offset)
  {
    comments := [];
    ghost var found: seq<Range> := [];
    var cursor := 0;
    while true
      invariant cursor <= |node.value|
      invariant comments == Shift(found, node.offset)
      invariant CommentsFrom(node.value, 0) == found + CommentsFrom(node.value, cursor)
      decreases |node.value| - cursor
    {
      var start := IndexOf(node.value, OPENING, cursor);
      if start < 0 {
        assert found + [] == found;
        break;
      }
      var close := IndexOf(node.value, CLOSING, start + |OPENING|);
      var end := if close < 0 then |node.value| else close + |CLOSING|;
      ShiftSnoc(found, Range(start, end), node.offset);
      Associate(found, [Range(start, end)], CommentsFrom(node.value, end));
      comments := comments + [Range(node.offset + start, node.offset + end)];
      found := found + [Range(start, end)];
      cursor := end;
    }
  }

  /** The first half of `htmlCommentRanges`. */
  method HtmlComments(nodes: seq<Html>) returns (comments: seq<Range>)
    ensures comments == AllComments(nodes)
  {
    comments := [];
    for i := 0 to |nodes|
      invariant comments == AllComments(nodes[..i])
    {
      var more := NodeComments(nodes[i]);
      TakeNext(nodes, i);
      AllCommentsSnoc(nodes[..i], nodes[i]);
      comments := comments + more;
    }
    assert nodes[..|nodes|] == nodes;
  }

  /* ---- Lines ---- */

  /** Where a line starts: each line before it counts its line end. */
  function LineOffset(lines: seq<string>, n: nat): nat
    requires n <= |lines|
  {
    if n == 0 then 0 else LineOffset(lines, n - 1) + |lines[n - 1]| + 1
  }

  lemma {:induction false} OffsetOfPrefix(lines: seq<string>, more: seq<string>, n: nat)
    requires n <= |lines|
    ensures LineOffset(lines + more, n) == LineOffset(lines, n)
  {
    if n > 0 {
      OffsetOfPrefix(lines, more, n - 1);
    }
  }

  lemma {:induction false} JoinedLength(lines: seq<string>, c: char)
    requires lines != []
    ensures |Text.Join(lines, c)| + 1 == LineOffset(lines, |lines|)
  {
    if |lines| > 1 {
      var front, last := lines[..|lines| - 1], lines[|lines| - 1];
      assert lines == front + [last];
      JoinedLength(front, c);
      OffsetOfPrefix(front, [last], |front|);
    }
  }

  /** A character of a joined line. */
  lemma {:induction false} JoinedAddress(lines: seq<string>, c: char, i: nat, k: nat)
    requires i < |lines| && k < |lines[i]|
    ensures LineOffset(lines, i) + k < |Text.Join(lines, c)|
    ensures Text.Join(lines, c)[LineOffset(lines, i) + k] == lines[i][k]
  {
    if |lines| > 1 {
      var front, last := lines[..|lines| - 1], lines[|lines| - 1];
      assert lines == front + [last];
      JoinedLength(front, c);
      OffsetOfPrefix(front, [last], i);
      if i < |front| {
        JoinedAddress(front, c, i, k);
      }
    }
  }

  /** Column k of line i is the source character at the line's offset plus k. */
  lemma LinesAddressSource(source: string, lines: seq<string>, i: nat, k: nat)
    requires lines == Text.Split(source, '\n') && i < |lines| && k < |lines[i]|
    ensures LineOffset(lines, i) + k < |source| && source[LineOffset(lines, i) + k] == lines[i][k]
  {
    Text.SplitThenJoin(source, '\n');
    JoinedAddress(lines, '\n', i, k);
  }

  /* ---- Ranges of a line ---- */

  function Max(a: int, b: int): int {
    if a < b then b else a
  }

  function Min(a: int, b: int): int {
    if a < b then a else b
  }

  /** Whether a comment covers a character of the line, or the place of an empty line. */
  predicate CrossesLine(raw: string, offset: nat, c: Range) {
    || Max(c.start, offset) < Min(c.end, offset + |raw|)
    || (|raw| == 0 && c.start <= offset && c.end > offset)
  }

  function OnLine(raw: string, offset: nat, c: Range): Range
    requires CrossesLine(raw, offset, c)
  {
    Range(Max(c.start, offset) - offset, Min(c.end, offset + |raw|) - offset)
  }

  /** The comments' columns on a line. */
  function LineRanges(raw: string, offset: nat, comments: seq<Range>): seq<Range> {
    if comments == [] then []
    else
      var rest, c := LineRanges(raw, offset, comments[..|comments| - 1]), comments[|comments| - 1];
      if CrossesLine(raw, offset, c) then rest + [OnLine(raw, offset, c)] else rest
  }

  lemma LineRangesSnoc(raw: string, offset: nat, comments: seq<Range>, c: Range)
    ensures LineRanges(raw, offset, comments + [c]) ==
            if CrossesLine(raw, offset, c) then LineRanges(raw, offset, comments) + [OnLine(raw, offset, c)]
            else LineRanges(raw, offset, comments)
  {
    assert (comments + [c])[..|comments|] == comments;
  }

  lemma LineRangesTake(raw: string, offset: nat, comments: seq<Range>, j: nat)
    requires j < |comments|
    ensures LineRanges(raw, offset, comments[..j + 1]) ==
            if CrossesLine(raw, offset, comments[j])
            then LineRanges(raw, offset, comments[..j]) + [OnLine(raw, offset, comments[j])]
            else LineRanges(raw, offset, comments[..j])
  {
    TakeNext(comments, j);
    LineRangesSnoc(raw, offset, comments[..j], comments[j]);
  }

  lemma CoveredSnoc(rs: seq<Range>, r: Range, i: int)
    ensures Covered(rs + [r], i) <==> Covered(rs, i) || Contains(r, i)
  {
    var all := rs + [r];
    if Covered(rs, i) {
      var k :| 0 <= k < |rs| && Contains(rs[k], i);
      assert Contains(all[k], i);
    }
    if Contains(r, i) {
      assert Contains(all[|rs|], i);
    }
  }

  /** A column is covered on the line iff its offset is covered in the source. */
  lemma {:induction false} LineRangesCover(raw: string, offset: nat, comments: seq<Range>, i: int)
    requires 0 <= i < |raw|
    ensures Covered(LineRanges(raw, offset, comments), i) <==> Covered(comments, offset + i)
  {
    if comments != [] {
      var front, c := comments[..|comments| - 1], comments[|comments| - 1];
      LineRangesCover(raw, offset, front, i);
      assert comments == front + [c];
      CoveredSnoc(front, c, offset + i);
      if CrossesLine(raw, offset, c) {
        CoveredSnoc(LineRanges(raw, offset, front), OnLine(raw, offset, c), i);
      }
    }
  }

  lemma {:induction false} LineRangesFit(raw: string, offset: nat, comments: seq<Range>)
    ensures WithinLine(raw, LineRanges(raw, offset, comments))
  {
    if comments != [] {
      LineRangesFit(raw, offset, comments[..|comments| - 1]);
    }
  }

  /** A comment covers a character of the line, or the line end an empty line consists of. */
  predicate Touched(raw: string, offset: nat, comments: seq<Range>) {
    if raw == "" then Covered(comments, offset)
    else exists i :: offset <= i < offset + |raw| && Covered(comments, i)
  }

  lemma {:induction false} RangesIffTouched(raw: string, offset: nat, comments: seq<Range>)
    ensures LineRanges(raw, offset, comments) != [] <==> Touched(raw, offset, comments)
  {
    if comments != [] {
      var front, c := comments[..|comments| - 1], comments[|comments| - 1];
      RangesIffTouched(raw, offset, front);
      assert comments == front + [c];
      forall i: int
        ensures Covered(comments, i) <==> Covered(front, i) || Contains(c, i)
      {
        CoveredSnoc(front, c, i);
      }
      if raw != "" && CrossesLine(raw, offset, c) {
        assert Contains(c, Max(c.start, offset));
        assert Covered(comments, Max(c.start, offset));
      }
    }
  }

  /** Masking a line leaves exactly its characters at the offsets outside all ranges. */
  lemma MaskIsExact(raw: string, offset: nat, comments: seq<Range>)
    ensures WithinLine(raw, LineRanges(raw, offset, comments))
    ensures Outside(raw, LineRanges(raw, offset, comments), 0, |raw|) == Uncovered(raw, comments, offset, 0, |raw|)
  {
    LineRangesFit(raw, offset, comments);
    forall i: int | 0 <= i < |raw|
      ensures Covered(LineRanges(raw, offset, comments), i) <==> Covered(comments, offset + i)
    {
      LineRangesCover(raw, offset, comments, i);
    }
    OutsideByCover(raw, LineRanges(raw, offset, comments), comments, offset, 0, |raw|);
  }

  /** The line ranges of the first n lines, by line number. */
  function RangeMap(lines: seq<string>, comments: seq<Range>, n: nat): (m: map<nat, seq<Range>>)
    requires n <= |lines|
    ensures forall k :: k in m ==> 1 <= k <= n
  {
    if n == 0 then map[]
    else
      WithLine(RangeMap(lines, comments, n - 1), n, LineRanges(lines[n - 1], LineOffset(lines, n - 1), comments))
  }

  lemma {:induction false} RangeMapHolds(lines: seq<string>, comments: seq<Range>, n: nat, i: nat)
    requires i < n <= |lines|
    ensures var m, rs := RangeMap(lines, comments, n), LineRanges(lines[i], LineOffset(lines, i), comments);
            (i + 1 in m <==> rs != []) && (rs != [] ==> m[i + 1] == rs)
  {
    if i < n - 1 {
      RangeMapHolds(lines, comments, n - 1, i);
    }
  }

  /** The map with a line's ranges, if it has any. */
  function WithLine(m: map<nat, seq<Range>>, line: nat, rs: seq<Range>): map<nat, seq<Range>> {
    if rs == [] then m else m[line := rs]
  }

  /** The inner loop: the comments of one line. */
  method AddLine(raw: string, lineOffset: nat, comments: seq<Range>, line: nat, before: map<nat, seq<Range>>)
    returns (ranges: map<nat, seq<Range>>)
    requires line !in before
    ensures ranges == WithLine(before, line, LineRanges(raw, lineOffset, comments))
  {
    ranges := before;
    var lineEnd := lineOffset + |raw|;
    for j := 0 to |comments|
      invariant ranges == WithLine(before, line, LineRanges(raw, lineOffset, comments[..j]))
    {
      var Range(start, end) := comments[j];
      var from, to := Max(start, lineOffset), Min(end, lineEnd);
      var coversEmptyLine := |raw| == 0 && start <= lineOffset && end > lineOffset;
      LineRangesTake(raw, lineOffset, comments, j);
      if from < to || coversEmptyLine {
        var lineRanges := if line in ranges then ranges[line] else [];
        ranges := ranges[line := lineRanges + [Range(from - lineOffset, to - lineOffset)]];
      }
    }
    assert comments[..|comments|] == comments;
  }

  /** The second half of `htmlCommentRanges`. */
  method RangesByLine(lines: seq<string>, comments: seq<Range>) returns (ranges: map<nat, seq<Range>>)
    ensures ranges == RangeMap(lines, comments, |lines|)
  {
    ranges := map[];
    var lineOffset := 0;
    for index := 0 to |lines|
      invariant lineOffset == LineOffset(lines, index)
      invariant ranges == RangeMap(lines, comments, index)
    {
      ranges := AddLine(lines[index], lineOffset, comments, index + 1, ranges);
      lineOffset := lineOffset + |lines[index]| + 1;
    }
  }

  /* ---- markdownProseLines ---- */

  datatype Line = Line(index: nat, raw: string)

  /** The code blocks' first and last line numbers. */
  datatype Code = Code(first: nat, last: nat)

  predicate Fenced(codes: seq<Code>, line: int) {
    exists k :: 0 <= k < |codes| && codes[k].first <= line <= codes[k].last
  }

  /** A comment touches the line and leaves nothing but white space. */
  predicate Masked(lines: seq<string>, comments: seq<Range>, i: nat)
    requires i < |lines|
  {
    var raw, offset := lines[i], LineOffset(lines, i);
    Touched(raw, offset, comments) && OnlySpace(Uncovered(raw, comments, offset, 0, |raw|))
  }

  lemma {:induction false} UncoveredBlanks(raw: string, rs: seq<Range>, shift: nat, hi: nat)
    requires hi <= |raw| && forall k :: 0 <= k < hi && !Covered(rs, shift + k) ==> raw[k] == ' ' || raw[k] == '\t'
    ensures OnlySpace(Uncovered(raw, rs, shift, 0, hi))
  {
    if hi > 0 {
      UncoveredBlanks(raw, rs, shift, hi - 1);
    }
  }

  /** A line that is a comment among blanks and tabs is masked. */
  lemma BlanksAreMasked(lines: seq<string>, comments: seq<Range>, i: nat)
    requires i < |lines| && Touched(lines[i], LineOffset(lines, i), comments)
    requires forall k :: 0 <= k < |lines[i]| && !Covered(comments, LineOffset(lines, i) + k) ==>
      lines[i][k] == ' ' || lines[i][k] == '\t'
    ensures Masked(lines, comments, i)
  {
    UncoveredBlanks(lines[i], comments, LineOffset(lines, i), |lines[i]|);
  }

  /** The lines among the first n that are neither code nor masked. */
  function Prose(lines: seq<string>, comments: seq<Range>, codes: seq<Code>, n: nat): seq<Line>
    requires n <= |lines|
  {
    if n == 0 then []
    else
      var before := Prose(lines, comments, codes, n - 1);
      if Fenced(codes, n) || Masked(lines, comments, n - 1) then before else before + [Line(n, lines[n - 1])]
  }

  method FencedLines(codes: seq<Code>) returns (fenced: set<nat>)
    ensures forall line :: line in fenced <==> Fenced(codes, line)
  {
    fenced := {};
    for k := 0 to |codes|
      invariant forall line :: line in fenced <==> Fenced(codes[..k], line)
    {
      var line := codes[k].first;
      ghost var before := fenced;
      while line <= codes[k].last
        invariant codes[k].first <= line
        invariant line <= codes[k].last + 1 || line == codes[k].first
        invariant forall i :: i in fenced <==> i in before || codes[k].first <= i < line
        decreases codes[k].last + 1 - line
      {
        fenced := fenced + {line};
        line := line + 1;
      }
      FencedSnoc(codes, k);
    }
    assert codes[..|codes|] == codes;
  }

  lemma FencedSnoc(codes: seq<Code>, k: nat)
    requires k < |codes|
    ensures forall line :: Fenced(codes[..k + 1], line) <==>
      Fenced(codes[..k], line) || codes[k].first <= line <= codes[k].last
  {
    forall line
      ensures Fenced(codes[..k + 1], line) <==> Fenced(codes[..k], line) || codes[k].first <= line <= codes[k].last
    {
      if Fenced(codes[..k], line) {
        var i :| 0 <= i < |codes[..k]| && codes[..k][i].first <= line <= codes[..k][i].last;
        assert codes[..k + 1][i] == codes[..k][i];
      }
      if codes[k].first <= line <= codes[k].last {
        assert codes[..k + 1][k] == codes[k];
      }
    }
  }

  /** `markdownProseLines`, for a parsed document. */
  method ProseLines(source: string, nodes: seq<Html>, codes: seq<Code>) returns (kept: seq<Line>)
    ensures var lines := Text.Split(source, '\n');
            kept == Prose(lines, AllComments(nodes), codes, |lines|)
  {
    var lines := Text.Split(source, '\n');
    var comments := HtmlComments(nodes);
    var ranges := RangesByLine(lines, comments);
    var fenced := FencedLines(codes);
    kept := [];
    for i := 0 to |lines|
      invariant kept == Prose(lines, comments, codes, i)
    {
      RangeMapHolds(lines, comments, |lines|, i);
      MaskIsExact(lines[i], LineOffset(lines, i), comments);
      RangesIffTouched(lines[i], LineOffset(lines, i), comments);
      if i + 1 !in fenced {
        var rendered := HasRenderedText(lines[i], if i + 1 in ranges then Some(ranges[i + 1]) else None);
        if rendered {
          kept := kept + [Line(i + 1, lines[i])];
        }
      }
    }
  }

  /** A line is kept, with its number and text, exactly if it is neither code nor masked. */
  lemma {:induction false} KeptExactly(lines: seq<string>, comments: seq<Range>, codes: seq<Code>, n: nat, line: Line)
    requires n <= |lines|
    ensures line in Prose(lines, comments, codes, n) <==>
            && 1 <= line.index <= n && line.raw == lines[line.index - 1]
            && !Fenced(codes, line.index) && !Masked(lines, comments, line.index - 1)
  {
    if n > 0 {
      KeptExactly(lines, comments, codes, n - 1, line);
    }
  }

  /** Every line of a code block is dropped, its first and last one included. */
  lemma CodeIsDropped(lines: seq<string>, comments: seq<Range>, codes: seq<Code>, k: nat, line: Line)
    requires k < |codes| && codes[k].first <= line.index <= codes[k].last
    ensures line !in Prose(lines, comments, codes, |lines|)
  {
    KeptExactly(lines, comments, codes, |lines|, line);
  }

  lemma {:induction false} UncoveredKeeps(raw: string, rs: seq<Range>, shift: nat, hi: nat, k: nat)
    requires k < hi <= |raw| && !Covered(rs, shift + k)
    ensures raw[k] in Uncovered(raw, rs, shift, 0, hi)
  {
    if k < hi - 1 {
      UncoveredKeeps(raw, rs, shift, hi - 1, k);
    }
  }

  /** Outside code blocks every line with a visible character outside all comments is kept. */
  lemma VisibleTextIsKept(lines: seq<string>, comments: seq<Range>, codes: seq<Code>, i: nat, k: nat)
    requires i < |lines| && k < |lines[i]| && !Covered(comments, LineOffset(lines, i) + k)
    requires '!' <= lines[i][k] <= '~'
    requires forall j :: 0 <= j < |codes| ==> i + 1 < codes[j].first || codes[j].last < i + 1
    ensures Line(i + 1, lines[i]) in Prose(lines, comments, codes, |lines|)
  {
    UncoveredKeeps(lines[i], comments, LineOffset(lines, i), |lines[i]|, k);
    KeptExactly(lines, comments, codes, |lines|, Line(i + 1, lines[i]));
  }

  lemma {:induction false} KeptInOrder(lines: seq<string>, comments: seq<Range>, codes: seq<Code>, n: nat)
    requires n <= |lines|
    ensures forall line :: line in Prose(lines, comments, codes, n) ==> line.index <= n
    ensures Increasing(Prose(lines, comments, codes, n))
  {
    if n > 0 {
      KeptInOrder(lines, comments, codes, n - 1);
      var before := Prose(lines, comments, codes, n - 1);
      assert forall i :: 0 <= i < |before| ==> before[i] in before;
    }
  }

  predicate Increasing(kept: seq<Line>) {
    forall i, j :: 0 <= i < j < |kept| ==> kept[i].index < kept[j].index
  }
}
