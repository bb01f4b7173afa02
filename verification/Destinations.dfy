/** Where the destination of a Markdown link, image or definition lies in its
    source text: scripts/project-doc-site.ts, `labelEnd` and `destinationRange`. */
module Destinations {
  import opened Whitespace

  /* ---- Escapes and balance ---- */

  /** No backslash at the end that escapes nothing. */
  predicate Complete(s: string) {
    s == "" || (if s[0] == '\\' then |s| >= 2 && Complete(s[2..]) else Complete(s[1..]))
  }

  /** The text without backslashes and the characters they escape. */
  function Unescaped(s: string): string {
    if s == "" then ""
    else if s[0] == '\\' then (if |s| >= 2 then Unescaped(s[2..]) else "")
    else [s[0]] + Unescaped(s[1..])
  }

  /** Openings minus closings. */
  function Depth(s: string, open: char, close: char): int {
    if s == "" then 0
    else
      Depth(s[..|s| - 1], open, close) + if s[|s| - 1] == open then 1 else if s[|s| - 1] == close then -1 else 0
  }

  predicate NeverNegative(s: string, open: char, close: char) {
    forall i :: 0 <= i <= |s| ==> Depth(s[..i], open, close) >= 0
  }

  predicate Balanced(s: string, open: char, close: char) {
    NeverNegative(s, open, close) && Depth(s, open, close) == 0
  }

  lemma {:induction false} AppendPlain(s: string, c: char)
    requires Complete(s) && c != '\\'
    ensures Complete(s + [c]) && Unescaped(s + [c]) == Unescaped(s) + [c]
  {
    if s != "" {
      var k := if s[0] == '\\' then 2 else 1;
      AppendPlain(s[k..], c);
      assert (s + [c])[k..] == s[k..] + [c];
    } else {
      assert [c][1..] == "";
    }
  }

  lemma {:induction false} AppendEscape(s: string, c: char)
    requires Complete(s)
    ensures !Complete(s + ['\\']) && Complete(s + ['\\', c]) && Unescaped(s + ['\\', c]) == Unescaped(s)
  {
    if s != "" {
      var k := if s[0] == '\\' then 2 else 1;
      AppendEscape(s[k..], c);
      assert (s + ['\\'])[k..] == s[k..] + ['\\'];
      assert (s + ['\\', c])[k..] == s[k..] + ['\\', c];
    } else {
      assert ['\\', c][2..] == "";
    }
  }

  lemma DepthSnoc(s: string, c: char, open: char, close: char)
    ensures Depth(s + [c], open, close) == Depth(s, open, close) + if c == open then 1 else if c == close then -1 else 0
  {
    assert (s + [c])[..|s|] == s;
  }

  lemma NeverNegativeSnoc(s: string, c: char, open: char, close: char)
    ensures NeverNegative(s + [c], open, close) <==> NeverNegative(s, open, close) && Depth(s + [c], open, close) >= 0
  {
    var longer := s + [c];
    assert forall i :: 0 <= i <= |s| ==> longer[..i] == s[..i];
    assert longer[..|longer|] == longer;
    if NeverNegative(longer, open, close) {
      forall i | 0 <= i <= |s|
        ensures Depth(s[..i], open, close) >= 0
      {
        assert longer[..i] == s[..i];
      }
    }
  }

  /* ---- Where scans stop ---- */

  /** The scanned part reaches from `from` to e, without cutting an escape in two. */
  predicate ScannedTo(s: string, from: nat, e: nat) {
    from <= e <= |s| && Complete(s[from..e])
  }

  /** The brackets that start at `from` close with the one at e. */
  predicate ClosesAt(s: string, from: nat, e: nat) {
    && ScannedTo(s, from, e) && e < |s| && s[e] == ']'
    && Balanced(Unescaped(s[from..e + 1]), '[', ']')
  }

  /** A destination from `from` may end before e: its parentheses balance, and a closing one or a space follows. */
  predicate StopsAt(s: string, from: nat, e: nat) {
    && ScannedTo(s, from, e) && e < |s| && (s[e] == ')' || IsSpace(s[e]))
    && Balanced(Unescaped(s[from..e]), '(', ')')
  }

  /** An angle-bracket destination from `from` ends before e. */
  predicate AngleAt(s: string, from: nat, e: nat) {
    ScannedTo(s, from, e) && e < |s| && s[e] == '>'
  }

  /** What the scans know after reading up to e: the depth, and that it was never negative. */
  ghost predicate Scanned(s: string, from: nat, e: nat, open: char, close: char, depth: int) {
    && ScannedTo(s, from, e)
    && depth == Depth(Unescaped(s[from..e]), open, close)
    && NeverNegative(Unescaped(s[from..e]), open, close)
  }

  lemma SliceSnoc(s: string, from: nat, to: nat)
    requires from <= to < |s|
    ensures s[from..to + 1] == s[from..to] + [s[to]]
  {
  }

  lemma ScanPlain(s: string, from: nat, e: nat, open: char, close: char, depth: int)
    requires Scanned(s, from, e, open, close, depth) && e < |s| && s[e] != '\\'
    ensures var next := depth + if s[e] == open then 1 else if s[e] == close then -1 else 0;
            && (next >= 0 ==> Scanned(s, from, e + 1, open, close, next))
            && (Balanced(Unescaped(s[from..e + 1]), open, close) <==> next == 0)
  {
    var read := s[from..e];
    SliceSnoc(s, from, e);
    AppendPlain(read, s[e]);
    DepthSnoc(Unescaped(read), s[e], open, close);
    NeverNegativeSnoc(Unescaped(read), s[e], open, close);
  }

  lemma ScanEscape(s: string, from: nat, e: nat, open: char, close: char, depth: int)
    requires Scanned(s, from, e, open, close, depth) && e < |s| && s[e] == '\\'
    ensures e + 1 < |s| ==> Scanned(s, from, e + 2, open, close, depth)
    ensures !ScannedTo(s, from, e + 1)
  {
    var read := s[from..e];
    AppendEscape(read, if e + 1 < |s| then s[e + 1] else ' ');
    assert s[from..e + 1] == read + ['\\'];
    if e + 1 < |s| {
      assert s[from..e + 2] == read + ['\\', s[e + 1]];
    }
  }

  /* ---- labelEnd ---- */

  function IndexOf(s: string, c: char, from: nat): (r: int)
    requires from <= |s|
    decreases |s| - from
    ensures r == -1 ==> c !in s[from..]
    ensures r != -1 ==> from <= r < |s| && s[r] == c && c !in s[from..r]
  {
    if from == |s| then -1
    else if s[from] == c then from
    else
      assert s[from..] == [s[from]] + s[from + 1..];
      var r := IndexOf(s, c, from + 1);
      assert r != -1 ==> s[from..r] == [s[from]] + s[from + 1..r];
      r
  }

  /** `labelEnd`: the bracket that closes the first one. */
  method LabelEnd(s: string) returns (r: int)
    ensures '[' !in s ==> r == -1
    ensures '[' in s ==>
              var first := IndexOf(s, '[', 0);
              if r == -1 then forall e :: first <= e < |s| ==> !ClosesAt(s, first, e)
              else first < r < |s| && ClosesAt(s, first, r) && forall e :: first <= e < r ==> !ClosesAt(s, first, e)
  {
    var first := IndexOf(s, '[', 0);
    if first == -1 {
      return -1;
    }
    var depth, index := 0, first;
    while index < |s|
      invariant first <= index <= |s| + 1
      invariant index <= |s| ==> Scanned(s, first, index, '[', ']', depth)
      invariant first < index <= |s| ==> depth > 0
      invariant forall e :: first <= e < index && e < |s| ==> !ClosesAt(s, first, e)
    {
      var c := s[index];
      if c == '\\' {
        ScanEscape(s, first, index, '[', ']', depth);
        index := index + 1;
      } else {
        ScanPlain(s, first, index, '[', ']', depth);
        if c == '[' {
          depth := depth + 1;
        } else if c == ']' {
          depth := depth - 1;
          if depth == 0 {
            return index;
          }
        }
      }
      index := index + 1;
    }
    return -1;
  }

  /* ---- destinationRange ---- */

  datatype Kind = Link | Image | Definition

  datatype Range = Range(start: nat, end: nat)

  datatype Problem = NoLabel | NoSeparator | NotInline | NoAngleEnd

  datatype Result = Found(range: Range) | Problem(problem: Problem)

  method SkipWhitespace(s: string, start: nat) returns (index: nat)
    requires start <= |s|
    ensures start <= index <= |s| && (forall i :: start <= i < index ==> IsSpace(s[i]))
    ensures index < |s| ==> !IsSpace(s[index])
  {
    index := start;
    while index < |s| && IsSpace(s[index])
      invariant start <= index <= |s| && forall i :: start <= i < index ==> IsSpace(s[i])
    {
      index := index + 1;
    }
  }

  /** The first position that satisfies the stop rule, or the end of the text. */
  ghost predicate FirstStop(s: string, from: nat, end: nat) {
    && from <= end <= |s|
    && (end < |s| ==> StopsAt(s, from, end))
    && forall e :: from <= e < end ==> !StopsAt(s, from, e)
  }

  method BareEnd(s: string, start: nat) returns (end: nat)
    requires start <= |s|
    ensures FirstStop(s, start, end)
  {
    var depth, index := 0, start;
    while index < |s|
      invariant start <= index <= |s| + 1
      invariant index <= |s| ==> Scanned(s, start, index, '(', ')', depth)
      invariant forall e :: start <= e < index && e < |s| ==> !StopsAt(s, start, e)
    {
      var c := s[index];
      if c == '\\' {
        ScanEscape(s, start, index, '(', ')', depth);
        index := index + 1;
      } else {
        ScanPlain(s, start, index, '(', ')', depth);
        if c == '(' {
          depth := depth + 1;
        } else if c == ')' {
          if depth == 0 {
            return index;
          }
          depth := depth - 1;
        } else if IsSpace(c) && depth == 0 {
          return index;
        }
      }
      index := index + 1;
    }
    return |s|;
  }

  method AngleEnd(s: string, from: nat) returns (end: int)
    requires from <= |s|
    ensures end == -1 ==> forall e :: from <= e < |s| ==> !AngleAt(s, from, e)
    ensures end != -1 ==> from <= end && AngleAt(s, from, end) && forall e :: from <= e < end ==> !AngleAt(s, from, e)
  {
    var index := from;
    assert s[from..from] == "";
    while index < |s|
      invariant from <= index <= |s| + 1
      invariant index <= |s| ==> ScannedTo(s, from, index)
      invariant forall e :: from <= e < index && e < |s| ==> !AngleAt(s, from, e)
    {
      if s[index] == '\\' {
        AppendEscape(s[from..index], if index + 1 < |s| then s[index + 1] else ' ');
        assert s[from..index + 1] == s[from..index] + ['\\'];
        if index + 1 < |s| {
          assert s[from..index + 2] == s[from..index] + ['\\', s[index + 1]];
        }
        index := index + 1;
      } else if s[index] == '>' {
        return index;
      } else {
        AppendPlain(s[from..index], s[index]);
        assert s[from..index + 1] == s[from..index] + [s[index]];
      }
      index := index + 1;
    }
    return -1;
  }

  /** e is where the label ends. */
  ghost predicate IsLabelEnd(s: string, e: int) {
    if '[' !in s then e == -1
    else
      var first := IndexOf(s, '[', 0);
      if e == -1 then forall i :: first <= i < |s| ==> !ClosesAt(s, first, i)
      else first < e && FirstClose(s, first, e)
  }

  /** The first position where the brackets close. */
  ghost predicate FirstClose(s: string, first: nat, e: nat) {
    ClosesAt(s, first, e) && forall i :: first <= i < e ==> !ClosesAt(s, first, i)
  }

  ghost predicate SpaceUpTo(s: string, from: nat, to: nat) {
    && from <= to <= |s| && (forall i :: from <= i < to ==> IsSpace(s[i]))
    && (to < |s| ==> !IsSpace(s[to]))
  }

  ghost predicate IsAngleEnd(s: string, from: nat, end: int) {
    if end == -1 then forall e :: from <= e < |s| ==> !AngleAt(s, from, e)
    else from <= end && AngleAt(s, from, end) && forall e :: from <= e < end ==> !AngleAt(s, from, e)
  }

  /** The range that starts where the destination does. */
  ghost predicate RangeFrom(s: string, start: nat, r: Result)
    requires start <= |s|
  {
    if start < |s| && s[start] == '<' then
      && (r.Found? ==> r.range.start == start + 1 && IsAngleEnd(s, start + 1, r.range.end))
      && (r.Problem? ==> r.problem == NoAngleEnd && IsAngleEnd(s, start + 1, -1))
    else r.Found? && r.range.start == start && FirstStop(s, start, r.range.end)
  }

  /** What `destinationRange` promises for the text of a node. */
  ghost predicate Correct(s: string, kind: Kind, r: Result) {
    exists bracket: int :: IsLabelEnd(s, bracket) && CorrectAfter(s, kind, bracket, r)
  }

  /** The separator after the label: a colon anywhere behind it, or an opening parenthesis at once. */
  function Separator(s: string, kind: Kind, bracket: nat): (r: int)
    requires bracket < |s|
    ensures r == -1 || bracket < r < |s|
  {
    if kind == Definition then IndexOf(s, ':', bracket + 1)
    else if bracket + 1 < |s| && s[bracket + 1] == '(' then bracket + 1 else -1
  }

  ghost predicate CorrectAfter(s: string, kind: Kind, bracket: int, r: Result) {
    if !(0 <= bracket < |s|) then r == Problem(NoLabel)
    else if Separator(s, kind, bracket) == -1 then
      r == Problem(if kind == Definition then NoSeparator else NotInline)
    else exists start ::
      0 <= start <= |s| && SpaceUpTo(s, Separator(s, kind, bracket) + 1, start) && RangeFrom(s, start, r)
  }

  /** `destinationRange` */
  method DestinationRange(s: string, kind: Kind) returns (r: Result)
    ensures Correct(s, kind, r)
  {
    var endOfLabel := LabelEnd(s);
    assert IsLabelEnd(s, endOfLabel);
    if endOfLabel == -1 {
      assert CorrectAfter(s, kind, endOfLabel, Problem(NoLabel));
      return Problem(NoLabel);
    }
    var start;
    if kind == Definition {
      var colon := IndexOf(s, ':', endOfLabel + 1);
      if colon == -1 {
        assert CorrectAfter(s, kind, endOfLabel, Problem(NoSeparator));
        return Problem(NoSeparator);
      }
      start := SkipWhitespace(s, colon + 1);
    } else {
      if endOfLabel + 1 >= |s| || s[endOfLabel + 1] != '(' {
        assert CorrectAfter(s, kind, endOfLabel, Problem(NotInline));
        return Problem(NotInline);
      }
      start := SkipWhitespace(s, endOfLabel + 2);
    }
    assert SpaceUpTo(s, Separator(s, kind, endOfLabel) + 1, start);
    if start < |s| && s[start] == '<' {
      var end := AngleEnd(s, start + 1);
      r := if end == -1 then Problem(NoAngleEnd) else Found(Range(start + 1, end));
    } else {
      var end := BareEnd(s, start);
      r := Found(Range(start, end));
    }
    assert RangeFrom(s, start, r);
    assert CorrectAfter(s, kind, endOfLabel, r);
  }

  /* ---- What the range promises ---- */

  /** The range lies inside the node, behind the label; a destination without angle
      brackets that stops before the end of the node has balanced parentheses. */
  lemma RangeIsInside(s: string, kind: Kind, r: Result)
    requires Correct(s, kind, r) && r.Found?
    ensures var Range(start, end) := r.range;
            && 2 <= start <= end <= |s|
            && (exists bracket :: IsLabelEnd(s, bracket) && 0 <= bracket && bracket + 2 <= start)
            && (s[start - 1] != '<' && end < |s| ==> StopsAt(s, start, end))
  {
    var bracket: int :| IsLabelEnd(s, bracket) && CorrectAfter(s, kind, bracket, r);
    var from := Separator(s, kind, bracket) + 1;
    var start :| 0 <= start <= |s| && SpaceUpTo(s, from, start) && RangeFrom(s, start, r);
    RangeStops(s, from, start, r);
  }

  lemma RangeStops(s: string, from: nat, start: nat, r: Result)
    requires start <= |s| && from > 0 && r.Found? && RangeFrom(s, start, r)
    requires SpaceUpTo(s, from, start)
    ensures start <= r.range.start <= r.range.end <= |s|
    ensures r.range.start > 0 && s[r.range.start - 1] != '<' && r.range.end < |s| ==>
      StopsAt(s, r.range.start, r.range.end)
  {
  }

  /* ---- Well-formed links ---- */

  /** A complete beginning contributes a beginning. */
  lemma {:induction false} UnescapedPrefix(s: string, k: nat)
    requires k <= |s| && Complete(s[..k])
    ensures |Unescaped(s[..k])| <= |Unescaped(s)| && Unescaped(s)[..|Unescaped(s[..k])|] == Unescaped(s[..k])
    decreases |s|
  {
    if k > 0 {
      var n := if s[0] == '\\' then 2 else 1;
      assert s[..k][n..] == s[n..][..k - n];
      UnescapedPrefix(s[n..], k - n);
    }
  }

  lemma PrefixNotNegative(s: string, k: nat, open: char, close: char)
    requires k <= |s| && Complete(s[..k]) && NeverNegative(Unescaped(s), open, close)
    ensures NeverNegative(Unescaped(s[..k]), open, close)
  {
    UnescapedPrefix(s, k);
    var p := Unescaped(s[..k]);
    forall i | 0 <= i <= |p|
      ensures Depth(p[..i], open, close) >= 0
    {
      assert p[..i] == Unescaped(s)[..i];
    }
  }

  lemma {:induction false} DepthConcat(a: string, b: string, open: char, close: char)
    ensures Depth(a + b, open, close) == Depth(a, open, close) + Depth(b, open, close)
  {
    if b == "" {
      assert a + b == a;
    } else {
      DepthConcat(a, b[..|b| - 1], open, close);
      assert (a + b)[..|a + b| - 1] == a + b[..|b| - 1];
    }
  }

  /** In balanced text no closing bracket meets depth 0. */
  lemma NoEarlyClose(s: string, k: nat, open: char, close: char)
    requires k < |s| && Complete(s[..k]) && s[k] == close && close != '\\' && open != close
    requires NeverNegative(Unescaped(s), open, close)
    ensures Depth(Unescaped(s[..k]), open, close) > 0
  {
    assert s[..k + 1] == s[..k] + [s[k]];
    AppendPlain(s[..k], s[k]);
    DepthSnoc(Unescaped(s[..k]), s[k], open, close);
    PrefixNotNegative(s, k + 1, open, close);
    var p := Unescaped(s[..k + 1]);
    assert p[..|p|] == p;
  }

  lemma FirstIndex(s: string, c: char, i: nat)
    requires i < |s| && s[i] == c && c !in s[..i]
    ensures IndexOf(s, c, 0) == i
  {
    var r := IndexOf(s, c, 0);
    assert s[0..] == s;
    assert c in s;
  }

  /** The text stands at `from`. */
  predicate SameAt(s: string, from: nat, text: string)
    requires from + |text| <= |s|
  {
    forall i :: 0 <= i < |text| ==> s[from + i] == text[i]
  }

  /** Text in brackets, after a beginning without brackets. */
  predicate Bracketed(s: string, first: nat, text: string) {
    && first + 1 + |text| < |s| && '[' !in s[..first]
    && s[first] == '[' && s[first + 1 + |text|] == ']' && SameAt(s, first + 1, text)
  }

  /** The scanned part of the label after k characters of its text. */
  lemma OpenedAt(s: string, first: nat, text: string, k: nat, e: nat)
    requires Bracketed(s, first, text) && k <= |text| && e == first + 1 + k
    ensures Complete(s[first..e]) <==> Complete(text[..k])
    ensures Unescaped(s[first..e]) == ['['] + Unescaped(text[..k])
    ensures k < |text| ==> s[e] == text[k]
  {
    OpenedSlice(s, first, text, k, e);
    PlainCons(text[..k]);
  }

  lemma OpenedSlice(s: string, first: nat, text: string, k: nat, e: nat)
    requires Bracketed(s, first, text) && k <= |text| && e == first + 1 + k
    ensures s[first..e] == ['['] + text[..k]
  {
    forall i | 0 <= i < k
      ensures s[first + 1 + i] == text[i]
    {
    }
  }

  lemma PlainCons(text: string)
    ensures Complete(['['] + text) <==> Complete(text)
    ensures Unescaped(['['] + text) == ['['] + Unescaped(text)
  {
    assert (['['] + text)[1..] == text;
  }

  /** A closing bracket balances an opened text iff the depth there is 0. */
  lemma ClosedText(plain: string)
    requires NeverNegative(plain, '[', ']')
    ensures Balanced(['['] + plain + [']'], '[', ']') <==> Depth(plain, '[', ']') == 0
  {
    NeverNegativeCons(plain);
    DepthConcat(['['], plain, '[', ']');
    DepthSnoc("", '[', '[', ']');
    assert "" + ['['] == ['['];
    assert plain[..|plain|] == plain;
    DepthSnoc(['['] + plain, ']', '[', ']');
    NeverNegativeSnoc(['['] + plain, ']', '[', ']');
  }

  lemma ClosesIff(s: string, first: nat, e: nat, plain: string)
    requires ScannedTo(s, first, e) && e < |s| && s[e] == ']'
    requires Unescaped(s[first..e]) == ['['] + plain && NeverNegative(plain, '[', ']')
    ensures ClosesAt(s, first, e) <==> Depth(plain, '[', ']') == 0
  {
    SliceSnoc(s, first, e);
    AppendPlain(s[first..e], ']');
    ClosedText(plain);
  }

  lemma ClosingDepth(s: string, first: nat, text: string, k: nat, e: nat)
    requires Bracketed(s, first, text) && k <= |text| && e == first + 1 + k
    requires Complete(text[..k]) && s[e] == ']' && NeverNegative(Unescaped(text), '[', ']')
    ensures ClosesAt(s, first, e) <==> Depth(Unescaped(text[..k]), '[', ']') == 0
  {
    OpenedAt(s, first, text, k, e);
    PrefixNotNegative(text, k, '[', ']');
    ClosesIff(s, first, e, Unescaped(text[..k]));
  }

  lemma NotClosedBefore(s: string, first: nat, text: string, k: nat, e: nat)
    requires Bracketed(s, first, text) && k < |text| && e == first + 1 + k
    requires NeverNegative(Unescaped(text), '[', ']')
    ensures !ClosesAt(s, first, e)
  {
    OpenedAt(s, first, text, k, e);
    if s[e] == ']' && Complete(text[..k]) {
      NoEarlyClose(text, k, '[', ']');
      ClosingDepth(s, first, text, k, e);
    }
  }

  lemma ClosesFirst(s: string, first: nat, text: string, e: nat)
    requires Bracketed(s, first, text) && Complete(text) && Balanced(Unescaped(text), '[', ']')
    requires e == first + 1 + |text|
    ensures FirstClose(s, first, e)
  {
    assert text[..|text|] == text;
    ClosingDepth(s, first, text, |text|, e);
    forall i | first <= i < e
      ensures !ClosesAt(s, first, i)
    {
      if i > first {
        NotClosedBefore(s, first, text, i - first - 1, i);
      }
    }
  }

  /** Bracketed text closes where its own closing bracket stands. */
  lemma LabelOf(s: string, first: nat, text: string)
    requires Bracketed(s, first, text) && Complete(text) && Balanced(Unescaped(text), '[', ']')
    ensures IsLabelEnd(s, first + 1 + |text|)
  {
    FirstIndex(s, '[', first);
    ClosesFirst(s, first, text, first + 1 + |text|);
  }

  lemma NeverNegativeCons(plain: string)
    requires NeverNegative(plain, '[', ']')
    ensures NeverNegative(['['] + plain, '[', ']')
  {
    forall i | 0 <= i <= |['['] + plain|
      ensures Depth((['['] + plain)[..i], '[', ']') >= 0
    {
      if i > 0 {
        assert (['['] + plain)[..i] == ['['] + plain[..i - 1];
        DepthConcat(['['], plain[..i - 1], '[', ']');
        assert Depth(['['], '[', ']') == 1;
      }
    }
  }

  /** A balanced destination without spaces stops at its end. */
  lemma StopOf(s: string, from: nat, dest: string)
    requires from + |dest| < |s| && s[from..from + |dest|] == dest
    requires Complete(dest) && Balanced(Unescaped(dest), '(', ')')
    requires (forall i :: 0 <= i < |dest| ==> !IsSpace(dest[i]))
    requires s[from + |dest|] == ')' || IsSpace(s[from + |dest|])
    ensures FirstStop(s, from, from + |dest|)
  {
    forall e | from <= e < from + |dest|
      ensures !StopsAt(s, from, e)
    {
      NoStopAt(s, from, dest, e, e - from);
    }
  }

  lemma NoStopAt(s: string, from: nat, dest: string, e: nat, k: nat)
    requires from + |dest| < |s| && s[from..from + |dest|] == dest
    requires NeverNegative(Unescaped(dest), '(', ')') && (forall i :: 0 <= i < |dest| ==> !IsSpace(dest[i]))
    requires e == from + k && k < |dest|
    ensures !StopsAt(s, from, e)
  {
    SliceOfSlice(s, from, dest, e, k);
    if s[e] == ')' && Complete(dest[..k]) {
      NoEarlyClose(dest, k, '(', ')');
    }
  }

  lemma SliceOfSlice(s: string, from: nat, dest: string, e: nat, k: nat)
    requires from + |dest| < |s| && s[from..from + |dest|] == dest && e == from + k && k < |dest|
    ensures s[from..e] == dest[..k] && s[e] == dest[k]
  {
    assert s[from..from + |dest|][..k] == s[from..e];
    assert s[from..from + |dest|][k] == s[e];
  }

  lemma StopIsUnique(s: string, from: nat, d: nat, e: nat)
    requires FirstStop(s, from, d) && FirstStop(s, from, e)
    ensures d == e
  {
  }

  lemma LabelIsUnique(s: string, d: int, e: int)
    requires IsLabelEnd(s, d) && IsLabelEnd(s, e)
    ensures d == e
  {
  }

  lemma AfterLabel(s: string, kind: Kind, bracket: int, r: Result)
    requires Correct(s, kind, r) && IsLabelEnd(s, bracket)
    ensures CorrectAfter(s, kind, bracket, r)
  {
    var b: int :| IsLabelEnd(s, b) && CorrectAfter(s, kind, b, r);
    LabelIsUnique(s, b, bracket);
  }

  lemma SpaceEndIsUnique(s: string, from: nat, d: nat, e: nat)
    requires SpaceUpTo(s, from, d) && SpaceUpTo(s, from, e)
    ensures d == e
  {
  }

  lemma RangeIsUnique(s: string, start: nat, r: Result, r': Result)
    requires start <= |s| && RangeFrom(s, start, r) && RangeFrom(s, start, r')
    ensures r == r'
  {
    if !(start < |s| && s[start] == '<') {
      StopIsUnique(s, start, r.range.end, r'.range.end);
    }
  }

  /** A text has one destination range or one problem. */
  lemma CorrectIsUnique(s: string, kind: Kind, r: Result, r': Result)
    requires Correct(s, kind, r) && Correct(s, kind, r')
    ensures r == r'
  {
    var bracket: int :| IsLabelEnd(s, bracket) && CorrectAfter(s, kind, bracket, r);
    AfterLabel(s, kind, bracket, r');
    if 0 <= bracket < |s| && Separator(s, kind, bracket) != -1 {
      var from := Separator(s, kind, bracket) + 1;
      var start :| 0 <= start <= |s| && SpaceUpTo(s, from, start) && RangeFrom(s, start, r);
      var start' :| 0 <= start' <= |s| && SpaceUpTo(s, from, start') && RangeFrom(s, start', r');
      SpaceEndIsUnique(s, from, start, start');
      RangeIsUnique(s, start, r, r');
    }
  }

  /** A text that a link or an image may show, and a destination it may have without angle brackets. */
  predicate IsLabel(text: string) {
    Complete(text) && Balanced(Unescaped(text), '[', ']')
  }

  predicate IsDestination(dest: string) {
    && dest != "" && dest[0] != '<' && Complete(dest) && Balanced(Unescaped(dest), '(', ')')
    && forall i :: 0 <= i < |dest| ==> !IsSpace(dest[i])
  }

  lemma DestinationAt(s: string, n: nat, dest: string, kind: Kind, r: Result)
    requires IsDestination(dest) && kind != Definition
    requires 2 <= n && n + |dest| < |s| && s[n - 1] == '(' && s[n..n + |dest|] == dest
    requires s[n + |dest|] == ')' || IsSpace(s[n + |dest|])
    requires CorrectAfter(s, kind, n - 2, r)
    ensures r == Found(Range(n, n + |dest|))
  {
    var start :| 0 <= start <= |s| && SpaceUpTo(s, n, start) && RangeFrom(s, start, r);
    assert s[n] == dest[0] && !IsSpace(dest[0]);
    StopOf(s, n, dest);
    StopIsUnique(s, n, r.range.end, n + |dest|);
  }

  lemma DestinationInLink(s: string, first: nat, text: string, n: nat, dest: string, kind: Kind, r: Result)
    requires Bracketed(s, first, text) && IsLabel(text) && n == first + 3 + |text|
    requires IsDestination(dest) && kind != Definition && Correct(s, kind, r)
    requires n + |dest| < |s| && s[n - 1] == '(' && s[n..n + |dest|] == dest
    requires s[n + |dest|] == ')' || IsSpace(s[n + |dest|])
    ensures r == Found(Range(n, n + |dest|))
  {
    LabelOf(s, first, text);
    AfterLabel(s, kind, n - 2, r);
    DestinationAt(s, n, dest, kind, r);
  }

  /** The destination of an inline link or image is found: balanced label, balanced
      destination without spaces, then the closing parenthesis or a title. */
  lemma InlineDestinationIsFound(before: string, text: string, dest: string, after: string, kind: Kind, r: Result)
    requires '[' !in before && IsLabel(text) && IsDestination(dest)
    requires after != "" && (after[0] == ')' || IsSpace(after[0]))
    requires kind != Definition && Correct(before + "[" + text + "](" + dest + after, kind, r)
    ensures r == Found(Range(|before| + |text| + 3, |before| + |text| + 3 + |dest|))
  {
    var s, n := before + "[" + text + "](" + dest + after, |before| + |text| + 3;
    LinkLayout(before, text, dest, after, s, n);
    DestinationInLink(s, |before|, text, n, dest, kind, r);
  }

  lemma LinkLayout(before: string, text: string, dest: string, after: string, s: string, n: nat)
    requires '[' !in before && after != ""
    requires s == before + "[" + text + "](" + dest + after && n == |before| + |text| + 3
    ensures Bracketed(s, |before|, text) && n + |dest| < |s|
    ensures s[n - 1] == '(' && s[n..n + |dest|] == dest && s[n + |dest|] == after[0]
  {
    assert s[..|before|] == before;
    assert s[n..n + |dest|] == dest;
  }

  /** A title behind a blank does not belong to the destination. */
  lemma TitleIsNotPart(before: string, text: string, dest: string, title: string, kind: Kind, r: Result)
    requires '[' !in before && IsLabel(text) && IsDestination(dest) && kind != Definition
    requires Correct(before + "[" + text + "](" + dest + (" \"" + title + "\")"), kind, r)
    ensures r == Found(Range(|before| + |text| + 3, |before| + |text| + 3 + |dest|))
  {
    InlineDestinationIsFound(before, text, dest, " \"" + title + "\")", kind, r);
  }

  /* ---- Angle brackets and definitions ---- */

  /** A destination it may have in angle brackets: none but escaped closing ones inside. */
  predicate IsAngleDestination(dest: string) {
    Complete(dest) && '>' !in Unescaped(dest)
  }

  lemma {:induction false} NoPlainClose(dest: string, k: nat)
    requires k < |dest| && dest[k] == '>' && Complete(dest[..k])
    ensures '>' in Unescaped(dest)
    decreases |dest|
  {
    if k > 0 {
      var n := if dest[0] == '\\' then 2 else 1;
      assert dest[..k][n..] == dest[n..][..k - n];
      NoPlainClose(dest[n..], k - n);
    }
  }

  lemma AngleEndsThere(s: string, from: nat, dest: string, end: int)
    requires from + |dest| < |s| && s[from..from + |dest|] == dest && s[from + |dest|] == '>'
    requires IsAngleDestination(dest) && IsAngleEnd(s, from, end)
    ensures end == from + |dest|
  {
    assert AngleAt(s, from, from + |dest|);
    forall e | from <= e < from + |dest|
      ensures !AngleAt(s, from, e)
    {
      SliceOfSlice(s, from, dest, e, e - from);
      if s[e] == '>' && Complete(dest[..e - from]) {
        NoPlainClose(dest, e - from);
      }
    }
  }

  lemma AngleAtStart(s: string, n: nat, dest: string, kind: Kind, r: Result)
    requires 2 <= n && kind != Definition && CorrectAfter(s, kind, n - 2, r) && IsAngleDestination(dest)
    requires n + 1 + |dest| < |s| && s[n - 1] == '(' && s[n] == '<'
    requires s[n + 1..n + 1 + |dest|] == dest && s[n + 1 + |dest|] == '>'
    ensures r == Found(Range(n + 1, n + 1 + |dest|))
  {
    var start :| 0 <= start <= |s| && SpaceUpTo(s, n, start) && RangeFrom(s, start, r);
    assert !IsSpace('<') && start == n;
    AngleEndsThere(s, n + 1, dest, if r.Found? then r.range.end else -1);
  }

  lemma AngleInLink(s: string, first: nat, text: string, n: nat, dest: string, kind: Kind, r: Result)
    requires Bracketed(s, first, text) && IsLabel(text) && n == first + 3 + |text|
    requires IsAngleDestination(dest) && kind != Definition && Correct(s, kind, r)
    requires n + 1 + |dest| < |s| && s[n - 1] == '(' && s[n] == '<'
    requires s[n + 1..n + 1 + |dest|] == dest && s[n + 1 + |dest|] == '>'
    ensures r == Found(Range(n + 1, n + 1 + |dest|))
  {
    LabelOf(s, first, text);
    AfterLabel(s, kind, n - 2, r);
    AngleAtStart(s, n, dest, kind, r);
  }

  /** A destination in angle brackets is found, blanks and parentheses included. */
  lemma AngleDestinationIsFound(before: string, text: string, dest: string, after: string, kind: Kind, r: Result)
    requires '[' !in before && IsLabel(text) && IsAngleDestination(dest) && kind != Definition
    requires Correct(before + "[" + text + "](<" + dest + ">" + after, kind, r)
    ensures r == Found(Range(|before| + |text| + 4, |before| + |text| + 4 + |dest|))
  {
    var s, n := before + "[" + text + "](<" + dest + ">" + after, |before| + |text| + 3;
    AngleLayout(before, text, dest, after, s, n);
    AngleInLink(s, |before|, text, n, dest, kind, r);
  }

  lemma AngleLayout(before: string, text: string, dest: string, after: string, s: string, n: nat)
    requires '[' !in before
    requires s == before + "[" + text + "](<" + dest + ">" + after && n == |before| + |text| + 3
    ensures Bracketed(s, |before|, text) && n + 1 + |dest| < |s|
    ensures s[n - 1] == '(' && s[n] == '<'
    ensures s[n + 1..n + 1 + |dest|] == dest && s[n + 1 + |dest|] == '>'
  {
    assert s[..|before|] == before;
    assert s[n + 1..n + 1 + |dest|] == dest;
  }

  lemma LabelEndsAt(before: string, shown: string, more: string, s: string, n: nat)
    requires '[' !in before && IsLabel(shown) && more != ""
    requires s == before + "[" + shown + "]" + more && n == |before| + 1 + |shown|
    ensures IsLabelEnd(s, n) && n + 1 < |s| && s[n + 1] == more[0]
  {
    BracketedIn(before, shown, more);
    LabelOf(s, |before|, shown);
  }

  lemma BracketedIn(before: string, shown: string, more: string)
    requires '[' !in before
    ensures var s := before + "[" + shown + "]" + more;
      Bracketed(s, |before|, shown) && (more != "" ==> s[|before| + 2 + |shown|] == more[0])
  {
    var s := before + "[" + shown + "]" + more;
    assert s[..|before|] == before;
  }

  lemma DefinedAt(s: string, n: nat, blanks: nat, dest: string, r: Result)
    requires IsDestination(dest) && CorrectAfter(s, Definition, n, r) && n + 2 + blanks + |dest| < |s|
    requires s[n + 1] == ':' && forall i :: n + 2 <= i < n + 2 + blanks ==> s[i] == ' '
    requires s[n + 2 + blanks..n + 2 + blanks + |dest|] == dest && IsSpace(s[n + 2 + blanks + |dest|])
    ensures r == Found(Range(n + 2 + blanks, n + 2 + blanks + |dest|))
  {
    var first := n + 2 + blanks;
    assert Separator(s, Definition, n) == n + 1;
    var start :| 0 <= start <= |s| && SpaceUpTo(s, n + 2, start) && RangeFrom(s, start, r);
    assert s[first] == dest[0] && IsSpace(' ');
    assert SpaceUpTo(s, n + 2, first);
    SpaceEndIsUnique(s, n + 2, start, first);
    StopOf(s, first, dest);
    StopIsUnique(s, first, r.range.end, first + |dest|);
  }

  lemma DefinedIn(s: string, text: string, n: nat, blanks: nat, dest: string, r: Result)
    requires Bracketed(s, 0, text) && IsLabel(text) && n == |text| + 1
    requires IsDestination(dest) && Correct(s, Definition, r)
    requires n + 2 + blanks + |dest| < |s| && s[n + 1] == ':'
    requires forall i :: n + 2 <= i < n + 2 + blanks ==> s[i] == ' '
    requires s[n + 2 + blanks..n + 2 + blanks + |dest|] == dest && IsSpace(s[n + 2 + blanks + |dest|])
    ensures r == Found(Range(n + 2 + blanks, n + 2 + blanks + |dest|))
  {
    LabelOf(s, 0, text);
    AfterLabel(s, Definition, n, r);
    DefinedAt(s, n, blanks, dest, r);
  }

  lemma DefinedLayout(text: string, blanks: string, dest: string, after: string, s: string, n: nat)
    requires s == "[" + text + "]:" + blanks + dest + after && n == |text| + 1 && after != ""
    requires forall i :: 0 <= i < |blanks| ==> blanks[i] == ' '
    ensures Bracketed(s, 0, text) && n + 2 + |blanks| + |dest| < |s| && s[n + 1] == ':'
    ensures forall i :: n + 2 <= i < n + 2 + |blanks| ==> s[i] == ' '
    ensures s[n + 2 + |blanks|..n + 2 + |blanks| + |dest|] == dest && s[n + 2 + |blanks| + |dest|] == after[0]
  {
    assert s[..0] == "";
    assert s[n + 2 + |blanks|..n + 2 + |blanks| + |dest|] == dest;
    forall i | n + 2 <= i < n + 2 + |blanks|
      ensures s[i] == ' '
    {
      assert s[i] == blanks[i - n - 2];
    }
  }

  /** The destination of a definition follows the colon and blanks behind its label. */
  lemma DefinitionIsFound(text: string, blanks: string, dest: string, after: string, r: Result)
    requires IsLabel(text) && IsDestination(dest) && after != "" && IsSpace(after[0])
    requires forall i :: 0 <= i < |blanks| ==> blanks[i] == ' '
    requires Correct("[" + text + "]:" + blanks + dest + after, Definition, r)
    ensures r == Found(Range(|text| + 3 + |blanks|, |text| + 3 + |blanks| + |dest|))
  {
    var s, n := "[" + text + "]:" + blanks + dest + after, |text| + 1;
    DefinedLayout(text, blanks, dest, after, s, n);
    DefinedIn(s, text, n, |blanks|, dest, r);
  }

  /* ---- Brackets in code spans ---- */

  lemma {:induction false} UnescapedConcat(a: string, b: string)
    requires Complete(a)
    ensures Unescaped(a + b) == Unescaped(a) + Unescaped(b) && (Complete(a + b) <==> Complete(b))
    decreases |a|
  {
    if a == "" {
      assert a + b == b;
    } else {
      var n := if a[0] == '\\' then 2 else 1;
      UnescapedConcat(a[n..], b);
      DropConcat(a, b, n);
    }
  }

  lemma DropConcat(a: string, b: string, n: nat)
    requires n <= |a|
    ensures (a + b)[n..] == a[n..] + b
  {
  }

  lemma NeverNegativeConcat(a: string, b: string, open: char, close: char)
    requires NeverNegative(a, open, close) && NeverNegative(b, open, close)
    ensures NeverNegative(a + b, open, close)
  {
    assert a[..|a|] == a;
    forall i | 0 <= i <= |a + b|
      ensures Depth((a + b)[..i], open, close) >= 0
    {
      if i <= |a| {
        assert (a + b)[..i] == a[..i];
      } else {
        assert (a + b)[..i] == a + b[..i - |a|];
        DepthConcat(a, b[..i - |a|], open, close);
      }
    }
  }

  /** A label may show a code span that holds one bracket; by section 6.3 of CommonMark 0.30 code
      spans bind more tightly than the label. Here a closing one is taken for the end of the label. */
  lemma ClosingBracketInCode(before: string, text: string, more: string, kind: Kind, r: Result)
    requires '[' !in before && IsLabel(text) && kind != Definition
    requires Correct(before + "[" + text + "`]`" + more, kind, r)
    ensures r == Problem(NotInline)
  {
    var shown := text + ['`'];
    assert before + "[" + text + "`]`" + more == before + "[" + shown + "]" + ("`" + more);
    BacktickLabel(text);
    ClosedLabel(before, shown, "`" + more, kind, r);
  }

  lemma BacktickLabel(text: string)
    requires IsLabel(text)
    ensures IsLabel(text + ['`'])
  {
    AppendPlain(text, '`');
    DepthSnoc(Unescaped(text), '`', '[', ']');
    NeverNegativeSnoc(Unescaped(text), '`', '[', ']');
  }

  lemma ClosedLabel(before: string, shown: string, more: string, kind: Kind, r: Result)
    requires '[' !in before && IsLabel(shown) && more != "" && more[0] != '(' && kind != Definition
    requires Correct(before + "[" + shown + "]" + more, kind, r)
    ensures r == Problem(NotInline)
  {
    var s, n := before + "[" + shown + "]" + more, |before| + 1 + |shown|;
    LabelEndsAt(before, shown, more, s, n);
    NotInlineAt(s, n, kind, r);
  }

  lemma NotInlineAt(s: string, n: nat, kind: Kind, r: Result)
    requires IsLabelEnd(s, n) && n + 1 < |s| && s[n + 1] != '(' && kind != Definition && Correct(s, kind, r)
    ensures r == Problem(NotInline)
  {
    AfterLabel(s, kind, n, r);
  }

  /** An opening one is never closed, unless a bracket behind the label does it. */
  lemma OpeningBracketInCode(before: string, a: string, b: string, more: string, kind: Kind, r: Result)
    requires '[' !in before && IsLabel(a) && IsLabel(b) && ']' !in more
    requires Correct(before + "[" + a + "`[`" + b + "]" + more, kind, r)
    ensures r == Problem(NoLabel)
  {
    var shown := a + ("`[`" + b);
    var s := before + "[" + shown + "]" + more;
    assert before + "[" + a + "`[`" + b + "]" + more == s;
    OneOpen(a, b);
    NoLabelEnd(before, shown, more);
    AfterLabel(s, kind, -1, r);
  }

  lemma NoLabelEnd(before: string, shown: string, more: string)
    requires '[' !in before && ']' !in more
    requires Complete(shown) && NeverNegative(Unescaped(shown), '[', ']') && Depth(Unescaped(shown), '[', ']') == 1
    ensures IsLabelEnd(before + "[" + shown + "]" + more, -1)
  {
    var s, first := before + "[" + shown + "]" + more, |before|;
    BracketedIn(before, shown, more);
    assert s[first + 2 + |shown|..] == more;
    FirstIndex(s, '[', first);
    forall e | first <= e < |s|
      ensures !ClosesAt(s, first, e)
    {
      NeverCloses(s, first, shown, more, e);
    }
  }

  lemma OneOpen(a: string, b: string)
    requires IsLabel(a) && IsLabel(b)
    ensures var shown := a + ("`[`" + b);
      Complete(shown) && NeverNegative(Unescaped(shown), '[', ']') && Depth(Unescaped(shown), '[', ']') == 1
  {
    assert "`[`" == ['`', '[', '`'];
    CodeOpens();
    UnescapedConcat("`[`", b);
    UnescapedConcat(a, "`[`" + b);
    DepthConcat("`[`", Unescaped(b), '[', ']');
    DepthConcat(Unescaped(a), "`[`" + Unescaped(b), '[', ']');
    NeverNegativeConcat("`[`", Unescaped(b), '[', ']');
    NeverNegativeConcat(Unescaped(a), "`[`" + Unescaped(b), '[', ']');
  }

  lemma CodeOpens()
    ensures Complete("`[`") && Unescaped("`[`") == "`[`"
    ensures NeverNegative("`[`", '[', ']') && Depth("`[`", '[', ']') == 1
  {
    AppendPlain("", '`');
    AppendPlain("`", '[');
    AppendPlain("`[", '`');
    assert "" + ['`'] == "`" && "`" + ['['] == "`[" && "`[" + ['`'] == "`[`";
    DepthSnoc("", '`', '[', ']');
    DepthSnoc("`", '[', '[', ']');
    DepthSnoc("`[", '`', '[', ']');
    NeverNegativeSnoc("", '`', '[', ']');
    NeverNegativeSnoc("`", '[', '[', ']');
    NeverNegativeSnoc("`[", '`', '[', ']');
  }

  lemma NeverCloses(s: string, first: nat, shown: string, more: string, e: nat)
    requires Bracketed(s, first, shown) && s[first + 2 + |shown|..] == more && ']' !in more && first <= e < |s|
    requires Complete(shown) && NeverNegative(Unescaped(shown), '[', ']') && Depth(Unescaped(shown), '[', ']') == 1
    ensures !ClosesAt(s, first, e)
  {
    assert shown[..|shown|] == shown;
    if first < e < first + 1 + |shown| {
      NotClosedBefore(s, first, shown, e - first - 1, e);
    } else if e == first + 1 + |shown| {
      ClosingDepth(s, first, shown, |shown|, e);
    } else if e > first + 1 + |shown| {
      assert s[e] == more[e - first - 2 - |shown|];
    }
  }
}
