/** Splitting and joining text at one separator character, as JavaScript's
    `split` and `join` do. */
module Text {

  /** The last piece grows by more text. */
  function ExtendLast(pieces: seq<string>, more: string): (r: seq<string>)
    requires pieces != []
    ensures |r| == |pieces|
  {
    pieces[..|pieces| - 1] + [pieces[|pieces| - 1] + more]
  }

  /** The pieces between the separators: always one more than there are separators. */
  function Split(s: string, c: char): (r: seq<string>)
    ensures r != []
  {
    if s == "" then [""]
    else if s[|s| - 1] == c then Split(s[..|s| - 1], c) + [""]
    else ExtendLast(Split(s[..|s| - 1], c), [s[|s| - 1]])
  }

  function Join(pieces: seq<string>, c: char): string
    requires pieces != []
  {
    if |pieces| == 1 then pieces[0]
    else Join(pieces[..|pieces| - 1], c) + [c] + pieces[|pieces| - 1]
  }

  predicate NoneContains(pieces: seq<string>, c: char) {
    forall i :: 0 <= i < |pieces| ==> c !in pieces[i]
  }

  lemma JoinSnoc(pieces: seq<string>, piece: string, c: char)
    requires pieces != []
    ensures Join(pieces + [piece], c) == Join(pieces, c) + [c] + piece
  {
    assert (pieces + [piece])[..|pieces|] == pieces;
  }

  lemma ExtendLastSnoc(pieces: seq<string>, piece: string, more: string)
    ensures ExtendLast(pieces + [piece], more) == pieces + [piece + more]
  {
  }

  lemma ExtendLastTwice(pieces: seq<string>, a: string, b: string)
    requires pieces != []
    ensures ExtendLast(ExtendLast(pieces, a), b) == ExtendLast(pieces, a + b)
  {
    var last := pieces[|pieces| - 1];
    assert last + a + b == last + (a + b);
  }

  lemma ExtendLastByNothing(pieces: seq<string>)
    requires pieces != []
    ensures ExtendLast(pieces, "") == pieces
  {
    var last := pieces[|pieces| - 1];
    assert last + "" == last;
  }

  lemma JoinExtendLast(pieces: seq<string>, more: string, c: char)
    requires pieces != []
    ensures Join(ExtendLast(pieces, more), c) == Join(pieces, c) + more
  {
    var front, last := pieces[..|pieces| - 1], pieces[|pieces| - 1];
    if front != [] {
      JoinSnoc(front, last + more, c);
      assert Join(front, c) + [c] + (last + more) == Join(front, c) + [c] + last + more;
    }
  }

  lemma {:induction false} SplitThenJoin(s: string, c: char)
    ensures Join(Split(s, c), c) == s
  {
    if s != "" {
      var front := s[..|s| - 1];
      SplitThenJoin(front, c);
      JoinSnoc(Split(front, c), "", c);
      JoinExtendLast(Split(front, c), [s[|s| - 1]], c);
      assert s == front + [s[|s| - 1]];
    }
  }

  lemma {:induction false} PiecesHaveNoSeparator(s: string, c: char)
    ensures NoneContains(Split(s, c), c)
  {
    if s != "" {
      PiecesHaveNoSeparator(s[..|s| - 1], c);
    }
  }

  lemma SplitSnocSeparator(s: string, c: char)
    ensures Split(s + [c], c) == Split(s, c) + [""]
  {
    assert (s + [c])[..|s|] == s;
  }

  /** Text without separators extends the last piece. */
  lemma {:induction false} SplitExtend(s: string, more: string, c: char)
    requires c !in more
    ensures Split(s + more, c) == ExtendLast(Split(s, c), more)
  {
    if more == "" {
      assert s + more == s;
      ExtendLastByNothing(Split(s, c));
    } else {
      var front, x := more[..|more| - 1], more[|more| - 1];
      assert x in more && front + [x] == more;
      SplitExtend(s, front, c);
      assert (s + more)[..|s + more| - 1] == s + front;
      ExtendLastTwice(Split(s, c), front, [x]);
    }
  }

  lemma SplitWithout(s: string, c: char)
    requires c !in s
    ensures Split(s, c) == [s]
  {
    SplitExtend("", s, c);
    assert "" + s == s;
  }

  /** Splitting text, a separator and a last piece. */
  lemma SplitSnoc(s: string, piece: string, c: char)
    requires c !in piece
    ensures Split(s + [c] + piece, c) == Split(s, c) + [piece]
  {
    SplitSnocSeparator(s, c);
    SplitExtend(s + [c], piece, c);
    ExtendLastSnoc(Split(s, c), "", piece);
    assert "" + piece == piece;
  }

  lemma {:induction false} JoinThenSplit(pieces: seq<string>, c: char)
    requires pieces != [] && NoneContains(pieces, c)
    ensures Split(Join(pieces, c), c) == pieces
  {
    var front, last := pieces[..|pieces| - 1], pieces[|pieces| - 1];
    assert c !in last;
    if front == [] {
      SplitWithout(last, c);
    } else {
      assert NoneContains(front, c);
      JoinThenSplit(front, c);
      SplitSnoc(Join(front, c), last, c);
    }
  }
}
