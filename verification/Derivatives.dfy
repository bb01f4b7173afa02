/** Chinese code blocks that repeat their English siblings:
    scripts/paired-markdown-derivatives.ts. */
module Derivatives {
  import opened Options
  import opened Sequences

  const SUFFIX: string := ".zh.md"

  /** `unsuffixedSibling` */
  function Sibling(doc: string): (r: Option<string>)
    ensures r.Some? ==> |r.value| < |doc|
  {
    if |doc| >= |SUFFIX| && doc[|doc| - |SUFFIX|..] == SUFFIX
    then Some(doc[..|doc| - |SUFFIX|] + ".md")
    else None
  }

  /** The sibling of a Chinese document has the same path without the suffix; other documents have none. */
  lemma SiblingIff(doc: string, sibling: string)
    ensures Sibling(doc) == Some(sibling) <==> exists x :: doc == x + ".zh.md" && sibling == x + ".md"
  {
    if Sibling(doc) == Some(sibling) {
      assert doc == doc[..|doc| - |SUFFIX|] + ".zh.md";
    }
    if x :| doc == x + ".zh.md" && sibling == x + ".md" {
      assert doc[|doc| - |SUFFIX|..] == SUFFIX && doc[..|doc| - |SUFFIX|] == x;
    }
  }

  /** The caller's view of a block: the document it belongs to, and its fingerprint. */
  datatype View<!T> = View(docOf: T -> string, fingerprintOf: T -> string)

  /** The blocks of one document, in order. */
  function Group<T>(blocks: seq<T>, view: View<T>, doc: string): seq<T> {
    if blocks == [] then []
    else
      var front, last := Group(blocks[..|blocks| - 1], view, doc), blocks[|blocks| - 1];
      if view.docOf(last) == doc then front + [last] else front
  }

  function Fingerprints<T>(blocks: seq<T>, view: View<T>): (r: seq<string>)
    ensures |r| == |blocks| && forall i :: 0 <= i < |r| ==> r[i] == view.fingerprintOf(blocks[i])
  {
    seq(|blocks|, i requires 0 <= i < |blocks| => view.fingerprintOf(blocks[i]))
  }

  /** The document repeats the blocks of its unsuffixed sibling. */
  predicate Derived<T(==)>(blocks: seq<T>, view: View<T>, doc: string) {
    && Group(blocks, view, doc) != []
    && Sibling(doc).Some?
    && Fingerprints(Group(blocks, view, doc), view) == Fingerprints(Group(blocks, view, Sibling(doc).value), view)
  }

  /** The blocks among `some` whose document is derived, or is not, in order. */
  function Select<T(==)>(blocks: seq<T>, view: View<T>, derived: bool, some: seq<T>): seq<T> {
    if some == [] then []
    else
      var front, last := Select(blocks, view, derived, some[..|some| - 1]), some[|some| - 1];
      if Derived(blocks, view, view.docOf(last)) == derived then front + [last] else front
  }

  /* ---- partitionPairedMarkdownDerivatives ---- */

  ghost predicate Grouped<T>(blocks: seq<T>, view: View<T>, byDoc: map<string, seq<T>>) {
    forall doc ::
      (doc in byDoc <==> Group(blocks, view, doc) != []) && (doc in byDoc ==> byDoc[doc] == Group(blocks, view, doc))
  }

  lemma GroupSnoc<T>(blocks: seq<T>, view: View<T>, block: T, doc: string)
    ensures Group(blocks + [block], view, doc) ==
            if view.docOf(block) == doc then Group(blocks, view, doc) + [block] else Group(blocks, view, doc)
  {
    assert (blocks + [block])[..|blocks|] == blocks;
  }

  method GroupByDoc<T(==)>(blocks: seq<T>, view: View<T>) returns (byDoc: map<string, seq<T>>)
    ensures Grouped(blocks, view, byDoc)
  {
    byDoc := map[];
    for i := 0 to |blocks|
      invariant Grouped(blocks[..i], view, byDoc)
    {
      var doc := view.docOf(blocks[i]);
      ghost var before := byDoc;
      byDoc := byDoc[doc := if doc in byDoc then byDoc[doc] + [blocks[i]] else [blocks[i]]];
      TakeNext(blocks, i);
      GroupedStep(blocks[..i], view, blocks[i], before);
    }
    assert blocks[..|blocks|] == blocks;
  }

  lemma GroupedStep<T>(blocks: seq<T>, view: View<T>, block: T, byDoc: map<string, seq<T>>)
    requires Grouped(blocks, view, byDoc)
    ensures var doc := view.docOf(block);
            Grouped(blocks + [block], view, byDoc[doc := if doc in byDoc then byDoc[doc] + [block] else [block]])
  {
    forall doc
      ensures var group := Group(blocks + [block], view, doc);
              group == if view.docOf(block) == doc then Group(blocks, view, doc) + [block] else Group(blocks, view, doc)
    {
      GroupSnoc(blocks, view, block, doc);
    }
  }

  /** The comparison of two groups, position by position. */
  method SameFingerprints<T>(candidates: seq<T>, originals: seq<T>, view: View<T>) returns (same: bool)
    ensures same <==> Fingerprints(candidates, view) == Fingerprints(originals, view)
  {
    if |originals| != |candidates| {
      assert |Fingerprints(candidates, view)| != |Fingerprints(originals, view)|;
      return false;
    }
    for i := 0 to |candidates|
      invariant forall j :: 0 <= j < i ==> view.fingerprintOf(candidates[j]) == view.fingerprintOf(originals[j])
    {
      if view.fingerprintOf(candidates[i]) != view.fingerprintOf(originals[i]) {
        assert Fingerprints(candidates, view)[i] != Fingerprints(originals, view)[i];
        return false;
      }
    }
    return true;
  }

  method DerivedDocs<T(==)>(blocks: seq<T>, view: View<T>, byDoc: map<string, seq<T>>) returns (docs: set<string>)
    requires Grouped(blocks, view, byDoc)
    ensures forall doc :: doc in docs <==> Derived(blocks, view, doc)
  {
    docs := {};
    var left := byDoc.Keys;
    while left != {}
      invariant left <= byDoc.Keys
      invariant forall doc :: doc in docs <==> doc in byDoc && doc !in left && Derived(blocks, view, doc)
      decreases |left|
    {
      var doc :| doc in left;
      left := left - {doc};
      var sibling := Sibling(doc);
      if sibling.Some? && sibling.value in byDoc {
        var same := SameFingerprints(byDoc[doc], byDoc[sibling.value], view);
        if same {
          docs := docs + {doc};
        }
      } else if sibling.Some? {
        assert Fingerprints(Group(blocks, view, doc), view)
          != Fingerprints(Group(blocks, view, sibling.value), view) by {
          assert Group(blocks, view, sibling.value) == [];
          assert |Fingerprints(Group(blocks, view, doc), view)| > 0;
        }
      }
    }
  }

  lemma SelectSnoc<T>(blocks: seq<T>, view: View<T>, derived: bool, some: seq<T>, block: T)
    ensures Select(blocks, view, derived, some + [block]) ==
            if Derived(blocks, view, view.docOf(block)) == derived
            then Select(blocks, view, derived, some) + [block] else Select(blocks, view, derived, some)
  {
    assert (some + [block])[..|some|] == some;
  }

  /** `partitionPairedMarkdownDerivatives` */
  method Partition<T(==)>(blocks: seq<T>, view: View<T>) returns (primary: seq<T>, derivatives: seq<T>)
    ensures primary == Select(blocks, view, false, blocks)
    ensures derivatives == Select(blocks, view, true, blocks)
  {
    var byDoc := GroupByDoc(blocks, view);
    var docs := DerivedDocs(blocks, view, byDoc);
    primary, derivatives := [], [];
    for i := 0 to |blocks|
      invariant primary == Select(blocks, view, false, blocks[..i])
      invariant derivatives == Select(blocks, view, true, blocks[..i])
    {
      TakeNext(blocks, i);
      SelectSnoc(blocks, view, false, blocks[..i], blocks[i]);
      SelectSnoc(blocks, view, true, blocks[..i], blocks[i]);
      if view.docOf(blocks[i]) in docs {
        derivatives := derivatives + [blocks[i]];
      } else {
        primary := primary + [blocks[i]];
      }
    }
    assert blocks[..|blocks|] == blocks;
  }

  /* ---- What the partition promises ---- */

  /** For each block, whether it is a derivative. */
  function Flags<T(==)>(blocks: seq<T>, view: View<T>, some: seq<T>): seq<bool> {
    if some == [] then []
    else Flags(blocks, view, some[..|some| - 1]) + [Derived(blocks, view, view.docOf(some[|some| - 1]))]
  }

  /** Take from the derivatives where the flag is set, from the primaries where it is not. */
  function Interleave<T>(flags: seq<bool>, primary: seq<T>, derivatives: seq<T>): Option<seq<T>>
    decreases |flags|
  {
    if flags == [] then (if primary == [] && derivatives == [] then Some([]) else None)
    else
      var n, from := |flags| - 1, if flags[|flags| - 1] then derivatives else primary;
      if from == [] then None
      else
        var rest := if flags[n] then Interleave(flags[..n], primary, derivatives[..|derivatives| - 1])
                    else Interleave(flags[..n], primary[..|primary| - 1], derivatives);
        if rest.None? then None else Some(rest.value + [from[|from| - 1]])
  }

  lemma InterleaveSnoc<T>(flags: seq<bool>, primary: seq<T>, derivatives: seq<T>, x: T)
    requires Interleave(flags, primary, derivatives).Some?
    ensures Interleave(flags + [false], primary + [x], derivatives)
      == Some(Interleave(flags, primary, derivatives).value + [x])
    ensures Interleave(flags + [true], primary, derivatives + [x])
      == Some(Interleave(flags, primary, derivatives).value + [x])
  {
    assert (flags + [false])[..|flags|] == flags && (flags + [true])[..|flags|] == flags;
    assert (primary + [x])[..|primary|] == primary && (derivatives + [x])[..|derivatives|] == derivatives;
  }

  /** Both parts keep the order, and together they are the input, each block once. */
  lemma {:induction false} SplitIsComplete<T>(blocks: seq<T>, view: View<T>, some: seq<T>)
    ensures Interleave(Flags(blocks, view, some), Select(blocks, view, false, some), Select(blocks, view, true, some))
      == Some(some)
  {
    if some != [] {
      var front, last := some[..|some| - 1], some[|some| - 1];
      SplitIsComplete(blocks, view, front);
      InterleaveSnoc(Flags(blocks, view, front), Select(blocks, view, false, front),
        Select(blocks, view, true, front), last);
      assert some == front + [last];
    }
  }

  /** The document whose blocks are checked for this one: strip suffixes while the document is derived. */
  function Ancestor<T(==)>(blocks: seq<T>, view: View<T>, doc: string): string
    decreases |doc|
  {
    if Derived(blocks, view, doc) then Ancestor(blocks, view, Sibling(doc).value) else doc
  }

  /** The ancestor is not derived itself and has the same fingerprints, position by position. */
  lemma {:induction false} AncestorIsPrimary<T>(blocks: seq<T>, view: View<T>, doc: string)
    ensures var a := Ancestor(blocks, view, doc);
            && !Derived(blocks, view, a)
            && Fingerprints(Group(blocks, view, a), view) == Fingerprints(Group(blocks, view, doc), view)
    decreases |doc|
  {
    if Derived(blocks, view, doc) {
      AncestorIsPrimary(blocks, view, Sibling(doc).value);
    }
  }

  lemma {:induction false} GroupHolds<T>(blocks: seq<T>, view: View<T>, doc: string, block: T)
    ensures block in Group(blocks, view, doc) <==> block in blocks && view.docOf(block) == doc
  {
    if blocks != [] {
      var front, last := blocks[..|blocks| - 1], blocks[|blocks| - 1];
      assert blocks == front + [last];
      GroupHolds(front, view, doc, block);
    }
  }

  /** The group of a document is its blocks, in the order of the input. */
  lemma {:induction false} GroupSelects<T>(blocks: seq<T>, view: View<T>, doc: string)
    ensures Selects(blocks, b => view.docOf(b) == doc, Group(blocks, view, doc))
  {
    var p := b => view.docOf(b) == doc;
    if blocks == [] {
      SelectsNone(p);
    } else {
      var front, last := blocks[..|blocks| - 1], blocks[|blocks| - 1];
      GroupSelects(front, view, doc);
      SelectsSnoc(front, last, p, Group(front, view, doc));
      assert front + [last] == blocks;
    }
  }

  lemma {:induction false} SelectHolds<T>(blocks: seq<T>, view: View<T>, derived: bool, some: seq<T>, block: T)
    ensures block in Select(blocks, view, derived, some) <==>
      block in some && Derived(blocks, view, view.docOf(block)) == derived
  {
    if some != [] {
      var front, last := some[..|some| - 1], some[|some| - 1];
      assert some == front + [last];
      SelectHolds(blocks, view, derived, front, block);
    }
  }

  /** Every block of a document has a primary block with its fingerprint at its position in the ancestor. */
  lemma PrimaryCounterpart<T>(blocks: seq<T>, view: View<T>, doc: string, i: nat)
    requires i < |Group(blocks, view, doc)|
    ensures var originals := Group(blocks, view, Ancestor(blocks, view, doc));
            && i < |originals| && originals[i] in Select(blocks, view, false, blocks)
            && view.fingerprintOf(originals[i]) == view.fingerprintOf(Group(blocks, view, doc)[i])
  {
    var a := Ancestor(blocks, view, doc);
    var originals, group := Group(blocks, view, a), Group(blocks, view, doc);
    AncestorIsPrimary(blocks, view, doc);
    assert |originals| == |group|;
    assert Fingerprints(originals, view)[i] == Fingerprints(group, view)[i];
    GroupHolds(blocks, view, a, originals[i]);
    SelectHolds(blocks, view, false, blocks, originals[i]);
  }

  /** A check of fingerprints that all primaries pass is passed by all blocks. */
  lemma CheckingPrimariesSuffices<T>(blocks: seq<T>, view: View<T>, passes: string -> bool)
    requires forall p :: p in Select(blocks, view, false, blocks) ==> passes(view.fingerprintOf(p))
    ensures forall block :: block in blocks ==> passes(view.fingerprintOf(block))
  {
    forall block | block in blocks
      ensures passes(view.fingerprintOf(block))
    {
      var doc := view.docOf(block);
      GroupHolds(blocks, view, doc, block);
      var i :| 0 <= i < |Group(blocks, view, doc)| && Group(blocks, view, doc)[i] == block;
      PrimaryCounterpart(blocks, view, doc, i);
    }
  }
}
