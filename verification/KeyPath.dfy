/** Schema key paths such as `agents[].id`: scripts/gen-config-catalog.ts, `parsePath`. */
module KeyPath {
  import opened Text
  import opened TypeLookup

  predicate EndsWithBrackets(s: string) {
    |s| >= 2 && s[|s| - 2..] == "[]"
  }

  /** The steps of one dot-free segment. */
  function SegmentSteps(segment: string): (r: seq<Step>)
    ensures r != []
    decreases |segment|
  {
    if EndsWithBrackets(segment) then SegmentSteps(segment[..|segment| - 2]) + [Element] else [Member(segment)]
  }

  function PathSteps(segments: seq<string>): seq<Step> {
    if segments == [] then []
    else PathSteps(segments[..|segments| - 1]) + SegmentSteps(segments[|segments| - 1])
  }

  /** Writing steps as a key path. */
  function Render(steps: seq<Step>): string
    requires steps != [] && steps[0].Member?
  {
    var last := |steps| - 1;
    match steps[last]
    case Element => Render(steps[..last]) + "[]"
    case Member(name) => if last == 0 then name else Render(steps[..last]) + "." + name
  }

  /** Steps that a path can spell: a member comes first, and member names carry
      neither dots nor trailing brackets. */
  predicate Spellable(steps: seq<Step>) {
    && steps != [] && steps[0].Member?
    && forall i :: 0 <= i < |steps| && steps[i].Member? ==>
         '.' !in steps[i].name && !EndsWithBrackets(steps[i].name)
  }

  /** `parsePath`, with its loops. */
  method ParsePath(path: string) returns (steps: seq<Step>)
    ensures steps == PathSteps(Split(path, '.'))
  {
    steps := [];
    var segments := Split(path, '.');
    for k := 0 to |segments|
      invariant steps == PathSteps(segments[..k])
    {
      var name, arrays := segments[k], 0;
      while EndsWithBrackets(name)
        invariant SegmentSteps(segments[k]) == SegmentSteps(name) + Elements(arrays)
        decreases |name|
      {
        ElementsComeLast(arrays);
        assert SegmentSteps(name) + Elements(arrays)
            == SegmentSteps(name[..|name| - 2]) + ([Element] + Elements(arrays));
        name := name[..|name| - 2];
        arrays := arrays + 1;
      }
      steps := steps + [Member(name)];
      for i := 0 to arrays
        invariant steps == PathSteps(segments[..k]) + [Member(name)] + Elements(i)
      {
        steps := steps + [Element];
      }
      assert segments[..k + 1][..k] == segments[..k];
      assert steps == PathSteps(segments[..k]) + ([Member(name)] + Elements(arrays));
    }
    assert segments[..|segments|] == segments;
  }

  function Elements(n: nat): seq<Step> {
    if n == 0 then [] else Elements(n - 1) + [Element]
  }

  lemma {:induction false} ElementsComeLast(n: nat)
    ensures Elements(n + 1) == [Element] + Elements(n)
  {
    if n > 0 {
      ElementsComeLast(n - 1);
    }
  }

  /* ---- Paths and spellable steps correspond one to one ---- */

  lemma {:induction false} SegmentSpellable(segment: string)
    requires '.' !in segment
    ensures Spellable(SegmentSteps(segment)) && Render(SegmentSteps(segment)) == segment
    decreases |segment|
  {
    if EndsWithBrackets(segment) {
      var shorter := segment[..|segment| - 2];
      SegmentSpellable(shorter);
      assert SegmentSteps(segment)[..|SegmentSteps(segment)| - 1] == SegmentSteps(shorter);
      assert segment == shorter + "[]";
    }
  }

  lemma RenderElement(steps: seq<Step>)
    requires Spellable(steps)
    ensures Spellable(steps + [Element]) && Render(steps + [Element]) == Render(steps) + "[]"
  {
    assert (steps + [Element])[..|steps|] == steps;
  }

  lemma RenderMember(steps: seq<Step>, name: string)
    requires Spellable(steps) && '.' !in name && !EndsWithBrackets(name)
    ensures Spellable(steps + [Member(name)]) && Render(steps + [Member(name)]) == Render(steps) + "." + name
  {
    assert (steps + [Member(name)])[..|steps|] == steps;
  }

  lemma {:induction false} RenderAppend(front: seq<Step>, segment: string)
    requires Spellable(front) && '.' !in segment
    ensures Spellable(front + SegmentSteps(segment))
    ensures Render(front + SegmentSteps(segment)) == Render(front) + "." + segment
    decreases |segment|
  {
    if EndsWithBrackets(segment) {
      var shorter := segment[..|segment| - 2];
      var steps := front + SegmentSteps(shorter);
      RenderAppend(front, shorter);
      RenderElement(steps);
      assert front + SegmentSteps(segment) == steps + [Element];
      BracketsLast(Render(front), segment);
    } else {
      RenderMember(front, segment);
    }
  }

  lemma BracketsLast(a: string, segment: string)
    requires EndsWithBrackets(segment)
    ensures a + "." + segment[..|segment| - 2] + "[]" == a + "." + segment
  {
    assert segment == segment[..|segment| - 2] + "[]";
  }

  lemma {:induction false} SegmentsRender(segments: seq<string>)
    requires segments != [] && forall i :: 0 <= i < |segments| ==> '.' !in segments[i]
    ensures Spellable(PathSteps(segments)) && Render(PathSteps(segments)) == Join(segments, '.')
  {
    var last := |segments| - 1;
    if last == 0 {
      assert PathSteps(segments) == SegmentSteps(segments[0]);
      SegmentSpellable(segments[0]);
    } else {
      SegmentsRender(segments[..last]);
      RenderAppend(PathSteps(segments[..last]), segments[last]);
    }
  }

  /** Every path parses into spellable steps that write back to it. */
  lemma ParseThenRender(path: string)
    ensures var steps := PathSteps(Split(path, '.')); Spellable(steps) && Render(steps) == path
  {
    SplitThenJoin(path, '.');
    PiecesHaveNoSeparator(path, '.');
    SegmentsRender(Split(path, '.'));
  }

  lemma PathStepsSnoc(segments: seq<string>, segment: string)
    ensures PathSteps(segments + [segment]) == PathSteps(segments) + SegmentSteps(segment)
  {
    assert (segments + [segment])[..|segments|] == segments;
  }

  /** A further pair of brackets is a further element step. */
  lemma ParseElement(path: string)
    ensures PathSteps(Split(path + "[]", '.')) == PathSteps(Split(path, '.')) + [Element]
  {
    var segments := Split(path, '.');
    var front, last := segments[..|segments| - 1], segments[|segments| - 1];
    SplitExtend(path, "[]", '.');
    PathStepsSnoc(front, last + "[]");
    PathStepsSnoc(front, last);
    assert segments == front + [last];
    assert (last + "[]")[..|last|] == last;
    assert PathSteps(front) + (SegmentSteps(last) + [Element]) == PathSteps(front) + SegmentSteps(last) + [Element];
  }

  lemma ParseMember(path: string, name: string)
    requires '.' !in name && !EndsWithBrackets(name)
    ensures PathSteps(Split(path + "." + name, '.')) == PathSteps(Split(path, '.')) + [Member(name)]
  {
    SplitSnoc(path, name, '.');
    PathStepsSnoc(Split(path, '.'), name);
  }

  /** Spellable steps are what their path parses into. */
  lemma {:induction false} RenderThenParse(steps: seq<Step>)
    requires Spellable(steps)
    ensures PathSteps(Split(Render(steps), '.')) == steps
  {
    var front, last := steps[..|steps| - 1], steps[|steps| - 1];
    assert steps == front + [last];
    if front == [] {
      SplitWithout(last.name, '.');
      assert PathSteps([last.name]) == SegmentSteps(last.name);
    } else {
      assert Spellable(front);
      RenderThenParse(front);
      match last
      case Element => ParseElement(Render(front));
      case Member(name) => ParseMember(Render(front), name);
    }
  }
}
