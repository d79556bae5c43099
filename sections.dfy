/**
 * The section filter of the scraper: an article's body is a tree of sections,
 * each with a title, its own text and an ordered list of subsections. The
 * filter walks the tree in pre-order and concatenates the text of every
 * section whose title is not in the exclusion list; an excluded section takes
 * its whole subtree with it, while its siblings are still examined.
 */
module Sections {

  /** One node of an article's section tree. */
  datatype Section = Section(title: string, text: string, sections: seq<Section>)

  /** Sum of the lengths of all texts in a forest of sections. */
  function TotalText(sections: seq<Section>): nat
    decreases sections
  {
    if sections == [] then 0
    else
      assert sections[0] in sections;
      |sections[0].text| + TotalText(sections[0].sections) + TotalText(sections[1..])
  }

  /**
   * The text kept from `sections`: for each section in order whose title is
   * not excluded, its own text followed by the kept text of its subsections.
   * The exclusion list is matched by exact string equality on titles.
   */
  function Extract(excluded: seq<string>, sections: seq<Section>): (r: string)
    ensures |r| <= TotalText(sections)
    decreases sections
  {
    if sections == [] then ""
    else
      var s := sections[0];
      assert s in sections;
      (if s.title in excluded then "" else s.text + Extract(excluded, s.sections))
      + Extract(excluded, sections[1..])
  }

  /** All sections of a forest, in pre-order: a parent before its subsections, siblings in order. */
  ghost function PreOrder(sections: seq<Section>): seq<Section>
    decreases sections
  {
    if sections == [] then []
    else
      assert sections[0] in sections;
      [sections[0]] + PreOrder(sections[0].sections) + PreOrder(sections[1..])
  }

  /** The texts of a list of sections, concatenated in order. */
  ghost function Texts(nodes: seq<Section>): string
  {
    if nodes == [] then "" else nodes[0].text + Texts(nodes[1..])
  }

  lemma {:induction false} TextsAppend(a: seq<Section>, b: seq<Section>)
    ensures Texts(a + b) == Texts(a) + Texts(b)
  {
    if a == [] {
      assert a + b == b;
    } else {
      assert (a + b)[1..] == a[1..] + b;
      TextsAppend(a[1..], b);
    }
  }

  /** With nothing excluded, the filter yields every text of the tree in pre-order. */
  lemma {:induction false} ExtractNothingExcluded(sections: seq<Section>)
    ensures Extract([], sections) == Texts(PreOrder(sections))
    decreases sections
  {
    if sections != [] {
      var s := sections[0];
      assert s in sections;
      ExtractNothingExcluded(s.sections);
      ExtractNothingExcluded(sections[1..]);
      TextsAppend([s] + PreOrder(s.sections), PreOrder(sections[1..]));
      TextsAppend([s], PreOrder(s.sections));
      assert Texts([s]) == s.text + Texts([]);
    }
  }

  /** Filtering a concatenation of forests concatenates the filtered texts. */
  lemma {:induction false} ExtractAppend(excluded: seq<string>, a: seq<Section>, b: seq<Section>)
    ensures Extract(excluded, a + b) == Extract(excluded, a) + Extract(excluded, b)
    decreases a
  {
    if a == [] {
      assert a + b == b;
    } else {
      assert (a + b)[0] == a[0];
      assert (a + b)[1..] == a[1..] + b;
      ExtractAppend(excluded, a[1..], b);
    }
  }

  /** The text one section contributes when it stands alone. */
  lemma ExtractSingle(excluded: seq<string>, s: Section)
    ensures Extract(excluded, [s]) ==
      if s.title in excluded then "" else s.text + Extract(excluded, s.sections)
  {
  }

  /**
   * Filtering a forest is the concatenation, in order, of filtering each
   * section on its own: siblings do not influence one another.
   */
  lemma {:induction false} ExtractSectionwise(excluded: seq<string>, sections: seq<Section>, i: nat)
    requires i < |sections|
    ensures Extract(excluded, sections) ==
      Extract(excluded, sections[..i]) + Extract(excluded, [sections[i]]) + Extract(excluded, sections[i + 1..])
  {
    assert sections == sections[..i] + ([sections[i]] + sections[i + 1..]);
    ExtractAppend(excluded, sections[..i], [sections[i]] + sections[i + 1..]);
    ExtractAppend(excluded, [sections[i]], sections[i + 1..]);
  }

  /** An excluded section contributes nothing, and its siblings contribute as before. */
  lemma ExcludedSiblingDropped(excluded: seq<string>, sections: seq<Section>, i: nat)
    requires i < |sections| && sections[i].title in excluded
    ensures Extract(excluded, sections) == Extract(excluded, sections[..i]) + Extract(excluded, sections[i + 1..])
  {
    ExtractSectionwise(excluded, sections, i);
    ExtractSingle(excluded, sections[i]);
  }

  /**
   * A path `p` names a section in the tree: `p[0]` indexes the top-level
   * list, `p[1]` the subsections of that section, and so on. `Blocked` holds
   * when some section along the path, the last one included, is excluded.
   */
  ghost predicate Blocked(excluded: seq<string>, sections: seq<Section>, p: seq<nat>)
    decreases p
  {
    |p| > 0 && p[0] < |sections| &&
    (sections[p[0]].title in excluded || Blocked(excluded, sections[p[0]].sections, p[1..]))
  }

  /** The forest with the section at path `p` replaced by `s` (unchanged when `p` names no section). */
  ghost function Replace(sections: seq<Section>, p: seq<nat>, s: Section): seq<Section>
    decreases p
  {
    if |p| == 0 || p[0] >= |sections| then sections
    else if |p| == 1 then sections[p[0] := s]
    else
      var n := sections[p[0]];
      sections[p[0] := n.(sections := Replace(n.sections, p[1..], s))]
  }

  /**
   * Nothing at or below an excluded section reaches the output: whatever is
   * put at a path that is blocked both before and after the change (new
   * text, new subsections at any depth), the filtered text is the same.
   */
  lemma {:induction false} ExcludedSubtreeIgnored(excluded: seq<string>, sections: seq<Section>, p: seq<nat>, s: Section)
    requires Blocked(excluded, sections, p)
    requires Blocked(excluded, Replace(sections, p, s), p)
    ensures Extract(excluded, Replace(sections, p, s)) == Extract(excluded, sections)
    decreases p
  {
    var i := p[0];
    var after := Replace(sections, p, s);
    assert |after| == |sections| && after[..i] == sections[..i] && after[i + 1..] == sections[i + 1..];
    ExtractSectionwise(excluded, sections, i);
    ExtractSectionwise(excluded, after, i);
    ExtractSingle(excluded, sections[i]);
    ExtractSingle(excluded, after[i]);
    if sections[i].title !in excluded {
      var n := sections[i];
      assert |p| > 1;
      assert after[i] == n.(sections := Replace(n.sections, p[1..], s));
      ExcludedSubtreeIgnored(excluded, n.sections, p[1..], s);
    }
  }
}
