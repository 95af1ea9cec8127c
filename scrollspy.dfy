/** Navigation highlighting: on load and on every scroll, the last section (in
    document order) whose top, less a fixed lookahead, is at or above the scroll
    position decides which navigation link carries the "active" class. */
module ScrollSpy {
  import opened Elements

  /** How far ahead of a section's top its link already becomes active. */
  const Lookahead: int := 100

  /** A page section: its id and its top as an offset from the top of the
      document (the bounding-box top plus the scroll position). */
  datatype Section = Section(id: string, top: int)

  /** A section is in view once its top is at most `Lookahead` below the scroll position. */
  function InView(s: Section, scrollY: int): (b: bool)
    ensures b <==> s.top <= scrollY + Lookahead
  {
    scrollY >= s.top - Lookahead
  }

  /** The section the backward scan stops at: the last one in view, or None
      when no section is in view. */
  function LastInView(sections: seq<Section>, scrollY: int): (r: Option<nat>)
    ensures r.Some? ==> r.value < |sections| && InView(sections[r.value], scrollY)
    ensures r.Some? ==> forall j :: r.value < j < |sections| ==> !InView(sections[j], scrollY)
    ensures r.None? <==> forall j :: 0 <= j < |sections| ==> !InView(sections[j], scrollY)
  {
    if |sections| == 0 then None
    else if InView(sections[|sections| - 1], scrollY) then Some(|sections| - 1)
    else LastInView(sections[..|sections| - 1], scrollY)
  }

  /** The href of the link that points at a section. */
  function Anchor(id: string): string
  {
    "#" + id
  }

  /** `activateNavLink()`: `active` holds the "active" class of every `.nav-link`
      in document order and `hrefs` their href attributes. When a section is in
      view, every flag is cleared and the first link whose href names the chosen
      section is marked; when none is, the flags are left as they were. */
  method ActivateNavLink(sections: seq<Section>, scrollY: int, hrefs: seq<string>, active: array<bool>)
    requires active.Length == |hrefs|
    modifies active
    ensures LastInView(sections, scrollY).None? ==> active[..] == old(active[..])
    ensures LastInView(sections, scrollY).Some? ==>
      active[..] == Marked(|hrefs|, FirstIndex(hrefs, Anchor(sections[LastInView(sections, scrollY).value].id)))
  {
    var index := |sections|;
    while index > 0
      invariant 0 <= index <= |sections|
      invariant forall j :: index <= j < |sections| ==> !InView(sections[j], scrollY)
      invariant active[..] == old(active[..])
    {
      index := index - 1;
      var section := sections[index];
      if scrollY >= section.top - Lookahead {
        ClearAll(active);
        var activeLink := QuerySelector(hrefs, Anchor(section.id));
        if activeLink.Some? {
          MarkedAt(active.Length, activeLink.value);
          active[activeLink.value] := true;
        }
        assert LastInView(sections, scrollY) == Some(index);
        return;
      }
    }
  }

  /** When a section is in view and some link points at it, exactly one link is
      active afterwards: the first such link. When no link points at it, no link
      is active. */
  lemma ActiveLinks(sections: seq<Section>, scrollY: int, hrefs: seq<string>, k: nat)
    requires LastInView(sections, scrollY) == Some(k)
    ensures var flags := Marked(|hrefs|, FirstIndex(hrefs, Anchor(sections[k].id)));
      Count(flags) == (if Anchor(sections[k].id) in hrefs then 1 else 0) &&
      forall j :: 0 <= j < |hrefs| && flags[j] ==>
        hrefs[j] == Anchor(sections[k].id) && FirstIndex(hrefs, hrefs[j]) == Some(j)
  {
    MarkedCount(|hrefs|, FirstIndex(hrefs, Anchor(sections[k].id)));
  }

  /** The chosen section is the largest index in view: a section further down
      that is in view would have been chosen instead. */
  lemma ChosenIsLargest(sections: seq<Section>, scrollY: int, k: nat)
    requires k < |sections| && InView(sections[k], scrollY)
    ensures LastInView(sections, scrollY).Some?
    ensures k <= LastInView(sections, scrollY).value
  {
  }

  /** Sections at offsets 0, 800 and 1600, scrolled to 850: the second one is chosen. */
  lemma MiddleSectionExample()
    ensures LastInView([Section("a", 0), Section("b", 800), Section("c", 1600)], 850) == Some(1)
  {
  }

  /** At the very top of the page the first section, at offset 0, is already in view. */
  lemma TopOfPageExample()
    ensures LastInView([Section("a", 0), Section("b", 800)], 0) == Some(0)
  {
  }
}
