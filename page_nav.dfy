/** The second navigation system over the `[data-nav-link]` links: a click activates the
    clicked link, and an unthrottled scroll listener activates the link of the
    `section[data-page]` that the point 100 below scrollY falls in. */
module PageNav {
  import opened Wrappers
  import opened Layout
  import Seqs

  /** The link flags the scroll listener leaves: when the probe lies in some section, only
      the first link whose href is "#" + that section's id (of the last such section) is
      active, and none is when no link has that href; otherwise the old flags. */
  function ScrollLanding(hrefs: seq<string>, flags: seq<bool>, sections: seq<Element>,
                         probe: int): (r: seq<bool>)
    requires |flags| == |hrefs|
    ensures |r| == |hrefs|
    ensures r == flags || Seqs.CountTrue(r) <= 1
    ensures r != flags ==> exists k :: 0 <= k < |sections| && InWindow(probe, sections[k], 0)
  {
    match LastInWindow(sections, probe, 0)
    case None => flags
    case Some(s) => Seqs.OnlyAt(|hrefs|, Seqs.FirstIndexOf(hrefs, "#" + IdText(sections[s].id)))
  }

  /** After a scroll at most one link is active when some section contains the probe, and
      the flags are untouched when none does; with no header the choice of section is the
      one the throttled highlighter makes. */
  lemma ScrollLandingLinks(hrefs: seq<string>, flags: seq<bool>, sections: seq<Element>,
                           scrollY: int)
    requires |flags| == |hrefs|
    ensures var r := ScrollLanding(hrefs, flags, sections, scrollY + ProbeOffset);
            var target := LastInWindow(sections, scrollY + ProbeOffset, 0);
            && target == LastInWindow(sections, scrollY, HighlightMargin)
            && |r| == |hrefs|
            && (target.None? ==> r == flags)
            && (target.Some? ==>
                  Seqs.CountTrue(r) == (if "#" + IdText(sections[target.value].id) in hrefs then 1 else 0)
                  && forall j :: 0 <= j < |hrefs| ==>
                       (r[j] <==> hrefs[j] == "#" + IdText(sections[target.value].id)
                                  && forall m :: 0 <= m < j ==> hrefs[m] != hrefs[j]))
  {
  }

  class PageNavigation {
    /** The href of each `[data-nav-link]`, in document order. */
    const hrefs: seq<string>
    /** Whether each of those links carries the `active` class. */
    const active: array<bool>

    ghost predicate Valid()
      reads this
    {
      active.Length == |hrefs|
    }

    constructor (hrefs: seq<string>, initial: seq<bool>)
      requires |initial| == |hrefs|
      ensures Valid() && fresh(active) && this.hrefs == hrefs && active[..] == initial
    {
      this.hrefs := hrefs;
      active := new bool[|initial|](i requires 0 <= i < |initial| => initial[i]);
      new;
      assert active[..] == initial;
    }

    /** `navigationLinks.forEach(link => link.classList.remove("active"))` */
    method ClearAll()
      requires Valid()
      modifies active
      ensures forall j :: 0 <= j < active.Length ==> !active[j]
    {
      var j := 0;
      while j < active.Length
        invariant 0 <= j <= active.Length
        invariant forall m :: 0 <= m < j ==> !active[m]
      {
        active[j] := false;
        j := j + 1;
      }
    }

    /** The click listener of link k: only link k stays active; the element whose id is the
        href without its '#' (when there is one) is the one scrolled into view. */
    method Click(k: nat, elems: seq<Element>) returns (scrollTarget: Option<nat>)
      requires Valid() && k < |hrefs|
      modifies active
      ensures active[..] == Seqs.OnlyAt(|hrefs|, Some(k))
      ensures Seqs.CountTrue(active[..]) == 1 && active[k]
      ensures scrollTarget == ElementById(elems, Fragment(hrefs[k]))
    {
      ClearAll();
      active[k] := true;
      assert active[..] == Seqs.OnlyAt(|hrefs|, Some(k));
      scrollTarget := ElementById(elems, Fragment(hrefs[k]));
    }

    /** One matching section of the scroll listener: clear every link, then activate the
        first `[data-nav-link][href="#id"]`, if there is one. */
    method Activate(sectionId: string)
      requires Valid()
      modifies active
      ensures active[..] == Seqs.OnlyAt(|hrefs|, Seqs.FirstIndexOf(hrefs, "#" + sectionId))
    {
      ClearAll();
      var activeLink := Seqs.FirstIndexOf(hrefs, "#" + sectionId);
      if activeLink.Some? {
        active[activeLink.value] := true;
      }
      assert active[..] == Seqs.OnlyAt(|hrefs|, activeLink);
    }

    /** The scroll listener, with the live `section[data-page]` geometry and scrollY passed in. */
    method OnScroll(sections: seq<Element>, scrollY: int)
      requires Valid()
      modifies active
      ensures active[..] == ScrollLanding(hrefs, old(active[..]), sections, scrollY + ProbeOffset)
    {
      ghost var before := active[..];
      var scrollPos := scrollY + ProbeOffset;
      var i := 0;
      while i < |sections|
        invariant 0 <= i <= |sections|
        invariant active[..] == ScrollLanding(hrefs, before, sections[..i], scrollPos)
      {
        var section := sections[i];
        var sectionTop := section.top;
        var sectionId := IdText(section.id);
        if scrollPos >= sectionTop && scrollPos < sectionTop + section.height {
          Activate(sectionId);
        }
        LastInWindowStep(sections, i, scrollPos, 0);
        assert sections[..i + 1][i] == section;
        i := i + 1;
      }
      assert sections[..|sections|] == sections;
    }
  }
}
