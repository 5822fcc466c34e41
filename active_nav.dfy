/** The scroll-driven active-link highlighter of initActiveNavigation: the
    `.navbar-link[href^="#"]` links get `active` from the section the scroll position
    is in, recomputed at most once per animation frame behind a `ticking` guard. */
module ActiveNav {
  import opened Wrappers
  import opened Layout
  import Seqs

  /** The link flags after the inner loop has run for section `id`: each link is active
      exactly when its href is "#" + id. */
  function Marked(hrefs: seq<string>, id: string): (r: seq<bool>)
    ensures |r| == |hrefs| && forall j :: 0 <= j < |hrefs| ==> r[j] == (hrefs[j] == "#" + id)
  {
    if hrefs == [] then [] else Marked(hrefs[..|hrefs| - 1], id) + [hrefs[|hrefs| - 1] == "#" + id]
  }

  /** The link flags updateActiveNavigation leaves: those of the last section (in document
      order) whose window contains scrollY, or the old flags when no window does. */
  function Highlighted(hrefs: seq<string>, flags: seq<bool>, sections: seq<Element>,
                       scrollY: int, headerHeight: nat): (r: seq<bool>)
    requires |flags| == |hrefs|
    ensures |r| == |hrefs|
    ensures r != flags ==> exists k :: 0 <= k < |sections|
                                      && InWindow(scrollY, sections[k], headerHeight + HighlightMargin)
    ensures forall j :: 0 <= j < |hrefs| && r[j] && !flags[j] ==>
              exists k :: 0 <= k < |sections| && hrefs[j] == "#" + IdText(sections[k].id)
  {
    match LastInWindow(sections, scrollY, headerHeight + HighlightMargin)
    case None => flags
    case Some(k) => Marked(hrefs, IdText(sections[k].id))
  }

  /** The outer loop step: one more section either takes over the flags or leaves them. */
  lemma HighlightedStep(hrefs: seq<string>, flags: seq<bool>, sections: seq<Element>, i: nat,
                        scrollY: int, headerHeight: nat)
    requires |flags| == |hrefs| && i < |sections|
    ensures Highlighted(hrefs, flags, sections[..i + 1], scrollY, headerHeight)
            == if InWindow(scrollY, sections[i], headerHeight + HighlightMargin)
               then Marked(hrefs, IdText(sections[i].id))
               else Highlighted(hrefs, flags, sections[..i], scrollY, headerHeight)
  {
    LastInWindowStep(sections, i, scrollY, headerHeight + HighlightMargin);
  }

  /** With distinct hrefs, marking a section sets one link if some href names it, else none. */
  lemma {:induction false} MarkedCount(hrefs: seq<string>, id: string)
    requires Seqs.Distinct(hrefs)
    ensures Seqs.CountTrue(Marked(hrefs, id)) == if "#" + id in hrefs then 1 else 0
  {
    if hrefs != [] {
      var init := hrefs[..|hrefs| - 1];
      assert Seqs.Distinct(init);
      MarkedCount(init, id);
      var r := Marked(hrefs, id);
      assert r[..|r| - 1] == Marked(init, id);
      assert hrefs == init + [hrefs[|hrefs| - 1]];
      if hrefs[|hrefs| - 1] == "#" + id {
        assert "#" + id !in init;
      }
    }
  }

  /** The highlighter's promise: when some section's window contains scrollY, every link's
      flag is whether it names the last such section, and with distinct hrefs at most one
      link is active (exactly one when a link names that section); otherwise nothing changes. */
  lemma HighlightedLinks(hrefs: seq<string>, flags: seq<bool>, sections: seq<Element>,
                         scrollY: int, headerHeight: nat)
    requires |flags| == |hrefs|
    ensures var r := Highlighted(hrefs, flags, sections, scrollY, headerHeight);
            var shift := headerHeight + HighlightMargin;
            match LastInWindow(sections, scrollY, shift)
            case None =>
              r == flags && forall k :: 0 <= k < |sections| ==> !InWindow(scrollY, sections[k], shift)
            case Some(k) =>
              InWindow(scrollY, sections[k], shift)
              && (forall m :: k < m < |sections| ==> !InWindow(scrollY, sections[m], shift))
              && |r| == |hrefs|
              && (forall j :: 0 <= j < |hrefs| ==> r[j] == (hrefs[j] == "#" + IdText(sections[k].id)))
              && (Seqs.Distinct(hrefs) ==>
                    Seqs.CountTrue(r) == if "#" + IdText(sections[k].id) in hrefs then 1 else 0)
  {
    match LastInWindow(sections, scrollY, headerHeight + HighlightMargin)
    case None =>
    case Some(k) =>
      if Seqs.Distinct(hrefs) {
        MarkedCount(hrefs, IdText(sections[k].id));
      }
  }

  /** With no header element the highlighter's choice is the data-page handler's rule
      (`top <= probe < top + height`) probing HighlightMargin below scrollY. */
  lemma NoHeaderUsesMarginOnly(hrefs: seq<string>, flags: seq<bool>, sections: seq<Element>,
                               scrollY: int)
    requires |flags| == |hrefs|
    ensures Highlighted(hrefs, flags, sections, scrollY, HeaderHeight(None))
            == match LastInWindow(sections, scrollY + HighlightMargin, 0)
               case None => flags
               case Some(k) => Marked(hrefs, IdText(sections[k].id))
  {
    ShiftedProbeAgrees(sections, scrollY, HighlightMargin);
  }

  class ActiveNavigation {
    /** The href of each `.navbar-link[href^="#"]`, in document order. */
    const hrefs: seq<string>
    /** Whether each of those links carries the `active` class. */
    const active: array<bool>
    /** The throttle guard. */
    var ticking: bool
    /** Animation-frame callbacks requested and not yet run. */
    var pendingFrames: nat

    ghost predicate Valid()
      reads this
    {
      active.Length == |hrefs| && pendingFrames == (if ticking then 1 else 0)
    }

    /** initActiveNavigation: the guard starts false and the highlighter runs once. */
    constructor (hrefs: seq<string>, initial: seq<bool>, sections: seq<Element>,
                 scrollY: int, header: Option<nat>)
      requires |initial| == |hrefs|
      ensures Valid() && fresh(active) && this.hrefs == hrefs
      ensures !ticking && pendingFrames == 0
      ensures active[..] == Highlighted(hrefs, initial, sections, scrollY, HeaderHeight(header))
    {
      this.hrefs := hrefs;
      active := new bool[|initial|](i requires 0 <= i < |initial| => initial[i]);
      ticking := false;
      pendingFrames := 0;
      new;
      assert active[..] == initial;
      Update(sections, scrollY, header);
    }

    /** updateActiveNavigation, with the live geometry, scroll offset and header passed in. */
    method Update(sections: seq<Element>, scrollY: int, header: Option<nat>)
      requires Valid()
      modifies active
      ensures active[..] == Highlighted(hrefs, old(active[..]), sections, scrollY, HeaderHeight(header))
    {
      ghost var before := active[..];
      var headerHeight := HeaderHeight(header);
      var i := 0;
      while i < |sections|
        invariant 0 <= i <= |sections|
        invariant active[..] == Highlighted(hrefs, before, sections[..i], scrollY, headerHeight)
      {
        var section := sections[i];
        var sectionTop := section.top - headerHeight - HighlightMargin;
        if scrollY >= sectionTop && scrollY < sectionTop + section.height {
          MarkSection(IdText(section.id));
        }
        HighlightedStep(hrefs, before, sections, i, scrollY, headerHeight);
        i := i + 1;
      }
      assert sections[..|sections|] == sections;
    }

    /** The inner loop for one section: each link becomes active exactly when its href is
        "#" + the section id. */
    method MarkSection(sectionId: string)
      requires Valid()
      modifies active
      ensures active[..] == Marked(hrefs, sectionId)
    {
      var j := 0;
      while j < active.Length
        invariant 0 <= j <= active.Length
        invariant forall m :: 0 <= m < j ==> active[m] == (hrefs[m] == "#" + sectionId)
      {
        active[j] := false;
        if hrefs[j] == "#" + sectionId {
          active[j] := true;
        }
        j := j + 1;
      }
    }

    /** The scroll listener: schedules a frame only when none is pending. */
    method OnScroll()
      requires Valid()
      modifies this
      ensures Valid() && ticking && pendingFrames == 1
      ensures pendingFrames == if old(ticking) then old(pendingFrames) else old(pendingFrames) + 1
      ensures active[..] == old(active[..])
    {
      if !ticking {
        pendingFrames := pendingFrames + 1;
        ticking := true;
      }
    }

    /** The requested animation frame firing: runs the highlighter, then clears the guard. */
    method OnAnimationFrame(sections: seq<Element>, scrollY: int, header: Option<nat>)
      requires Valid() && pendingFrames > 0
      modifies this, active
      ensures Valid() && !ticking && pendingFrames == old(pendingFrames) - 1 == 0
      ensures active[..] == Highlighted(hrefs, old(active[..]), sections, scrollY, HeaderHeight(header))
    {
      Update(sections, scrollY, header);
      pendingFrames := pendingFrames - 1;
      ticking := false;
    }
  }
}
