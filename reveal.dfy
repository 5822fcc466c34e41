/** The reveal-on-scroll callback of initAnimationOnScroll: an observed element that is
    reported intersecting gets `animate-in`, and nothing ever removes it. */
module Reveal {

  /** An IntersectionObserver entry: which observed element, and whether it is intersecting. */
  datatype Entry = Entry(target: nat, isIntersecting: bool)

  /** Whether some entry reports element i as intersecting. */
  predicate Entered(entries: seq<Entry>, i: nat)
    ensures Entered(entries, i) <==> exists k :: 0 <= k < |entries| && entries[k] == Entry(i, true)
  {
    if entries == [] then false
    else Entered(entries[..|entries| - 1], i) || entries[|entries| - 1] == Entry(i, true)
  }

  class Revealer {
    /** Whether each observed element carries `animate-in`. */
    const animateIn: array<bool>

    constructor (initial: seq<bool>)
      ensures fresh(animateIn) && animateIn[..] == initial
    {
      animateIn := new bool[|initial|](i requires 0 <= i < |initial| => initial[i]);
      new;
      assert animateIn[..] == initial;
    }

    /** The observer callback for one batch of entries. */
    method OnIntersection(entries: seq<Entry>)
      requires forall k :: 0 <= k < |entries| ==> entries[k].target < animateIn.Length
      modifies animateIn
      ensures forall i :: 0 <= i < animateIn.Length ==> animateIn[i] == (old(animateIn[i]) || Entered(entries, i))
      ensures forall i :: 0 <= i < animateIn.Length && old(animateIn[i]) ==> animateIn[i]
    {
      var k := 0;
      while k < |entries|
        invariant 0 <= k <= |entries|
        invariant forall i :: 0 <= i < animateIn.Length ==>
                    animateIn[i] == (old(animateIn[i]) || Entered(entries[..k], i))
      {
        var entry := entries[k];
        if entry.isIntersecting {
          animateIn[entry.target] := true;
        }
        assert entries[..k + 1][..k] == entries[..k];
        k := k + 1;
      }
      assert entries[..|entries|] == entries;
    }
  }
}
