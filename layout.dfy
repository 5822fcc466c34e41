/** Layout geometry as the handlers read it, and the arithmetic they do on it:
    header height, smooth-scroll targets, and which section a scroll position falls in. */
module Layout {
  import opened Wrappers

  /** An element as the handlers see it: its `id` attribute (None when absent),
      its offsetTop and its offsetHeight. */
  datatype Element = Element(id: Option<string>, top: int, height: nat)

  /** Gap left between the fixed header and a section scrolled to by a link click. */
  const ScrollGap: int := 20

  /** How far above `top - header` the scroll highlighter's section windows start. */
  const HighlightMargin: int := 100

  /** How far below scrollY the data-page scroll handler probes. */
  const ProbeOffset: int := 100

  /** `${id}` in a template literal: an absent attribute (null) renders as "null", so a
      section without an id cannot be told apart from one whose id is "null". */
  function IdText(id: Option<string>): (r: string)
    ensures id.Some? ==> r == id.value
    ensures r == "null" <==> id == None || id == Some("null")
  {
    match id
    case None => "null"
    case Some(s) => s
  }

  /** `document.querySelector('.header')?.offsetHeight || 0`: a missing header counts as height 0. */
  function HeaderHeight(header: Option<nat>): nat
  {
    match header
    case None => 0
    case Some(h) => h
  }

  /** `href.substring(1)`: the href without its first character ("" for an empty href). */
  function Fragment(href: string): (f: string)
    ensures |href| > 0 ==> href == href[..1] + f
    ensures |href| == 0 ==> f == ""
  {
    if |href| == 0 then "" else href[1..]
  }

  /** `document.getElementById(id)` over the page's elements in document order:
      the first element whose id is `id`; no element has the empty id. */
  function ElementById(elems: seq<Element>, id: string): (r: Option<nat>)
    ensures r.Some? ==> id != "" && r.value < |elems| && elems[r.value].id == Some(id)
    ensures r.Some? ==> forall j :: 0 <= j < r.value ==> elems[j].id != Some(id)
    ensures r.None? ==> id == "" || forall j :: 0 <= j < |elems| ==> elems[j].id != Some(id)
  {
    if id == "" || elems == [] then None
    else if elems[0].id == Some(id) then Some(0)
    else match ElementById(elems[1..], id)
      case None => None
      case Some(k) => Some(k + 1)
  }

  /** A code point that may start a CSS identifier: an ASCII letter, `_`, or any non-ASCII. */
  predicate IsIdentStart(c: char)
  {
    ('a' <= c <= 'z') || ('A' <= c <= 'Z') || c == '_' || c as int >= 0x80
  }

  /** A code point that may continue a CSS identifier. */
  predicate IsIdentChar(c: char)
  {
    IsIdentStart(c) || ('0' <= c <= '9') || c == '-'
  }

  /** A CSS identifier written without escapes (CSS Syntax Level 3, section 4.3.9, "check if
      three code points would start an ident sequence"): `#` followed by such a name is an ID
      selector and nothing more. */
  predicate IsPlainIdent(s: string)
  {
    && |s| > 0
    && (forall i :: 0 <= i < |s| ==> IsIdentChar(s[i]))
    && (IsIdentStart(s[0]) || (s[0] == '-' && |s| > 1 && (IsIdentStart(s[1]) || s[1] == '-')))
  }

  /** The smooth-scroll click handler of a `.navbar-link[href^="#"]`: the document offset it
      asks window.scrollTo for. The href goes to querySelector; the model finds a target
      only when the href is a plain ID selector, and then it is the first element with
      that id. */
  function SmoothScrollRequest(href: string, elems: seq<Element>, header: Option<nat>): (r: Option<int>)
    requires |href| > 0 && href[0] == '#'
    ensures r.None? <==> !IsPlainIdent(href[1..]) || forall j :: 0 <= j < |elems| ==> elems[j].id != Some(href[1..])
    ensures r.Some? ==> (exists k :: 0 <= k < |elems| && elems[k].id == Some(href[1..])
                          && (forall j :: 0 <= j < k ==> elems[j].id != Some(href[1..]))
                          && r.value == elems[k].top - HeaderHeight(header) - ScrollGap)
    ensures header.None? && r.Some? ==> (exists k :: 0 <= k < |elems| && elems[k].id == Some(href[1..])
                                          && r.value == elems[k].top - ScrollGap)
  {
    if !IsPlainIdent(href[1..]) then None
    else match ElementById(elems, href[1..])
      case None => None
      case Some(k) => Some(elems[k].top - HeaderHeight(header) - ScrollGap)
  }

  /** `#`, `#1a` and `#-1` are not ID selectors; `#a.b` and `#a b` are longer selectors. No
      scroll is requested for any of them. */
  lemma NonIdentifierHrefsRequestNothing(elems: seq<Element>, header: Option<nat>)
    ensures SmoothScrollRequest("#", elems, header) == None
    ensures SmoothScrollRequest("#1a", elems, header) == None
    ensures SmoothScrollRequest("#-1", elems, header) == None
    ensures SmoothScrollRequest("#a.b", elems, header) == None
    ensures SmoothScrollRequest("#a b", elems, header) == None
  {
    assert "#a.b"[1..] == "a.b" && "a.b"[1] == '.' && !IsIdentChar('.');
    assert "#a b"[1..] == "a b" && "a b"[1] == ' ' && !IsIdentChar(' ');
  }

  /** Whether pos lies in the element's window [top - shift, top - shift + height). */
  predicate InWindow(pos: int, e: Element, shift: int)
    ensures InWindow(pos, e, shift) ==> e.height > 0
    ensures InWindow(pos, e, shift) <==> e.top <= pos + shift < e.top + e.height
  {
    e.top - shift <= pos < e.top - shift + e.height
  }

  /** The last element, in document order, whose window contains pos. */
  function LastInWindow(elems: seq<Element>, pos: int, shift: int): (r: Option<nat>)
    ensures r.Some? ==> r.value < |elems| && InWindow(pos, elems[r.value], shift)
    ensures r.Some? ==> forall k :: r.value < k < |elems| ==> !InWindow(pos, elems[k], shift)
    ensures r.None? <==> forall k :: 0 <= k < |elems| ==> !InWindow(pos, elems[k], shift)
  {
    if elems == [] then None
    else if InWindow(pos, elems[|elems| - 1], shift) then Some(|elems| - 1)
    else LastInWindow(elems[..|elems| - 1], pos, shift)
  }

  /** The loop step over sections: extending the prefix by one section either makes it
      the last match or leaves the last match where it was. */
  lemma LastInWindowStep(elems: seq<Element>, i: nat, pos: int, shift: int)
    requires i < |elems|
    ensures LastInWindow(elems[..i + 1], pos, shift)
            == if InWindow(pos, elems[i], shift) then Some(i) else LastInWindow(elems[..i], pos, shift)
  {
  }

  /** Shifting every window down by `shift` is the same as probing `shift` further on:
      the rule `top - header - 100 <= scrollY` and the rule `top <= scrollY + 100`
      pick the same section exactly when the header height is 0. */
  lemma ShiftedProbeAgrees(elems: seq<Element>, pos: int, shift: int)
    ensures LastInWindow(elems, pos + shift, 0) == LastInWindow(elems, pos, shift)
  {
  }

  /** Clicking a link scrolls to `top - header - 20`; the highlighter, whose windows start
      100 above `top - header`, then counts that section as current exactly when it is
      taller than 80. */
  lemma ScrollTargetInHighlightWindow(e: Element, headerHeight: nat)
    ensures InWindow(e.top - headerHeight - ScrollGap, e, headerHeight + HighlightMargin) <==> e.height > 80
  {
  }
}
