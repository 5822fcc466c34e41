# Portfolio page behaviour, modelled in Dafny

This project models the client-side behaviour of a static portfolio page
(`assets/js/script.js`). That behaviour is a set of small state machines behind event
handlers:

- the mobile navigation toggle;
- smooth scrolling to an in-page section;
- two active-link highlighters, one throttled per animation frame and one not;
- the reveal-on-scroll animation flag;
- the testimonials modal;
- the project filter, with its dropdown and its button group;
- the contact form's `filled` styling and the submit button's `disabled` state.

The DOM is replaced by plain data:

- a CSS class on an element is a `bool`;
- a class on each element of a NodeList is an `array<bool>` (NodeLists have a fixed size);
- attributes and markup are strings;
- layout geometry (`offsetTop`, `offsetHeight`, `scrollY`) is integers;
- whether an optional element exists is a constant flag, or an `Option`.

Each controller is a class whose methods are its event handlers. A handler runs with the
live values it would read (geometry, scroll offset, form validity) passed in as
parameters. Each method's postcondition gives the whole new state. Where the behaviour is
more than a flag flip, that state is stated as a specification function (`Highlighted`,
`ScrollLanding`, `Visibility`, `Press`). The lemmas prove what the page promises about
those functions.

Modules:

- `Wrappers`: `Option`.
- `Seqs`: document-order lookup, flag counting.
- `Text`: `trim` and `toLowerCase`.
- `Layout`: elements, header height, scroll targets, section windows.
- `MobileNav`, `ActiveNav`, `PageNav`, `Reveal`, `Modal`, `Filter`, `Form`: one module per controller.

Behaviour of the code as written that the model keeps:

- The menu icon names are `close-outline` and `menu-outline`.
- `aria-expanded` holds the string form of a boolean.
- The modal's close button and its overlay both *toggle* the modal. They do not close it.
  Clicking the overlay while the modal is closed would therefore open it.
- A testimonial click copies content, then toggles too; it does not set "open".
- The filter lower-cases the label and compares it with `data-category` by exact
  equality. A category written with upper-case letters never matches.
- An item without a `data-category` is shown only for `all`.
- The dropdown-item listener calls `elementToggleFunc(select)` (script.js line 307)
  before `filterFunc` (line 308), with no null check. If a dropdown item is clicked and
  there is no `[data-select]`, the handler throws before any filtering
  (`Filter.ThrewTypeError`).
- The filter buttons keep one button pressed only because they remember the last one
  clicked (`lastClickedBtn`). If the markup starts with some other button pressed, that
  button stays pressed. So "exactly one pressed" is proved only from a state in which at
  most `lastClickedBtn` is pressed.
- The data-page scroll handler renders a section without an `id` as `#null`.
- `getElementById("")` finds nothing.
- The submit button is re-evaluated on `input` events only, not on `blur`.
- The two highlighters use the rules `top - header - 100 <= scrollY` and
  `top <= scrollY + 100`. These are the same rule when the header height is 0
  (`Layout.ShiftedProbeAgrees`). With a header of height H, the first rule behaves like
  the second one applied H pixels further down.

## Model

| member | source | states |
|---|---|---|
| `Text.LeadingWhitespace` | assets/js/script.js:448 | the prefix `trim` removes: every character before the result is JS whitespace and the character at the result is not |
| `Text.EndOfContent` | assets/js/script.js:448 | the suffix `trim` removes: every character from the result on is JS whitespace and the one before it is not |
| `Text.Trim` | assets/js/script.js:448 | the trimmed value is no longer than the value, starts and ends with a non-whitespace character, and is empty exactly when the value is all whitespace |
| `Text.IsFilled` | assets/js/script.js:447-453 | `value.trim() !== ''` holds exactly when the value contains a character that is not whitespace |
| `Text.ToLower` | assets/js/script.js:303 | the selected value has the label's length, each character lower-cased, and no upper-case ASCII letter remains |
| `Seqs.FirstIndexOf` | assets/js/script.js:421 | a document-order query returns the first matching position, with no match before it, and finds nothing exactly when no element matches |
| `Seqs.OnlyAt` | assets/js/script.js:387-390 | after clearing every flag and setting one, only that flag is set and the count of set flags is 1 (0 when none is set) |
| `Layout.IdText` | assets/js/script.js:122 | the template literal renders a present id as itself and an absent one as "null", so it is "null" exactly for a missing id or the id "null" |
| `Layout.Fragment` | assets/js/script.js:393 | `substring(1)` drops the first character, and gives "" for an empty href |
| `Layout.ElementById` | assets/js/script.js:394 | the first element with that id and none earlier; nothing is found for the empty id or an id no element has |
| `Layout.SmoothScrollRequest` | assets/js/script.js:83-97 | a link click asks for a scroll exactly when the href is `#` followed by a plain CSS identifier that some element has as id; the target is the first such element's offsetTop minus the header height (0 when there is no header) minus 20 |
| `Layout.NonIdentifierHrefsRequestNothing` | assets/js/script.js:87 | `#`, `#1a`, `#-1` (not ID selectors) and `#a.b`, `#a b` (compound selectors) request no scroll |
| `Layout.InWindow` | assets/js/script.js:119 | the window test `top - shift <= pos < top - shift + height` is `top <= pos + shift < top + height`, and no empty section contains any position |
| `Layout.LastInWindow` | assets/js/script.js:114-127 | the section chosen is in its window and no later section is; none is chosen exactly when no window contains the position |
| `Layout.ShiftedProbeAgrees` | assets/js/script.js:409-416 | probing `shift` further down against unshifted windows chooses the same section as shifted windows; so the two highlighters agree when the header height is 0 |
| `Layout.ScrollTargetInHighlightWindow` | assets/js/script.js:91 | the position a link click scrolls to lies in that section's highlight window exactly when the section is taller than 80 |
| `ActiveNav.Marked` | assets/js/script.js:120-125 | after the inner loop for a section, each link is active exactly when its href is `#` + the section id |
| `ActiveNav.MarkedCount` | assets/js/script.js:120-125 | with distinct hrefs, that loop leaves exactly one link active when some href names the section, and none otherwise |
| `ActiveNav.Highlighted` | assets/js/script.js:110-128 | the flags keep the links' count; they change only if some section's window contains scrollY; a link newly set names some section |
| `ActiveNav.HighlightedStep` | assets/js/script.js:114-127 | each further section either takes over the flags (when its window contains scrollY) or leaves them as the earlier sections left them |
| `ActiveNav.NoHeaderUsesMarginOnly` | assets/js/script.js:112-119 | with no header, the highlighter picks the last section containing `scrollY + 100`, the data-page handler's rule |
| `ActiveNav.HighlightedLinks` | assets/js/script.js:110-128 | when some window contains scrollY, the flags are those of the last such section (at most one active, exactly one when a link names it); when none does, the flags are unchanged |
| `ActiveNav.ActiveNavigation.constructor` | assets/js/script.js:131-143 | the guard starts false with no frame pending, and the highlighter has run once |
| `ActiveNav.ActiveNavigation.Update` | assets/js/script.js:110-128 | the nested loops leave exactly the flags `Highlighted` gives for the old flags and the live geometry |
| `ActiveNav.ActiveNavigation.MarkSection` | assets/js/script.js:120-125 | the inner loop leaves each link active exactly when its href is `#` + the section id |
| `ActiveNav.ActiveNavigation.OnScroll` | assets/js/script.js:132-140 | a scroll while ticking schedules nothing; otherwise one frame is scheduled and `ticking` is set; either way exactly one frame is pending and the links are untouched |
| `ActiveNav.ActiveNavigation.OnAnimationFrame` | assets/js/script.js:134-137 | the frame runs the highlighter and clears `ticking`, leaving no frame pending (pending frames always equal `ticking`) |
| `PageNav.ScrollLanding` | assets/js/script.js:407-427 | the flags keep the links' count; either nothing changed or at most one link is active; they change only if the probe lies in some section |
| `PageNav.ScrollLandingLinks` | assets/js/script.js:407-427 | when the probe lies in a section, at most one link is active: the first whose href names the last such section; otherwise nothing changes; the section chosen is the one the other highlighter chooses with no header |
| `PageNav.PageNavigation.ClearAll` | assets/js/script.js:387 | every `[data-nav-link]` loses `active` |
| `PageNav.PageNavigation.Click` | assets/js/script.js:382-404 | exactly the clicked link is active afterwards; the element scrolled into view is the one whose id is the href without its first character |
| `PageNav.PageNavigation.Activate` | assets/js/script.js:418-424 | one matching section: every link is cleared, then only the first link whose href names the section is set |
| `PageNav.PageNavigation.OnScroll` | assets/js/script.js:407-427 | the loop over sections leaves exactly the flags `ScrollLanding` gives for the probe `scrollY + 100` |
| `Filter.Shown` | assets/js/script.js:316-321 | "all" shows every item; an item without a category only for "all"; any other value shows exactly the items whose category equals it |
| `Filter.Visibility` | assets/js/script.js:314-323 | item i is active afterwards exactly when `Shown` holds for the value and its category; the item count is unchanged |
| `Filter.UpperCaseCategoryOnlyForAll` | assets/js/script.js:303-318 | the value is the lower-cased label, so an item whose category has an upper-case letter is shown by no label except one reading "all" |
| `Filter.AllShowsEverything` | assets/js/script.js:316-317 | "all" shows every item |
| `Filter.VisibleAreOfCategory` | assets/js/script.js:318-321 | any other value shows exactly the items whose category it is |
| `Filter.UnknownHidesEverything` | assets/js/script.js:320-321 | a value no item carries hides every item |
| `Filter.Press` | assets/js/script.js:346-350 | after a click on button k: k is pressed and remembered; the previous last-clicked button, if different, is un-pressed; every other button is untouched; if at most the last-clicked button was pressed before, at most k is pressed after |
| `Filter.ClicksLeaveLastPressed` | assets/js/script.js:336-352 | from a state in which at most `lastClickedBtn` is pressed, any non-empty run of button clicks leaves exactly the last-clicked button pressed |
| `Filter.ProjectFilter.constructor` | assets/js/script.js:336 | `lastClickedBtn` starts as the first button, or as nothing when there are no buttons |
| `Filter.ProjectFilter.ApplyFilter` | assets/js/script.js:314-333 | the loop leaves the item flags `Visibility` gives, and the projects section is scrolled to exactly when it exists |
| `Filter.ProjectFilter.SelectClick` | assets/js/script.js:296-298 | clicking the dropdown flips its open state |
| `Filter.ProjectFilter.SelectItemClick` | assets/js/script.js:301-310 | the value slot shows the item text and the dropdown flips, then the items are filtered by the lower-cased text; the handler throws before filtering when the dropdown is missing; button flags and `lastClickedBtn` are never touched |
| `Filter.ProjectFilter.FilterButtonClick` | assets/js/script.js:338-352 | the items are filtered by the lower-cased button text; the button state becomes `Press` of the old one; from an exclusive state, exactly button k is pressed |
| `MobileNav.AttrText` | assets/js/script.js:39 | `setAttribute` stores the boolean as "true" exactly when it is true and "false" exactly when false |
| `MobileNav.IconFor` | assets/js/script.js:44 | the icon is "close-outline" exactly when open and "menu-outline" exactly when closed |
| `MobileNav.MobileNavigation.Toggle` | assets/js/script.js:34-46 | the open flag flips, aria-expanded becomes the new value, and the icon (when there is one) is "close-outline" exactly when open |
| `MobileNav.MobileNavigation.Close` | assets/js/script.js:51-57 | always ends closed, with aria-expanded "false" and the icon "menu-outline"; from a closed, mirrored state nothing changes |
| `MobileNav.MobileNavigation.LinkClick` | assets/js/script.js:49-59 | a link click closes the menu, idempotently |
| `MobileNav.MobileNavigation.DocumentClick` | assets/js/script.js:62-72 | a click inside the toggle or the list changes nothing; any other click closes the menu, idempotently |
| `Modal.TestimonialsModal.Toggle` | assets/js/script.js:261-264 | the container and the overlay flip together (each only when it exists), so if both exist and agree they still agree; the content is untouched |
| `Modal.TestimonialsModal.ItemClick` | assets/js/script.js:267-282 | each modal field takes the item's value only when both the item's element and the modal's element exist, keeps its old value otherwise, and then the modal toggles |
| `Reveal.Entered` | assets/js/script.js:157-158 | some entry of the batch reports that element as intersecting |
| `Reveal.Revealer.OnIntersection` | assets/js/script.js:156-162 | an element has `animate-in` afterwards exactly when it had it before or was reported intersecting; no entry ever removes it |
| `Form.InputStyling.CheckInput` | assets/js/script.js:447-453 | the input is `filled` exactly when its trimmed value is non-empty, other inputs are untouched, and re-checking an unchanged value changes nothing |
| `Form.InputStyling.CheckAll` | assets/js/script.js:433-435 | the initial pass leaves every input's `filled` flag equal to the rule applied to its value |
| `Form.SubmitGate.OnInput` | assets/js/script.js:363-371 | the submit button is disabled exactly when the form is not valid |

## Left out

- DOM querying and event registration are not modelled. Elements are indices into
  sequences, and events are method calls.
- Events propagate through the DOM: one click reaches the toggle's listener and the
  document's listener. The model does not do this; each listener is a separate call.
- `window.scrollTo` and `scrollIntoView` are not performed. The model only records the
  requested target.
- `requestAnimationFrame` timing is not modelled. A pending frame is a counter, and the
  frame firing is a method call.
- The IntersectionObserver geometry (threshold, rootMargin) is not modelled. The callback
  receives `isIntersecting` per entry.
- `form.checkValidity()` is an input boolean. Its constraint rules belong to the browser.
  The form and its button are assumed to exist, as the code assumes.
- `innerText` and `innerHTML` are opaque strings, and so are image `src` values. This
  leaves out rendering effects such as CSS text-transform, and URL resolution.
- ion-icon rendering, styles and the notification helper `showNotification` are not
  modelled: these are timers and styling.
- `debounce` is not modelled: it is timer plumbing that no handler uses.
- `downloadResume` is not modelled: it triggers a file download.
- The empty `initButtonInteractions` does nothing and is not modelled.
- `Text.ToLower`: only ASCII A-Z are lower-cased. JavaScript's `toLowerCase` is
  Unicode-aware.
- `trim` is modelled exactly, because the whitespace set is written out character by
  character. Strings are sequences of code
  points, not UTF-16 units.
- `Layout.SmoothScrollRequest`: the href goes to `querySelector`, which parses a CSS
  selector. The model looks up only `#` followed by an identifier written without escapes.
  Where the browser throws (`#` alone, `#1a`), the model gives no request. Escaped
  identifiers (`#\31 a`) and compound selectors (`#a.b`, `#a b`, `#a,#b`) match elements
  in the browser; the model gives no request for them.
- `PageNav.PageNavigation.Click`: a `[data-nav-link]` without an `href` throws a TypeError
  at `substring` (line 393). This happens after the flags are set, and nothing else happens
  after it. Hrefs here are strings, so a link without one cannot be given; the closest
  input, the href "", sets the same flags and finds no element. Only the exception itself
  is not captured.
- `PageNav.PageNavigation.Activate`: the browser throws on an attribute selector broken
  by a section id containing a quote. This is not modelled.
- Geometry: `scrollY` and layout offsets are integers. Browsers can report
  fractional `scrollY`. `offsetTop` is taken as the document offset (the offsetParent is
  the body).
- Handlers that are never registered are not modelled beyond their presence flags: the
  mobile navigation without its toggle or list, and the close button or overlay
  when missing.
- The two highlighters can touch the same links. Their interference is not modelled:
  each is a separate class over its own links.
