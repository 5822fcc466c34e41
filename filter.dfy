/** The project filter: `filterFunc` shows the `[data-filter-item]`s of the selected
    category, called from the dropdown's items and from the filter buttons, which keep one
    button pressed by remembering the last one clicked. */
module Filter {
  import opened Wrappers
  import opened Text

  /** The selected value that shows every item. */
  const All: string := "all"

  /** Whether filterFunc(selected) leaves an item of this category active. An item without
      a data-category (undefined) is never strictly equal to a string. */
  predicate Shown(selected: string, category: Option<string>)
    ensures selected == All ==> Shown(selected, category)
    ensures category.None? ==> (Shown(selected, category) <==> selected == All)
    ensures selected != All ==> (Shown(selected, category) <==> category.Some? && category.value == selected)
  {
    selected == All || category == Some(selected)
  }

  /** The item flags filterFunc(selected) leaves, whatever they were before. */
  function Visibility(selected: string, categories: seq<Option<string>>): (r: seq<bool>)
    ensures |r| == |categories|
    ensures forall i :: 0 <= i < |categories| ==> r[i] == Shown(selected, categories[i])
  {
    if categories == [] then []
    else Visibility(selected, categories[..|categories| - 1]) + [Shown(selected, categories[|categories| - 1])]
  }

  /** "all" shows every item. */
  lemma AllShowsEverything(categories: seq<Option<string>>)
    ensures forall i :: 0 <= i < |categories| ==> Visibility(All, categories)[i]
  {
  }

  /** Any other value shows exactly the items of that category ... */
  lemma VisibleAreOfCategory(selected: string, categories: seq<Option<string>>)
    requires selected != All
    ensures (set i | 0 <= i < |categories| && Visibility(selected, categories)[i])
            == (set i | 0 <= i < |categories| && categories[i] == Some(selected))
  {
  }

  /** ... so a value no item carries hides them all. */
  lemma UnknownHidesEverything(selected: string, categories: seq<Option<string>>)
    requires selected != All && Some(selected) !in categories
    ensures forall i :: 0 <= i < |categories| ==> !Visibility(selected, categories)[i]
  {
  }

  /** The selected value is the lower-cased label and is compared with data-category
      exactly, so an item whose category has an upper-case ASCII letter is shown by no
      label at all except one reading "all" in any case. */
  lemma UpperCaseCategoryOnlyForAll(itemText: string, categories: seq<Option<string>>, i: nat)
    requires i < |categories| && categories[i].Some?
    requires exists j :: 0 <= j < |categories[i].value| && 'A' <= categories[i].value[j] <= 'Z'
    ensures Visibility(ToLower(itemText), categories)[i] <==> ToLower(itemText) == All
  {
    var selected := ToLower(itemText);
    var j :| 0 <= j < |categories[i].value| && 'A' <= categories[i].value[j] <= 'Z';
    if j < |selected| {
      assert !('A' <= selected[j] <= 'Z');
    }
    assert selected != categories[i].value;
  }

  /** The filter buttons' `active` flags and `lastClickedBtn` (None when there are no buttons). */
  datatype Buttons = Buttons(pressed: seq<bool>, last: Option<nat>)

  predicate WellFormed(b: Buttons)
  {
    b.last.Some? ==> b.last.value < |b.pressed|
  }

  /** No button is pressed except possibly lastClickedBtn. */
  predicate Exclusive(b: Buttons)
  {
    forall i :: 0 <= i < |b.pressed| && b.pressed[i] ==> b.last == Some(i)
  }

  /** The button half of a click on button k: un-press lastClickedBtn, press k, remember k. */
  function Press(b: Buttons, k: nat): (r: Buttons)
    requires WellFormed(b) && k < |b.pressed|
    ensures WellFormed(r) && |r.pressed| == |b.pressed| && r.last == Some(k)
    ensures forall i :: 0 <= i < |b.pressed| ==>
              r.pressed[i] == (i == k || (b.pressed[i] && b.last != Some(i)))
    ensures Exclusive(b) ==> Exclusive(r)
  {
    var cleared := if b.last.Some? then b.pressed[b.last.value := false] else b.pressed;
    Buttons(cleared[k := true], Some(k))
  }

  /** A run of button clicks, the last one last. */
  function PressAll(b: Buttons, clicks: seq<nat>): (r: Buttons)
    requires WellFormed(b) && forall j :: 0 <= j < |clicks| ==> clicks[j] < |b.pressed|
    ensures WellFormed(r) && |r.pressed| == |b.pressed|
  {
    if clicks == [] then b
    else Press(PressAll(b, clicks[..|clicks| - 1]), clicks[|clicks| - 1])
  }

  /** Starting from at most lastClickedBtn pressed, after any non-empty run of clicks exactly
      one button is pressed: the one clicked last, which is also lastClickedBtn. */
  lemma {:induction false} ClicksLeaveLastPressed(b: Buttons, clicks: seq<nat>)
    requires WellFormed(b) && Exclusive(b)
    requires |clicks| > 0 && forall j :: 0 <= j < |clicks| ==> clicks[j] < |b.pressed|
    ensures var r := PressAll(b, clicks);
            var k := clicks[|clicks| - 1];
            r.last == Some(k) && forall i :: 0 <= i < |r.pressed| ==> (r.pressed[i] <==> i == k)
  {
    var init := clicks[..|clicks| - 1];
    var prior := PressAll(b, init);
    if init != [] {
      ClicksLeaveLastPressed(b, init);
    }
    assert Exclusive(prior);
  }

  /** What a dropdown item click ended with. */
  datatype ClickOutcome =
    | Completed(scrolledToProjects: bool)
      /** elementToggleFunc(select) dereferenced a missing `[data-select]` and threw,
          so filterFunc never ran. */
    | ThrewTypeError

  class ProjectFilter {
    /** The data-category of each `[data-filter-item]`, in document order. */
    const categories: seq<Option<string>>
    /** Whether each item carries `active` (is shown). */
    const itemActive: array<bool>
    /** The innerText of each `[data-filter-btn]`. */
    const buttonLabels: seq<string>
    /** Whether each filter button carries `active`. */
    const buttonActive: array<bool>
    /** lastClickedBtn, as an index; `filterBtn[0]` is undefined when there are no buttons. */
    var lastClicked: Option<nat>
    /** Whether the `[data-select]` dropdown exists, and whether it carries `active` (is open). */
    const hasSelect: bool
    var selectOpen: bool
    /** Whether the dropdown's value slot exists, and the text it shows. */
    const hasValueSlot: bool
    var displayedValue: string
    /** Whether the page has an element with id "projects". */
    const hasProjectsSection: bool

    ghost predicate Valid()
      reads this
    {
      itemActive.Length == |categories| && buttonActive.Length == |buttonLabels|
      && itemActive != buttonActive
      && (lastClicked.Some? ==> lastClicked.value < |buttonLabels|)
    }

    ghost function ButtonState(): (b: Buttons)
      reads this, buttonActive
      requires Valid()
      ensures WellFormed(b)
    {
      Buttons(buttonActive[..], lastClicked)
    }

    /** Page load: lastClickedBtn starts as the first button. */
    constructor (categories: seq<Option<string>>, items: seq<bool>,
                 buttonLabels: seq<string>, buttons: seq<bool>,
                 hasSelect: bool, selectOpen: bool, hasValueSlot: bool, displayedValue: string,
                 hasProjectsSection: bool)
      requires |items| == |categories| && |buttons| == |buttonLabels|
      ensures Valid() && fresh(itemActive) && fresh(buttonActive)
      ensures itemActive[..] == items && buttonActive[..] == buttons
      ensures lastClicked == if |buttonLabels| > 0 then Some(0) else None
      ensures this.categories == categories && this.buttonLabels == buttonLabels
      ensures this.hasSelect == hasSelect && this.selectOpen == selectOpen
      ensures this.hasValueSlot == hasValueSlot && this.displayedValue == displayedValue
      ensures this.hasProjectsSection == hasProjectsSection
    {
      this.categories := categories;
      itemActive := new bool[|items|](i requires 0 <= i < |items| => items[i]);
      this.buttonLabels := buttonLabels;
      buttonActive := new bool[|buttons|](i requires 0 <= i < |buttons| => buttons[i]);
      lastClicked := if |buttonLabels| > 0 then Some(0) else None;
      this.hasSelect := hasSelect;
      this.selectOpen := selectOpen;
      this.hasValueSlot := hasValueSlot;
      this.displayedValue := displayedValue;
      this.hasProjectsSection := hasProjectsSection;
      new;
      assert itemActive[..] == items && buttonActive[..] == buttons;
    }

    /** filterFunc: show exactly the items of the selected value, then scroll the projects
        section into view when there is one. */
    method ApplyFilter(selected: string) returns (scrolled: bool)
      requires Valid()
      modifies itemActive
      ensures itemActive[..] == Visibility(selected, categories)
      ensures scrolled == hasProjectsSection
    {
      var i := 0;
      while i < itemActive.Length
        invariant 0 <= i <= itemActive.Length
        invariant forall m :: 0 <= m < i ==> itemActive[m] == Shown(selected, categories[m])
      {
        if selected == All {
          itemActive[i] := true;
        } else if Some(selected) == categories[i] {
          itemActive[i] := true;
        } else {
          itemActive[i] := false;
        }
        i := i + 1;
      }
      assert itemActive[..] == Visibility(selected, categories);
      scrolled := hasProjectsSection;
    }

    /** The click listener of the dropdown itself: elementToggleFunc(select). */
    method SelectClick()
      requires hasSelect
      modifies this`selectOpen
      ensures selectOpen == !old(selectOpen)
    {
      selectOpen := !selectOpen;
    }

    /** The click listener of a dropdown item whose innerText is `itemText`: show the label, toggle the
        dropdown, filter by the lower-cased label. The filter buttons are not touched. */
    method SelectItemClick(itemText: string) returns (outcome: ClickOutcome)
      requires Valid()
      modifies this`selectOpen, this`displayedValue, itemActive
      ensures displayedValue == if hasValueSlot then itemText else old(displayedValue)
      ensures !hasSelect ==> outcome == ThrewTypeError && selectOpen == old(selectOpen)
                             && itemActive[..] == old(itemActive[..])
      ensures hasSelect ==> outcome == Completed(hasProjectsSection) && selectOpen == !old(selectOpen)
                            && itemActive[..] == Visibility(ToLower(itemText), categories)
      ensures buttonActive[..] == old(buttonActive[..]) && lastClicked == old(lastClicked)
    {
      var selectedValue := ToLower(itemText);
      if hasValueSlot {
        displayedValue := itemText;
      }
      if !hasSelect {
        return ThrewTypeError;
      }
      selectOpen := !selectOpen;
      var scrolled := ApplyFilter(selectedValue);
      outcome := Completed(scrolled);
    }

    /** The click listener of filter button k: show its label, filter by it lower-cased,
        un-press lastClickedBtn, press k and remember it. */
    method FilterButtonClick(k: nat) returns (scrolled: bool)
      requires Valid() && k < |buttonLabels|
      modifies this`lastClicked, this`displayedValue, itemActive, buttonActive
      ensures Valid()
      ensures displayedValue == if hasValueSlot then buttonLabels[k] else old(displayedValue)
      ensures itemActive[..] == Visibility(ToLower(buttonLabels[k]), categories)
      ensures scrolled == hasProjectsSection
      ensures ButtonState() == Press(old(ButtonState()), k)
      ensures old(Exclusive(ButtonState())) ==>
                forall i :: 0 <= i < buttonActive.Length ==> (buttonActive[i] <==> i == k)
    {
      var selectedValue := ToLower(buttonLabels[k]);
      if hasValueSlot {
        displayedValue := buttonLabels[k];
      }
      scrolled := ApplyFilter(selectedValue);
      ghost var before := ButtonState();
      if lastClicked.Some? {
        buttonActive[lastClicked.value] := false;
      }
      buttonActive[k] := true;
      lastClicked := Some(k);
      assert ButtonState() == Press(before, k);
    }
  }
}
