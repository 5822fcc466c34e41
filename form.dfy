/** The contact form's UI state: the `filled` class of each `.form-input`, and the submit
    button's disabled attribute, which follows the form's validity. */
module Form {
  import opened Text

  class InputStyling {
    /** Whether each `.form-input` carries `filled`. */
    const filled: array<bool>

    constructor (initial: seq<bool>)
      ensures fresh(filled) && filled[..] == initial
    {
      filled := new bool[|initial|](i requires 0 <= i < |initial| => initial[i]);
      new;
      assert filled[..] == initial;
    }

    /** checkInputValue on input i, run on its input and blur events. */
    method CheckInput(i: nat, value: string)
      requires i < filled.Length
      modifies filled
      ensures filled[i] == IsFilled(value)
      ensures forall j :: 0 <= j < filled.Length && j != i ==> filled[j] == old(filled[j])
      ensures old(filled[i]) == IsFilled(value) ==> unchanged(filled)
    {
      if Trim(value) != "" {
        filled[i] := true;
      } else {
        filled[i] := false;
      }
    }

    /** The initial pass at DOMContentLoaded: checkInputValue on every input. */
    method CheckAll(values: seq<string>)
      requires |values| == filled.Length
      modifies filled
      ensures forall j :: 0 <= j < filled.Length ==> filled[j] == IsFilled(values[j])
    {
      var j := 0;
      while j < |values|
        invariant 0 <= j <= |values|
        invariant forall m :: 0 <= m < j ==> filled[m] == IsFilled(values[m])
      {
        CheckInput(j, values[j]);
        j := j + 1;
      }
    }
  }

  class SubmitGate {
    /** Whether the `[data-form-btn]` carries the disabled attribute. */
    var disabled: bool

    constructor (disabled: bool)
      ensures this.disabled == disabled
    {
      this.disabled := disabled;
    }

    /** The input listener of a `[data-form-input]`; the form's checkValidity() is passed in. */
    method OnInput(formValid: bool)
      modifies this
      ensures disabled == !formValid
    {
      if formValid {
        disabled := false;
      } else {
        disabled := true;
      }
    }
  }
}
