/** The state behind `CustomDropdown` in lib/custom_widgets.py: a read-only
    entry showing one value, a pop-up list of the values, the mouse wheel
    stepping through them and the callback run on every choice. Drawing,
    fonts, colours and geometry other than the list height are not
    modelled. */
module Widgets {
  import opened Common

  /** The keys the entry lets through; every other key press is swallowed. */
  predicate KeyAllowed(keysym: string)
  {
    keysym in ["Up", "Down", "Escape", "Tab", "Shift_L", "Shift_R"]
  }

  /** `block_typing(event)`: `"break"` stops Tk from handling the key,
      `None` lets it through. */
  function BlockTyping(keysym: string): (r: Option<string>)
    ensures r.None? <==> KeyAllowed(keysym)
    ensures r.Some? ==> r.value == "break"
  {
    if KeyAllowed(keysym) then None else Some("break")
  }

  /** No key that types one character reaches the entry, so its text
      cannot be edited by typing. */
  lemma SingleCharacterKeysBlocked(c: char)
    ensures BlockTyping([c]) == Some("break")
  {
    assert |[c]| == 1;
  }

  /** The keys that move through the list, leave it or move the focus are
      not blocked. */
  lemma NavigationKeysPass()
    ensures BlockTyping("Up").None? && BlockTyping("Down").None?
    ensures BlockTyping("Escape").None? && BlockTyping("Tab").None?
  {
  }

  /** `values.index(current)`, or 0 where `index` raises. */
  function IndexOrZero(values: seq<string>, current: string): (i: nat)
    ensures i < |values| || (values == [] && i == 0)
    ensures current in values ==> values[i] == current && forall j :: 0 <= j < i ==> values[j] != current
    ensures current !in values ==> i == 0
  {
    if values == [] || values[0] == current then 0
    else if current !in values then 0
    else 1 + IndexOrZero(values[1..], current)
  }

  /** The index the wheel moves to: one up for a positive delta, one down
      otherwise, wrapping at both ends. Python's `%` and Dafny's agree for
      a positive modulus. */
  function ScrollIndex(values: seq<string>, current: string, delta: int): (i: nat)
    requires values != []
    ensures i < |values|
  {
    var index := IndexOrZero(values, current);
    if delta > 0 then (index - 1) % |values| else (index + 1) % |values|
  }

  /** The height of the pop-up: 20 pixels a row, at most 12 rows. */
  function DropdownHeight(n: nat): (h: nat)
    ensures h <= 240
    ensures n <= 12 ==> h == 20 * n
    ensures n >= 12 ==> h == 240
  {
    (if n < 12 then n else 12) * 20
  }

  /** With distinct values, one step up and one step down lead back to the
      value shown, and the reverse too. */
  lemma ScrollBack(values: seq<string>, current: string)
    requires NoDup(values) && current in values
    ensures values[ScrollIndex(values, values[ScrollIndex(values, current, 1)], -1)] == current
    ensures values[ScrollIndex(values, values[ScrollIndex(values, current, -1)], 1)] == current
  {
    var n := |values|;
    var i := IndexOrZero(values, current);
    var up := ScrollIndex(values, current, 1);
    var down := ScrollIndex(values, current, -1);
    assert IndexOrZero(values, values[up]) == up by { FirstIndexOfDistinct(values, up); }
    assert IndexOrZero(values, values[down]) == down by { FirstIndexOfDistinct(values, down); }
    ModSteps(i, n);
  }

  lemma FirstIndexOfDistinct(values: seq<string>, k: nat)
    requires NoDup(values) && k < |values|
    ensures IndexOrZero(values, values[k]) == k
  {
    var j := IndexOrZero(values, values[k]);
    assert values[j] == values[k];
  }

  /** Stepping back and forth on the index ring of size `n`. */
  lemma ModSteps(i: nat, n: nat)
    requires i < n
    ensures ((i - 1) % n + 1) % n == i
    ensures ((i + 1) % n - 1) % n == i
  {
    var prev := if i == 0 then n - 1 else i - 1;
    var next := if i + 1 == n then 0 else i + 1;
    RingStep(i - 1, n, prev);
    RingStep(prev + 1, n, i);
    RingStep(i + 1, n, next);
    RingStep(next - 1, n, i);
  }

  lemma RingStep(k: int, n: nat, r: nat)
    requires 0 < n && r < n && (k == r || k == r - n || k == r + n)
    ensures k % n == r
  {
  }

  /** A value that is not in the list counts as the first one: the wheel
      shows the last value going up and the second going down. */
  lemma ScrollFromUnknown(values: seq<string>, current: string, delta: int)
    requires values != [] && current !in values
    ensures delta > 0 ==> ScrollIndex(values, current, delta) == |values| - 1
    ensures delta <= 0 ==> ScrollIndex(values, current, delta) == 1 % |values|
  {
    assert (0 - 1) % |values| == |values| - 1;
  }

  /** `CustomDropdown`. `calls` records the values the callback received;
      `listbox` is the list shown by the last `open_dropdown`. */
  class CustomDropdown {
    var values: seq<string>
    var value: string
    const hasCommand: bool
    var calls: seq<string>
    var isOpen: bool
    var listbox: seq<string>
    var height: nat

    /** `__init__`: an empty entry, no pop-up. */
    constructor (values: seq<string>, hasCommand: bool)
      ensures this.values == values && this.hasCommand == hasCommand
      ensures value == "" && calls == [] && !isOpen && listbox == []
    {
      this.values := values;
      this.hasCommand := hasCommand;
      value := "";
      calls := [];
      isOpen := false;
      listbox := [];
      height := 0;
    }

    /** `open_dropdown()`: a pop-up listing the current values, sized for
        at most twelve of them. */
    method OpenDropdown()
      modifies this
      ensures isOpen && listbox == values && height == DropdownHeight(|values|)
      ensures values == old(values) && value == old(value) && calls == old(calls)
    {
      isOpen := true;
      listbox := values;
      height := DropdownHeight(|values|);
    }

    /** `close_dropdown()`: destroys the pop-up if there is one; closing a
        closed dropdown changes nothing. */
    method CloseDropdown()
      modifies this
      ensures !isOpen
      ensures values == old(values) && value == old(value) && calls == old(calls)
      ensures listbox == old(listbox) && height == old(height)
    {
      if isOpen {
        isOpen := false;
      }
    }

    /** `toggle_dropdown()`: a click on the entry opens the pop-up or closes
        it. */
    method ToggleDropdown()
      modifies this
      ensures isOpen == !old(isOpen)
      ensures isOpen ==> listbox == values && height == DropdownHeight(|values|)
      ensures values == old(values) && value == old(value) && calls == old(calls)
    {
      if isOpen {
        CloseDropdown();
      } else {
        OpenDropdown();
      }
    }

    /** `_scroll_through_values(event)`: nothing without values; otherwise
        the neighbouring value is shown and handed to the callback. */
    method ScrollThroughValues(delta: int)
      modifies this
      ensures values == old(values) && isOpen == old(isOpen) && listbox == old(listbox)
      ensures old(values) == [] ==> value == old(value) && calls == old(calls)
      ensures old(values) != [] ==>
        && value == values[ScrollIndex(values, old(value), delta)]
        && value in values
        && calls == old(calls) + (if hasCommand then [value] else [])
    {
      if values == [] {
        return;
      }
      var index := ScrollIndex(values, value, delta);
      value := values[index];
      if hasCommand {
        calls := calls + [values[index]];
      }
    }

    /** `on_select(event)`: the chosen row, if any, becomes the value and
        goes to the callback; the pop-up closes either way. */
    method OnSelect(selection: Option<nat>)
      requires selection.Some? ==> selection.value < |listbox|
      modifies this
      ensures !isOpen && values == old(values) && listbox == old(listbox)
      ensures selection.None? ==> value == old(value) && calls == old(calls)
      ensures selection.Some? ==>
        && value == listbox[selection.value]
        && calls == old(calls) + (if hasCommand then [value] else [])
    {
      if selection.Some? {
        var selected := listbox[selection.value];
        value := selected;
        if hasCommand {
          calls := calls + [selected];
        }
      }
      CloseDropdown();
    }
  }
}
