/**
 * A combo box whose edit box only takes text that starts an item of its
 * list: every key press is handled by the control itself, which completes
 * the typed prefix to the first matching item and selects the completion.
 * An item is identified by its position in the list, so "an object that is
 * not in the list" is a position past its end.
 */
module SearchingCombo {
  import opened Wrappers

  // ---------------------------------------------------------------- finding items

  /** Case folding of the ASCII letters. */
  function Fold(c: char): char {
    if 'A' <= c <= 'Z' then (c as int + 32) as char else c
  }

  /** `item` starts with `prefix`, ignoring case. */
  predicate StartsWith(item: string, prefix: string) {
    |prefix| <= |item| && forall i :: 0 <= i < |prefix| ==> Fold(item[i]) == Fold(prefix[i])
  }

  /** `ComboBox.FindString`: the position of the first item that starts with `s`, or -1. */
  function FindString(items: seq<string>, s: string): (pos: int)
    ensures -1 <= pos < |items|
    ensures pos == -1 <==> forall k :: 0 <= k < |items| ==> !StartsWith(items[k], s)
    ensures pos >= 0 ==> StartsWith(items[pos], s) && forall k :: 0 <= k < pos ==> !StartsWith(items[k], s)
  {
    FindFrom(items, s, 0)
  }

  function FindFrom(items: seq<string>, s: string, from: nat): (pos: int)
    requires from <= |items|
    ensures pos == -1 || from <= pos < |items|
    ensures pos == -1 <==> forall k :: from <= k < |items| ==> !StartsWith(items[k], s)
    ensures pos >= 0 ==> StartsWith(items[pos], s) && forall k :: from <= k < pos ==> !StartsWith(items[k], s)
    decreases |items| - from
  {
    if from == |items| then -1
    else if StartsWith(items[from], s) then from
    else FindFrom(items, s, from + 1)
  }

  lemma StartsWithTransitive(a: string, b: string, c: string)
    requires StartsWith(a, b) && StartsWith(b, c)
    ensures StartsWith(a, c)
  {
  }

  /** The guard of the `Text` setter: whether it takes `value`. */
  predicate Admits(items: seq<string>, allowNoSelection: bool, inputMustMatch: bool, value: string) {
    if value == [] then allowNoSelection
    else !inputMustMatch || (FindString(items, value) >= 0 && items[FindString(items, value)] == value)
  }

  /** With the input bound to the list, the setter takes only the empty text (if allowed) and listed items. */
  lemma AdmitsOnlyItems(items: seq<string>, allowNoSelection: bool, value: string)
    requires Admits(items, allowNoSelection, true, value)
    ensures (value == [] && allowNoSelection) || (value != [] && value in items)
  {
    if value != [] {
      assert items[FindString(items, value)] == value;
    }
  }

  /** It does not take every listed item: one that an earlier item starts with is refused. */
  lemma ListedItemRefused()
    ensures "a" in ["Ab", "a"] && !Admits(["Ab", "a"], true, true, "a")
  {
    var items := ["Ab", "a"];
    assert StartsWith(items[0], "a");
    assert FindString(items, "a") == 0;
  }

  /**
   * What a key press completes to is always taken by the setter: the first
   * item starting with a non-empty prefix is also the first one starting
   * with that whole item.
   */
  lemma FoundItemAdmitted(items: seq<string>, allowNoSelection: bool, inputMustMatch: bool, prefix: string)
    requires prefix != [] && FindString(items, prefix) >= 0
    ensures var pos := FindString(items, prefix);
      items[pos] != [] && FindString(items, items[pos]) == pos &&
      Admits(items, allowNoSelection, inputMustMatch, items[pos])
  {
    var pos := FindString(items, prefix);
    var item := items[pos];
    assert StartsWith(item, item);
    forall k | 0 <= k < pos ensures !StartsWith(items[k], item) {
      if StartsWith(items[k], item) {
        StartsWithTransitive(items[k], item, prefix);
      }
    }
  }

  /** The Backspace character, '\b'. */
  const Backspace: char := 8 as char

  /** The prefix a key press leaves: the unselected text with the key added, or with Backspace one shorter. */
  function TypedPrefix(text: string, start: nat, c: char): (p: string)
    requires start <= |text|
    ensures c != Backspace ==> p == text[..start] + [c]
    ensures c == Backspace ==> |p| == (if start == 0 then 0 else start - 1) && p == text[..|p|]
  {
    var soFar := text[..start];
    if c == Backspace then (if |soFar| < 2 then [] else soFar[..|soFar| - 1])
    else soFar + [c]
  }

  // ---------------------------------------------------------------- what the edit box shows

  /** The edit box's text, its selection, and the selected item. */
  datatype View = View(text: string, start: nat, length: nat, selected: Option<nat>)

  predicate ViewValid(items: seq<string>, v: View) {
    v.start + v.length <= |v.text| && (v.selected.Some? ==> v.selected.value < |items|)
  }

  /** With the input bound to the list, the box shows an item or nothing. */
  predicate Listed(items: seq<string>, inputMustMatch: bool, v: View) {
    inputMustMatch ==> v.text == [] || v.text in items
  }

  /** `Text = value`: refused, or taken with the caret after it. */
  function Assign(items: seq<string>, allowNoSelection: bool, inputMustMatch: bool, v: View, value: string): View {
    if Admits(items, allowNoSelection, inputMustMatch, value) then v.(text := value, start := |value|, length := 0) else v
  }

  /** The selection after `SelectionStart = |p|` and `SelectionLength = Math.Max(Text.Length - p.Length, 0)`. */
  function AfterPrefix(v: View, p: string): View {
    v.(start := |p|, length := if |v.text| - |p| > 0 then |v.text| - |p| else 0)
  }

  /** What `OnKeyPress` leaves in the box when the control is not read-only. */
  function KeyPress(items: seq<string>, allowNoSelection: bool, inputMustMatch: bool, v: View, c: char): View
    requires ViewValid(items, v)
  {
    PrefixApplied(items, allowNoSelection, inputMustMatch, v, TypedPrefix(v.text, v.start, c))
  }

  /** What `OnKeyPress` does with the typed prefix `p`. */
  function PrefixApplied(items: seq<string>, allowNoSelection: bool, inputMustMatch: bool, v: View, p: string): View
    requires ViewValid(items, v)
  {
    if p == [] && !allowNoSelection && v.selected.Some? then
      var w := Assign(items, allowNoSelection, inputMustMatch, v, items[0]);
      w.(start := 0, length := |w.text|)
    else if p == [] then
      Assign(items, allowNoSelection, inputMustMatch, v, []).(selected := None)
    else
      var pos := FindString(items, p);
      if inputMustMatch && pos < 0 then v
      else if pos < 0 then AfterPrefix(Assign(items, allowNoSelection, inputMustMatch, v, p), p)
      else AfterPrefix(Assign(items, allowNoSelection, inputMustMatch, v, items[pos]), p)
  }

  /** A key press leaves a well-formed selection. */
  lemma KeyPressValid(items: seq<string>, allowNoSelection: bool, inputMustMatch: bool, v: View, c: char)
    requires ViewValid(items, v)
    ensures ViewValid(items, KeyPress(items, allowNoSelection, inputMustMatch, v, c))
  {
    var p := TypedPrefix(v.text, v.start, c);
    if p != [] && FindString(items, p) >= 0 {
      FoundItemAdmitted(items, allowNoSelection, inputMustMatch, p);
    }
  }

  /** With the input bound to the list, no key press can leave anything but an item or nothing in the box. */
  lemma KeyPressListed(items: seq<string>, allowNoSelection: bool, v: View, c: char)
    requires ViewValid(items, v) && Listed(items, true, v)
    ensures Listed(items, true, KeyPress(items, allowNoSelection, true, v, c))
  {
    var p := TypedPrefix(v.text, v.start, c);
    if p == [] && !allowNoSelection && v.selected.Some? {
      if Admits(items, allowNoSelection, true, items[0]) {
        AdmitsOnlyItems(items, allowNoSelection, items[0]);
      }
    } else if p != [] && FindString(items, p) >= 0 {
      FoundItemAdmitted(items, allowNoSelection, true, p);
    }
  }

  /**
   * A non-empty prefix that starts an item is completed to the first such
   * item: the box shows that item, the caret stands after the typed part, and
   * the rest of the item is selected, so the next key replaces it.
   */
  lemma KeyPressCompletes(items: seq<string>, allowNoSelection: bool, inputMustMatch: bool, v: View, c: char)
    requires ViewValid(items, v)
    requires var p := TypedPrefix(v.text, v.start, c); p != [] && FindString(items, p) >= 0
    ensures var p := TypedPrefix(v.text, v.start, c); var item := items[FindString(items, p)];
      var w := KeyPress(items, allowNoSelection, inputMustMatch, v, c);
      && w.text == item && StartsWith(item, p)
      && (forall k :: 0 <= k < FindString(items, p) ==> !StartsWith(items[k], p))
      && w.start == |p| && w.start + w.length == |item| && w.selected == v.selected
  {
    FoundItemAdmitted(items, allowNoSelection, inputMustMatch, TypedPrefix(v.text, v.start, c));
  }

  /** With the input bound to the list, a key that makes the prefix start no item changes nothing. */
  lemma KeyPressRefusesUnmatched(items: seq<string>, allowNoSelection: bool, v: View, c: char)
    requires ViewValid(items, v)
    requires var p := TypedPrefix(v.text, v.start, c);
      p != [] && forall k :: 0 <= k < |items| ==> !StartsWith(items[k], p)
    ensures KeyPress(items, allowNoSelection, true, v, c) == v
  {
  }

  /** Without the binding, an unmatched prefix is shown as typed, with the caret after it. */
  lemma KeyPressFreeText(items: seq<string>, allowNoSelection: bool, v: View, c: char)
    requires ViewValid(items, v)
    requires var p := TypedPrefix(v.text, v.start, c);
      p != [] && forall k :: 0 <= k < |items| ==> !StartsWith(items[k], p)
    ensures var p := TypedPrefix(v.text, v.start, c); var w := KeyPress(items, allowNoSelection, false, v, c);
      w.text == p && w.start == |p| && w.length == 0 && w.selected == v.selected
  {
  }

  /**
   * Emptying the prefix clears the box and the selection where no selection
   * is allowed; otherwise a selected item makes the box fall back to the
   * first item, wholly selected, unless that item is empty: the setter then
   * refuses it and the old text is wholly selected.
   */
  lemma KeyPressEmptied(items: seq<string>, allowNoSelection: bool, inputMustMatch: bool, v: View, c: char)
    requires ViewValid(items, v) && TypedPrefix(v.text, v.start, c) == []
    ensures var w := KeyPress(items, allowNoSelection, inputMustMatch, v, c);
      && (allowNoSelection ==> w == View([], 0, 0, None))
      && (!allowNoSelection && v.selected.Some? && items[0] != [] ==>
            w == View(items[0], 0, |items[0]|, v.selected))
      && (!allowNoSelection && v.selected.Some? && items[0] == [] ==>
            w == v.(start := 0, length := |v.text|))
      && (!allowNoSelection && v.selected.None? ==> w == v)
  {
    if !allowNoSelection && v.selected.Some? && items[0] != [] {
      assert StartsWith(items[0], items[0]);
    }
  }

  /** Backspace with the caret at `start` keeps one character fewer of the text before it. */
  lemma BackspaceShortens(text: string, start: nat)
    requires 0 < start <= |text|
    ensures TypedPrefix(text, start, Backspace) == text[..start - 1]
  {
  }

  datatype Key = Delete | Tab | OtherKey(code: int)

  // ---------------------------------------------------------------- the control

  class SearchingComboBox {
    /** The edit box's text and its selection. */
    var text: string
    var selectionStart: nat
    var selectionLength: nat
    /** `Items`, by their `ToString()`. */
    var items: seq<string>
    /** The selected item's position; None is a null `SelectedItem`. */
    var selected: Option<nat>
    /** `_savedItem` and `_useSavedItem`. */
    var savedItem: Option<nat>
    var useSavedItem: bool
    /** The behaviour properties. */
    var allowNoSelection: bool
    var acceptTabKey: bool
    var readOnly: bool
    var inputMustMatch: bool
    /** The selections `SelectedIndexChanged` subscribers were told of, in order. */
    var notified: seq<Option<nat>>

    function Shown(): View
      reads this
    {
      View(text, selectionStart, selectionLength, selected)
    }

    ghost predicate Valid()
      reads this
    {
      ViewValid(items, Shown()) && (savedItem.Some? ==> savedItem.value < |items|)
    }

    /** The control as created, once its list has been filled in. */
    constructor (list: seq<string>)
      ensures Valid() && Listed(items, inputMustMatch, Shown())
      ensures Shown() == View([], 0, 0, None)
      ensures items == list && savedItem == None && !useSavedItem
      ensures allowNoSelection && !acceptTabKey && !readOnly && inputMustMatch
      ensures notified == []
    {
      text, selectionStart, selectionLength := [], 0, 0;
      items, selected, savedItem, useSavedItem := list, None, None, false;
      allowNoSelection, acceptTabKey, readOnly, inputMustMatch := true, false, false, true;
      notified := [];
    }

    /** The `Text` setter. */
    method SetText(value: string)
      requires Valid()
      modifies this`text, this`selectionStart, this`selectionLength
      ensures Valid()
      ensures Shown() == Assign(items, allowNoSelection, inputMustMatch, old(Shown()), value)
    {
      if |value| == 0 && !allowNoSelection {
        return;
      }
      if |value| > 0 {
        var pos := FindString(items, value);
        if inputMustMatch && (pos < 0 || items[pos] != value) {
          return;
        }
      }
      text := value;
      selectionStart, selectionLength := |text|, 0;
    }

    /**
     * `base.SelectedItem = item`: null clears the selection, a listed item is
     * selected, anything else is ignored; a change raises `SelectedIndexChanged`.
     */
    method BaseSelectItem(item: Option<nat>, subscribersThrow: bool) returns (thrown: bool)
      requires Valid()
      modifies this`selected, this`useSavedItem, this`notified
      ensures Valid()
      ensures var target := if item.None? then None else if item.value < |items| then item else old(selected);
        if !old(readOnly && useSavedItem) || target == old(selected) then
          && selected == target && useSavedItem == old(useSavedItem)
          && notified == (if target == old(selected) then old(notified) else old(notified) + [target])
          && thrown == (target != old(selected) && subscribersThrow)
        else
          && selected == old(savedItem) && useSavedItem
          && notified == (if target == old(savedItem) then old(notified) else old(notified) + [old(savedItem)])
          && thrown == (target != old(savedItem) && subscribersThrow)
      decreases if useSavedItem then 4 else 1
    {
      var target := if item.None? then None else if item.value < |items| then item else selected;
      thrown := false;
      if target != selected {
        selected := target;
        thrown := OnSelectedIndexChanged(subscribersThrow);
      }
    }

    /**
     * `OnSelectedIndexChanged`: in read-only mode a change away from the item
     * saved at drop-down is undone; otherwise subscribers are told.
     */
    method OnSelectedIndexChanged(subscribersThrow: bool) returns (thrown: bool)
      requires Valid()
      modifies this`selected, this`useSavedItem, this`notified
      ensures Valid()
      ensures old(readOnly && useSavedItem) ==>
        && selected == old(savedItem) && useSavedItem
        && notified == (if old(selected) == old(savedItem) then old(notified) else old(notified) + [old(savedItem)])
        && thrown == (old(selected) != old(savedItem) && subscribersThrow)
      ensures !old(readOnly && useSavedItem) ==>
        selected == old(selected) && notified == old(notified) + [selected] && thrown == subscribersThrow &&
        useSavedItem == old(useSavedItem)
      decreases if useSavedItem then 3 else 0
    {
      if readOnly && useSavedItem {
        thrown := false;
        if selected != savedItem {
          thrown := SetSelectedItem(savedItem, subscribersThrow);
        }
      } else {
        notified := notified + [selected];
        thrown := subscribersThrow;
      }
    }

    /**
     * The `SelectedItem` setter: the selection changes as `base.SelectedItem`
     * does, with the read-only revert switched off meanwhile, and
     * `_useSavedItem` is set again on the way out, also when a subscriber threw.
     */
    method SetSelectedItem(item: Option<nat>, subscribersThrow: bool) returns (thrown: bool)
      requires Valid()
      modifies this`selected, this`useSavedItem, this`notified
      ensures Valid()
      ensures useSavedItem
      ensures selected == if item.None? then None else if item.value < |items| then item else old(selected)
      ensures notified == if selected == old(selected) then old(notified) else old(notified) + [selected]
      ensures thrown == (selected != old(selected) && subscribersThrow)
      decreases 2
    {
      useSavedItem := false;
      thrown := BaseSelectItem(item, subscribersThrow);
      useSavedItem := true;
    }

    /** `OnDropDown`: remember the item selected when the list opens. */
    method OnDropDown()
      requires Valid()
      modifies this`savedItem
      ensures Valid() && savedItem == selected
    {
      savedItem := selected;
    }

    /** `IsInputKey`: Tab is an input key exactly when the control accepts it; other keys as the base decides. */
    function IsInputKey(key: Key, baseIsInputKey: bool): (r: bool)
      reads this
      ensures key == Tab ==> (r <==> acceptTabKey)
      ensures key != Tab ==> (r <==> baseIsInputKey)
    {
      if key == Tab then acceptTabKey else baseIsInputKey
    }

    /**
     * `OnKeyDown`: read-only swallows every key; Delete is always handled,
     * and with the whole text selected, where no selection is allowed, it
     * empties the box and clears the selection.
     */
    method OnKeyDown(key: Key) returns (handled: bool)
      requires Valid()
      modifies this`text, this`selectionStart, this`selectionLength, this`selected, this`useSavedItem, this`notified
      ensures Valid()
      ensures handled <==> readOnly || key == Delete
      ensures useSavedItem == old(useSavedItem)
      ensures if !readOnly && key == Delete && |old(text)| == old(selectionLength) && allowNoSelection
        then Shown() == View([], 0, 0, None) && notified == old(notified) + (if old(selected).Some? then [None] else [])
        else Shown() == old(Shown()) && notified == old(notified)
    {
      handled := false;
      if readOnly {
        handled := true;
      } else if key == Delete {
        if |text| == selectionLength && allowNoSelection {
          SetText([]);
          var _ := BaseSelectItem(None, false);
        }
        handled := true;
      }
    }

    /** `OnKeyUp`: read-only swallows every key. */
    method OnKeyUp(key: Key) returns (handled: bool)
      ensures handled == readOnly
    {
      handled := readOnly;
    }

    /** `OnKeyPress`: every key is handled here, and none reaches the edit box directly. */
    method OnKeyPress(c: char) returns (handled: bool)
      requires Valid()
      modifies this`text, this`selectionStart, this`selectionLength, this`selected, this`useSavedItem, this`notified
      ensures Valid()
      ensures handled
      ensures readOnly ==> Shown() == old(Shown()) && notified == old(notified)
      ensures !readOnly ==> Shown() == KeyPress(items, allowNoSelection, inputMustMatch, old(Shown()), c)
      ensures useSavedItem == old(useSavedItem)
      ensures notified == old(notified) + (if selected == old(selected) then [] else [selected])
    {
      handled := true;
      if readOnly {
        return;
      }
      var soFar := text[..selectionStart];
      if c == Backspace {
        if |soFar| < 2 {
          soFar := [];
        } else {
          soFar := soFar[..|soFar| - 1];
        }
      } else {
        soFar := soFar + [c];
      }
      assert soFar == TypedPrefix(text, selectionStart, c);
      ApplyPrefix(soFar);
    }

    /** The part of `OnKeyPress` after the typed prefix is known. */
    method ApplyPrefix(soFar: string)
      requires Valid() && !readOnly
      modifies this`text, this`selectionStart, this`selectionLength, this`selected, this`useSavedItem, this`notified
      ensures Valid()
      ensures Shown() == PrefixApplied(items, allowNoSelection, inputMustMatch, old(Shown()), soFar)
      ensures useSavedItem == old(useSavedItem)
      ensures notified == old(notified) + (if selected == old(selected) then [] else [selected])
    {
      if |soFar| == 0 && !allowNoSelection && selected.Some? {
        SetText(items[0]);
        selectionStart := 0;
        selectionLength := |text|;
        return;
      }
      if |soFar| == 0 {
        SetText([]);
        var _ := BaseSelectItem(None, false);
        return;
      }
      Complete(soFar);
    }

    /** A prefix that is not empty: complete it to the first item it starts, or keep it as typed. */
    method Complete(soFar: string)
      requires Valid() && !readOnly && soFar != []
      modifies this`text, this`selectionStart, this`selectionLength
      ensures Valid()
      ensures Shown() == PrefixApplied(items, allowNoSelection, inputMustMatch, old(Shown()), soFar)
    {
      var pos := FindString(items, soFar);
      if inputMustMatch && pos < 0 {
        return;
      }
      if !inputMustMatch && pos < 0 {
        SetText(soFar);
      } else if pos >= 0 {
        FoundItemAdmitted(items, allowNoSelection, inputMustMatch, soFar);
        SetText(items[pos]);
      }
      selectionStart := |soFar|;
      selectionLength := if |text| - |soFar| > 0 then |text| - |soFar| else 0;
    }
  }
}
