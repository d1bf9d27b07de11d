/** The selection controller `useSelect`: a `selected` list plus the anchor
    `lastSelectedIndex` (-1 when unset), driven by plain, ctrl and shift clicks.
    The backing `items` list is passed to each operation because the caller may
    change it between calls. */
module UseSelect {
  import opened JsArray

  datatype Selection<T> = Selection(selected: seq<T>, lastSelectedIndex: int)

  /** Modifier keys of the click; an absent key is `false`. */
  datatype Modifiers = Modifiers(shiftKey: bool, ctrlKey: bool)

  /** Fresh controller state: nothing selected, anchor unset. */
  function Init<T>(): (s: Selection<T>)
    ensures |s.selected| == 0 && s.lastSelectedIndex == -1
  {
    Selection([], -1)
  }

  function Min(a: int, b: int): int { if a <= b then a else b }
  function Max(a: int, b: int): int { if a <= b then b else a }

  /** `getIndex(item)`: position of the first occurrence in `items`, -1 if absent. */
  function GetIndex<T(==)>(items: seq<T>, item: T): (r: int)
    ensures -1 <= r < |items|
    ensures r >= 0 <==> item in items
    ensures r >= 0 ==> items[r] == item && item !in items[..r]
  {
    IndexOf(items, item)
  }

  /** `toggle(item, multiselect)`, returning the new `selected`. */
  function Toggle<T(==)>(selected: seq<T>, item: T, multiselect: bool): (r: seq<T>)
    ensures !multiselect ==> r == [item]
    ensures multiselect && item !in selected ==> r == selected + [item]
    ensures multiselect && item in selected ==>
              |r| == |selected| - 1 &&
              multiset(r) == multiset(selected) - multiset{item} &&
              var i := IndexOf(selected, item);
              (forall j :: 0 <= j < i ==> r[j] == selected[j]) &&
              (forall j :: i <= j < |r| ==> r[j] == selected[j + 1])
    ensures multiselect ==> forall j :: 0 <= j < |selected| && selected[j] != item ==> selected[j] in r
    ensures multiselect ==> forall j :: 0 <= j < |r| && r[j] != item ==> r[j] in selected
  {
    if multiselect then
      var index := IndexOf(selected, item);
      if index > -1 then RemoveAt(selected, index)
      else selected + [item]
    else
      [item]
  }

  /** How `range` ends: it returns normally with the new `selected`, or throws. */
  datatype RangeOutcome<T> = Returned(selected: seq<T>) | Threw

  /** The anchor `range` uses: `lastSelectedIndex`, or 0 when it is unset. */
  function ReferenceIndex<T>(s: Selection<T>): int
  {
    if s.lastSelectedIndex != -1 then s.lastSelectedIndex else 0
  }

  /** `range(item)`: replace `selected` with the inclusive run of `items` between
      the anchor and `item`, clamped to the end of `items`. */
  function Range<T(==)>(s: Selection<T>, items: seq<T>, item: T): (r: RangeOutcome<T>)
    ensures r.Returned?
    ensures item !in items ==> r.selected == s.selected
    ensures item in items && s.lastSelectedIndex >= -1 ==>
              var c := IndexOf(items, item);
              var lo := Min(ReferenceIndex(s), c);
              var hi := Min(Max(ReferenceIndex(s), c) + 1, |items|);
              lo <= c < hi && r.selected == items[lo..hi] && item in r.selected
  {
    var currentIndex := GetIndex(items, item);
    var referenceIndex := ReferenceIndex(s);
    if currentIndex == -1 then Returned(s.selected)
    else if referenceIndex == -1 then Threw
    else
      var start := Min(referenceIndex, currentIndex);
      var end := Max(referenceIndex, currentIndex);
      Returned(Slice(items, start, end + 1))
  }

  /** `select(item, options)`. */
  function Select<T(==)>(s: Selection<T>, items: seq<T>, item: T, m: Modifiers): (r: Selection<T>)
    ensures r.lastSelectedIndex == IndexOf(items, item)
    ensures r.lastSelectedIndex == -1 <==> item !in items
    ensures r.lastSelectedIndex >= 0 ==>
              r.lastSelectedIndex < |items| && items[r.lastSelectedIndex] == item &&
              item !in items[..r.lastSelectedIndex]
    ensures !m.shiftKey && !m.ctrlKey ==> r.selected == [item]
    ensures m.shiftKey && item !in items ==> r.selected == s.selected
    ensures m.shiftKey && item in items && s.lastSelectedIndex >= -1 ==>
              var c := IndexOf(items, item);
              var lo := Min(ReferenceIndex(s), c);
              var hi := Min(Max(ReferenceIndex(s), c) + 1, |items|);
              lo <= c < hi && r.selected == items[lo..hi]
    ensures !m.shiftKey && m.ctrlKey && item !in s.selected ==> r.selected == s.selected + [item]
    ensures !m.shiftKey && m.ctrlKey && item in s.selected ==>
              |r.selected| == |s.selected| - 1 &&
              multiset(r.selected) == multiset(s.selected) - multiset{item} &&
              var i := IndexOf(s.selected, item);
              (forall j :: 0 <= j < i ==> r.selected[j] == s.selected[j]) &&
              (forall j :: i <= j < |r.selected| ==> r.selected[j] == s.selected[j + 1])
    ensures !m.shiftKey && m.ctrlKey ==>
              (forall j :: 0 <= j < |s.selected| && s.selected[j] != item ==> s.selected[j] in r.selected) &&
              (forall j :: 0 <= j < |r.selected| && r.selected[j] != item ==> r.selected[j] in s.selected)
  {
    var selected :=
      if m.shiftKey then
        match Range(s, items, item)
        case Returned(sel) => sel
        case Threw => Toggle(s.selected, item, false)
      else if m.ctrlKey then Toggle(s.selected, item, true)
      else Toggle(s.selected, item, false);
    Selection(selected, IndexOf(items, item))
  }

  /** `setSelected(list)`: overwrite `selected`; the anchor is kept. */
  function SetSelected<T>(s: Selection<T>, list: seq<T>): (r: Selection<T>)
    ensures r.selected == list && r.lastSelectedIndex == s.lastSelectedIndex
  {
    s.(selected := list)
  }

  /** `selectAll()`: a copy of `items`, anchor reset. */
  function SelectAll<T>(s: Selection<T>, items: seq<T>): (r: Selection<T>)
    ensures |r.selected| == |items| && forall i :: 0 <= i < |items| ==> r.selected[i] == items[i]
    ensures r.lastSelectedIndex == -1
  {
    Selection(items, -1)
  }

  /** `clear()`: empty selection, anchor reset. */
  function Clear<T>(s: Selection<T>): (r: Selection<T>)
    ensures |r.selected| == 0 && r.lastSelectedIndex == -1
  {
    Selection([], -1)
  }

  /** `isSelected(item)`: `selected.includes(item)`. */
  function IsSelected<T(==)>(s: Selection<T>, item: T): (r: bool)
    ensures r <==> IndexOf(s.selected, item) != -1
    ensures r <==> exists i :: 0 <= i < |s.selected| && s.selected[i] == item
  {
    item in s.selected
  }
}
