/** Properties of the selection controller relating several operations. */
module UseSelectProps {
  import opened JsArray
  import opened UseSelect

  lemma NoDupSlice<T>(s: seq<T>, lo: nat, hi: nat)
    requires NoDup(s)
    requires lo <= hi <= |s|
    ensures NoDup(s[lo..hi])
  {
    var t := s[lo..hi];
    forall i, j | 0 <= i < j < |t|
      ensures t[i] != t[j]
    {
      assert t[i] == s[lo + i] && t[j] == s[lo + j];
    }
  }

  lemma NoDupRemoveAt<T>(s: seq<T>, i: nat)
    requires NoDup(s)
    requires i < |s|
    ensures NoDup(RemoveAt(s, i))
  {
    var r := RemoveAt(s, i);
    forall a, b | 0 <= a < b < |r|
      ensures r[a] != r[b]
    {
      var a' := if a < i then a else a + 1;
      var b' := if b < i then b else b + 1;
      assert r[a] == s[a'] && r[b] == s[b'] && a' < b';
    }
  }

  /** When `items` has no duplicates, no click introduces a duplicate into a
      duplicate-free selection. */
  lemma SelectKeepsNoDup<T>(s: Selection<T>, items: seq<T>, item: T, m: Modifiers)
    requires NoDup(items) && NoDup(s.selected)
    requires s.lastSelectedIndex >= -1
    ensures NoDup(Select(s, items, item, m).selected)
  {
    var r := Select(s, items, item, m);
    if m.shiftKey {
      if item in items {
        var c := IndexOf(items, item);
        var lo := Min(ReferenceIndex(s), c);
        var hi := Min(Max(ReferenceIndex(s), c) + 1, |items|);
        NoDupSlice(items, lo, hi);
      }
    } else if m.ctrlKey {
      if item in s.selected {
        NoDupRemoveAt(s.selected, IndexOf(s.selected, item));
      } else {
        var t := s.selected + [item];
        forall i, j | 0 <= i < j < |t|
          ensures t[i] != t[j]
        {
          if j == |t| - 1 {
            assert t[i] in s.selected;
          }
        }
      }
    }
  }

  /** `selectAll` and `clear` leave a duplicate-free selection whenever `items`
      has no duplicates. */
  lemma SelectAllAndClearKeepNoDup<T>(s: Selection<T>, items: seq<T>)
    requires NoDup(items)
    ensures NoDup(SelectAll(s, items).selected)
    ensures NoDup(Clear(s).selected)
  {
    assert SelectAll(s, items).selected == items;
  }

  /** On a duplicate-free selection, a ctrl click flips the membership of the
      clicked item. */
  lemma CtrlClickFlipsMembership<T>(selected: seq<T>, item: T)
    requires NoDup(selected)
    ensures item in Toggle(selected, item, true) <==> item !in selected
  {
  }

  /** Two ctrl clicks on an unselected item undo each other: the first appends
      it, the second removes that same occurrence. */
  lemma {:induction false} CtrlClickTwiceRestores<T>(selected: seq<T>, item: T)
    requires item !in selected
    ensures Toggle(Toggle(selected, item, true), item, true) == selected
  {
    var once := Toggle(selected, item, true);
    assert once == selected + [item];
    assert IndexOf(once, item) == |selected| by {
      assert item !in once[..|selected|] by { assert once[..|selected|] == selected; }
    }
  }

  /** Two ctrl clicks on a selected item keep the selection's contents, moving
      the item's first occurrence to the end. */
  lemma CtrlClickTwiceKeepsContents<T>(selected: seq<T>, item: T)
    requires NoDup(selected)
    requires item in selected
    ensures multiset(Toggle(Toggle(selected, item, true), item, true)) == multiset(selected)
  {
    var once := Toggle(selected, item, true);
    CtrlClickFlipsMembership(selected, item);
    assert Toggle(once, item, true) == once + [item];
  }

  /** With the anchor unset, a shift click selects everything from the start of
      `items` through the clicked item. */
  lemma ShiftClickWithoutAnchor<T>(s: Selection<T>, items: seq<T>, item: T)
    requires s.lastSelectedIndex == -1
    requires item in items
    ensures Select(s, items, item, Modifiers(true, false)).selected == items[..IndexOf(items, item) + 1]
  {
  }

  lemma RunHoldsEnds<T>(items: seq<T>, a: nat, c: nat)
    requires a < |items| && c < |items|
    ensures var r := items[Min(a, c)..Max(a, c) + 1];
            items[a] in r && items[c] in r && |r| == Max(a, c) - Min(a, c) + 1
  {
    var r := items[Min(a, c)..Max(a, c) + 1];
    assert r[a - Min(a, c)] == items[a];
    assert r[c - Min(a, c)] == items[c];
  }

  /** A shift click with an in-range anchor selects both the anchor item and the
      clicked item, and everything between them. */
  lemma ShiftClickSpansAnchor<T>(s: Selection<T>, items: seq<T>, item: T)
    requires 0 <= s.lastSelectedIndex < |items|
    requires item in items
    ensures var r := Select(s, items, item, Modifiers(true, false)).selected;
            r == items[Min(s.lastSelectedIndex, IndexOf(items, item))..Max(s.lastSelectedIndex, IndexOf(items, item)) + 1] &&
            items[s.lastSelectedIndex] in r && item in r &&
            |r| == Max(s.lastSelectedIndex, IndexOf(items, item)) - Min(s.lastSelectedIndex, IndexOf(items, item)) + 1
  {
    var a := s.lastSelectedIndex;
    var c := IndexOf(items, item);
    var r := Select(s, items, item, Modifiers(true, false)).selected;
    assert r == items[Min(a, c)..Max(a, c) + 1] by {
      assert ReferenceIndex(s) == a;
      assert Min(Max(a, c) + 1, |items|) == Max(a, c) + 1;
    }
    RunHoldsEnds(items, a, c);
  }

  /** `setSelected(selected)` changes no membership answer. */
  lemma SetSelectedSameIsNoOp<T>(s: Selection<T>, x: T)
    ensures IsSelected(SetSelected(s, s.selected), x) == IsSelected(s, x)
    ensures SetSelected(s, s.selected) == s
  {
  }

  /** `isSelected` after `selectAll` is membership in `items`; after `clear` it
      is false for everything. */
  lemma SelectAllThenClearMembership<T>(s: Selection<T>, items: seq<T>, x: T)
    ensures IsSelected(SelectAll(s, items), x) <==> x in items
    ensures !IsSelected(Clear(SelectAll(s, items)), x)
  {
    assert SelectAll(s, items).selected == items;
  }

  /** Backing list `a b c d e`: a plain click on `b` anchors at index 1, and a
      shift click on `d` then selects `b c d`. */
  lemma RangeExample()
    ensures var s1 := Select(Init<char>(), "abcde", 'b', Modifiers(false, false));
            s1.lastSelectedIndex == 1 &&
            Select(s1, "abcde", 'd', Modifiers(true, false)).selected == "bcd"
  {
    assert IndexOf("abcde", 'b') == 1;
    var s1 := Select(Init<char>(), "abcde", 'b', Modifiers(false, false));
    assert s1 == Selection("b", 1);
    assert IndexOf("abcde", 'd') == 3;
    assert "abcde"[1..4] == "bcd";
  }

  /** A shift click on an item absent from `items` leaves the selection as it
      was and clears the anchor; it does not fall back to a plain click, so the
      two differ whenever the selection was not already `[item]`. */
  lemma ShiftClickOnAbsentItemKeepsSelection<T>(s: Selection<T>, items: seq<T>, item: T)
    requires item !in items
    ensures var r := Select(s, items, item, Modifiers(true, false));
            r.selected == s.selected && r.lastSelectedIndex == -1 &&
            (s.selected != [item] ==> r.selected != Select(s, items, item, Modifiers(false, false)).selected)
  {
  }

  /** Concrete instance: selection `a b`, shift click on `z`, absent from
      `a b c d e`, keeps `a b` where a plain click would give `z`. */
  lemma ShiftClickOnAbsentItemExample()
    ensures var s := Selection("ab", 0);
            var r := Select(s, "abcde", 'z', Modifiers(true, false));
            r.selected == "ab" && Select(s, "abcde", 'z', Modifiers(false, false)).selected == "z"
  {
  }

  /** A stale anchor past the end of a shrunken list is clamped by `slice`:
      anchor 4 from `a b c d e`, list now `a b`, shift click on `a` selects `a b`. */
  lemma StaleAnchorIsClamped()
    ensures var s1 := Select(Init<char>(), "abcde", 'e', Modifiers(false, false));
            s1.lastSelectedIndex == 4 &&
            Select(s1, "ab", 'a', Modifiers(true, false)).selected == "ab"
  {
    assert IndexOf("abcde", 'e') == 4;
    assert IndexOf("ab", 'a') == 0;
  }
}
