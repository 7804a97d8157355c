/** The rules of `handleItemClick` (src/App.js, lines 109-119) and of the
    comparison "Remove" button (line 635), stated on values: what a click
    does to the comparison list in compare mode and to the selected item in
    detail mode. The explorer's state object applies them. */
module Selection {
  import opened Catalog
  import opened Seqs

  datatype Option<T> = None | Some(value: T)

  /** The comparison list accepts a new item only while it holds fewer than three. */
  const Cap: nat := 3

  /** `items.find(i => i.name === name)` finds something. */
  predicate HasName(items: seq<Record>, name: string)
  {
    exists i :: 0 <= i < |items| && items[i].name == name
  }

  /** `i => i.name !== name`. */
  function NameIsNot(name: string): (keep: Record -> bool)
  {
    (x: Record) => x.name != name
  }

  /** `items.filter(i => i.name !== name)`. */
  function WithoutName(items: seq<Record>, name: string): (r: seq<Record>)
  {
    Filter(items, NameIsNot(name))
  }

  /** A click in compare mode: a listed name is taken out, an unlisted item is
      appended while there is room, and otherwise nothing changes. */
  function CompareClick(items: seq<Record>, item: Record): (r: seq<Record>)
  {
    if HasName(items, item.name) then WithoutName(items, item.name)
    else if |items| < Cap then items + [item]
    else items
  }

  /** A click in detail mode: clicking the selected name clears the selection,
      any other item becomes the selection. */
  function DetailClick(selected: Option<Record>, item: Record): (r: Option<Record>)
  {
    if selected.Some? && selected.value.name == item.name then None else Some(item)
  }

  /** The well-formed comparison lists: at most three items, no name twice. */
  predicate WellFormed(items: seq<Record>)
  {
    |items| <= Cap && NamesDistinct(items)
  }

  /** `i` is the position of the record named `name`, when there is one. */
  lemma HasNameAt(items: seq<Record>, name: string, i: nat)
    requires i < |items| && items[i].name == name
    ensures HasName(items, name)
  {
  }

  /** Removing a name keeps precisely the other records, in their order, and
      leaves no record with that name. */
  lemma WithoutNameExact(items: seq<Record>, name: string)
    ensures forall x :: x in WithoutName(items, name) <==> x in items && x.name != name
    ensures forall x :: multiset(WithoutName(items, name))[x] == if x.name != name then multiset(items)[x] else 0
    ensures Subseq(WithoutName(items, name), items)
    ensures !HasName(WithoutName(items, name), name)
  {
    var r := WithoutName(items, name);
    FilterMembers(items, NameIsNot(name));
    FilterCount(items, NameIsNot(name));
    FilterSubseq(items, NameIsNot(name));
  }

  /** Removing a listed name shortens the list. */
  lemma {:induction false} WithoutNameShorter(items: seq<Record>, name: string)
    requires HasName(items, name)
    ensures |WithoutName(items, name)| < |items|
  {
    var i :| 0 <= i < |items| && items[i].name == name;
    if i == 0 {
      assert |Filter(items[1..], NameIsNot(name))| <= |items[1..]|;
    } else {
      HasNameAt(items[1..], name, i - 1);
      WithoutNameShorter(items[1..], name);
    }
  }

  /** Removing an unlisted name changes nothing. */
  lemma WithoutAbsentName(items: seq<Record>, name: string)
    requires !HasName(items, name)
    ensures WithoutName(items, name) == items
  {
    assert forall x :: x in items ==> NameIsNot(name)(x);
    FilterAll(items, NameIsNot(name));
  }

  /** Distinct names stay distinct in any order-preserving selection. */
  lemma {:induction false} SubseqNamesDistinct(r: seq<Record>, s: seq<Record>)
    requires Subseq(r, s) && NamesDistinct(s)
    ensures NamesDistinct(r)
  {
    if r != [] {
      assert NamesDistinct(s[1..]) by {
        forall i, j | 0 <= i < j < |s[1..]|
          ensures s[1..][i].name != s[1..][j].name
        {
          assert s[1..][i] == s[i + 1] && s[1..][j] == s[j + 1];
        }
      }
      if r[0] == s[0] && Subseq(r[1..], s[1..]) {
        SubseqNamesDistinct(r[1..], s[1..]);
        SubseqMembers(r[1..], s[1..]);
        forall j | 0 < j < |r|
          ensures r[0].name != r[j].name
        {
          assert r[j] == r[1..][j - 1] && r[1..][j - 1] in r[1..];
          assert r[j] in s[1..];
          var k :| 0 <= k < |s[1..]| && s[1..][k] == r[j];
          assert s[k + 1] == r[j];
        }
      } else {
        SubseqNamesDistinct(r, s[1..]);
      }
    }
  }

  /** Everything in a subsequence is in the sequence. */
  lemma {:induction false} SubseqMembers(r: seq<Record>, s: seq<Record>)
    requires Subseq(r, s)
    ensures forall x :: x in r ==> x in s
  {
    if r != [] {
      if r[0] == s[0] && Subseq(r[1..], s[1..]) {
        SubseqMembers(r[1..], s[1..]);
        assert r == [r[0]] + r[1..];
      } else {
        SubseqMembers(r, s[1..]);
      }
    }
  }

  /** The three outcomes of a compare-mode click. */
  lemma CompareClickCases(items: seq<Record>, item: Record)
    ensures HasName(items, item.name) ==>
              (forall x :: x in CompareClick(items, item) <==> x in items && x.name != item.name) &&
              Subseq(CompareClick(items, item), items)
    ensures !HasName(items, item.name) && |items| < Cap ==> CompareClick(items, item) == items + [item]
    ensures !HasName(items, item.name) && |items| >= Cap ==> CompareClick(items, item) == items
  {
    WithoutNameExact(items, item.name);
  }

  /** After a click the item's name is listed exactly when it was not listed
      before and there was room for it. */
  lemma CompareClickToggles(items: seq<Record>, item: Record)
    ensures HasName(CompareClick(items, item), item.name) <==> !HasName(items, item.name) && |items| < Cap
  {
    if HasName(items, item.name) {
      WithoutNameExact(items, item.name);
    } else if |items| < Cap {
      HasNameAt(items + [item], item.name, |items|);
    }
  }

  /** A click keeps the comparison list well formed. */
  lemma CompareClickWellFormed(items: seq<Record>, item: Record)
    requires WellFormed(items)
    ensures WellFormed(CompareClick(items, item))
  {
    if HasName(items, item.name) {
      WithoutNameShorter(items, item.name);
      WithoutNameExact(items, item.name);
      SubseqNamesDistinct(WithoutName(items, item.name), items);
    } else if |items| < Cap {
      var r := items + [item];
      assert forall i, j :: 0 <= i < j < |r| ==> r[i].name != r[j].name;
    }
  }

  /** Clicking an unlisted item twice, with room for it, restores the list. */
  lemma CompareClickTwice(items: seq<Record>, item: Record)
    requires !HasName(items, item.name) && |items| < Cap
    ensures CompareClick(CompareClick(items, item), item) == items
  {
    var r := items + [item];
    HasNameAt(r, item.name, |items|);
    calc {
      WithoutName(r, item.name);
      { FilterAppend(items, [item], NameIsNot(item.name)); }
      WithoutName(items, item.name) + Filter([item], NameIsNot(item.name));
      { WithoutAbsentName(items, item.name); FilterSingleton(item, NameIsNot(item.name)); }
      items;
    }
  }

  /** The Remove button of a listed item does what a second click on it does. */
  lemma RemoveIsToggleOff(items: seq<Record>, item: Record)
    requires item in items
    ensures WithoutName(items, item.name) == CompareClick(items, item)
  {
    var i :| 0 <= i < |items| && items[i] == item;
    HasNameAt(items, item.name, i);
  }

  /** A detail-mode click clears the selection exactly when the item's name is
      the selected one; otherwise the item becomes the selection. */
  lemma DetailClickCases(selected: Option<Record>, item: Record)
    ensures DetailClick(selected, item) == None <==> selected.Some? && selected.value.name == item.name
    ensures DetailClick(selected, item) != None ==> DetailClick(selected, item) == Some(item)
  {
  }

  /** Clicking the same item twice restores an unrelated or empty selection to
      nothing selected, and re-selects the item when its name was selected. */
  lemma DetailClickTwice(selected: Option<Record>, item: Record)
    ensures DetailClick(DetailClick(selected, item), item) ==
              if selected.Some? && selected.value.name == item.name then Some(item) else None
  {
  }

  /** The two modes exclude each other: in compare mode nothing is selected
      for the detail panel, outside it the comparison list is empty. */
  predicate ModesExclusive(compareMode: bool, selected: Option<Record>, items: seq<Record>)
  {
    (compareMode ==> selected == None) && (!compareMode ==> items == [])
  }

  /** `compareMode && comparedItems.length > 1` (line 535): the comparison view replaces the list. */
  predicate ShowsComparison(compareMode: bool, items: seq<Record>)
  {
    compareMode && |items| > 1
  }

  /** While the list is on screen in compare mode it holds at most one item, so a
      click on a list entry always toggles that entry: the full-list branch of
      `CompareClick` is never taken, and the list grows to at most two items. */
  lemma ListViewClick(items: seq<Record>, item: Record)
    requires !ShowsComparison(true, items)
    ensures CompareClick(items, item) ==
              if HasName(items, item.name) then WithoutName(items, item.name) else items + [item]
    ensures |CompareClick(items, item)| < Cap
  {
    if HasName(items, item.name) {
      WithoutNameShorter(items, item.name);
    }
  }

  /** `selectedItem && !compareMode` (line 739): the detail panel is shown. */
  predicate ShowsDetail(compareMode: bool, selected: Option<Record>)
  {
    selected.Some? && !compareMode
  }

  /** `selectedItem?.name === item.name || comparedItems.find(i => i.name === item.name)` (line 660). */
  predicate IsHighlighted(selected: Option<Record>, items: seq<Record>, item: Record)
  {
    (selected.Some? && selected.value.name == item.name) || HasName(items, item.name)
  }

  /** A click, in whichever mode, keeps the modes exclusive. */
  lemma ClickKeepsModesExclusive(compareMode: bool, selected: Option<Record>, items: seq<Record>, item: Record)
    requires ModesExclusive(compareMode, selected, items)
    ensures compareMode ==> ModesExclusive(compareMode, selected, CompareClick(items, item))
    ensures !compareMode ==> ModesExclusive(compareMode, DetailClick(selected, item), items)
  {
  }

  /** With the modes exclusive, the detail panel is shown exactly when something
      is selected, and never together with the comparison view. */
  lemma ViewsExclusive(compareMode: bool, selected: Option<Record>, items: seq<Record>)
    requires ModesExclusive(compareMode, selected, items)
    ensures ShowsDetail(compareMode, selected) <==> selected.Some?
    ensures !(ShowsDetail(compareMode, selected) && ShowsComparison(compareMode, items))
  {
  }

  /** With the modes exclusive, a record is highlighted by the comparison list in
      compare mode and by the selection otherwise. */
  lemma HighlightFollowsMode(compareMode: bool, selected: Option<Record>, items: seq<Record>, item: Record)
    requires ModesExclusive(compareMode, selected, items)
    ensures IsHighlighted(selected, items, item) <==>
              if compareMode then HasName(items, item.name)
              else selected.Some? && selected.value.name == item.name
  {
  }

  /** After a compare-mode click with room in the list, the clicked record is
      highlighted exactly when it was not before. */
  lemma CompareClickFlipsHighlight(items: seq<Record>, item: Record)
    requires |items| < Cap
    ensures IsHighlighted(None, CompareClick(items, item), item) <==> !IsHighlighted(None, items, item)
  {
    CompareClickToggles(items, item);
  }

  /** The clicks of a session in compare mode, applied in turn. */
  function CompareClicks(items: seq<Record>, clicks: seq<Record>): (r: seq<Record>)
    decreases |clicks|
  {
    if clicks == [] then items else CompareClicks(CompareClick(items, clicks[0]), clicks[1..])
  }

  /** However many clicks, the list stays well formed. */
  lemma {:induction false} CompareClicksWellFormed(items: seq<Record>, clicks: seq<Record>)
    requires WellFormed(items)
    ensures WellFormed(CompareClicks(items, clicks))
    decreases |clicks|
  {
    if clicks != [] {
      CompareClickWellFormed(items, clicks[0]);
      CompareClicksWellFormed(CompareClick(items, clicks[0]), clicks[1..]);
    }
  }

  /** Picking four different records in turn lists the first three; the fourth
      click finds the list full. */
  lemma {:induction false} FourthPickIgnored(a: Record, b: Record, c: Record, d: Record)
    requires NamesDistinct([a, b, c, d])
    ensures CompareClicks([], [a, b, c, d]) == [a, b, c]
  {
    var clicks := [a, b, c, d];
    assert a.name != b.name && a.name != c.name && a.name != d.name by {
      assert clicks[0] == a && clicks[1] == b && clicks[2] == c && clicks[3] == d;
    }
    assert b.name != c.name && b.name != d.name && c.name != d.name by {
      assert clicks[1] == b && clicks[2] == c && clicks[3] == d;
    }
    assert CompareClick([], a) == [a];
    assert CompareClick([a], b) == [a, b] by {
      assert !HasName([a], b.name);
    }
    assert CompareClick([a, b], c) == [a, b, c] by {
      assert !HasName([a, b], c.name);
    }
    assert CompareClick([a, b, c], d) == [a, b, c] by {
      assert !HasName([a, b, c], d.name);
    }
    calc {
      CompareClicks([], clicks);
      { assert clicks[1..] == [b, c, d]; }
      CompareClicks([a], [b, c, d]);
      { assert [b, c, d][1..] == [c, d]; }
      CompareClicks([a, b], [c, d]);
      { assert [c, d][1..] == [d]; }
      CompareClicks([a, b, c], [d]);
      CompareClicks([a, b, c], []);
    }
  }

  /** In particular Software Developer, Registered Nurse, Financial Analyst and
      Chef, picked in that order, leave the first three listed. */
  lemma OccupationPicksExample()
    ensures CompareClicks([], [OccupationRecords[0], OccupationRecords[1], OccupationRecords[2], OccupationRecords[9]])
         == [OccupationRecords[0], OccupationRecords[1], OccupationRecords[2]]
  {
    var a, b, c, d := OccupationRecords[0], OccupationRecords[1], OccupationRecords[2], OccupationRecords[9];
    assert NamesDistinct([a, b, c, d]) by {
      OccupationNamesDistinct();
      assert a.name != b.name && a.name != c.name && a.name != d.name;
      assert b.name != c.name && b.name != d.name && c.name != d.name;
    }
    FourthPickIgnored(a, b, c, d);
  }
}
