/** The explorer component's state (src/App.js, lines 53-61) and the event
    handlers that change it. Each handler is one atomic transition; React's
    batching of the individual setters and the scheduling of the effect that
    follows a collection switch are not modelled. */
module Explorer {
  import opened Catalog
  import opened Selection
  import opened View

  class Explorer {
    var dataType: DataType
    var rankType: RankType
    var searchTerm: string
    var sortOrder: SortOrder
    var selectedItem: Option<Record>
    var compareMode: bool
    var comparedItems: seq<Record>
    var fieldFilter: string
    var sectorFilter: string

    /** Both filters name a category or "all", and the filter of the collection
        not on screen is "all"; the comparison list is well formed and, since
        clicks reach it only from the list view, holds at most two items; the
        two modes exclude each other. */
    predicate Valid()
      reads this
    {
      (fieldFilter == AllFilter || fieldFilter in FieldsOfStudy) &&
      (sectorFilter == AllFilter || sectorFilter in Sectors) &&
      (dataType == Occupations ==> fieldFilter == AllFilter) &&
      (dataType == Majors ==> sectorFilter == AllFilter) &&
      WellFormed(comparedItems) && |comparedItems| < Cap &&
      ModesExclusive(compareMode, selectedItem, comparedItems)
    }

    /** The initial values of the nine `useState` calls. */
    constructor()
      ensures Valid()
      ensures dataType == Occupations && rankType == Alphabetical
      ensures searchTerm == "" && sortOrder == DefaultOrder
      ensures selectedItem == None && !compareMode && comparedItems == []
      ensures fieldFilter == AllFilter && sectorFilter == AllFilter
    {
      dataType := Occupations;
      rankType := Alphabetical;
      searchTerm := "";
      sortOrder := DefaultOrder;
      selectedItem := None;
      compareMode := false;
      comparedItems := [];
      fieldFilter := AllFilter;
      sectorFilter := AllFilter;
    }

    /** `handleItemClick(item)` (lines 109-119), called from a list entry
        (line 665), which is on screen only while the comparison view is not
        (line 535). */
    method HandleItemClick(item: Record)
      requires Valid() && !ComparisonShown()
      modifies this
      ensures Valid()
      ensures comparedItems == if compareMode then CompareClick(old(comparedItems), item) else old(comparedItems)
      ensures selectedItem == if compareMode then old(selectedItem) else DetailClick(old(selectedItem), item)
      ensures compareMode == old(compareMode) && dataType == old(dataType) && rankType == old(rankType)
      ensures searchTerm == old(searchTerm) && sortOrder == old(sortOrder)
      ensures fieldFilter == old(fieldFilter) && sectorFilter == old(sectorFilter)
    {
      if compareMode {
        CompareClickWellFormed(comparedItems, item);
        ListViewClick(comparedItems, item);
        if HasName(comparedItems, item.name) {
          comparedItems := WithoutName(comparedItems, item.name);
        } else if |comparedItems| < Cap {
          comparedItems := comparedItems + [item];
        }
      } else {
        selectedItem := if selectedItem.Some? && selectedItem.value.name == item.name then None else Some(item);
      }
    }

    /** The compare switch (lines 498-503): flip the mode, clear both selections. */
    method ToggleCompareMode()
      requires Valid()
      modifies this
      ensures Valid()
      ensures compareMode == !old(compareMode) && comparedItems == [] && selectedItem == None
      ensures dataType == old(dataType) && rankType == old(rankType)
      ensures searchTerm == old(searchTerm) && sortOrder == old(sortOrder)
      ensures fieldFilter == old(fieldFilter) && sectorFilter == old(sectorFilter)
    {
      compareMode := !compareMode;
      comparedItems := [];
      selectedItem := None;
    }

    /** The Remove button of a compared item (line 635), rendered for each
        listed item inside the comparison view (line 535). */
    method RemoveCompared(item: Record)
      requires Valid() && ComparisonShown() && item in comparedItems
      modifies this
      ensures Valid()
      ensures comparedItems == WithoutName(old(comparedItems), item.name)
      ensures comparedItems == CompareClick(old(comparedItems), item)
      ensures selectedItem == old(selectedItem) && compareMode == old(compareMode)
      ensures dataType == old(dataType) && rankType == old(rankType)
      ensures searchTerm == old(searchTerm) && sortOrder == old(sortOrder)
      ensures fieldFilter == old(fieldFilter) && sectorFilter == old(sectorFilter)
    {
      ghost var before := comparedItems;
      WithoutNameExact(before, item.name);
      SubseqNamesDistinct(WithoutName(before, item.name), before);
      WithoutNameShorter(before, item.name);
      comparedItems := WithoutName(comparedItems, item.name);
      RemoveIsToggleOff(before, item);
    }

    /** The collection buttons (lines 197, 213) followed by the effect on
        `dataType` (lines 122-128): a switch clears both selections and both
        category filters; choosing the active collection again changes nothing. */
    method SetDataType(d: DataType)
      requires Valid()
      modifies this
      ensures Valid()
      ensures dataType == d
      ensures d != old(dataType) ==> selectedItem == None && comparedItems == [] &&
                                      fieldFilter == AllFilter && sectorFilter == AllFilter
      ensures d == old(dataType) ==> selectedItem == old(selectedItem) && comparedItems == old(comparedItems) &&
                                      fieldFilter == old(fieldFilter) && sectorFilter == old(sectorFilter)
      ensures rankType == old(rankType) && searchTerm == old(searchTerm)
      ensures sortOrder == old(sortOrder) && compareMode == old(compareMode)
    {
      if d != dataType {
        dataType := d;
        comparedItems := [];
        selectedItem := None;
        fieldFilter := AllFilter;
        sectorFilter := AllFilter;
      }
    }

    /** The ranking-type buttons (lines 249, 265). */
    method SetRankType(k: RankType)
      requires Valid()
      modifies this
      ensures Valid()
      ensures rankType == k
      ensures dataType == old(dataType) && searchTerm == old(searchTerm) && sortOrder == old(sortOrder)
      ensures selectedItem == old(selectedItem) && compareMode == old(compareMode) && comparedItems == old(comparedItems)
      ensures fieldFilter == old(fieldFilter) && sectorFilter == old(sectorFilter)
    {
      rankType := k;
    }

    /** The sort select (line 301). */
    method SetSortOrder(order: SortOrder)
      requires Valid()
      modifies this
      ensures Valid()
      ensures sortOrder == order
      ensures dataType == old(dataType) && rankType == old(rankType) && searchTerm == old(searchTerm)
      ensures selectedItem == old(selectedItem) && compareMode == old(compareMode) && comparedItems == old(comparedItems)
      ensures fieldFilter == old(fieldFilter) && sectorFilter == old(sectorFilter)
    {
      sortOrder := order;
    }

    /** The search box (line 338). */
    method SetSearchTerm(term: string)
      requires Valid()
      modifies this
      ensures Valid()
      ensures searchTerm == term
      ensures dataType == old(dataType) && rankType == old(rankType) && sortOrder == old(sortOrder)
      ensures selectedItem == old(selectedItem) && compareMode == old(compareMode) && comparedItems == old(comparedItems)
      ensures fieldFilter == old(fieldFilter) && sectorFilter == old(sectorFilter)
    {
      searchTerm := term;
    }

    /** The field-of-study buttons (lines 383, 400), which offer "all" and the
        keys and are rendered only for the majors (line 364). */
    method SetFieldFilter(field: string)
      requires Valid() && dataType == Majors
      requires field == AllFilter || field in FieldsOfStudy
      modifies this
      ensures Valid()
      ensures fieldFilter == field
      ensures dataType == old(dataType) && rankType == old(rankType) && searchTerm == old(searchTerm)
      ensures sortOrder == old(sortOrder) && sectorFilter == old(sectorFilter)
      ensures selectedItem == old(selectedItem) && compareMode == old(compareMode) && comparedItems == old(comparedItems)
    {
      fieldFilter := field;
    }

    /** The sector buttons (lines 437, 454), which offer "all" and the keys and
        are rendered only for the occupations (line 418). */
    method SetSectorFilter(sector: string)
      requires Valid() && dataType == Occupations
      requires sector == AllFilter || sector in Sectors
      modifies this
      ensures Valid()
      ensures sectorFilter == sector
      ensures dataType == old(dataType) && rankType == old(rankType) && searchTerm == old(searchTerm)
      ensures sortOrder == old(sortOrder) && fieldFilter == old(fieldFilter)
      ensures selectedItem == old(selectedItem) && compareMode == old(compareMode) && comparedItems == old(comparedItems)
    {
      sectorFilter := sector;
    }

    /** The list a render shows (lines 78-106). */
    method RenderList() returns (data: seq<Record>)
      requires Valid()
      ensures data == Visible(dataType, fieldFilter, sectorFilter, searchTerm, sortOrder, rankType)
    {
      data := DeriveVisible(dataType, fieldFilter, sectorFilter, searchTerm, sortOrder, rankType);
    }

    /** Line 535: the comparison view is rendered. */
    predicate ComparisonShown()
      reads this
    {
      ShowsComparison(compareMode, comparedItems)
    }

    /** Line 739: the detail panel is rendered. */
    predicate DetailShown()
      reads this
    {
      ShowsDetail(compareMode, selectedItem)
    }

    /** Line 660: the list entry of `item` is highlighted. */
    predicate Highlighted(item: Record)
      reads this
    {
      IsHighlighted(selectedItem, comparedItems, item)
    }

    /** In a valid state the two views never appear together, the detail panel
        follows the selection, and highlighting follows the active mode. */
    lemma ViewsFollowMode(item: Record)
      requires Valid()
      ensures !(ComparisonShown() && DetailShown())
      ensures DetailShown() <==> selectedItem.Some?
      ensures Highlighted(item) <==>
                if compareMode then HasName(comparedItems, item.name)
                else selectedItem.Some? && selectedItem.value.name == item.name
    {
      ViewsExclusive(compareMode, selectedItem, comparedItems);
      HighlightFollowsMode(compareMode, selectedItem, comparedItems, item);
    }
  }
}
