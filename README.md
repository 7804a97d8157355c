# Degree-order explorer, modelled in Dafny

The degree-order app is a single React component, `AlphabeticalVisualization`
in `src/App.js`. It shows ten occupations or ten majors, each with two
percentile-like ranks: an alphabetical rank and a commonality rank. This
project models the logic under the JSX:

- the static catalog (records, the field-of-study and sector groupings);
- the view pipeline that turns the component state into the rendered list;
  it copies the active collection, applies the category filter of that
  collection, applies the case-insensitive search, then sorts stably in one
  of four modes;
- `handleItemClick`, the compare switch, the Remove button and the reset
  that follows a collection switch, as methods of a class holding the nine
  state variables;
- the choice between the comparison view, the list and the detail panel,
  and the highlighting of list entries;
- `getColor`'s bucketing into five palette slots;
- `getRelatedOccupations`.

Modules:

| module | file | contents |
|---|---|---|
| `Seqs` | seqs.dfy | `Filter` (JavaScript `Array.prototype.filter`) and the subsequence relation |
| `Strings` | strings.dfy | ASCII `toLowerCase`, `includes`, lexicographic `localeCompare` |
| `Catalog` | catalog.dfy | records, the two collections, the category maps |
| `Sorting` | sorting.dfy | the three comparators, a stable insertion sort as a function, and the same sort in place on an array |
| `View` | view.dfy | the filter/search/sort pipeline as functions and as the method the render runs |
| `Selection` | selection.dfy | the click rules on values, the comparison-list invariant, the view choice |
| `Explorer` | explorer.dfy | the `Explorer` class: the nine state variables and the event handlers |
| `Colors` | colors.dfy | `getColor` |
| `Related` | related.dfy | `getRelatedOccupations` |

`handleItemClick` caps the comparison list at three items
(`comparedItems.length < 3`, line 113), and `CompareClick` states that rule.
The rule never fires in the running page, though. The list entries that call
`handleItemClick` (line 665) are rendered only while `compareMode &&
comparedItems.length > 1` is false (line 535). So in compare mode a click
starts from at most one listed item and ends at two, which matches the
on-screen text (lines 522 and 893). `Explorer.Explorer.HandleItemClick`
requires that the comparison view is not shown, and `Explorer.Explorer.Valid`
keeps the list at most two long. `Selection.FourthPickIgnored` and
`Selection.OccupationPicksExample` are about `CompareClick` on its own. The
page cannot produce their click sequences.

## Model

| member | source | states |
|---|---|---|
| Seqs.FilterMembers | src/App.js:82-91 | a record is in a filtered list exactly when it is in the input and satisfies the predicate |
| Seqs.FilterSubseq | src/App.js:82-91 | filtering keeps the input's relative order (the result is a subsequence) |
| Seqs.FilterAppend | src/App.js:82-91 | filtering a concatenation filters each part and concatenates |
| Seqs.FilterSingleMatch | src/App.js:82-91 | when exactly one element satisfies the predicate, the filter returns just that element |
| Seqs.FilterMultiset | src/App.js:82-91 | filtering never adds occurrences |
| Seqs.FilterCount | src/App.js:82-91 | an element occurs in the filtered list exactly as often as in the input when it passes the predicate, and not at all otherwise |
| Strings.LowerChar | src/App.js:90 | an ASCII upper-case letter becomes the lower-case letter at the same place in the alphabet (32 code points above it); every other character is unchanged; no upper-case letter is left |
| Strings.ToLowerIdempotent | src/App.js:90 | a lower-cased name has no upper-case letter left, and lower-casing again changes nothing |
| Strings.IncludesIff | src/App.js:90 | `includes` holds exactly when the term occurs at some index of the name |
| Strings.IncludesEmpty | src/App.js:90 | every string includes the empty string |
| Strings.IncludesLowerIgnoresCase | src/App.js:90 | lower-casing both sides and then searching equals comparing folded characters one by one |
| Strings.LocaleCompareZero | src/App.js:95 | the name comparison returns zero exactly for equal names |
| Strings.LocaleCompareAntisymmetric | src/App.js:95 | swapping the names flips the comparison's sign |
| Strings.LocaleCompareTransitive | src/App.js:95 | "comes no later than" is transitive |
| Catalog.OccupationNamesDistinct | src/App.js:5-16 | no two occupations share a name |
| Catalog.MajorNamesDistinct | src/App.js:17-28 | no two majors share a name |
| Catalog.AllIsNoCategory | src/App.js:32-50 | "all" is not a field of study or a sector, so the filter value "all" cannot be mistaken for a category |
| Sorting.LeqTotal | src/App.js:94-105 | each comparator orders any two records one way or the other |
| Sorting.LeqTransitive | src/App.js:94-105 | each comparator's order is transitive |
| Sorting.InsertionSortPermutation | src/App.js:94-105 | sorting yields a permutation of its input |
| Sorting.InsertionSortSorted | src/App.js:94-105 | sorting yields a list ordered by the comparator |
| Sorting.InsertionSortStable | src/App.js:94-105 | records that compare equal keep their relative order, as `Array.prototype.sort` is stable |
| Sorting.InsertionSortIdempotent | src/App.js:94-105 | sorting a sorted list again changes nothing |
| Sorting.InsertInPlace | src/App.js:94-105 | shifting `a[i]` left past the greater elements before it inserts it after the last one not greater than it, and leaves the rest of the array alone |
| Sorting.SortInPlace | src/App.js:94-105 | the array sort leaves the array holding the stable sort of its old contents |
| View.DeriveVisible | src/App.js:78-106 | the render's copy-filter-search-sort code computes exactly the list `Visible` specifies |
| View.SortCopy | src/App.js:93-106 | sorting a copied array gives the sort stage of the list; the default order leaves it untouched |
| View.ByCategoryExact | src/App.js:81-86 | with "all" the whole collection passes in declared order; otherwise exactly the records named in the category pass, each as often as in the collection, in declared order |
| View.InactiveFilterIgnored | src/App.js:81-86 | the filter of the other collection never changes the rendered list |
| View.SearchExact | src/App.js:89-91 | a non-empty term keeps exactly the records whose lower-cased name contains the lower-cased term, each as often as in the input, in their order |
| View.SearchEmptyTermKeepsAll | src/App.js:89-91 | an empty term leaves the list unchanged, and searching for it would change nothing either |
| View.SortPermutes | src/App.js:93-106 | every sort mode gives a permutation; the default mode keeps the order |
| View.LowestFirstSorted | src/App.js:96-100 | `lowest` gives non-decreasing values of the active rank field; equal values keep their prior order |
| View.HighestFirstSorted | src/App.js:101-105 | `highest` gives non-increasing values of the active rank field; equal values keep their prior order |
| View.AlphabeticalSorted | src/App.js:94-95 | `alphabetical` gives names in ascending order; records with equal names keep their order |
| View.SortIdempotent | src/App.js:93-106 | sorting the sorted list again in the same mode changes nothing |
| View.PipelineMembers | src/App.js:78-106 | the rendered list holds exactly the collection records in the category that match the term; it is a permutation of the filtered list, and that list keeps the collection's order |
| View.VisibleMembers | src/App.js:78-106 | the same, for the active collection and its active filter |
| View.DefaultOrderNoSearch | src/App.js:78-106 | with no term and the default order, the list is the category stage |
| View.DefaultOrderNoCategory | src/App.js:78-106 | with both filters at "all" and the default order, the list is the search stage over the collection |
| View.SearchSingleMatch | src/App.js:89-91 | when exactly one record's name contains the term, ignoring case, the search keeps only that record |
| View.HealthcareExample | src/App.js:42 | sector "Healthcare" shows only Registered Nurse |
| View.EngExample | src/App.js:89-91 | searching the majors for "eng" shows only Civil Engineering |
| Selection.WithoutNameExact | src/App.js:112 | removing a name keeps exactly the other records, each as often as before, in order, and no record with that name remains |
| Selection.WithoutNameShorter | src/App.js:112 | removing a listed name shortens the list |
| Selection.CompareClickCases | src/App.js:111-115 | a listed name is removed and the others keep their order; an unlisted item is appended while fewer than three are listed; otherwise nothing changes |
| Selection.CompareClickToggles | src/App.js:111-115 | after a click the item's name is listed exactly when it was not listed before and there was room |
| Selection.CompareClickWellFormed | src/App.js:111-115 | a click keeps the list at most three long with distinct names |
| Selection.CompareClicksWellFormed | src/App.js:111-115 | any sequence of clicks keeps the list well formed |
| Selection.CompareClickTwice | src/App.js:111-115 | clicking an unlisted item twice, with room for it, restores the list |
| Selection.RemoveIsToggleOff | src/App.js:635 | Remove on a listed item gives the same list as a second click on it |
| Selection.FourthPickIgnored | src/App.js:111-115 | under the handler's own rule, picking four differently named records lists the first three and the fourth click changes nothing |
| Selection.OccupationPicksExample | src/App.js:111-115 | under the handler's own rule, Software Developer, Registered Nurse, Financial Analyst, then Chef leave the first three listed |
| Selection.DetailClickCases | src/App.js:116-118 | a detail click clears the selection exactly when the item has the selected name; otherwise the item becomes the selection |
| Selection.DetailClickTwice | src/App.js:116-118 | from any selection, two clicks on the same item re-select it when its name was selected and otherwise leave nothing selected |
| Selection.ClickKeepsModesExclusive | src/App.js:109-119 | a click in either mode keeps "compare mode has no selection, detail mode has no comparison list" |
| Selection.ViewsExclusive | src/App.js:535-739 | with the modes exclusive, the detail panel shows exactly when something is selected and never with the comparison view |
| Selection.HighlightFollowsMode | src/App.js:660 | with the modes exclusive, a list entry is highlighted by the comparison list in compare mode and by the selection otherwise |
| Selection.ListViewClick | src/App.js:111-115 | while the list is on screen in compare mode, a click always toggles the entry (never the full-list branch) and the list stays below three items |
| Selection.CompareClickFlipsHighlight | src/App.js:660 | with room in the list, a compare click flips the clicked entry's highlight |
| Explorer.Explorer.constructor | src/App.js:53-61 | the initial state: occupations, alphabetical rank, no term, default order, nothing selected or compared, both filters "all" |
| Explorer.Explorer.HandleItemClick | src/App.js:109-119 | called only while the list is on screen; in compare mode the list becomes the compare click's result; outside it the selection becomes the detail click's result; nothing else changes and the state stays valid, so the list stays at most two long |
| Explorer.Explorer.ToggleCompareMode | src/App.js:498-503 | flips compare mode and empties both the selection and the comparison list |
| Explorer.Explorer.RemoveCompared | src/App.js:635 | called for a listed item while the comparison view is shown; removes the item's name from the list, exactly as a click on that item would |
| Explorer.Explorer.SetDataType | src/App.js:122-128 | switching collections clears the selection, the comparison list and both filters, and keeps the term, the sort order, the rank type and compare mode |
| Explorer.Explorer.SetRankType | src/App.js:249-265 | sets the rank type and nothing else |
| Explorer.Explorer.SetSortOrder | src/App.js:301 | sets the sort order and nothing else |
| Explorer.Explorer.SetSearchTerm | src/App.js:338 | sets the search term and nothing else |
| Explorer.Explorer.SetFieldFilter | src/App.js:364-400 | offered only for the majors; sets the field-of-study filter and nothing else |
| Explorer.Explorer.SetSectorFilter | src/App.js:418-454 | offered only for the occupations; sets the sector filter and nothing else |
| Explorer.Explorer.RenderList | src/App.js:78-106 | the list a render shows is `Visible` of the current state |
| Explorer.Explorer.ViewsFollowMode | src/App.js:535-739 | in a valid state the comparison view and the detail panel never appear together, and highlighting follows the mode |
| Colors.Slot | src/App.js:68-75 | the slot is one of five, and it is the band of width 20 holding the value (the first and last bands are open-ended) |
| Colors.SlotCountsThresholds | src/App.js:68-75 | the slot is the number of thresholds 20, 40, 60, 80 the value reaches |
| Colors.SlotMonotone | src/App.js:68-75 | a larger value never gets a lower slot |
| Colors.SlotBand | src/App.js:68-75 | a value in band `k` gets slot `k` |
| Colors.GetColor | src/App.js:68-75 | the colour is a slot below five of the palette; slot k is chosen exactly for values from 20k up to below 20(k+1), the first slot taking everything below 20 and the last everything from 80; the palette is the blue one exactly for the alphabetical type |
| Colors.GetColorMonotone | src/App.js:68-75 | within a type, a larger value gets the same palette and a slot no lower |
| Colors.GetColorSeparatesKinds | src/App.js:63-75 | the two types never produce the same colour |
| Related.RelatedExact | src/App.js:131-146 | an occupation is related to a mapped major exactly when its name is in the major's entry, each as often as in the collection, and the result keeps the occupations' order |
| Related.UnmappedHasNone | src/App.js:145 | an unmapped name has no related occupations |
| Related.EveryMajorMapped | src/App.js:133-142 | every major of the collection has an entry in the table |
| Related.TableNamesAreOccupations | src/App.js:133-142 | every name in the table is the name of an occupation |
| Related.PsychologyExample | src/App.js:142 | "Psychology" leads to HR Specialist only |

## Left out

- The JSX, the inline styles, the hex colour strings, the bar widths, the text colour chosen at value 50 and all prose. This includes the "Nomenclature Analysis" paragraph at lines 845-863. A colour is modelled as a palette and a slot.
- React's state setters and effect scheduling. Each handler is one atomic transition of the `Explorer` class. The effect on `dataType` is folded into `SetDataType`.
- `SetDataType`: choosing the collection that is already active changes nothing. React keeps the same state and does not run the effect.
- `localeCompare` is modelled as lexicographic order on character codes, not locale collation.
- `toLowerCase` is modelled for ASCII letters only, not full Unicode case mapping.
- JavaScript numbers are floating point. Ranks and colour values are modelled as integers, which is all the data holds.
- `SetFieldFilter` and `SetSectorFilter` require "all" or a known key. The buttons offer nothing else, and a render with an unknown key would throw at lines 82 and 85.
- `SortOrder` has the four values the select offers. The code treats any other string like `default`; it cannot arise.
- `RelatedOccupations` treats only the ten table keys as mapped. A key such as "toString" would reach a prototype member in JavaScript; no major has such a name.
- The related-occupations panel under the detail view (lines 802-812) is not modelled beyond `getRelatedOccupations` itself.
