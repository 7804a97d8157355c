/** The view pipeline (src/App.js, lines 77-106): the visible list is the
    active collection, narrowed by the active category filter, then by the
    search term, then reordered by the sort mode. */
module View {
  import opened Catalog
  import opened Strings
  import opened Seqs
  import opened Sorting

  /** The `sortOrder` select: 'default', 'alphabetical', 'lowest', 'highest'. */
  datatype SortOrder = DefaultOrder | AlphabeticalOrder | LowestFirst | HighestFirst

  /** The comparator `data.sort` is called with; `DefaultOrder` calls no sort. */
  function ComparatorOf(order: SortOrder, rank: RankType): (c: Comparator)
    requires order != DefaultOrder
  {
    match order
    case AlphabeticalOrder => ByName
    case LowestFirst => Ascending(rank)
    case HighestFirst => Descending(rank)
  }

  /** `item => item.name.toLowerCase().includes(term.toLowerCase())`. */
  function MatchesSearch(term: string): (keep: Record -> bool)
  {
    (x: Record) => Includes(ToLower(x.name), ToLower(term))
  }

  /** The category filter that applies to the collection: `fieldFilter` for
      majors, `sectorFilter` for occupations. */
  function ActiveFilter(d: DataType, fieldFilter: string, sectorFilter: string): (f: string)
  {
    match d
    case Majors => fieldFilter
    case Occupations => sectorFilter
  }

  /** The active category filter is "all" or one of the collection's categories
      (the controls offer nothing else; an unknown key would throw). */
  predicate FilterKnown(d: DataType, fieldFilter: string, sectorFilter: string)
  {
    var f := ActiveFilter(d, fieldFilter, sectorFilter);
    f == AllFilter || f in Categories(d)
  }

  /** `data.filter(item => categories[filter].includes(item.name))` unless the filter is "all". */
  function ByCategory(data: seq<Record>, categories: map<string, seq<string>>, filter: string): (r: seq<Record>)
    requires filter == AllFilter || filter in categories
  {
    if filter != AllFilter then Filter(data, InCategory(categories[filter])) else data
  }

  /** The active collection after the category filter (lines 78-86). */
  function CategoryStage(d: DataType, fieldFilter: string, sectorFilter: string): (r: seq<Record>)
    requires FilterKnown(d, fieldFilter, sectorFilter)
  {
    ByCategory(Collection(d), Categories(d), ActiveFilter(d, fieldFilter, sectorFilter))
  }

  /** The search filter (lines 89-91); an empty term is falsy and skips it. */
  function SearchStage(data: seq<Record>, term: string): (r: seq<Record>)
  {
    if term != "" then Filter(data, MatchesSearch(term)) else data
  }

  /** The sort (lines 94-105). */
  function SortStage(data: seq<Record>, order: SortOrder, rank: RankType): (r: seq<Record>)
  {
    if order == DefaultOrder then data else InsertionSort(data, ComparatorOf(order, rank))
  }

  /** The three stages applied to any collection and grouping. */
  function Pipeline(data: seq<Record>, categories: map<string, seq<string>>, filter: string,
                    term: string, order: SortOrder, rank: RankType): (r: seq<Record>)
    requires filter == AllFilter || filter in categories
  {
    SortStage(SearchStage(ByCategory(data, categories, filter), term), order, rank)
  }

  /** The list the explorer renders. */
  function Visible(d: DataType, fieldFilter: string, sectorFilter: string,
                   term: string, order: SortOrder, rank: RankType): (r: seq<Record>)
    requires FilterKnown(d, fieldFilter, sectorFilter)
  {
    Pipeline(Collection(d), Categories(d), ActiveFilter(d, fieldFilter, sectorFilter), term, order, rank)
  }

  /** Builds the visible list as the component does on every render: copy
      the collection, reassign it through the filters, then sort it in place. */
  method DeriveVisible(d: DataType, fieldFilter: string, sectorFilter: string,
                       term: string, order: SortOrder, rank: RankType) returns (data: seq<Record>)
    requires FilterKnown(d, fieldFilter, sectorFilter)
    ensures data == Visible(d, fieldFilter, sectorFilter, term, order, rank)
  {
    data := Collection(d);
    if d == Majors && fieldFilter != AllFilter {
      data := Filter(data, InCategory(FieldsOfStudy[fieldFilter]));
    }
    if d == Occupations && sectorFilter != AllFilter {
      data := Filter(data, InCategory(Sectors[sectorFilter]));
    }
    if term != "" {
      data := Filter(data, MatchesSearch(term));
    }
    data := SortCopy(data, order, rank);
  }

  /** `data.sort(comparator)` on the freshly filtered array, or nothing for the default order. */
  method SortCopy(data: seq<Record>, order: SortOrder, rank: RankType) returns (r: seq<Record>)
    ensures r == SortStage(data, order, rank)
  {
    r := data;
    if order != DefaultOrder {
      var a := new Record[|data|](i requires 0 <= i < |data| => data[i]);
      assert a[..] == data;
      SortInPlace(a, ComparatorOf(order, rank));
      r := a[..];
    }
  }

  // ----- category filter -----

  /** With the filter at "all", the whole collection passes in declared order;
      with a category selected, exactly the records named in it pass, in declared order. */
  lemma ByCategoryExact(data: seq<Record>, categories: map<string, seq<string>>, filter: string)
    requires filter == AllFilter || filter in categories
    ensures filter == AllFilter ==> ByCategory(data, categories, filter) == data
    ensures filter != AllFilter ==>
              forall x :: x in ByCategory(data, categories, filter) <==> x in data && x.name in categories[filter]
    ensures filter != AllFilter ==>
              forall x :: multiset(ByCategory(data, categories, filter))[x] ==
                           if x.name in categories[filter] then multiset(data)[x] else 0
    ensures Subseq(ByCategory(data, categories, filter), data)
  {
    if filter != AllFilter {
      FilterMembers(data, InCategory(categories[filter]));
      FilterCount(data, InCategory(categories[filter]));
      FilterSubseq(data, InCategory(categories[filter]));
    } else {
      SubseqRefl(data);
    }
  }

  /** The filter of the inactive collection never changes the list. */
  lemma InactiveFilterIgnored(d: DataType, fieldFilter: string, sectorFilter: string,
                              otherField: string, otherSector: string,
                              term: string, order: SortOrder, rank: RankType)
    requires FilterKnown(d, fieldFilter, sectorFilter)
    requires d == Majors ==> otherField == fieldFilter
    requires d == Occupations ==> otherSector == sectorFilter
    ensures FilterKnown(d, otherField, otherSector)
    ensures Visible(d, fieldFilter, sectorFilter, term, order, rank)
         == Visible(d, otherField, otherSector, term, order, rank)
  {
  }

  // ----- search -----

  /** A non-empty term keeps exactly the records whose lower-cased name contains
      the lower-cased term, in their existing order. */
  lemma SearchExact(data: seq<Record>, term: string)
    requires term != ""
    ensures forall x :: x in SearchStage(data, term) <==>
              x in data && exists i :: OccursAt(ToLower(x.name), ToLower(term), i)
    ensures forall x :: multiset(SearchStage(data, term))[x] ==
              if exists i :: OccursAt(ToLower(x.name), ToLower(term), i) then multiset(data)[x] else 0
    ensures Subseq(SearchStage(data, term), data)
  {
    FilterMembers(data, MatchesSearch(term));
    FilterCount(data, MatchesSearch(term));
    FilterSubseq(data, MatchesSearch(term));
    forall x: Record
      ensures MatchesSearch(term)(x) <==> exists i :: OccursAt(ToLower(x.name), ToLower(term), i)
    {
      IncludesIff(ToLower(x.name), ToLower(term));
    }
  }

  /** Skipping the search for an empty term is the same as searching for it:
      every name contains the empty string. */
  lemma SearchEmptyTermKeepsAll(data: seq<Record>)
    ensures Filter(data, MatchesSearch("")) == data
    ensures SearchStage(data, "") == data
  {
    forall x | x in data
      ensures MatchesSearch("")(x)
    {
      IncludesEmpty(ToLower(x.name));
    }
    FilterAll(data, MatchesSearch(""));
  }

  // ----- sort -----

  /** `x` has rank value `v`. */
  function HasRank(k: RankType, v: int): (keep: Record -> bool)
  {
    (x: Record) => Rank(x, k) == v
  }

  /** `x` is called `n`. */
  function Named(n: string): (keep: Record -> bool)
  {
    (x: Record) => x.name == n
  }

  /** Every sort mode reorders and does not add or drop records; the default
      mode keeps the order unchanged. */
  lemma SortPermutes(data: seq<Record>, order: SortOrder, rank: RankType)
    ensures multiset(SortStage(data, order, rank)) == multiset(data)
    ensures order == DefaultOrder ==> SortStage(data, order, rank) == data
  {
    if order != DefaultOrder {
      InsertionSortPermutation(data, ComparatorOf(order, rank));
    }
  }

  /** Lowest first: rank values never decrease, and records with equal rank
      keep their prior relative order. */
  lemma LowestFirstSorted(data: seq<Record>, rank: RankType)
    ensures var r := SortStage(data, LowestFirst, rank);
            && (forall i, j :: 0 <= i < j < |r| ==> Rank(r[i], rank) <= Rank(r[j], rank))
            && (forall v :: Filter(r, HasRank(rank, v)) == Filter(data, HasRank(rank, v)))
  {
    var c := Ascending(rank);
    InsertionSortSorted(data, c);
    forall v
      ensures Filter(InsertionSort(data, c), HasRank(rank, v)) == Filter(data, HasRank(rank, v))
    {
      TiesAreEqualRanks(InsertionSort(data, c), data, c, rank, v);
    }
  }

  /** Highest first: rank values never increase, and records with equal rank
      keep their prior relative order. */
  lemma HighestFirstSorted(data: seq<Record>, rank: RankType)
    ensures var r := SortStage(data, HighestFirst, rank);
            && (forall i, j :: 0 <= i < j < |r| ==> Rank(r[i], rank) >= Rank(r[j], rank))
            && (forall v :: Filter(r, HasRank(rank, v)) == Filter(data, HasRank(rank, v)))
  {
    var c := Descending(rank);
    InsertionSortSorted(data, c);
    forall v
      ensures Filter(InsertionSort(data, c), HasRank(rank, v)) == Filter(data, HasRank(rank, v))
    {
      TiesAreEqualRanks(InsertionSort(data, c), data, c, rank, v);
    }
  }

  /** For a rank comparator, tied means equal rank value, so the stability of the
      sort keeps every run of equal rank in order. */
  lemma TiesAreEqualRanks(r: seq<Record>, data: seq<Record>, c: Comparator, rank: RankType, v: int)
    requires c == Ascending(rank) || c == Descending(rank)
    requires r == InsertionSort(data, c)
    ensures Filter(r, HasRank(rank, v)) == Filter(data, HasRank(rank, v))
  {
    var p := Record("", v, v);
    InsertionSortStable(data, c, p);
    FilterCongruent(r, Tied(c, p), HasRank(rank, v));
    FilterCongruent(data, Tied(c, p), HasRank(rank, v));
  }

  /** Alphabetical: names ascend, and records with the same name keep their
      prior relative order. */
  lemma AlphabeticalSorted(data: seq<Record>, rank: RankType)
    ensures var r := SortStage(data, AlphabeticalOrder, rank);
            && (forall i, j :: 0 <= i < j < |r| ==> LocaleCompare(r[i].name, r[j].name) <= 0)
            && (forall n :: Filter(r, Named(n)) == Filter(data, Named(n)))
  {
    var r := InsertionSort(data, ByName);
    InsertionSortSorted(data, ByName);
    forall n
      ensures Filter(r, Named(n)) == Filter(data, Named(n))
    {
      var p := Record(n, 0, 0);
      InsertionSortStable(data, ByName, p);
      forall x: Record
        ensures Tied(ByName, p)(x) == Named(n)(x)
      {
        LocaleCompareZero(x.name, n);
      }
      FilterCongruent(r, Tied(ByName, p), Named(n));
      FilterCongruent(data, Tied(ByName, p), Named(n));
    }
  }

  /** Sorting an already sorted list again changes nothing, in every mode. */
  lemma SortIdempotent(data: seq<Record>, order: SortOrder, rank: RankType)
    ensures SortStage(SortStage(data, order, rank), order, rank) == SortStage(data, order, rank)
  {
    if order != DefaultOrder {
      InsertionSortIdempotent(data, ComparatorOf(order, rank));
    }
  }

  // ----- the whole pipeline -----

  /** A record passes the pipeline exactly when it is in the collection, in the
      selected category (if any) and matches the search term (if any); the result
      is a reordering of the filtered list, which keeps the collection's order. */
  lemma PipelineMembers(data: seq<Record>, categories: map<string, seq<string>>, filter: string,
                        term: string, order: SortOrder, rank: RankType)
    requires filter == AllFilter || filter in categories
    ensures var filtered := SearchStage(ByCategory(data, categories, filter), term);
            var r := Pipeline(data, categories, filter, term, order, rank);
            && multiset(r) == multiset(filtered)
            && Subseq(filtered, data)
            && forall x :: x in r <==>
                 && x in data
                 && (filter == AllFilter || x.name in categories[filter])
                 && (term == "" || Includes(ToLower(x.name), ToLower(term)))
  {
    var cat := ByCategory(data, categories, filter);
    var filtered := SearchStage(cat, term);
    ByCategoryExact(data, categories, filter);
    SearchStageMembers(cat, term);
    SortMembers(filtered, order, rank);
    SubseqTrans(filtered, cat, data);
  }

  /** The search stage keeps, in order, the records that match a non-empty term. */
  lemma SearchStageMembers(data: seq<Record>, term: string)
    ensures forall x :: x in SearchStage(data, term) <==>
              x in data && (term == "" || Includes(ToLower(x.name), ToLower(term)))
    ensures Subseq(SearchStage(data, term), data)
  {
    if term != "" {
      FilterMembers(data, MatchesSearch(term));
      FilterSubseq(data, MatchesSearch(term));
    } else {
      SubseqRefl(data);
    }
  }

  /** The sort stage neither adds nor drops records. */
  lemma SortMembers(data: seq<Record>, order: SortOrder, rank: RankType)
    ensures multiset(SortStage(data, order, rank)) == multiset(data)
    ensures forall x :: x in SortStage(data, order, rank) <==> x in data
  {
    SortPermutes(data, order, rank);
    assert forall x :: x in SortStage(data, order, rank) <==> x in multiset(data);
  }

  /** The same, for the list the explorer renders. */
  lemma VisibleMembers(d: DataType, fieldFilter: string, sectorFilter: string,
                       term: string, order: SortOrder, rank: RankType)
    requires FilterKnown(d, fieldFilter, sectorFilter)
    ensures var key := ActiveFilter(d, fieldFilter, sectorFilter);
            var filtered := SearchStage(CategoryStage(d, fieldFilter, sectorFilter), term);
            var r := Visible(d, fieldFilter, sectorFilter, term, order, rank);
            && multiset(r) == multiset(filtered)
            && Subseq(filtered, Collection(d))
            && forall x :: x in r <==>
                 && x in Collection(d)
                 && (key == AllFilter || x.name in Categories(d)[key])
                 && (term == "" || Includes(ToLower(x.name), ToLower(term)))
  {
    PipelineMembers(Collection(d), Categories(d), ActiveFilter(d, fieldFilter, sectorFilter), term, order, rank);
  }

  /** Category filter alone, with the default order: the collection's records of
      the selected category, in declared order. */
  lemma DefaultOrderNoSearch(d: DataType, fieldFilter: string, sectorFilter: string, rank: RankType)
    requires FilterKnown(d, fieldFilter, sectorFilter)
    ensures Visible(d, fieldFilter, sectorFilter, "", DefaultOrder, rank) == CategoryStage(d, fieldFilter, sectorFilter)
  {
  }

  /** Search alone, with the default order: the collection's records whose names
      contain the term, in declared order. */
  lemma DefaultOrderNoCategory(d: DataType, term: string, rank: RankType)
    ensures Visible(d, AllFilter, AllFilter, term, DefaultOrder, rank) == SearchStage(Collection(d), term)
  {
  }

  lemma {:induction false} SubseqRefl(s: seq<Record>)
    ensures Subseq(s, s)
  {
    if s != [] {
      SubseqRefl(s[1..]);
    }
  }

  lemma {:induction false} SubseqTrans(a: seq<Record>, b: seq<Record>, c: seq<Record>)
    requires Subseq(a, b) && Subseq(b, c)
    ensures Subseq(a, c)
    decreases |c|
  {
    if a != [] {
      if b[0] == c[0] && Subseq(b[1..], c[1..]) {
        if a[0] == b[0] && Subseq(a[1..], b[1..]) {
          SubseqTrans(a[1..], b[1..], c[1..]);
        } else {
          SubseqTrans(a, b[1..], c[1..]);
        }
      } else {
        SubseqTrans(a, b, c[1..]);
      }
    }
  }

  // ----- examples -----

  /** Sector "Healthcare" shows only the Registered Nurse. */
  lemma HealthcareExample(rank: RankType)
    ensures Visible(Occupations, AllFilter, "Healthcare", "", DefaultOrder, rank)
         == [Record("Registered Nurse", 72, 92)]
  {
    FilterSingleMatch(OccupationRecords, InCategory(Sectors["Healthcare"]), 1);
  }

  /** The search predicate compares the names character by character, ignoring case. */
  lemma SearchIgnoresCase(x: Record, term: string)
    ensures MatchesSearch(term)(x) <==> IncludesFromIgnoringCase(x.name, term, 0)
  {
    IncludesLowerIgnoresCase(x.name, term, 0);
  }

  /** Of the majors, the first five do not contain "eng" in any case ... */
  lemma EngNotInFirstMajors()
    ensures forall i :: 0 <= i < 5 ==> !IncludesFromIgnoringCase(MajorRecords[i].name, "eng", 0)
  {
    forall i | 0 <= i < 5
      ensures !IncludesFromIgnoringCase(MajorRecords[i].name, "eng", 0)
    {
      var name := MajorRecords[i].name;
      if i == 0 {
        assert name == "Computer Science";
        assert !IncludesFromIgnoringCase(name, "eng", 8);
      } else if i == 1 {
        assert name == "Nursing";
      } else if i == 2 {
        assert name == "Finance";
      } else if i == 3 {
        assert name == "Graphic Design";
        assert !IncludesFromIgnoringCase(name, "eng", 7);
      } else {
        assert name == "Education";
      }
    }
  }

  /** ... nor do the last three ... */
  lemma EngNotInLastMajors()
    ensures forall i :: 7 <= i < 10 ==> !IncludesFromIgnoringCase(MajorRecords[i].name, "eng", 0)
  {
    forall i | 7 <= i < 10
      ensures !IncludesFromIgnoringCase(MajorRecords[i].name, "eng", 0)
    {
      var name := MajorRecords[i].name;
      if i == 7 {
        assert name == "HR Management";
        assert !IncludesFromIgnoringCase(name, "eng", 6);
      } else if i == 8 {
        assert name == "Accounting";
        assert !IncludesFromIgnoringCase(name, "eng", 5);
      } else {
        assert name == "Psychology";
        assert !IncludesFromIgnoringCase(name, "eng", 5);
      }
    }
  }

  /** ... while "Civil Engineering" does and "Marketing" does not. */
  lemma EngInCivilEngineering()
    ensures !IncludesFromIgnoringCase(MajorRecords[5].name, "eng", 0)
    ensures IncludesFromIgnoringCase(MajorRecords[6].name, "eng", 0)
  {
    assert MajorRecords[5].name == "Marketing";
    assert MajorRecords[6].name == "Civil Engineering";
    assert MatchesFromIgnoringCase("Civil Engineering", "eng", 6, 0);
  }

  /** Among the majors, exactly the one at index 6 matches "eng". */
  lemma EngMajors()
    ensures forall i :: 0 <= i < |MajorRecords| ==> (IncludesFromIgnoringCase(MajorRecords[i].name, "eng", 0) <==> i == 6)
  {
    EngNotInFirstMajors();
    EngNotInLastMajors();
    EngInCivilEngineering();
  }

  /** When exactly one record's name contains the term, ignoring case, the search keeps only it. */
  lemma SearchSingleMatch(data: seq<Record>, term: string, k: nat)
    requires term != "" && k < |data|
    requires IncludesFromIgnoringCase(data[k].name, term, 0)
    requires forall i :: 0 <= i < |data| && i != k ==> !IncludesFromIgnoringCase(data[i].name, term, 0)
    ensures SearchStage(data, term) == [data[k]]
  {
    forall i | 0 <= i < |data|
      ensures MatchesSearch(term)(data[i]) <==> i == k
    {
      SearchIgnoresCase(data[i], term);
    }
    FilterSingleMatch(data, MatchesSearch(term), k);
  }

  /** With no category filter and the default order, a term that exactly one
      record's name contains, ignoring case, shows only that record. */
  lemma VisibleSingleMatch(d: DataType, term: string, rank: RankType, k: nat, x: Record)
    requires term != "" && k < |Collection(d)| && Collection(d)[k] == x
    requires forall i :: 0 <= i < |Collection(d)| ==>
               (IncludesFromIgnoringCase(Collection(d)[i].name, term, 0) <==> i == k)
    ensures Visible(d, AllFilter, AllFilter, term, DefaultOrder, rank) == [x]
  {
    SearchSingleMatch(Collection(d), term, k);
  }

  /** Searching majors for "eng" finds only Civil Engineering, although the name
      is capitalised and the term is not. */
  lemma EngExample(rank: RankType)
    ensures Visible(Majors, AllFilter, AllFilter, "eng", DefaultOrder, rank)
         == [Record("Civil Engineering", 15, 68)]
  {
    EngMajors();
    VisibleSingleMatch(Majors, "eng", rank, 6, Record("Civil Engineering", 15, 68));
  }
}
