/** `getRelatedOccupations` (src/App.js, lines 131-146): a major is looked
    up in a fixed table of occupation names, and the occupations with those
    names are returned in the order of the occupations collection. */
module Related {
  import opened Catalog
  import opened Seqs

  /** The `mapping` table: major -> names of related occupations. */
  const RelatedNames: map<string, seq<string>> := map[
    "Computer Science" := ["Software Developer"],
    "Nursing" := ["Registered Nurse"],
    "Finance" := ["Financial Analyst"],
    "Graphic Design" := ["Graphic Designer"],
    "Education" := ["Elementary Teacher"],
    "Marketing" := ["Marketing Manager"],
    "Civil Engineering" := ["Civil Engineer"],
    "HR Management" := ["HR Specialist"],
    "Accounting" := ["Accountant"],
    "Psychology" := ["HR Specialist"]
  ]

  /** `mockData.occupations.filter(occ => mapping[majorName] && mapping[majorName].includes(occ.name))`. */
  function RelatedOccupations(major: string): (r: seq<Record>)
  {
    if major in RelatedNames then Filter(OccupationRecords, InCategory(RelatedNames[major])) else []
  }

  /** An occupation is related to a mapped major exactly when its name is in the
      major's entry; the result keeps the order of the occupations collection. */
  lemma RelatedExact(major: string)
    ensures forall o :: o in RelatedOccupations(major) <==>
              major in RelatedNames && o in OccupationRecords && o.name in RelatedNames[major]
    ensures forall o :: multiset(RelatedOccupations(major))[o] ==
              if major in RelatedNames && o.name in RelatedNames[major] then multiset(OccupationRecords)[o] else 0
    ensures Subseq(RelatedOccupations(major), OccupationRecords)
  {
    if major in RelatedNames {
      var keep := InCategory(RelatedNames[major]);
      assert RelatedOccupations(major) == Filter(OccupationRecords, keep);
      FilterMembers(OccupationRecords, keep);
      FilterCount(OccupationRecords, keep);
      FilterSubseq(OccupationRecords, keep);
    } else {
      assert RelatedOccupations(major) == [];
    }
  }

  /** A name that is not in the table has no related occupations. */
  lemma UnmappedHasNone(major: string)
    requires major !in RelatedNames
    ensures RelatedOccupations(major) == []
  {
  }

  /** Every major of the collection has an entry ... */
  lemma EveryMajorMapped()
    ensures forall m :: m in MajorRecords ==> m.name in RelatedNames
  {
  }

  /** ... and every name in the table is an occupation of the collection. */
  lemma TableNamesAreOccupations()
    ensures forall m, n :: m in RelatedNames && n in RelatedNames[m] ==>
              exists o :: o in OccupationRecords && o.name == n
  {
    forall m, n | m in RelatedNames && n in RelatedNames[m]
      ensures exists o :: o in OccupationRecords && o.name == n
    {
      var names := seq(|OccupationRecords|, i requires 0 <= i < |OccupationRecords| => OccupationRecords[i].name);
      assert names == ["Software Developer", "Registered Nurse", "Financial Analyst", "Graphic Designer",
                       "Elementary Teacher", "Marketing Manager", "Civil Engineer", "HR Specialist",
                       "Accountant", "Chef"];
      assert n in names;
      var i :| 0 <= i < |names| && names[i] == n;
      assert OccupationRecords[i] in OccupationRecords;
    }
  }

  /** "Psychology" leads to the HR Specialist only. */
  lemma PsychologyExample()
    ensures RelatedOccupations("Psychology") == [Record("HR Specialist", 45, 67)]
  {
    FilterSingleMatch(OccupationRecords, InCategory(RelatedNames["Psychology"]), 7);
  }
}
