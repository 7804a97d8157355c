/** The explorer's static data: the two collections of records, the
    field-of-study grouping of majors and the sector grouping of
    occupations (src/App.js, lines 4-50). */
module Catalog {

  /** One occupation or major with its two percentile-like scores. */
  datatype Record = Record(name: string, alphabeticalRank: int, commonalityRank: int)

  /** Which collection is active (`dataType`). */
  datatype DataType = Occupations | Majors

  /** Which score the bars show and the rank sorts use (`rankType`). */
  datatype RankType = Alphabetical | Commonality

  /** The field a rank sort reads: `alphabeticalRank` for the alphabetical
      ranking type, `commonalityRank` otherwise. */
  function Rank(r: Record, k: RankType): (v: int)
  {
    match k
    case Alphabetical => r.alphabeticalRank
    case Commonality => r.commonalityRank
  }

  const OccupationRecords: seq<Record> := [
    Record("Software Developer", 85, 76),
    Record("Registered Nurse", 72, 92),
    Record("Financial Analyst", 30, 65),
    Record("Graphic Designer", 40, 58),
    Record("Elementary Teacher", 25, 88),
    Record("Marketing Manager", 60, 70),
    Record("Civil Engineer", 15, 62),
    Record("HR Specialist", 45, 67),
    Record("Accountant", 5, 85),
    Record("Chef", 12, 55)
  ]

  const MajorRecords: seq<Record> := [
    Record("Computer Science", 20, 85),
    Record("Nursing", 65, 90),
    Record("Finance", 35, 78),
    Record("Graphic Design", 42, 60),
    Record("Education", 27, 83),
    Record("Marketing", 58, 74),
    Record("Civil Engineering", 15, 68),
    Record("HR Management", 45, 65),
    Record("Accounting", 3, 80),
    Record("Psychology", 70, 92)
  ]

  /** `mockData[dataType]`. */
  function Collection(d: DataType): (s: seq<Record>)
  {
    match d
    case Occupations => OccupationRecords
    case Majors => MajorRecords
  }

  /** Field of study -> names of the majors in it. */
  const FieldsOfStudy: map<string, seq<string>> := map[
    "Engineering" := ["Computer Science", "Civil Engineering"],
    "Natural Science" := ["Nursing"],
    "Social Science" := ["Finance", "Education", "Marketing", "HR Management", "Accounting", "Psychology"],
    "Humanities" := ["Graphic Design"],
    "Languages" := []
  ]

  /** Sector -> names of the occupations in it. */
  const Sectors: map<string, seq<string>> := map[
    "Healthcare" := ["Registered Nurse"],
    "Technology" := ["Software Developer"],
    "Business & Finance" := ["Financial Analyst", "Marketing Manager", "HR Specialist", "Accountant"],
    "Education" := ["Elementary Teacher"],
    "Creative & Media" := ["Graphic Designer"],
    "Service" := ["Chef"],
    "Manufacturing & Construction" := ["Civil Engineer"],
    "Government & Public Service" := []
  ]

  /** The filter value that selects every record. */
  const AllFilter: string := "all"

  /** The category grouping that belongs to a collection. */
  function Categories(d: DataType): (m: map<string, seq<string>>)
  {
    match d
    case Occupations => Sectors
    case Majors => FieldsOfStudy
  }

  /** `item => names.includes(item.name)`. */
  function InCategory(names: seq<string>): (keep: Record -> bool)
  {
    (x: Record) => x.name in names
  }

  /** No two records of `s` share a name. */
  predicate NamesDistinct(s: seq<Record>)
  {
    forall i, j :: 0 <= i < j < |s| ==> s[i].name != s[j].name
  }

  /** Names are unique within the occupations ... */
  lemma OccupationNamesDistinct()
    ensures NamesDistinct(OccupationRecords)
  {
  }

  /** ... and within the majors. */
  lemma MajorNamesDistinct()
    ensures NamesDistinct(MajorRecords)
  {
  }

  /** No category is called "all", so the filter value "all" is never shadowed. */
  lemma AllIsNoCategory()
    ensures AllFilter !in FieldsOfStudy && AllFilter !in Sectors
  {
  }
}
