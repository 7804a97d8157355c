/** `getColor` (src/App.js, lines 63-75): a value is bucketed into one of
    five slots of a palette, and the palette follows the ranking type. The
    hex strings themselves are presentation and are not modelled. */
module Colors {
  import opened Catalog

  /** The blue palette `alphabeticalColors` and the red palette `commonalityColors`. */
  datatype Palette = AlphabeticalColors | CommonalityColors

  /** One entry of a palette: which palette and which of its five slots. */
  datatype Swatch = Swatch(palette: Palette, slot: nat)

  /** Each palette has five entries. */
  const PaletteSize: nat := 5

  /** The slot of `value`: below 20, below 40, below 60, below 80, otherwise. */
  function Slot(value: int): (k: nat)
    ensures k < PaletteSize
    ensures k == 0 || 20 * k <= value
    ensures k == PaletteSize - 1 || value < 20 * (k + 1)
  {
    if value < 20 then 0
    else if value < 40 then 1
    else if value < 60 then 2
    else if value < 80 then 3
    else 4
  }

  /** `type === 'alphabetical' ? alphabeticalColors : commonalityColors`. */
  function PaletteFor(kind: RankType): (p: Palette)
  {
    if kind == Alphabetical then AlphabeticalColors else CommonalityColors
  }

  /** `getColor(value, type)`. */
  function GetColor(value: int, kind: RankType): (s: Swatch)
    ensures s.slot < PaletteSize
    ensures s.slot == 0 || 20 * s.slot <= value
    ensures s.slot == PaletteSize - 1 || value < 20 * (s.slot + 1)
    ensures s.palette == AlphabeticalColors <==> kind == Alphabetical
  {
    Swatch(PaletteFor(kind), Slot(value))
  }

  /** The slot is the number of thresholds 20, 40, 60, 80 that the value reaches. */
  lemma SlotCountsThresholds(value: int)
    ensures Slot(value) == (if value >= 20 then 1 else 0) + (if value >= 40 then 1 else 0)
                         + (if value >= 60 then 1 else 0) + (if value >= 80 then 1 else 0)
  {
  }

  /** A larger value never gets a lighter slot. */
  lemma SlotMonotone(v: int, w: int)
    requires v <= w
    ensures Slot(v) <= Slot(w)
  {
  }

  /** Values in the same band of width 20 share a slot, and the slot depends
      only on the band: the slot of `value` is the one whose band contains it. */
  lemma SlotBand(value: int, k: nat)
    requires k < PaletteSize
    requires k == 0 || 20 * k <= value
    requires k == PaletteSize - 1 || value < 20 * (k + 1)
    ensures Slot(value) == k
  {
  }

  /** Colours are monotone in the value within a palette, and the two
      ranking types never share a colour. */
  lemma GetColorMonotone(v: int, w: int, kind: RankType)
    requires v <= w
    ensures GetColor(v, kind).palette == GetColor(w, kind).palette
    ensures GetColor(v, kind).slot <= GetColor(w, kind).slot
  {
    SlotMonotone(v, w);
  }

  lemma GetColorSeparatesKinds(v: int, w: int)
    ensures GetColor(v, Alphabetical) != GetColor(w, Commonality)
  {
  }
}
