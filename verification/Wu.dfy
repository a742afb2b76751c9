/**
  Wu's quantizer (core/src/native_palette.rs): the histogram, the in-place pass that turns it
  into a summed-volume table, and reading boxes off the table.
 */
module Wu {
  import opened Palette

  predicate OnGrid(r: int, g: int, b: int) { 0 <= r < SIDE && 0 <= g < SIDE && 0 <= b < SIDE }

  function Index(r: int, g: int, b: int): (i: int)
    requires OnGrid(r, g, b)
    ensures 0 <= i < SIZE
  {
    r * SIDE * SIDE + g * SIDE + b
  }

  lemma IndexInjective(r: int, g: int, b: int, x: int, y: int, z: int)
    requires OnGrid(r, g, b) && OnGrid(x, y, z) && Index(r, g, b) == Index(x, y, z)
    ensures r == x && g == y && b == z
  {}

  // ----- The progress of the prefix pass -----

  /** The cells the pass has already turned into prefix sums when it reaches (r, g, b). */
  predicate Past(x: int, y: int, z: int, r: int, g: int, b: int) {
    x == 0 || y == 0 || z == 0 || x < r || (x == r && (y < g || (y == g && z < b)))
  }

  function Expected(x: int, y: int, z: int, r: int, g: int, b: int): Cube {
    if Past(x, y, z, r, g, b) then Corner(x, y, z) else Unit(x, y, z)
  }

  /** The plain histogram: every entry weighs the pixels of its own cell. */
  ghost predicate IsHistogram(s: seq<Cell>, samples: seq<Sample>) {
    && |s| == SIZE
    && forall x, y, z :: OnGrid(x, y, z) ==> s[Index(x, y, z)] == Weigh(samples, Unit(x, y, z))
  }

  /** The summed-volume table: every entry weighs all pixels at or below its cell. */
  ghost predicate IsSummed(s: seq<Cell>, samples: seq<Sample>) {
    && |s| == SIZE
    && forall x, y, z :: OnGrid(x, y, z) ==> s[Index(x, y, z)] == Weigh(samples, Corner(x, y, z))
  }

  /** The table when the pass is about to visit (r, g, b). */
  ghost predicate IsPartial(s: seq<Cell>, samples: seq<Sample>, r: int, g: int, b: int) {
    && |s| == SIZE
    && forall x, y, z :: OnGrid(x, y, z) ==> s[Index(x, y, z)] == Weigh(samples, Expected(x, y, z, r, g, b))
  }

  lemma NothingBelow(samples: seq<Sample>, c: Cube)
    requires Genuine(samples)
    requires c.high.r <= 0 || c.high.g <= 0 || c.high.b <= 0
    ensures Weigh(samples, c) == ZERO
  {
    GenuineSamples(samples);
    forall s | s in samples ensures !c.Has(s.cell) {
      assert Plausible(s);
      assert 1 <= s.cell.At(Red) && 1 <= s.cell.At(Green) && 1 <= s.cell.At(Blue);
    }
    EmptyWeighs(samples, c);
  }

  /** Adding a sample to its bin gives the histogram of one more sample. */
  lemma HistogramStep(s: seq<Cell>, samples: seq<Sample>, last: Sample)
    requires IsHistogram(s, samples) && OnGrid(last.cell.r, last.cell.g, last.cell.b)
    ensures var i := Index(last.cell.r, last.cell.g, last.cell.b);
            IsHistogram(s[i := Plus(s[i], last.value)], samples + [last])
  {
    var i := Index(last.cell.r, last.cell.g, last.cell.b);
    assert (samples + [last])[..|samples|] == samples;
    forall x, y, z | OnGrid(x, y, z)
      ensures s[i := Plus(s[i], last.value)][Index(x, y, z)] == Weigh(samples + [last], Unit(x, y, z))
    {
      if Index(x, y, z) == i { IndexInjective(last.cell.r, last.cell.g, last.cell.b, x, y, z); }
    }
  }

  lemma PartialStart(s: seq<Cell>, samples: seq<Sample>)
    requires Genuine(samples)
    requires IsHistogram(s, samples)
    ensures IsPartial(s, samples, 1, 1, 1)
  {
    forall x, y, z | OnGrid(x, y, z) ensures s[Index(x, y, z)] == Weigh(samples, Expected(x, y, z, 1, 1, 1)) {
      if Past(x, y, z, 1, 1, 1) {
        NothingBelow(samples, Corner(x, y, z));
        NothingBelow(samples, Unit(x, y, z));
      }
    }
  }

  /** The pass moves on by one cell. */
  lemma PartialStep(s: seq<Cell>, samples: seq<Sample>, r: int, g: int, b: int)
    requires 1 <= r < SIDE && 1 <= g < SIDE && 1 <= b < SIDE && IsPartial(s, samples, r, g, b)
    ensures IsPartial(s[Index(r, g, b) := Weigh(samples, Corner(r, g, b))], samples, r, g, b + 1)
  {
    var i := Index(r, g, b);
    forall x, y, z | OnGrid(x, y, z)
      ensures s[i := Weigh(samples, Corner(r, g, b))][Index(x, y, z)] ==
              Weigh(samples, Expected(x, y, z, r, g, b + 1))
    {
      if Index(x, y, z) == i { IndexInjective(r, g, b, x, y, z); }
      else { assert Expected(x, y, z, r, g, b + 1) == Expected(x, y, z, r, g, b); }
    }
  }

  /** The end of a line is the start of the next one, the end of a plane that of the next. */
  lemma PartialCarry(s: seq<Cell>, samples: seq<Sample>, r: int, g: int)
    requires 1 <= r && 1 <= g
    ensures IsPartial(s, samples, r, g, SIDE) ==> IsPartial(s, samples, r, g + 1, 1)
    ensures IsPartial(s, samples, r, SIDE, 1) ==> IsPartial(s, samples, r + 1, 1, 1)
    ensures IsPartial(s, samples, SIDE, 1, 1) ==> IsSummed(s, samples)
  {
    forall x, y, z | OnGrid(x, y, z)
      ensures Expected(x, y, z, r, g + 1, 1) == Expected(x, y, z, r, g, SIDE)
      ensures Expected(x, y, z, r + 1, 1, 1) == Expected(x, y, z, r, SIDE, 1)
      ensures Expected(x, y, z, SIDE, 1, 1) == Corner(x, y, z)
    {}
  }

  /** What the innermost loop reads and writes at one cell. */
  lemma PartialEntries(s: seq<Cell>, samples: seq<Sample>, r: int, g: int, b: int)
    requires 1 <= r < SIDE && 1 <= g < SIDE && 1 <= b < SIDE && IsPartial(s, samples, r, g, b)
    ensures s[Index(r, g, b)] == Weigh(samples, Unit(r, g, b))
    ensures s[Index(r - 1, g, b)] == Weigh(samples, Corner(r - 1, g, b))
  {
    assert s[Index(r, g, b)] == Weigh(samples, Expected(r, g, b, r, g, b));
    assert s[Index(r - 1, g, b)] == Weigh(samples, Expected(r - 1, g, b, r, g, b));
  }

  /** The area sums while line `g` of plane `r` is summed up to `b`. */
  ghost predicate IsAreas(a: seq<Cell>, samples: seq<Sample>, r: int, g: int, b: int) {
    && |a| == SIDE
    && forall z :: 1 <= z < SIDE ==> a[z] == Weigh(samples, Slab(r, if z < b then g else g - 1, z))
  }

  lemma AreasStep(a: seq<Cell>, samples: seq<Sample>, r: int, g: int, b: int)
    requires 1 <= b < SIDE && IsAreas(a, samples, r, g, b)
    ensures a[b] == Weigh(samples, Slab(r, g - 1, b))
    ensures IsAreas(a[b := Weigh(samples, Slab(r, g, b))], samples, r, g, b + 1)
  {}

  lemma AreasStart(a: seq<Cell>, samples: seq<Sample>, r: int)
    requires Genuine(samples)
    requires a == seq(SIDE, _ => ZERO)
    ensures IsAreas(a, samples, r, 1, 1)
  {
    forall z | 1 <= z < SIDE ensures a[z] == Weigh(samples, Slab(r, 0, z)) { NothingBelow(samples, Slab(r, 0, z)); }
  }

  lemma AreasCarry(a: seq<Cell>, samples: seq<Sample>, r: int, g: int)
    ensures IsAreas(a, samples, r, g, SIDE) ==> IsAreas(a, samples, r, g + 1, 1)
  {}

  /** One round of the innermost loop, with the meaning of the three running sums. */
  lemma RoundStep(s: seq<Cell>, a: seq<Cell>, line: Cell, samples: seq<Sample>, r: int, g: int, b: int,
                  next: Cell, area: Cell, entry: Cell)
    requires 1 <= r < SIDE && 1 <= g < SIDE && 1 <= b < SIDE
    requires IsPartial(s, samples, r, g, b) && IsAreas(a, samples, r, g, b) && line == Weigh(samples, Row(r, g, b - 1))
    requires next == Plus(line, s[Index(r, g, b)])
    requires area == Plus(a[b], next)
    requires entry == Plus(s[Index(r - 1, g, b)], area)
    ensures next == Weigh(samples, Row(r, g, b))
    ensures IsPartial(s[Index(r, g, b) := entry], samples, r, g, b + 1)
    ensures IsAreas(a[b := area], samples, r, g, b + 1)
  {
    RoundValues(s, a, line, samples, r, g, b, next, area, entry);
    PartialStep(s, samples, r, g, b);
    AreasStep(a, samples, r, g, b);
  }

  lemma RoundValues(s: seq<Cell>, a: seq<Cell>, line: Cell, samples: seq<Sample>, r: int, g: int, b: int,
                    next: Cell, area: Cell, entry: Cell)
    requires 1 <= r < SIDE && 1 <= g < SIDE && 1 <= b < SIDE
    requires IsPartial(s, samples, r, g, b) && IsAreas(a, samples, r, g, b) && line == Weigh(samples, Row(r, g, b - 1))
    requires next == Plus(line, s[Index(r, g, b)])
    requires area == Plus(a[b], next)
    requires entry == Plus(s[Index(r - 1, g, b)], area)
    ensures next == Weigh(samples, Row(r, g, b))
    ensures area == Weigh(samples, Slab(r, g, b))
    ensures entry == Weigh(samples, Corner(r, g, b))
  {
    PartialEntries(s, samples, r, g, b);
    AreasStep(a, samples, r, g, b);
    PrefixStep(samples, r, g, b);
  }

  class Table {
    const cells: array<Cell>
    ghost const samples: seq<Sample>

    ghost predicate Valid()
      reads this
    {
      cells.Length == SIZE && Genuine(samples)
    }

    ghost predicate Tabulated()
      reads this, cells
    {
      Valid() && IsSummed(cells[..], samples)
    }

    /** `Wu::new`: each opaque colour is added to its bin, repeated counts accumulate. */
    constructor (pixels: seq<Pixel>)
      ensures Valid() && IsHistogram(cells[..], samples) && samples == Samples(pixels) && fresh(cells)
    {
      cells := new Cell[SIZE](_ => ZERO);
      samples := Samples(pixels);
      new;
      GenuineSamples(samples);
      for k := 0 to |pixels|
        invariant IsHistogram(cells[..], Samples(pixels[..k]))
      {
        assert pixels[..k + 1][..k] == pixels[..k];
        if pixels[k].color.alpha == 255 {
          var s := SampleOf(pixels[k]);
          HistogramStep(cells[..], Samples(pixels[..k]), s);
          var location := Index(s.cell.r, s.cell.g, s.cell.b);
          cells[location] := Plus(cells[location], s.value);
        } else {
          assert Samples(pixels[..k + 1]) == Samples(pixels[..k]);
        }
      }
      assert pixels[..|pixels|] == pixels;
    }

    /** The in-place pass turns the histogram into the summed-volume table. */
    method Prefix()
      requires Valid() && IsHistogram(cells[..], samples)
      modifies cells
      ensures Tabulated()
    {
      PartialStart(cells[..], samples);
      for r := 1 to SIDE
        invariant IsPartial(cells[..], samples, r, 1, 1)
      {
        PrefixPlane(r);
      }
      PartialCarry(cells[..], samples, 1, 1);
    }

    method PrefixPlane(r: int)
      requires Valid() && 1 <= r < SIDE && IsPartial(cells[..], samples, r, 1, 1)
      modifies cells
      ensures IsPartial(cells[..], samples, r + 1, 1, 1)
    {
      var areas := new Cell[SIDE](_ => ZERO);
      AreasStart(areas[..], samples, r);
      for g := 1 to SIDE
        invariant IsPartial(cells[..], samples, r, g, 1)
        invariant IsAreas(areas[..], samples, r, g, 1)
      {
        PrefixLine(r, g, areas);
      }
      PartialCarry(cells[..], samples, r, 1);
    }

    method PrefixLine(r: int, g: int, areas: array<Cell>)
      requires Valid() && 1 <= r < SIDE && 1 <= g < SIDE && areas != cells
      requires IsPartial(cells[..], samples, r, g, 1) && IsAreas(areas[..], samples, r, g, 1)
      modifies cells, areas
      ensures IsPartial(cells[..], samples, r, g + 1, 1) && IsAreas(areas[..], samples, r, g + 1, 1)
    {
      var line := ZERO;
      NothingBelow(samples, Row(r, g, 0));
      for b := 1 to SIDE
        invariant IsPartial(cells[..], samples, r, g, b) && IsAreas(areas[..], samples, r, g, b)
        invariant line == Weigh(samples, Row(r, g, b - 1))
      {
        line := PrefixCell(r, g, b, areas, line);
      }
      PartialCarry(cells[..], samples, r, g);
      AreasCarry(areas[..], samples, r, g);
    }

    /** One round of the innermost loop, with the running sums' meaning. */
    method PrefixCell(r: int, g: int, b: int, areas: array<Cell>, line: Cell) returns (next: Cell)
      requires Valid() && 1 <= r < SIDE && 1 <= g < SIDE && 1 <= b < SIDE && areas != cells
      requires IsPartial(cells[..], samples, r, g, b) && IsAreas(areas[..], samples, r, g, b)
      requires line == Weigh(samples, Row(r, g, b - 1))
      modifies cells, areas
      ensures IsPartial(cells[..], samples, r, g, b + 1) && IsAreas(areas[..], samples, r, g, b + 1)
      ensures next == Weigh(samples, Row(r, g, b))
    {
      ghost var s, a := cells[..], areas[..];
      ghost var i, j := Index(r, g, b), Index(r - 1, g, b);
      next := Accumulate(r, g, b, areas, line);
      ghost var area := Plus(a[b], next);
      ghost var entry := Plus(s[j], area);
      assert areas[..] == a[b := area] && cells[..] == s[i := entry];
      RoundStep(s, a, line, samples, r, g, b, next, area, entry);
    }

    /** The body of the innermost loop: the line and area sums and one table entry advance. */
    method Accumulate(r: int, g: int, b: int, areas: array<Cell>, line: Cell) returns (next: Cell)
      requires cells.Length == SIZE && areas.Length == SIDE && areas != cells
      requires 1 <= r < SIDE && 1 <= g < SIDE && 1 <= b < SIDE
      modifies cells, areas
      ensures next == Plus(line, old(cells[..])[Index(r, g, b)])
      ensures var area := Plus(old(areas[..])[b], next);
              && areas[..] == old(areas[..])[b := area]
              && cells[..] == old(cells[..])[Index(r, g, b) := Plus(old(cells[..])[Index(r - 1, g, b)], area)]
    {
      var location, previous := Index(r, g, b), Index(r - 1, g, b);
      next := Plus(line, cells[location]);
      areas[b] := Plus(areas[b], next);
      cells[location] := Plus(cells[previous], areas[b]);
    }

    /** Reading a box off the table. */
    function Volume(c: Cube): Cell
      requires Valid() && c.Proper()
      reads this, cells
    {
      VolumeOf(cells[..], c)
    }
  }

  /** The eight corner sums of a box, with the signs of inclusion-exclusion. */
  function Alternating(hhh: Cell, hhl: Cell, hlh: Cell, hll: Cell, lhh: Cell, lhl: Cell, llh: Cell, lll: Cell): Cell {
    Minus(Plus(Plus(Minus(Plus(Minus(Minus(hhh, hhl), hlh), hll), lhh), lhl), llh), lll)
  }

  lemma Telescopes(hhh: Cell, hhl: Cell, hlh: Cell, hll: Cell, lhh: Cell, lhl: Cell, llh: Cell, lll: Cell,
                   hh: Cell, hl: Cell, lh: Cell, ll: Cell, high: Cell, low: Cell, box: Cell)
    requires hhh == Plus(lhh, hh) && hhl == Plus(lhl, hl) && hlh == Plus(llh, lh) && hll == Plus(lll, ll)
    requires hh == Plus(lh, high) && hl == Plus(ll, low) && high == Plus(low, box)
    ensures box == Alternating(hhh, hhl, hlh, hll, lhh, lhl, llh, lll)
  {}

  /** Inclusion-exclusion over the eight entries at a box's vertices. */
  function VolumeOf(s: seq<Cell>, c: Cube): Cell
    requires |s| == SIZE && c.Proper()
  {
    var h, l := c.high, c.low;
    Alternating(s[Index(h.r, h.g, h.b)], s[Index(h.r, h.g, l.b)], s[Index(h.r, l.g, h.b)], s[Index(h.r, l.g, l.b)],
                s[Index(l.r, h.g, h.b)], s[Index(l.r, h.g, l.b)], s[Index(l.r, l.g, h.b)], s[Index(l.r, l.g, l.b)])
  }

  lemma EntryWeighs(s: seq<Cell>, samples: seq<Sample>, x: int, y: int, z: int)
    requires IsSummed(s, samples) && OnGrid(x, y, z)
    ensures s[Index(x, y, z)] == Weigh(samples, Corner(x, y, z))
  {}

  /** Reading a box off the summed table gives exactly the sum over the pixels inside it. */
  lemma VolumeWeighs(s: seq<Cell>, samples: seq<Sample>, c: Cube)
    requires IsSummed(s, samples) && c.Proper()
    ensures VolumeOf(s, c) == Weigh(samples, c)
  {
    var h, l := c.high, c.low;
    calc {
      VolumeOf(s, c);
      { EntryWeighs(s, samples, h.r, h.g, h.b); EntryWeighs(s, samples, h.r, h.g, l.b);
        EntryWeighs(s, samples, h.r, l.g, h.b); EntryWeighs(s, samples, h.r, l.g, l.b);
        EntryWeighs(s, samples, l.r, h.g, h.b); EntryWeighs(s, samples, l.r, h.g, l.b);
        EntryWeighs(s, samples, l.r, l.g, h.b); EntryWeighs(s, samples, l.r, l.g, l.b); }
      Alternating(Weigh(samples, Corner(h.r, h.g, h.b)), Weigh(samples, Corner(h.r, h.g, l.b)),
                  Weigh(samples, Corner(h.r, l.g, h.b)), Weigh(samples, Corner(h.r, l.g, l.b)),
                  Weigh(samples, Corner(l.r, h.g, h.b)), Weigh(samples, Corner(l.r, h.g, l.b)),
                  Weigh(samples, Corner(l.r, l.g, h.b)), Weigh(samples, Corner(l.r, l.g, l.b)));
      { InclusionExclusion(samples, c); }
      Weigh(samples, c);
    }
  }

  /** A box weighs the alternating sum of the corner boxes at its eight vertices. */
  lemma InclusionExclusion(samples: seq<Sample>, c: Cube)
    requires c.Proper()
    ensures var h, l := c.high, c.low;
            Weigh(samples, c) ==
            Alternating(Weigh(samples, Corner(h.r, h.g, h.b)), Weigh(samples, Corner(h.r, h.g, l.b)),
                        Weigh(samples, Corner(h.r, l.g, h.b)), Weigh(samples, Corner(h.r, l.g, l.b)),
                        Weigh(samples, Corner(l.r, h.g, h.b)), Weigh(samples, Corner(l.r, h.g, l.b)),
                        Weigh(samples, Corner(l.r, l.g, h.b)), Weigh(samples, Corner(l.r, l.g, l.b)))
  {
    var h, l := c.high, c.low;
    var hh, hl, lh, ll := Above(l.r, 0, h.r, h.g, h.b), Above(l.r, 0, h.r, h.g, l.b),
                          Above(l.r, 0, h.r, l.g, h.b), Above(l.r, 0, h.r, l.g, l.b);
    var high, low := Above(l.r, l.g, h.r, h.g, h.b), Above(l.r, l.g, h.r, h.g, l.b);
    SplitWeighs(samples, Corner(h.r, h.g, h.b), Red, l.r);
    SplitWeighs(samples, Corner(h.r, h.g, l.b), Red, l.r);
    SplitWeighs(samples, Corner(h.r, l.g, h.b), Red, l.r);
    SplitWeighs(samples, Corner(h.r, l.g, l.b), Red, l.r);
    SplitWeighs(samples, hh, Green, l.g);
    SplitWeighs(samples, hl, Green, l.g);
    SplitWeighs(samples, high, Blue, l.b);
    SameBox(samples, Upper(high, Blue, l.b), c);
    Telescopes(Weigh(samples, Corner(h.r, h.g, h.b)), Weigh(samples, Corner(h.r, h.g, l.b)),
               Weigh(samples, Corner(h.r, l.g, h.b)), Weigh(samples, Corner(h.r, l.g, l.b)),
               Weigh(samples, Corner(l.r, h.g, h.b)), Weigh(samples, Corner(l.r, h.g, l.b)),
               Weigh(samples, Corner(l.r, l.g, h.b)), Weigh(samples, Corner(l.r, l.g, l.b)),
               Weigh(samples, hh), Weigh(samples, hl), Weigh(samples, lh), Weigh(samples, ll),
               Weigh(samples, high), Weigh(samples, low), Weigh(samples, c));
  }

  /** The cells above two lower bounds and below a corner. */
  function Above(lowR: int, lowG: int, r: int, g: int, b: int): Cube {
    Cube(Triple(lowR, lowG, 0), Triple(r, g, b), 0)
  }
}
