/**
  Pixels, boxes of colour space and what they weigh (core/src/native_palette.rs): the meaning
  that Wu's summed-volume table and his cuts are measured against.
 */
module Palette {
  import opened Common

  const SIDE := 33
  const SIZE := 33 * 33 * 33
  const COLORS := 128

  datatype Axis = Red | Green | Blue

  /** A colour, or a cell of the 33-cubed grid. */
  datatype Triple = Triple(r: int, g: int, b: int)
  {
    function At(axis: Axis): int {
      match axis case Red => r case Green => g case Blue => b
    }

    function With(axis: Axis, value: int): Triple {
      match axis
      case Red => Triple(value, g, b)
      case Green => Triple(r, value, b)
      case Blue => Triple(r, g, value)
    }
  }

  datatype Color = Color(alpha: byte, red: byte, green: byte, blue: byte)

  /** One distinct colour of the image and how often it occurs. */
  datatype Pixel = Pixel(color: Color, count: nat)

  function Bin(c: Color): Triple {
    Triple(c.red as int / 8 + 1, c.green as int / 8 + 1, c.blue as int / 8 + 1)
  }

  function Channels(c: Color): Triple { Triple(c.red as int, c.green as int, c.blue as int) }

  /** The five running sums of one table entry: weight, channel moments, squares. */
  datatype Cell = Cell(weight: int, moment: Triple, squares: int)

  const ZERO := Cell(0, Triple(0, 0, 0), 0)

  function Plus(x: Cell, y: Cell): Cell {
    Cell(x.weight + y.weight,
         Triple(x.moment.r + y.moment.r, x.moment.g + y.moment.g, x.moment.b + y.moment.b),
         x.squares + y.squares)
  }

  function Minus(x: Cell, y: Cell): Cell {
    Cell(x.weight - y.weight,
         Triple(x.moment.r - y.moment.r, x.moment.g - y.moment.g, x.moment.b - y.moment.b),
         x.squares - y.squares)
  }

  function Norm(m: Triple): int { m.r * m.r + m.g * m.g + m.b * m.b }

  /** The weight squared times the variance. */
  function Spread(v: Cell): int { v.weight * v.squares - Norm(v.moment) }

  const BRIGHTEST := 3 * 255 * 255

  /** Pixels vary by a non-negative amount, and none is brighter than white. */
  predicate Sound(v: Cell) {
    v.weight >= 0 && 0 <= v.squares <= BRIGHTEST * v.weight && Spread(v) >= 0
  }

  /** What one opaque colour adds, and to which cell of the histogram. */
  datatype Sample = Sample(cell: Triple, value: Cell)

  function SampleOf(p: Pixel): Sample {
    var c := Channels(p.color);
    Sample(Bin(p.color),
           Cell(p.count, Triple(c.r * p.count, c.g * p.count, c.b * p.count),
                (c.r * c.r + c.g * c.g + c.b * c.b) * p.count))
  }

  /** Only opaque pixels take part. */
  function Samples(pixels: seq<Pixel>): (samples: seq<Sample>)
    ensures |samples| <= |pixels|
    ensures forall s :: s in samples ==> s in Image(pixels)
  {
    if pixels == [] then []
    else
      var last := pixels[|pixels| - 1];
      Samples(pixels[..|pixels| - 1]) + if last.color.alpha == 255 then [SampleOf(last)] else []
  }

  function Image(pixels: seq<Pixel>): set<Sample> { set p | p in pixels :: SampleOf(p) }

  /** A sample's channel sums lie in the colours its cell stands for. */
  predicate Plausible(s: Sample) {
    && s.value.weight >= 0
    && forall d: Axis ::
         && 1 <= s.cell.At(d) <= 32
         && 8 * (s.cell.At(d) - 1) * s.value.weight <= s.value.moment.At(d)
         && s.value.moment.At(d) <= (8 * s.cell.At(d) - 1) * s.value.weight
  }

  lemma Scale(x: int, y: int, n: nat)
    requires x <= y
    ensures x * n <= y * n
  {}

  lemma Distribute(x: int, m: int, n: int)
    ensures x * (m + n) == x * m + x * n
  {}

  lemma SamplePlausible(p: Pixel)
    ensures Plausible(SampleOf(p))
  {
    var s, c := SampleOf(p), Channels(p.color);
    forall d: Axis
      ensures 1 <= s.cell.At(d) <= 32
      ensures 8 * (s.cell.At(d) - 1) * s.value.weight <= s.value.moment.At(d)
      ensures s.value.moment.At(d) <= (8 * s.cell.At(d) - 1) * s.value.weight
    {
      assert s.cell.At(d) == c.At(d) / 8 + 1 && s.value.moment.At(d) == c.At(d) * p.count;
      Scale(8 * (s.cell.At(d) - 1), c.At(d), p.count);
      Scale(c.At(d), 8 * s.cell.At(d) - 1, p.count);
    }
  }

  lemma SamplesPlausible(pixels: seq<Pixel>)
    ensures forall s :: s in Samples(pixels) ==> Plausible(s)
  {
    forall s | s in Samples(pixels) ensures Plausible(s) {
      var p :| p in pixels && SampleOf(p) == s;
      SamplePlausible(p);
    }
  }

  /** Equal pixels do not vary. */
  lemma SampleSound(p: Pixel)
    ensures Sound(SampleOf(p).value)
  {
    var c, n := Channels(p.color), p.count;
    SquareScaled(c.r, n);
    SquareScaled(c.g, n);
    SquareScaled(c.b, n);
    assert n * ((c.r * c.r + c.g * c.g + c.b * c.b) * n) ==
           n * n * (c.r * c.r) + n * n * (c.g * c.g) + n * n * (c.b * c.b);
    ByteSquared(c.r);
    ByteSquared(c.g);
    ByteSquared(c.b);
    Scale(0, c.r * c.r + c.g * c.g + c.b * c.b, n);
    Scale(c.r * c.r + c.g * c.g + c.b * c.b, BRIGHTEST, n);
  }

  lemma ByteSquared(x: int)
    requires 0 <= x <= 255
    ensures 0 <= x * x <= 255 * 255
  {}

  lemma SquareScaled(x: int, n: int)
    ensures (x * n) * (x * n) == n * n * (x * x)
  {}

  lemma SamplesSound(pixels: seq<Pixel>)
    ensures forall s :: s in Samples(pixels) ==> Sound(s.value)
  {
    forall s | s in Samples(pixels) ensures Sound(s.value) {
      var p :| p in pixels && SampleOf(p) == s;
      SampleSound(p);
    }
  }

  // ----- What a box weighs, pixel by pixel -----

  /** An opaque pixel whose colour falls into the box; bins are eight values wide. */
  predicate Falls(p: Pixel, c: Cube) {
    && p.color.alpha == 255
    && c.low.r < p.color.red as int / 8 + 1 <= c.high.r
    && c.low.g < p.color.green as int / 8 + 1 <= c.high.g
    && c.low.b < p.color.blue as int / 8 + 1 <= c.high.b
  }

  /** A quantity of a colour, times its count, summed over the pixels of a box. */
  function Sum(pixels: seq<Pixel>, c: Cube, f: Color -> int): int {
    if pixels == [] then 0
    else
      var last := pixels[|pixels| - 1];
      Sum(pixels[..|pixels| - 1], c, f) + if Falls(last, c) then f(last.color) * last.count else 0
  }

  function One(c: Color): int { 1 }

  function RedOf(c: Color): int { c.red as int }

  function GreenOf(c: Color): int { c.green as int }

  function BlueOf(c: Color): int { c.blue as int }

  function SquareOf(c: Color): int {
    c.red as int * c.red as int + c.green as int * c.green as int + c.blue as int * c.blue as int
  }

  function Sums(pixels: seq<Pixel>, c: Cube): Cell {
    Cell(Sum(pixels, c, One), Triple(Sum(pixels, c, RedOf), Sum(pixels, c, GreenOf), Sum(pixels, c, BlueOf)),
         Sum(pixels, c, SquareOf))
  }

  /** The weight, moments and squares of a box are those of the opaque pixels that fall into it. */
  lemma {:induction false} BoxSums(pixels: seq<Pixel>, c: Cube)
    ensures Weigh(Samples(pixels), c) == Sums(pixels, c)
  {
    if pixels != [] {
      var front, last := pixels[..|pixels| - 1], pixels[|pixels| - 1];
      BoxSums(front, c);
      if last.color.alpha == 255 {
        WeighNext(Samples(front), SampleOf(last), c);
        FallsIntoBin(last, c);
      } else {
        assert Samples(pixels) == Samples(front);
      }
    }
  }

  lemma WeighNext(samples: seq<Sample>, s: Sample, c: Cube)
    ensures Weigh(samples + [s], c) == Added(Weigh(samples, c), s.value, c.Has(s.cell))
  {
    assert (samples + [s])[..|samples|] == samples;
  }

  lemma FallsIntoBin(p: Pixel, c: Cube)
    requires p.color.alpha == 255
    ensures c.Has(SampleOf(p).cell) <==> Falls(p, c)
    ensures SampleOf(p).value ==
            Cell(One(p.color) * p.count,
                 Triple(RedOf(p.color) * p.count, GreenOf(p.color) * p.count, BlueOf(p.color) * p.count),
                 SquareOf(p.color) * p.count)
  {}

  /** The samples of some image. */
  ghost predicate Genuine(samples: seq<Sample>) {
    exists pixels :: Samples(pixels) == samples
  }

  lemma GenuineSamples(samples: seq<Sample>)
    requires Genuine(samples)
    ensures forall s :: s in samples ==> Plausible(s)
    ensures forall s :: s in samples ==> Sound(s.value)
  {
    var pixels :| Samples(pixels) == samples;
    SamplesPlausible(pixels);
    SamplesSound(pixels);
  }

  /** The number of pixels, transparent ones included. */
  function Counts(pixels: seq<Pixel>): nat {
    if pixels == [] then 0 else Counts(pixels[..|pixels| - 1]) + pixels[|pixels| - 1].count
  }

  /** The half-open box low < cell <= high; `volume` is the bookkeeping field of the source. */
  datatype Cube = Cube(low: Triple, high: Triple, volume: int)
  {
    predicate Has(cell: Triple) {
      && low.r < cell.r <= high.r
      && low.g < cell.g <= high.g
      && low.b < cell.b <= high.b
    }

    predicate Proper() {
      && 0 <= low.r < high.r <= 32
      && 0 <= low.g < high.g <= 32
      && 0 <= low.b < high.b <= 32
    }
  }

  const WHOLE := Cube(Triple(0, 0, 0), Triple(32, 32, 32), 0)

  function Added(x: Cell, y: Cell, inside: bool): Cell { if inside then Plus(x, y) else x }

  /** What the samples inside a box add up to. */
  function Weigh(samples: seq<Sample>, c: Cube): Cell {
    if samples == [] then ZERO
    else
      var last := samples[|samples| - 1];
      Added(Weigh(samples[..|samples| - 1], c), last.value, c.Has(last.cell))
  }

  // ----- Boxes split and combine -----

  function Lower(c: Cube, axis: Axis, position: int): Cube
  {
    c.(high := c.high.With(axis, position))
  }

  function Upper(c: Cube, axis: Axis, position: int): Cube
  {
    c.(low := c.low.With(axis, position))
  }

  lemma AddedApart(x: Cell, y: Cell, z: Cell, inX: bool, inY: bool)
    requires !(inX && inY)
    ensures Added(Plus(x, y), z, inX || inY) == Plus(Added(x, z, inX), Added(y, z, inY))
  {}

  lemma SplitHas(c: Cube, axis: Axis, position: int, cell: Triple)
    requires c.low.At(axis) <= position <= c.high.At(axis)
    ensures c.Has(cell) == (Lower(c, axis, position).Has(cell) || Upper(c, axis, position).Has(cell))
    ensures !(Lower(c, axis, position).Has(cell) && Upper(c, axis, position).Has(cell))
  {}

  lemma SplitStep(rest: seq<Sample>, s: Sample, c: Cube, axis: Axis, position: int)
    requires c.low.At(axis) <= position <= c.high.At(axis)
    requires Weigh(rest, c) == Plus(Weigh(rest, Lower(c, axis, position)), Weigh(rest, Upper(c, axis, position)))
    ensures var lower, upper := Lower(c, axis, position), Upper(c, axis, position);
            Added(Weigh(rest, c), s.value, c.Has(s.cell)) ==
            Plus(Added(Weigh(rest, lower), s.value, lower.Has(s.cell)),
                 Added(Weigh(rest, upper), s.value, upper.Has(s.cell)))
  {
    var lower, upper := Lower(c, axis, position), Upper(c, axis, position);
    SplitHas(c, axis, position, s.cell);
    AddedApart(Weigh(rest, lower), Weigh(rest, upper), s.value, lower.Has(s.cell), upper.Has(s.cell));
  }

  lemma {:induction false} SplitWeighs(samples: seq<Sample>, c: Cube, axis: Axis, position: int)
    requires c.low.At(axis) <= position <= c.high.At(axis)
    ensures Weigh(samples, c) ==
            Plus(Weigh(samples, Lower(c, axis, position)), Weigh(samples, Upper(c, axis, position)))
  {
    if samples != [] {
      var rest, s := samples[..|samples| - 1], samples[|samples| - 1];
      SplitWeighs(rest, c, axis, position);
      SplitStep(rest, s, c, axis, position);
    }
  }

  lemma {:induction false} EmptyWeighs(samples: seq<Sample>, c: Cube)
    requires forall s :: s in samples ==> !c.Has(s.cell)
    ensures Weigh(samples, c) == ZERO
  {
    if samples != [] { EmptyWeighs(samples[..|samples| - 1], c); }
  }

  /** The cells at or below a corner, with the lower ends at zero. */
  function Corner(r: int, g: int, b: int): Cube { Cube(Triple(0, 0, 0), Triple(r, g, b), 0) }

  function Unit(r: int, g: int, b: int): Cube { Cube(Triple(r - 1, g - 1, b - 1), Triple(r, g, b), 0) }

  /** The last slice of a corner box. */
  function Slab(r: int, g: int, b: int): Cube { Cube(Triple(r - 1, 0, 0), Triple(r, g, b), 0) }

  /** The last row of a slab. */
  function Row(r: int, g: int, b: int): Cube { Cube(Triple(r - 1, g - 1, 0), Triple(r, g, b), 0) }

  /** The three additions of the innermost loop of the prefix pass. */
  lemma PrefixStep(samples: seq<Sample>, r: int, g: int, b: int)
    requires r >= 1 && g >= 1 && b >= 1
    ensures Weigh(samples, Row(r, g, b)) == Plus(Weigh(samples, Row(r, g, b - 1)), Weigh(samples, Unit(r, g, b)))
    ensures Weigh(samples, Slab(r, g, b)) == Plus(Weigh(samples, Slab(r, g - 1, b)), Weigh(samples, Row(r, g, b)))
    ensures Weigh(samples, Corner(r, g, b)) ==
            Plus(Weigh(samples, Corner(r - 1, g, b)), Weigh(samples, Slab(r, g, b)))
  {
    SplitWeighs(samples, Row(r, g, b), Blue, b - 1);
    SplitWeighs(samples, Slab(r, g, b), Green, g - 1);
    SplitWeighs(samples, Corner(r, g, b), Red, r - 1);
  }

  lemma {:induction false} SameBox(samples: seq<Sample>, c: Cube, d: Cube)
    requires c.low == d.low && c.high == d.high
    ensures Weigh(samples, c) == Weigh(samples, d)
  {
    if samples != [] { SameBox(samples[..|samples| - 1], c, d); }
  }

  // ----- Signs and bounds -----

  /** The sums of a box lie in the colours its cells stand for. */
  predicate Bounded(v: Cell, c: Cube) {
    && v.weight >= 0
    && forall d: Axis ::
         8 * c.low.At(d) * v.weight <= v.moment.At(d) <= (8 * c.high.At(d) - 1) * v.weight
  }

  lemma AddedBounded(x: Cell, s: Sample, c: Cube)
    requires Bounded(x, c) && Plausible(s) && c.Has(s.cell)
    ensures Bounded(Plus(x, s.value), c)
  {
    var v, n := Plus(x, s.value), s.value.weight;
    forall d: Axis
      ensures 8 * c.low.At(d) * v.weight <= v.moment.At(d) <= (8 * c.high.At(d) - 1) * v.weight
    {
      assert v.moment.At(d) == x.moment.At(d) + s.value.moment.At(d);
      Scale(8 * c.low.At(d), 8 * (s.cell.At(d) - 1), n);
      Scale(8 * s.cell.At(d) - 1, 8 * c.high.At(d) - 1, n);
      Distribute(8 * c.low.At(d), x.weight, n);
      Distribute(8 * c.high.At(d) - 1, x.weight, n);
    }
  }

  lemma {:induction false} WeighBounds(samples: seq<Sample>, c: Cube)
    requires forall s :: s in samples ==> Plausible(s)
    ensures Bounded(Weigh(samples, c), c)
  {
    if samples != [] {
      var rest, s := samples[..|samples| - 1], samples[|samples| - 1];
      WeighBounds(rest, c);
      if c.Has(s.cell) { AddedBounded(Weigh(rest, c), s, c); }
    }
  }

  /** No box weighs more than the image has pixels. */
  lemma {:induction false} WeighsAtMost(pixels: seq<Pixel>, c: Cube)
    ensures Weigh(Samples(pixels), c).weight <= Counts(pixels)
  {
    if pixels != [] {
      var front, last := pixels[..|pixels| - 1], pixels[|pixels| - 1];
      WeighsAtMost(front, c);
      if last.color.alpha == 255 {
        assert Samples(pixels) == Samples(front) + [SampleOf(last)];
        assert Samples(pixels)[..|Samples(front)|] == Samples(front);
      } else {
        assert Samples(pixels) == Samples(front);
      }
    }
  }

  // ----- Occupied bins -----

  /** The bins that some opaque pixel falls into. */
  function Occupied(samples: seq<Sample>): set<Triple> {
    set s | s in samples && s.value.weight > 0 :: s.cell
  }

  function Inside(samples: seq<Sample>, c: Cube): set<Triple> {
    set cell | cell in Occupied(samples) && c.Has(cell)
  }

  /** A box of positive weight holds an occupied bin. */
  lemma {:induction false} SomeInside(samples: seq<Sample>, c: Cube) returns (cell: Triple)
    requires Weigh(samples, c).weight > 0
    ensures cell in Inside(samples, c)
  {
    var last := samples[|samples| - 1];
    if c.Has(last.cell) && last.value.weight > 0 { return last.cell; }
    cell := SomeInside(samples[..|samples| - 1], c);
  }

  /** A box with an occupied bin has a positive weight. */
  lemma {:induction false} OccupiedWeighs(samples: seq<Sample>, c: Cube, cell: Triple)
    requires forall s :: s in samples ==> Plausible(s)
    requires cell in Inside(samples, c)
    ensures Weigh(samples, c).weight > 0
  {
    hide Cube.Has;
    var rest, last := samples[..|samples| - 1], samples[|samples| - 1];
    WeighBounds(rest, c);
    if cell in Occupied(rest) {
      OccupiedWeighs(rest, c, cell);
      assert Plausible(last);
    } else {
      assert samples == rest + [last];
      assert last.cell == cell && last.value.weight > 0;
    }
  }

  lemma {:induction false} OccupiedCount(samples: seq<Sample>)
    ensures |Occupied(samples)| <= |samples|
  {
    if samples != [] {
      var rest, last := samples[..|samples| - 1], samples[|samples| - 1];
      OccupiedCount(rest);
      assert samples == rest + [last];
      SubsetCount(Occupied(samples), Occupied(rest) + {last.cell});
    }
  }

  // ----- Partitions of colour space -----

  /** Some axis separates the two boxes. */
  predicate Apart(c: Cube, d: Cube) {
    exists i: Axis :: (c.high.At(i) <= d.low.At(i) || d.high.At(i) <= c.low.At(i))
  }

  /** Every cell of the whole space lies in one of the boxes, and no two boxes meet. */
  ghost predicate Partition(cubes: seq<Cube>) {
    && (forall k :: 0 <= k < |cubes| ==> cubes[k].Proper())
    && (forall j, k :: 0 <= j < k < |cubes| ==> Apart(cubes[j], cubes[k]))
    && (forall cell :: WHOLE.Has(cell) ==> exists k :: 0 <= k < |cubes| && cubes[k].Has(cell))
  }

  function TotalWeight(samples: seq<Sample>, cubes: seq<Cube>): int {
    if cubes == [] then 0
    else TotalWeight(samples, cubes[..|cubes| - 1]) + Weigh(samples, cubes[|cubes| - 1]).weight
  }

  lemma WholePartition()
    ensures Partition([WHOLE])
  {
    forall cell | WHOLE.Has(cell) ensures exists k :: 0 <= k < |[WHOLE]| && [WHOLE][k].Has(cell) {
      assert [WHOLE][0].Has(cell);
    }
  }

  /** One box of a list replaced by its lower part, the upper part appended. */
  function CutAt(cubes: seq<Cube>, k: nat, one: Cube, two: Cube): seq<Cube>
    requires k < |cubes|
  {
    cubes[k := one] + [two]
  }

  /** `one` and `two` are the parts of `c` below and above a plane strictly inside it. */
  predicate Halves(c: Cube, one: Cube, two: Cube) {
    exists axis: Axis, position ::
      && c.low.At(axis) < position < c.high.At(axis)
      && one.low == c.low && one.high == c.high.With(axis, position)
      && two.high == c.high && two.low == c.low.With(axis, position)
  }

  lemma PartsApart(c: Cube, one: Cube, two: Cube, d: Cube)
    requires c.Proper() && Halves(c, one, two) && (Apart(d, c) || Apart(c, d))
    ensures Apart(d, one) && Apart(one, d) && Apart(d, two) && Apart(two, d)
  {
    var j: Axis :| c.high.At(j) <= d.low.At(j) || d.high.At(j) <= c.low.At(j);
    assert one.high.At(j) <= c.high.At(j) && c.low.At(j) <= one.low.At(j);
    assert two.high.At(j) <= c.high.At(j) && c.low.At(j) <= two.low.At(j);
  }

  lemma HalvesApart(c: Cube, one: Cube, two: Cube)
    requires c.Proper() && Halves(c, one, two)
    ensures one.Proper() && two.Proper() && Apart(one, two)
    ensures forall cell :: c.Has(cell) <==> one.Has(cell) || two.Has(cell)
    ensures forall d: Cube :: Apart(d, c) || Apart(c, d) ==>
              Apart(d, one) && Apart(one, d) && Apart(d, two) && Apart(two, d)
  {
    var i: Axis, position :| c.low.At(i) < position < c.high.At(i)
      && one.low == c.low && one.high == c.high.With(i, position)
      && two.high == c.high && two.low == c.low.With(i, position);
    assert one.high.At(i) <= two.low.At(i);
    hide Apart;
    forall d: Cube | Apart(d, c) || Apart(c, d)
      ensures Apart(d, one) && Apart(one, d) && Apart(d, two) && Apart(two, d)
    {
      PartsApart(c, one, two, d);
    }
  }

  lemma CutKeepsPartition(cubes: seq<Cube>, k: nat, one: Cube, two: Cube)
    requires k < |cubes| && Partition(cubes) && Halves(cubes[k], one, two)
    ensures Partition(CutAt(cubes, k, one, two))
  {
    var after := CutAt(cubes, k, one, two);
    HalvesApart(cubes[k], one, two);
    forall i, j | 0 <= i < j < |after| ensures Apart(after[i], after[j]) {
      if j < |cubes| { assert Apart(cubes[i], cubes[j]); }
      else if i < k { assert Apart(cubes[i], cubes[k]); }
      else if i > k { assert Apart(cubes[k], cubes[i]); }
    }
    forall cell | WHOLE.Has(cell) ensures exists i :: 0 <= i < |after| && after[i].Has(cell) {
      var i :| 0 <= i < |cubes| && cubes[i].Has(cell);
      if i != k { assert after[i].Has(cell); }
      else if one.Has(cell) { assert after[k].Has(cell); }
      else { assert after[|cubes|].Has(cell); }
    }
  }

  lemma {:induction false} TotalAfterUpdate(samples: seq<Sample>, cubes: seq<Cube>, k: nat, one: Cube)
    requires k < |cubes|
    ensures TotalWeight(samples, cubes[k := one]) ==
            TotalWeight(samples, cubes) - Weigh(samples, cubes[k]).weight + Weigh(samples, one).weight
  {
    var last := |cubes| - 1;
    if k == last {
      assert cubes[k := one][..last] == cubes[..last];
    } else {
      TotalAfterUpdate(samples, cubes[..last], k, one);
      assert cubes[k := one][..last] == cubes[..last][k := one];
    }
  }

  lemma TotalAppend(samples: seq<Sample>, cubes: seq<Cube>, c: Cube)
    ensures TotalWeight(samples, cubes + [c]) == TotalWeight(samples, cubes) + Weigh(samples, c).weight
  {
    assert (cubes + [c])[..|cubes|] == cubes;
  }

  lemma CutKeepsTotal(samples: seq<Sample>, cubes: seq<Cube>, k: nat, one: Cube, two: Cube)
    requires k < |cubes|
    requires Weigh(samples, cubes[k]).weight == Weigh(samples, one).weight + Weigh(samples, two).weight
    ensures TotalWeight(samples, CutAt(cubes, k, one, two)) == TotalWeight(samples, cubes)
  {
    TotalAfterUpdate(samples, cubes, k, one);
    TotalAppend(samples, cubes[k := one], two);
  }

  lemma HalvesWeigh(samples: seq<Sample>, c: Cube, one: Cube, two: Cube)
    requires Halves(c, one, two)
    ensures Weigh(samples, c) == Plus(Weigh(samples, one), Weigh(samples, two))
  {
    var i: Axis, position :| c.low.At(i) < position < c.high.At(i)
      && one.low == c.low && one.high == c.high.With(i, position)
      && two.high == c.high && two.low == c.low.With(i, position);
    SplitWeighs(samples, c, i, position);
    SameBox(samples, Lower(c, i, position), one);
    SameBox(samples, Upper(c, i, position), two);
  }

  // ----- Means -----

  /** `(m / w).round()` for non-negative m: halves go up. */
  function RoundedQuotient(m: int, w: int): int
    requires w > 0
  {
    (2 * m + w) / (2 * w)
  }

  lemma QuotientBetween(m: int, w: int, low: int, high: int)
    requires w > 0 && low * w <= m <= high * w
    ensures low <= RoundedQuotient(m, w) <= high
  {
    var n, d := 2 * m + w, 2 * w;
    var q := n / d;
    assert n == d * q + n % d && 0 <= n % d < d;
    assert (q + 1) * w == q * w + w && (high + 1) * w == high * w + w && d * q == 2 * (q * w);
    if q < low { Scale(q + 1, low, w); }
    if q > high { Scale(high + 1, q, w); }
  }

  /** The nearest integer to the quotient, the greater one of two. */
  lemma QuotientNearest(m: int, w: int, other: int)
    requires w > 0
    ensures var q := RoundedQuotient(m, w);
            && Distance(m, q * w) <= Distance(m, other * w)
            && (Distance(m, q * w) == Distance(m, other * w) ==> other <= q)
  {
    var q := RoundedQuotient(m, w);
    var n, d := 2 * m + w, 2 * w;
    assert n == d * q + n % d && d * q == 2 * (q * w);
    if other > q {
      Scale(q + 1, other, w);
      assert (q + 1) * w == q * w + w;
    } else if other < q {
      Scale(other, q - 1, w);
      assert (q - 1) * w == q * w - w;
    }
  }

  function Distance(x: int, y: int): int { if x >= y then x - y else y - x }

  /** The rounded channel means of a box's samples. */
  function Mean(cell: Cell): Triple
    requires cell.weight > 0
  {
    Triple(RoundedQuotient(cell.moment.r, cell.weight),
           RoundedQuotient(cell.moment.g, cell.weight),
           RoundedQuotient(cell.moment.b, cell.weight))
  }

  /** Each channel of a mean stays in the colours that the box's cells stand for. */
  lemma MeanInside(samples: seq<Sample>, c: Cube)
    requires forall s :: s in samples ==> Plausible(s)
    requires Weigh(samples, c).weight > 0
    ensures forall d: Axis :: 8 * c.low.At(d) <= Mean(Weigh(samples, c)).At(d) <= 8 * c.high.At(d) - 1
  {
    WeighBounds(samples, c);
    var cell := Weigh(samples, c);
    forall d: Axis ensures 8 * c.low.At(d) <= Mean(cell).At(d) <= 8 * c.high.At(d) - 1 {
      QuotientBetween(cell.moment.At(d), cell.weight, 8 * c.low.At(d), 8 * c.high.At(d) - 1);
    }
  }

  /** Separated boxes have different means. */
  lemma MeansDiffer(samples: seq<Sample>, c: Cube, d: Cube)
    requires forall s :: s in samples ==> Plausible(s)
    requires Apart(c, d) && Weigh(samples, c).weight > 0 && Weigh(samples, d).weight > 0
    ensures Mean(Weigh(samples, c)) != Mean(Weigh(samples, d))
  {
    MeanInside(samples, c);
    MeanInside(samples, d);
    var i : Axis :| (c.high.At(i) <= d.low.At(i) || d.high.At(i) <= c.low.At(i));
    assert Mean(Weigh(samples, c)).At(i) != Mean(Weigh(samples, d)).At(i);
  }

  // ----- Counting boxes -----

  /** The occupied bins that lie in some box. */
  ghost function Covered(samples: seq<Sample>, cubes: seq<Cube>): set<Triple> {
    set cell | cell in Occupied(samples) && Owned(cell, cubes)
  }

  ghost predicate Owned(cell: Triple, cubes: seq<Cube>) {
    exists k :: 0 <= k < |cubes| && cubes[k].Has(cell)
  }

  lemma NotBoth(c: Cube, d: Cube, cell: Triple)
    requires Apart(c, d)
    ensures !(c.Has(cell) && d.Has(cell))
  {}

  lemma OneOwner(cell: Triple, cubes: seq<Cube>)
    requires cubes != []
    requires forall j, k :: 0 <= j < k < |cubes| ==> Apart(cubes[j], cubes[k])
    ensures Owned(cell, cubes) <==> Owned(cell, cubes[..|cubes| - 1]) || cubes[|cubes| - 1].Has(cell)
    ensures !(Owned(cell, cubes[..|cubes| - 1]) && cubes[|cubes| - 1].Has(cell))
  {
    hide Apart, Cube.Has;
    var last := |cubes| - 1;
    if Owned(cell, cubes[..last]) {
      var k :| 0 <= k < last && cubes[..last][k].Has(cell);
      assert cubes[k].Has(cell);
      NotBoth(cubes[k], cubes[last], cell);
    }
    if Owned(cell, cubes) {
      var k :| 0 <= k < |cubes| && cubes[k].Has(cell);
      assert k < last ==> cubes[..last][k] == cubes[k];
    }
  }

  /** Separated boxes with pixels: at least one occupied bin each, and no more if each holds one. */
  lemma {:induction false} CoveredCount(samples: seq<Sample>, cubes: seq<Cube>)
    requires forall j, k :: 0 <= j < k < |cubes| ==> Apart(cubes[j], cubes[k])
    requires forall k :: 0 <= k < |cubes| ==> Weigh(samples, cubes[k]).weight > 0
    ensures |Covered(samples, cubes)| >= |cubes|
    ensures (forall k :: 0 <= k < |cubes| ==> |Inside(samples, cubes[k])| == 1) ==>
              |Covered(samples, cubes)| == |cubes|
  {
    hide Apart, Weigh;
    if cubes == [] {
      assert Covered(samples, cubes) == {};
    } else {
      var front, last := cubes[..|cubes| - 1], cubes[|cubes| - 1];
      forall j, k | 0 <= j < k < |front| ensures Apart(front[j], front[k]) { assert Apart(cubes[j], cubes[k]); }
      CoveredCount(samples, front);
      forall cell { OneOwner(cell, cubes); }
      hide Owned;
      assert Covered(samples, cubes) == Covered(samples, front) + Inside(samples, last);
      assert Covered(samples, front) !! Inside(samples, last);
      var cell := SomeInside(samples, last);
      SubsetCount({cell}, Inside(samples, last));
      assert forall k :: 0 <= k < |front| ==> front[k] == cubes[k];
    }
  }

  /** The boxes of a partition own every occupied bin. */
  lemma PartitionCovers(samples: seq<Sample>, cubes: seq<Cube>)
    requires forall s :: s in samples ==> Plausible(s)
    requires Partition(cubes)
    ensures Covered(samples, cubes) == Occupied(samples)
  {
    forall cell | cell in Occupied(samples) ensures Owned(cell, cubes) {
      var s :| s in samples && s.value.weight > 0 && s.cell == cell;
      assert Plausible(s) && 1 <= cell.At(Red) <= 32 && 1 <= cell.At(Green) <= 32 && 1 <= cell.At(Blue) <= 32;
      assert WHOLE.Has(cell);
    }
  }

  /** Pigeonhole: separated boxes of positive weight hold different colours of the image. */
  lemma NoMoreCubesThanSamples(samples: seq<Sample>, cubes: seq<Cube>)
    requires forall j, k :: 0 <= j < k < |cubes| ==> Apart(cubes[j], cubes[k])
    requires forall k :: 0 <= k < |cubes| ==> Weigh(samples, cubes[k]).weight > 0
    ensures |cubes| <= |samples|
  {
    CoveredCount(samples, cubes);
    SubsetCount(Covered(samples, cubes), Occupied(samples));
    OccupiedCount(samples);
  }
}
