/**
  Where a box of colour space may be cut, and how cuts and boxes are measured
  (core/src/native_palette.rs, `variance` and `cut`).
 */
module Cuts {
  import opened Palette

  // ----- Measures -----

  /**
    The score of a first part within a whole, and the variance of a box. The sums they are
    taken of are exact in the original too; only their quotients are rounded.
   */
  datatype Measure = Measure(score: (Cell, Cell) -> real, variance: Cell -> real)

  function Score(whole: Cell, first: Cell): real {
    if first.weight == 0 || whole.weight - first.weight == 0 then 0.0
    else
      Norm(first.moment) as real / first.weight as real
      + Norm(Minus(whole, first).moment) as real / (whole.weight - first.weight) as real
  }

  function Variance(cell: Cell): real {
    if cell.weight == 0 then 0.0
    else cell.squares as real - Norm(cell.moment) as real / cell.weight as real
  }

  /** Without any rounding. */
  const EXACT := Measure(Score, Variance)

  /**
    A rounding that leaves these signs alone: of scores from 1 on, and of variances that are at
    least the inverse of the weight, for up to so many pixels.
   */
  ghost predicate KeepsSigns(m: Measure, most: int) {
    && (forall whole: Cell, first: Cell :: Score(whole, first) >= 1.0 ==> m.score(whole, first) > 0.0)
    && (forall cell: Cell ::
          0 < cell.weight <= most && Sound(cell) && Variance(cell) >= 1.0 / cell.weight as real ==>
            m.variance(cell) > 0.0)
  }

  const MAX_PIXELS := 112 * 112
  const TWO51: real := 2251799813685248.0

  /**
    What double precision promises of quotients and differences of exactly represented sums: a
    score of at least half its exact value, and a variance off by a rounding of the squares.
   */
  ghost predicate Rounded(m: Measure) {
    && (forall whole: Cell, first: Cell ::
          Score(whole, first) > 0.0 ==> 2.0 * m.score(whole, first) >= Score(whole, first))
    && (forall cell: Cell :: cell.weight > 0 && Sound(cell) ==>
          m.variance(cell) >= Variance(cell) - cell.squares as real / TWO51)
  }

  lemma ExactRounded()
    ensures Rounded(EXACT)
  {
    hide Score, Variance;
    forall whole: Cell, first: Cell | Score(whole, first) > 0.0
      ensures 2.0 * EXACT.score(whole, first) >= Score(whole, first)
    {
      assert EXACT.score(whole, first) == Score(whole, first);
    }
    forall cell: Cell | cell.weight > 0 && Sound(cell)
      ensures EXACT.variance(cell) >= Variance(cell) - cell.squares as real / TWO51
    {
      assert EXACT.variance(cell) == Variance(cell);
    }
  }

  /** On the images the quantizer takes, that is precise enough. */
  lemma RoundedKeepsSigns(m: Measure, most: int)
    requires Rounded(m) && most <= MAX_PIXELS
    ensures KeepsSigns(m, most)
  {
    hide Score, Variance;
    forall cell: Cell | 0 < cell.weight <= most && Sound(cell) && Variance(cell) >= 1.0 / cell.weight as real
      ensures m.variance(cell) > 0.0
    {
      InverseAtLeast(cell.weight, MAX_PIXELS);
      assert cell.squares <= BRIGHTEST * MAX_PIXELS;
      assert cell.squares as real / TWO51 < 1.0 / MAX_PIXELS as real;
    }
  }

  lemma InverseAtLeast(w: int, most: int)
    requires 0 < w <= most
    ensures 1.0 / w as real >= 1.0 / most as real
  {
    InversePositive(most);
    TimesInverse(w as real);
    TimesInverse(most as real);
    InverseOrder(w as real, most as real, 1.0 / w as real, 1.0 / most as real);
  }

  lemma TimesInverse(x: real)
    requires x != 0.0
    ensures x * (1.0 / x) == 1.0
  {}

  lemma InverseOrder(x: real, y: real, i: real, j: real)
    requires x <= y && 0.0 < x && 0.0 < j && x * i == 1.0 && y * j == 1.0
    ensures i >= j
  {
    ScaleReal(x, y, j);
    if i < j {
      StrictlyLess(i, j, x);
      assert false;
    }
  }

  lemma ScaleReal(x: real, y: real, f: real)
    requires x <= y && f > 0.0
    ensures x * f <= y * f
  {}

  lemma StrictlyLess(x: real, y: real, f: real)
    requires x < y && f > 0.0
    ensures f * x < f * y
  {}

  lemma ExactKeepsSigns(most: int)
    ensures KeepsSigns(EXACT, most)
  {
    hide Score, Variance;
    forall whole: Cell, first: Cell | Score(whole, first) >= 1.0 ensures EXACT.score(whole, first) > 0.0 {
      assert EXACT.score(whole, first) == Score(whole, first);
    }
    forall cell: Cell | 0 < cell.weight <= most && Sound(cell) && Variance(cell) >= 1.0 / cell.weight as real
      ensures EXACT.variance(cell) > 0.0
    {
      InversePositive(cell.weight);
      assert EXACT.variance(cell) == Variance(cell);
    }
  }

  lemma InversePositive(n: int)
    requires n > 0
    ensures 1.0 / n as real > 0.0
  {}

  // ----- Planes -----

  function Extent(c: Cube): int {
    (c.high.r - c.low.r) * (c.high.g - c.low.g) * (c.high.b - c.low.b)
  }

  /** A plane strictly inside the box with pixels on both sides. */
  predicate Candidate(samples: seq<Sample>, c: Cube, axis: Axis, position: int) {
    && c.low.At(axis) < position < c.high.At(axis)
    && Weigh(samples, Lower(c, axis, position)).weight != 0
    && Weigh(samples, c).weight - Weigh(samples, Lower(c, axis, position)).weight != 0
  }

  /** No plane cuts the box into two parts with pixels. */
  ghost predicate Uncuttable(samples: seq<Sample>, c: Cube) {
    forall axis, position :: !Candidate(samples, c, axis, position)
  }

  function CutScore(m: Measure, samples: seq<Sample>, c: Cube, axis: Axis, position: int): real {
    m.score(Weigh(samples, c), Weigh(samples, Lower(c, axis, position)))
  }

  /** No candidate plane of the box has a larger score than `score`. */
  ghost predicate NoBetter(m: Measure, samples: seq<Sample>, c: Cube, score: real) {
    forall axis, position :: Candidate(samples, c, axis, position) ==> CutScore(m, samples, c, axis, position) <= score
  }

  /** The first and second part of a cut, with their bookkeeping volumes. */
  function FirstPart(c: Cube, axis: Axis, position: int): Cube {
    var one := Lower(c, axis, position);
    one.(volume := Extent(one))
  }

  function SecondPart(c: Cube, axis: Axis, position: int): Cube {
    var two := Upper(c, axis, position);
    two.(volume := Extent(two))
  }

  /** Red before green before blue, and lower before higher positions. */
  predicate Before(axis: Axis, position: int, other: Axis, place: int) {
    match (axis, other)
    case (Red, Red) => position <= place
    case (Green, Green) => position <= place
    case (Blue, Blue) => position <= place
    case (Red, _) => true
    case (Green, Blue) => true
    case _ => false
  }

  /** The first of the candidates with the largest score, which is positive. */
  ghost predicate BestCut(m: Measure, samples: seq<Sample>, c: Cube, axis: Axis, position: int) {
    && Candidate(samples, c, axis, position)
    && CutScore(m, samples, c, axis, position) > 0.0
    && NoBetter(m, samples, c, CutScore(m, samples, c, axis, position))
    && (forall other, place ::
          Candidate(samples, c, other, place)
          && CutScore(m, samples, c, other, place) == CutScore(m, samples, c, axis, position)
          ==> Before(axis, position, other, place))
  }

  lemma PartsAreHalves(samples: seq<Sample>, c: Cube, axis: Axis, position: int)
    requires Genuine(samples)
    requires c.Proper() && Candidate(samples, c, axis, position)
    ensures Halves(c, FirstPart(c, axis, position), SecondPart(c, axis, position))
    ensures Weigh(samples, FirstPart(c, axis, position)).weight > 0
    ensures Weigh(samples, SecondPart(c, axis, position)).weight > 0
  {
    GenuineSamples(samples);
    var one, two := FirstPart(c, axis, position), SecondPart(c, axis, position);
    assert Halves(c, one, two) by {
      assert c.low.At(axis) < position < c.high.At(axis)
          && one.low == c.low && one.high == c.high.With(axis, position)
          && two.high == c.high && two.low == c.low.With(axis, position);
    }
    HalvesWeigh(samples, c, one, two);
    SameBox(samples, one, Lower(c, axis, position));
    WeighBounds(samples, one);
    WeighBounds(samples, two);
  }

  // ----- Sums of pixels vary -----

  function Dot(x: Triple, y: Triple): int { x.r * y.r + x.g * y.g + x.b * y.b }

  /** `n` times `y` less `k` times `x`. */
  function Cross(x: Triple, k: int, y: Triple, n: int): Triple {
    Triple(n * y.r - k * x.r, n * y.g - k * x.g, n * y.b - k * x.b)
  }

  /** What the sum of two cells has over the cells by themselves. */
  function Mixed(x: Cell, y: Cell): int {
    x.weight * y.squares + y.weight * x.squares - 2 * Dot(x.moment, y.moment)
  }

  lemma SpreadOfSum(x: Cell, y: Cell)
    ensures Spread(Plus(x, y)) == Spread(x) + Spread(y) + Mixed(x, y)
  {
    var p, q := x.moment, y.moment;
    assert (x.weight + y.weight) * (x.squares + y.squares) ==
           x.weight * x.squares + x.weight * y.squares + y.weight * x.squares + y.weight * y.squares;
    NormOfSum(p, q);
  }

  lemma SquareOfSum(u: int, v: int)
    ensures (u + v) * (u + v) == u * u + v * v + 2 * (u * v)
  {}

  lemma NormOfSum(p: Triple, q: Triple)
    ensures Norm(Triple(p.r + q.r, p.g + q.g, p.b + q.b)) == Norm(p) + Norm(q) + 2 * Dot(p, q)
  {
    SquareOfSum(p.r, q.r);
    SquareOfSum(p.g, q.g);
    SquareOfSum(p.b, q.b);
  }

  lemma SquareOfCross(u: int, k: int, v: int, n: int)
    ensures (n * v - k * u) * (n * v - k * u) == n * n * (v * v) + k * k * (u * u) - 2 * (n * k) * (u * v)
  {}

  lemma NormOfCross(p: Triple, k: int, q: Triple, n: int)
    ensures Norm(Cross(p, k, q, n)) == n * n * Norm(q) + k * k * Norm(p) - 2 * (n * k) * Dot(p, q)
  {
    SquareOfCross(p.r, k, q.r, n);
    SquareOfCross(p.g, k, q.g, n);
    SquareOfCross(p.b, k, q.b, n);
    ThreeTerms(n * n, q.r * q.r, q.g * q.g, q.b * q.b);
    ThreeTerms(k * k, p.r * p.r, p.g * p.g, p.b * p.b);
    ThreeTerms(2 * (n * k), p.r * q.r, p.g * q.g, p.b * q.b);
  }

  lemma ThreeTerms(f: int, x: int, y: int, z: int)
    ensures f * (x + y + z) == f * x + f * y + f * z
  {}

  /** The mixed term, up to weights, is at least the square of the distance of the means. */
  lemma MixedBounds(x: Cell, y: Cell)
    requires x.weight > 0 && y.weight > 0 && Spread(x) >= 0 && Spread(y) >= 0
    ensures x.weight * y.weight * Mixed(x, y) >= Norm(Cross(x.moment, y.weight, y.moment, x.weight))
  {
    var n, k := x.weight, y.weight;
    var d := Dot(x.moment, y.moment);
    Rearranged(n, k, x.squares, y.squares, d);
    ScaleNat(Norm(y.moment), k * y.squares, n * n);
    ScaleNat(Norm(x.moment), n * x.squares, k * k);
    NormOfCross(x.moment, k, y.moment, n);
  }

  lemma Rearranged(n: int, k: int, s: int, t: int, d: int)
    ensures n * k * (n * t + k * s - 2 * d) == n * n * (k * t) + k * k * (n * s) - 2 * (n * k) * d
  {}

  lemma ScaleNat(x: int, y: int, f: int)
    requires x <= y && f >= 0
    ensures f * x <= f * y
  {}

  lemma NormNonNegative(p: Triple)
    ensures Norm(p) >= 0
    ensures forall d: Axis :: p.At(d) != 0 ==> Norm(p) > 0
  {
    SquareSign(p.r);
    SquareSign(p.g);
    SquareSign(p.b);
  }

  lemma SquareSign(u: int)
    ensures u * u >= 0 && (u != 0 ==> u * u > 0)
  {}

  lemma ProductSign(f: int, e: int)
    requires f > 0
    ensures f * e >= 0 ==> e >= 0
    ensures f * e > 0 ==> e > 0
  {
    if e < 0 { ScaleNat(e, -1, f); }
  }

  /** Sums of sound cells are sound. */
  lemma SoundSum(x: Cell, y: Cell)
    requires Sound(x) && Sound(y)
    ensures Sound(Plus(x, y))
  {
    SpreadOfSum(x, y);
    NormNonNegative(x.moment);
    NormNonNegative(y.moment);
    if x.weight > 0 && y.weight > 0 {
      MixedBounds(x, y);
      NormNonNegative(Cross(x.moment, y.weight, y.moment, x.weight));
      PositiveProduct(x.weight, y.weight);
      ProductSign(x.weight * y.weight, Mixed(x, y));
    } else if x.weight == 0 {
      MixedWithNothing(x, y);
    } else {
      MixedWithNothing(y, x);
      MixedSymmetric(x, y);
    }
  }

  lemma PositiveProduct(n: int, k: int)
    requires n > 0 && k > 0
    ensures n * k > 0
  {}

  lemma MixedSymmetric(x: Cell, y: Cell)
    ensures Mixed(x, y) == Mixed(y, x)
  {}

  lemma MixedWithNothing(x: Cell, y: Cell)
    requires Sound(x) && Sound(y) && x.weight == 0
    ensures Mixed(x, y) >= 0
  {
    NormNonNegative(x.moment);
    assert x.moment.At(Red) == 0 && x.moment.At(Green) == 0 && x.moment.At(Blue) == 0;
    ScaleNat(0, x.squares, y.weight);
  }

  lemma {:induction false} SoundWeigh(samples: seq<Sample>, c: Cube)
    requires forall s :: s in samples ==> Sound(s.value)
    ensures Sound(Weigh(samples, c))
  {
    if samples != [] {
      hide Sound;
      var rest, s := samples[..|samples| - 1], samples[|samples| - 1];
      SoundWeigh(rest, c);
      SoundSum(Weigh(rest, c), s.value);
    }
  }

  // ----- What can be cut has a positive score and a positive variance -----

  /** The two parts of a cut have different means on its axis. */
  lemma CutSpreads(samples: seq<Sample>, c: Cube, axis: Axis, position: int)
    requires Genuine(samples)
    requires c.Proper() && Candidate(samples, c, axis, position)
    ensures Spread(Weigh(samples, c)) >= 1 && Weigh(samples, c).weight > 0
  {
    GenuineSamples(samples);
    var one, two := FirstPart(c, axis, position), SecondPart(c, axis, position);
    PartsAreHalves(samples, c, axis, position);
    HalvesWeigh(samples, c, one, two);
    var x, y := Weigh(samples, one), Weigh(samples, two);
    WeighBounds(samples, one);
    WeighBounds(samples, two);
    SoundWeigh(samples, one);
    SoundWeigh(samples, two);
    PartsDiffer(x, y, one, two, axis, position);
    StrictSpread(x, y, axis);
  }

  /** Weighted with each other's weights, the moments of the parts differ. */
  lemma PartsDiffer(x: Cell, y: Cell, one: Cube, two: Cube, axis: Axis, position: int)
    requires Bounded(x, one) && Bounded(y, two) && x.weight > 0 && y.weight > 0
    requires one.high.At(axis) == position == two.low.At(axis)
    ensures x.weight * y.moment.At(axis) > y.weight * x.moment.At(axis)
  {
    var n, k := x.weight, y.weight;
    ScaleNat(8 * position * k, y.moment.At(axis), n);
    ScaleNat(x.moment.At(axis), (8 * position - 1) * n, k);
    PositiveProduct(n, k);
    assert n * (8 * position * k) == k * ((8 * position - 1) * n) + n * k;
  }

  lemma StrictSpread(x: Cell, y: Cell, axis: Axis)
    requires Sound(x) && Sound(y) && x.weight > 0 && y.weight > 0
    requires x.weight * y.moment.At(axis) > y.weight * x.moment.At(axis)
    ensures Spread(Plus(x, y)) >= 1
  {
    var cross := Cross(x.moment, y.weight, y.moment, x.weight);
    assert cross.At(axis) == x.weight * y.moment.At(axis) - y.weight * x.moment.At(axis);
    NormNonNegative(cross);
    MixedBounds(x, y);
    PositiveProduct(x.weight, y.weight);
    ProductSign(x.weight * y.weight, Mixed(x, y));
    SpreadOfSum(x, y);
  }

  /** A candidate plane has an exact score of at least 1: its upper side holds no black. */
  lemma CandidateScore(samples: seq<Sample>, c: Cube, axis: Axis, position: int)
    requires Genuine(samples)
    requires c.Proper() && Candidate(samples, c, axis, position)
    ensures CutScore(EXACT, samples, c, axis, position) >= 1.0
  {
    GenuineSamples(samples);
    var one, two := FirstPart(c, axis, position), SecondPart(c, axis, position);
    PartsAreHalves(samples, c, axis, position);
    HalvesWeigh(samples, c, one, two);
    SameBox(samples, one, Lower(c, axis, position));
    hide Weigh, Candidate, Score, Halves;
    var y := Weigh(samples, two);
    WeighBounds(samples, two);
    assert y.moment.At(axis) >= 8 * position * y.weight;
    UpperMoment(position, y.weight);
    NormAtLeast(y.moment, axis, y.weight);
    ScoreOfParts(Weigh(samples, c), Weigh(samples, one), y);
  }

  lemma UpperMoment(position: int, w: int)
    requires position >= 1 && w > 0
    ensures 8 * position * w >= w
  {}

  lemma ScoreOfParts(whole: Cell, x: Cell, y: Cell)
    requires whole == Plus(x, y) && x.weight > 0 && y.weight > 0 && Norm(y.moment) >= y.weight
    ensures Score(whole, x) >= 1.0
  {
    assert Minus(whole, x) == y;
    NormNonNegative(x.moment);
    QuotientAtLeast(Norm(y.moment), y.weight, 1);
    QuotientAtLeast(Norm(x.moment), x.weight, 0);
  }

  lemma NormAtLeast(p: Triple, axis: Axis, w: int)
    requires w > 0 && p.At(axis) >= w
    ensures Norm(p) >= w
  {
    NormNonNegative(p);
    SquareSign(p.r);
    SquareSign(p.g);
    SquareSign(p.b);
    ScaleNat(1, p.At(axis), p.At(axis));
  }

  lemma QuotientAtLeast(x: int, w: int, q: int)
    requires w > 0 && x >= q * w
    ensures x as real / w as real >= q as real
  {
    assert x as real >= q as real * w as real;
  }

  /** And its box an exact variance of at least the inverse of the weight. */
  lemma CandidateVariance(samples: seq<Sample>, c: Cube, axis: Axis, position: int)
    requires Genuine(samples)
    requires c.Proper() && Candidate(samples, c, axis, position)
    ensures Weigh(samples, c).weight > 0
    ensures Variance(Weigh(samples, c)) >= 1.0 / Weigh(samples, c).weight as real
  {
    CutSpreads(samples, c, axis, position);
    var cell := Weigh(samples, c);
    VarianceOfSpread(cell.squares, Norm(cell.moment), cell.weight);
  }

  lemma VarianceOfSpread(s: int, n: int, w: int)
    requires w > 0 && w * s - n >= 1
    ensures s as real - n as real / w as real >= 1.0 / w as real
  {
    var i := 1.0 / w as real;
    InversePositive(w);
    assert n as real / w as real == n as real * i && w as real * i == 1.0;
    assert (w as real * s as real - n as real - 1.0) * i >= 0.0;
    assert w as real * s as real * i == s as real;
  }

  // ----- What variance and score measure -----

  /** A point of colour space. */
  datatype Point = Point(r: real, g: real, b: real)

  function Apartness(c: Color, at: Point): real {
    (c.red as real - at.r) * (c.red as real - at.r) + (c.green as real - at.g) * (c.green as real - at.g)
    + (c.blue as real - at.b) * (c.blue as real - at.b)
  }

  /** The squared distances of the pixels of a box from a point, summed up. */
  function Scatter(pixels: seq<Pixel>, c: Cube, at: Point): real {
    if pixels == [] then 0.0
    else
      var last := pixels[|pixels| - 1];
      Scatter(pixels[..|pixels| - 1], c, at)
      + if Falls(last, c) then Apartness(last.color, at) * last.count as real else 0.0
  }

  function CentreOf(cell: Cell): Point
    requires cell.weight != 0
  {
    Point(cell.moment.r as real / cell.weight as real, cell.moment.g as real / cell.weight as real,
          cell.moment.b as real / cell.weight as real)
  }

  /** The sums of a box determine its scatter about any point. */
  function ScatterOf(cell: Cell, at: Point): real {
    cell.squares as real
    - 2.0 * (cell.moment.r as real * at.r + cell.moment.g as real * at.g + cell.moment.b as real * at.b)
    + cell.weight as real * (at.r * at.r + at.g * at.g + at.b * at.b)
  }

  function PixelSums(p: Pixel): Cell {
    Cell(p.count, Triple(RedOf(p.color) * p.count, GreenOf(p.color) * p.count, BlueOf(p.color) * p.count),
         SquareOf(p.color) * p.count)
  }

  lemma SumsNext(pixels: seq<Pixel>, c: Cube)
    requires pixels != []
    ensures var front, last := pixels[..|pixels| - 1], pixels[|pixels| - 1];
            Sums(pixels, c) == if Falls(last, c) then Plus(Sums(front, c), PixelSums(last)) else Sums(front, c)
  {
    hide Falls;
  }

  lemma {:induction false} ScatterSums(pixels: seq<Pixel>, c: Cube, at: Point)
    ensures Scatter(pixels, c, at) == ScatterOf(Sums(pixels, c), at)
  {
    hide ScatterOf, Apartness, Falls, Sums, PixelSums;
    if pixels == [] {
      NoScatter(c, at);
    } else {
      var front, last := pixels[..|pixels| - 1], pixels[|pixels| - 1];
      ScatterSums(front, c, at);
      SumsNext(pixels, c);
      ScatterOfPixel(last, at);
      ScatterOfSum(Sums(front, c), PixelSums(last), at);
    }
  }

  lemma NoScatter(c: Cube, at: Point)
    ensures ScatterOf(Sums([], c), at) == 0.0
  {}

  lemma ScatterOfSum(x: Cell, y: Cell, at: Point)
    ensures ScatterOf(Plus(x, y), at) == ScatterOf(x, at) + ScatterOf(y, at)
  {
    var square := at.r * at.r + at.g * at.g + at.b * at.b;
    DistributeReal(x.weight, y.weight, square);
    DistributeReal(x.moment.r, y.moment.r, at.r);
    DistributeReal(x.moment.g, y.moment.g, at.g);
    DistributeReal(x.moment.b, y.moment.b, at.b);
  }

  lemma DistributeReal(m: int, n: int, f: real)
    ensures (m + n) as real * f == m as real * f + n as real * f
  {}

  lemma ScatterOfPixel(p: Pixel, at: Point)
    ensures ScatterOf(PixelSums(p), at) == Apartness(p.color, at) * p.count as real
  {
    var r, g, b, n := p.color.red as int, p.color.green as int, p.color.blue as int, p.count;
    OneChannel(r, n, at.r);
    OneChannel(g, n, at.g);
    OneChannel(b, n, at.b);
    var k := n as real;
    var x, y, z := r as real - at.r, g as real - at.g, b as real - at.b;
    assert (x * x + y * y + z * z) * k == x * x * k + y * y * k + z * z * k;
    assert (at.r * at.r + at.g * at.g + at.b * at.b) * k == at.r * at.r * k + at.g * at.g * k + at.b * at.b * k;
    assert (r * r + g * g + b * b) * n == r * r * n + g * g * n + b * b * n;
  }

  lemma OneChannel(r: int, n: int, at: real)
    ensures (r as real - at) * (r as real - at) * n as real ==
            (r * r * n) as real - 2.0 * ((r * n) as real * at) + at * at * n as real
  {
    var x, k := r as real, n as real;
    assert (x - at) * (x - at) == x * x - 2.0 * (x * at) + at * at;
    assert (x * x - 2.0 * (x * at) + at * at) * k == x * x * k - 2.0 * (x * at) * k + at * at * k;
    assert (r * r * n) as real == x * x * k && (r * n) as real == x * k;
    assert 2.0 * (x * at) * k == 2.0 * (x * k * at);
  }

  /** The variance of a box is the scatter of its pixels about their mean. */
  lemma VarianceIsScatter(pixels: seq<Pixel>, c: Cube)
    requires Weigh(Samples(pixels), c).weight != 0
    ensures var cell := Weigh(Samples(pixels), c); Variance(cell) == Scatter(pixels, c, CentreOf(cell))
  {
    hide Scatter, Weigh, Samples, Sums;
    var cell := Weigh(Samples(pixels), c);
    BoxSums(pixels, c);
    ScatterSums(pixels, c, CentreOf(cell));
    ScatterAtCentre(cell);
  }

  lemma ScatterAtCentre(cell: Cell)
    requires cell.weight != 0
    ensures ScatterOf(cell, CentreOf(cell)) == Variance(cell)
  {
    var w := cell.weight as real;
    var p, q, s := cell.moment.r as real, cell.moment.g as real, cell.moment.b as real;
    AtQuotient(p, w);
    AtQuotient(q, w);
    AtQuotient(s, w);
    assert Norm(cell.moment) as real == p * p + q * q + s * s;
    assert (p * p + q * q + s * s) / w == p * p / w + q * q / w + s * s / w;
    assert w * (p / w * (p / w) + q / w * (q / w) + s / w * (s / w)) ==
           w * (p / w * (p / w)) + w * (q / w * (q / w)) + w * (s / w * (s / w));
  }

  lemma AtQuotient(p: real, w: real)
    requires w != 0.0
    ensures p * (p / w) == p * p / w && w * (p / w * (p / w)) == p * p / w
  {
    var x := p / w;
    assert x * w == p;
    assert w * (x * x) == (x * w) * x;
    assert p * x * w == p * p;
  }

  /** The score of a cut is what the squares exceed the variances of the two parts by. */
  lemma ScoreIsGain(whole: Cell, first: Cell)
    requires first.weight != 0 && whole.weight - first.weight != 0
    ensures Score(whole, first) == whole.squares as real - Variance(first) - Variance(Minus(whole, first))
  {}

  // ----- Boxes the loop is done with -----

  /** The variance a box is filed under: boxes of one cell are never cut again. */
  function Filed(m: Measure, samples: seq<Sample>, c: Cube): real {
    if c.volume > 1 then m.variance(Weigh(samples, c)) else 0.0
  }

  /** A box the loop will not pick again: it has been tried, or a part that varies too little. */
  ghost predicate Finished(m: Measure, samples: seq<Sample>, c: Cube) {
    NoBetter(m, samples, c, 0.0) || (c.volume == Extent(c) && Filed(m, samples, c) <= 0.0)
  }

  lemma TwoCells(c: Cube, axis: Axis, position: int)
    requires c.Proper() && c.low.At(axis) < position < c.high.At(axis)
    ensures Extent(c) > 1
  {
    var x, y, z := c.high.r - c.low.r, c.high.g - c.low.g, c.high.b - c.low.b;
    PositiveProduct(x, y);
    PositiveProduct(x * y, z);
    match axis
    case Red => ScaleNat(2, x, y); ScaleNat(2, x * y, z);
    case Green => ScaleNat(2, y, x); ScaleNat(2, x * y, z);
    case Blue => ScaleNat(2, z, x * y);
  }

  lemma CandidateUnfinished(m: Measure, most: int, samples: seq<Sample>, c: Cube, axis: Axis, position: int)
    requires Genuine(samples)
    requires KeepsSigns(m, most) && Weigh(samples, c).weight <= most
    requires c.Proper() && Candidate(samples, c, axis, position)
    ensures !Finished(m, samples, c)
  {
    CandidateScore(samples, c, axis, position);
    CandidateVariance(samples, c, axis, position);
    TwoCells(c, axis, position);
    GenuineSamples(samples);
    SoundWeigh(samples, c);
    hide Candidate, Weigh, Score, Variance;
    assert CutScore(m, samples, c, axis, position) > 0.0;
    assert m.variance(Weigh(samples, c)) > 0.0;
  }

  /** As long as rounding keeps the signs, a finished box cannot be cut at all. */
  lemma FinishedUncuttable(m: Measure, most: int, samples: seq<Sample>, c: Cube)
    requires Genuine(samples)
    requires KeepsSigns(m, most) && Weigh(samples, c).weight <= most && c.Proper() && Finished(m, samples, c)
    ensures Uncuttable(samples, c)
  {
    forall axis, position ensures !Candidate(samples, c, axis, position) {
      if Candidate(samples, c, axis, position) {
        CandidateUnfinished(m, most, samples, c, axis, position);
        assert false;
      }
    }
  }

  /** A box that cannot be cut holds at most one occupied bin. */
  lemma UncuttableHoldsOne(samples: seq<Sample>, c: Cube, one: Triple, two: Triple)
    requires Genuine(samples)
    requires c.Proper() && Uncuttable(samples, c)
    requires one in Inside(samples, c) && two in Inside(samples, c)
    ensures one == two
  {
    if one.r != two.r { SeparatedBins(samples, c, Red, one, two); }
    if one.g != two.g { SeparatedBins(samples, c, Green, one, two); }
    if one.b != two.b { SeparatedBins(samples, c, Blue, one, two); }
  }

  /** Two bins that differ on an axis are on the two sides of a candidate plane. */
  lemma SeparatedBins(samples: seq<Sample>, c: Cube, axis: Axis, one: Triple, two: Triple)
    requires Genuine(samples)
    requires c.Proper() && one in Inside(samples, c) && two in Inside(samples, c)
    requires one.At(axis) != two.At(axis)
    ensures exists position :: Candidate(samples, c, axis, position)
  {
    GenuineSamples(samples);
    var near, far := if one.At(axis) < two.At(axis) then one else two, if one.At(axis) < two.At(axis) then two else one;
    var position := near.At(axis);
    OccupiedWeighs(samples, Lower(c, axis, position), near);
    OccupiedWeighs(samples, Upper(c, axis, position), far);
    SplitWeighs(samples, c, axis, position);
    assert Candidate(samples, c, axis, position);
  }
}
