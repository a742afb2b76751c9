/**
  Cutting colour space into boxes (core/src/native_palette.rs, `cut` and `quantize`) and the
  seeding of the clusters from the box means (the head of `wsmeans`).
 */
module Quantizer {
  import opened Common
  import opened Palette
  import opened Wu
  import opened Cuts

  // ----- cut -----

  /** The sum over a box, read off the table. */
  method Read(t: Table, c: Cube) returns (cell: Cell)
    requires t.Tabulated() && c.Proper()
    ensures cell == Weigh(t.samples, c)
  {
    VolumeWeighs(t.cells[..], t.samples, c);
    cell := t.Volume(c);
  }

  /** The score of cutting at one position, if both sides have pixels. */
  method ScoreAt(m: Measure, t: Table, c: Cube, axis: Axis, p: int, whole: Cell) returns (score: Option<real>)
    requires t.Tabulated() && c.Proper() && whole == Weigh(t.samples, c)
    requires c.low.At(axis) < p < c.high.At(axis)
    ensures score.Some? <==> Candidate(t.samples, c, axis, p)
    ensures score.Some? ==> score.value == CutScore(m, t.samples, c, axis, p)
  {
    var half := Lower(c, axis, p);
    var first := Read(t, half);
    if first.weight == 0 || whole.weight - first.weight == 0 { return None; }
    return Some(m.score(whole, first));
  }

  /** The first position of largest positive score along one axis. */
  method BestOnAxis(m: Measure, t: Table, c: Cube, axis: Axis, whole: Cell)
    returns (score: real, position: Option<int>)
    requires t.Tabulated() && c.Proper() && whole == Weigh(t.samples, c)
    ensures position.None? ==> score == 0.0
    ensures position.Some? ==>
              && Candidate(t.samples, c, axis, position.value)
              && score == CutScore(m, t.samples, c, axis, position.value) > 0.0
    ensures forall p :: Candidate(t.samples, c, axis, p) ==>
              && CutScore(m, t.samples, c, axis, p) <= score
              && (position.Some? && p < position.value ==> CutScore(m, t.samples, c, axis, p) < score)
  {
    hide Weigh;
    score, position := 0.0, None;
    for p := c.low.At(axis) + 1 to c.high.At(axis)
      invariant position.None? ==> score == 0.0
      invariant position.Some? ==>
                  && position.value < p
                  && Candidate(t.samples, c, axis, position.value)
                  && score == CutScore(m, t.samples, c, axis, position.value) > 0.0
      invariant forall q :: q < p && Candidate(t.samples, c, axis, q) ==>
                  && CutScore(m, t.samples, c, axis, q) <= score
                  && (position.Some? && q < position.value ==> CutScore(m, t.samples, c, axis, q) < score)
    {
      var value := ScoreAt(m, t, c, axis, p, whole);
      if value.Some? && value.value > score { score, position := value.value, Some(p); }
    }
  }

  /** Cuts a box at the first plane of largest score, red before green before blue. */
  method Cut(m: Measure, t: Table, c: Cube) returns (r: Option<(Cube, Cube)>)
    requires t.Tabulated() && c.Proper()
    ensures r.None? ==> NoBetter(m, t.samples, c, 0.0)
    ensures r.Some? ==> exists axis, position ::
              BestCut(m, t.samples, c, axis, position)
              && r.value == (FirstPart(c, axis, position), SecondPart(c, axis, position))
  {
    hide Candidate, CutScore;
    var whole := Read(t, c);
    var score0, cut0 := BestOnAxis(m, t, c, Red, whole);
    var score1, cut1 := BestOnAxis(m, t, c, Green, whole);
    var score2, cut2 := BestOnAxis(m, t, c, Blue, whole);
    var axis, position, score := Blue, cut2, score2;
    if score0 >= score1 && score0 >= score2 { axis, position, score := Red, cut0, score0; }
    else if score1 >= score0 && score1 >= score2 { axis, position, score := Green, cut1, score1; }
    forall a, p | Candidate(t.samples, c, a, p) ensures CutScore(m, t.samples, c, a, p) <= score {
      match a case Red => case Green => case Blue =>
    }
    if position.None? { return None; }
    forall a, p | Candidate(t.samples, c, a, p) && CutScore(m, t.samples, c, a, p) == score
      ensures Before(axis, position.value, a, p)
    {
      match a case Red => case Green => case Blue =>
    }
    assert BestCut(m, t.samples, c, axis, position.value);
    return Some((FirstPart(c, axis, position.value), SecondPart(c, axis, position.value)));
  }

  // ----- quantize -----

  function CountPositive(s: seq<real>): nat {
    if s == [] then 0 else CountPositive(s[..|s| - 1]) + if s[|s| - 1] > 0.0 then 1 else 0
  }

  lemma {:induction false} CountAfterReset(s: seq<real>, k: nat)
    requires k < |s| && s[k] > 0.0
    ensures CountPositive(s[k := 0.0]) == CountPositive(s) - 1
  {
    var last := |s| - 1;
    if k == last { assert s[k := 0.0][..last] == s[..last]; }
    else {
      CountAfterReset(s[..last], k);
      assert s[k := 0.0][..last] == s[..last][k := 0.0];
    }
  }

  /** The boxes of a loop head: a partition that loses no pixel and has no empty box. */
  ghost predicate Boxes(samples: seq<Sample>, cubes: seq<Cube>) {
    && Partition(cubes)
    && TotalWeight(samples, cubes) == Weigh(samples, WHOLE).weight
    && (Weigh(samples, WHOLE).weight > 0 ==> forall k :: 0 <= k < |cubes| ==> Weigh(samples, cubes[k]).weight > 0)
  }

  /** The boxes in use and the variances they are filed under. */
  datatype Filing = Filing(cubes: seq<Cube>, variances: seq<real>)
  {
    predicate Matched() { |cubes| == |variances| }

    /** No box is filed under a positive variance. */
    ghost predicate Settled() { forall k :: 0 <= k < |variances| ==> variances[k] <= 0.0 }
  }

  const UNCUT := Filing([WHOLE], [0.0])

  /** The first index of the largest variance. */
  ghost predicate FirstWidest(variances: seq<real>, next: nat) {
    && next < |variances|
    && (forall k :: 0 <= k < |variances| ==> variances[k] <= variances[next])
    && (forall k :: 0 <= k < next ==> variances[k] < variances[next])
  }

  /** The filing after a cut: the first part in the box's place, the second at the end. */
  function Parted(m: Measure, samples: seq<Sample>, f: Filing, next: nat, axis: Axis, position: int): Filing
    requires f.Matched() && next < |f.cubes|
  {
    var one, two := FirstPart(f.cubes[next], axis, position), SecondPart(f.cubes[next], axis, position);
    Filing(CutAt(f.cubes, next, one, two),
           f.variances[next := Filed(m, samples, one)] + [Filed(m, samples, two)])
  }

  /** One round on the box `next`: cut at its best plane, or filed under zero if it has none. */
  ghost predicate Steps(m: Measure, samples: seq<Sample>, f: Filing, next: nat, g: Filing)
    requires f.Matched() && next < |f.cubes|
  {
    if NoBetter(m, samples, f.cubes[next], 0.0) then g == f.(variances := f.variances[next := 0.0])
    else exists axis, position ::
      BestCut(m, samples, f.cubes[next], axis, position) && g == Parted(m, samples, f, next, axis, position)
  }

  /** A round on the first widest box. */
  ghost predicate Follows(m: Measure, samples: seq<Sample>, f: Filing, g: Filing) {
    f.Matched() && exists next: nat :: FirstWidest(f.variances, next) && Steps(m, samples, f, next, g)
  }

  /** Rounds from the uncut space on; it goes on while there is a box worth cutting and room for it. */
  ghost predicate IsRun(m: Measure, samples: seq<Sample>, run: seq<Filing>) {
    && |run| > 0 && run[0] == UNCUT
    && (forall k :: 0 < k < |run| ==> Follows(m, samples, run[k - 1], run[k]))
    && (forall k :: 0 < k < |run| - 1 ==> |run[k].cubes| < COLORS && !run[k].Settled())
  }

  /** A run that is over. */
  ghost predicate IsWholeRun(m: Measure, samples: seq<Sample>, run: seq<Filing>) {
    && IsRun(m, samples, run) && |run| > 1
    && (run[|run| - 1].Settled() || |run[|run| - 1].cubes| == COLORS)
  }

  /** A box is filed under its variance, or under zero once it could not be cut. */
  ghost predicate FiledRight(m: Measure, samples: seq<Sample>, c: Cube, variance: real) {
    || (c.volume == Extent(c) && variance == Filed(m, samples, c))
    || (variance == 0.0 && NoBetter(m, samples, c, 0.0))
  }

  ghost predicate AllFiled(m: Measure, samples: seq<Sample>, f: Filing) {
    f.Matched() && forall k :: 0 <= k < |f.cubes| ==> FiledRight(m, samples, f.cubes[k], f.variances[k])
  }

  /** Every box but `next` is filed right; of a single box that says nothing. */
  ghost predicate OthersFiled(m: Measure, samples: seq<Sample>, f: Filing, next: nat) {
    f.Matched() && forall k :: 0 <= k < |f.cubes| && k != next ==> FiledRight(m, samples, f.cubes[k], f.variances[k])
  }

  lemma CutBoxes(samples: seq<Sample>, cubes: seq<Cube>, k: nat, axis: Axis, position: int)
    requires Genuine(samples)
    requires k < |cubes| && Boxes(samples, cubes) && Candidate(samples, cubes[k], axis, position)
    ensures Boxes(samples, CutAt(cubes, k, FirstPart(cubes[k], axis, position), SecondPart(cubes[k], axis, position)))
  {
    var one, two := FirstPart(cubes[k], axis, position), SecondPart(cubes[k], axis, position);
    PartsAreHalves(samples, cubes[k], axis, position);
    CutKeepsPartition(cubes, k, one, two);
    HalvesWeigh(samples, cubes[k], one, two);
    CutKeepsTotal(samples, cubes, k, one, two);
  }

  /** Whatever the measure, a round keeps a partition without empty boxes, and files its boxes right. */
  lemma StepKeepsBoxes(m: Measure, samples: seq<Sample>, f: Filing, next: nat, g: Filing)
    requires Genuine(samples)
    requires Boxes(samples, f.cubes) && next < |f.cubes| && OthersFiled(m, samples, f, next)
    requires Steps(m, samples, f, next, g)
    ensures Boxes(samples, g.cubes) && AllFiled(m, samples, g)
  {
    hide Boxes, Candidate, Filed, CutScore;
    if !NoBetter(m, samples, f.cubes[next], 0.0) {
      var axis, position :|
        BestCut(m, samples, f.cubes[next], axis, position) && g == Parted(m, samples, f, next, axis, position);
      hide NoBetter;
      CutBoxes(samples, f.cubes, next, axis, position);
    }
  }

  lemma WholeBoxes(samples: seq<Sample>)
    ensures Boxes(samples, [WHOLE])
  {
    WholePartition();
    TotalAppend(samples, [], WHOLE);
  }

  /** After every round of every run, with any measure. */
  lemma {:induction false} RunKeepsBoxes(m: Measure, samples: seq<Sample>, run: seq<Filing>)
    requires Genuine(samples)
    requires IsRun(m, samples, run)
    ensures Boxes(samples, run[|run| - 1].cubes) && run[|run| - 1].Matched()
    ensures |run| > 1 ==> AllFiled(m, samples, run[|run| - 1])
  {
    hide Boxes, FiledRight;
    if |run| == 1 {
      WholeBoxes(samples);
    } else {
      var front, f, g := run[..|run| - 1], run[|run| - 2], run[|run| - 1];
      RunKeepsBoxes(m, samples, front);
      assert Follows(m, samples, f, g);
      var next: nat :| FirstWidest(f.variances, next) && Steps(m, samples, f, next, g);
      StepKeepsBoxes(m, samples, f, next, g);
    }
  }

  ghost predicate AllUncuttable(samples: seq<Sample>, cubes: seq<Cube>) {
    forall k :: 0 <= k < |cubes| ==> Uncuttable(samples, cubes[k])
  }

  /** A run ends short of 128 boxes only when no box can be cut any more, if the signs are kept. */
  lemma EndsUncuttable(m: Measure, samples: seq<Sample>, run: seq<Filing>)
    requires Genuine(samples)
    requires KeepsSigns(m, Weigh(samples, WHOLE).weight)
    requires IsWholeRun(m, samples, run) && |run[|run| - 1].cubes| < COLORS
    ensures AllUncuttable(samples, run[|run| - 1].cubes)
  {
    hide KeepsSigns, Uncuttable, Filed, NoBetter;
    RunKeepsBoxes(m, samples, run);
    var last := run[|run| - 1];
    forall k | 0 <= k < |last.cubes| ensures Uncuttable(samples, last.cubes[k]) {
      assert FiledRight(m, samples, last.cubes[k], last.variances[k]) && last.variances[k] <= 0.0;
      TotalAtLeast(samples, last.cubes, k);
      FinishedUncuttable(m, Weigh(samples, WHOLE).weight, samples, last.cubes[k]);
    }
  }

  /** The first index of the largest filed variance among the first `n`. */
  method Widest(variances: array<real>, n: nat) returns (next: nat, maximum: real)
    requires 0 < n <= variances.Length
    ensures next < n && FirstWidest(variances[..n], next) && maximum == variances[next]
  {
    next, maximum := 0, variances[0];
    for candidate := 1 to n
      invariant next < candidate && maximum == variances[next]
      invariant forall k :: 0 <= k < candidate ==> variances[k] <= maximum
      invariant forall k :: 0 <= k < next ==> variances[k] < maximum
    {
      if variances[candidate] > maximum { next, maximum := candidate, variances[candidate]; }
    }
  }

  method VarianceOf(m: Measure, t: Table, c: Cube) returns (v: real)
    requires t.Tabulated() && c.Proper()
    ensures v == Filed(m, t.samples, c)
    ensures v == if c.volume > 1 then m.variance(Weigh(t.samples, c)) else 0.0
  {
    if c.volume <= 1 { return 0.0; }
    var cell := Read(t, c);
    return m.variance(cell);
  }

  /** Files the two parts of a cut box: the first in its place, the second at the end. */
  method FileParts(m: Measure, t: Table, cubes: array<Cube>, variances: array<real>, next: nat, i: nat,
                   one: Cube, two: Cube)
    requires t.Tabulated() && cubes.Length == variances.Length == COLORS
    requires next < i < COLORS && one.Proper() && two.Proper()
    modifies cubes, variances
    ensures cubes[..i + 1] == CutAt(old(cubes[..i]), next, one, two)
    ensures variances[..i + 1] ==
            old(variances[..i])[next := Filed(m, t.samples, one)] + [Filed(m, t.samples, two)]
  {
    hide Filed;
    ghost var before, filed := cubes[..i], variances[..i];
    var first := VarianceOf(m, t, one);
    var second := VarianceOf(m, t, two);
    cubes[next], variances[next] := one, first;
    cubes[i], variances[i] := two, second;
    assert cubes[..i + 1] == CutAt(before, next, one, two);
    assert variances[..i + 1] == filed[next := first] + [second];
  }

  /** What one round does to the box `next`: cut it in two, or give it up (`last` goes down). */
  method Round(m: Measure, t: Table, cubes: array<Cube>, variances: array<real>, next: nat, i: nat) returns (last: int)
    requires t.Tabulated() && cubes.Length == variances.Length == COLORS && next < i < COLORS
    requires Boxes(t.samples, cubes[..i])
    modifies cubes, variances
    ensures last == i || last == i - 1
    ensures Steps(m, t.samples, Filing(old(cubes[..i]), old(variances[..i])), next,
                  Filing(cubes[..last + 1], variances[..last + 1]))
    ensures last < i ==> variances[..i] == old(variances[..i])[next := 0.0]
  {
    hide Boxes, Candidate, Filed, CutScore;
    ghost var f := Filing(cubes[..i], variances[..i]);
    BoxProper(t.samples, f.cubes, next);
    var cut := Cut(m, t, cubes[next]);
    if cut.Some? {
      ghost var axis, position :| BestCut(m, t.samples, f.cubes[next], axis, position)
        && cut.value == (FirstPart(f.cubes[next], axis, position), SecondPart(f.cubes[next], axis, position));
      PartsAreHalves(t.samples, f.cubes[next], axis, position);
      HalvesApart(f.cubes[next], cut.value.0, cut.value.1);
      FileParts(m, t, cubes, variances, next, i, cut.value.0, cut.value.1);
      assert Filing(cubes[..i + 1], variances[..i + 1]) == Parted(m, t.samples, f, next, axis, position);
      return i;
    }
    variances[next] := 0.0;
    assert cubes[..i] == f.cubes && variances[..i] == f.variances[next := 0.0];
    return i - 1;
  }

  lemma BoxProper(samples: seq<Sample>, cubes: seq<Cube>, k: nat)
    requires Boxes(samples, cubes) && k < |cubes|
    ensures cubes[k].Proper()
  {}

  /** One more round at the end of a run that is not over. */
  lemma RunNext(m: Measure, samples: seq<Sample>, run: seq<Filing>, next: nat, g: Filing)
    requires IsRun(m, samples, run)
    requires var f := run[|run| - 1];
             && f.Matched() && FirstWidest(f.variances, next) && Steps(m, samples, f, next, g)
             && (|run| > 1 ==> |f.cubes| < COLORS && !f.Settled())
    ensures IsRun(m, samples, run + [g])
  {
    hide Steps, FirstWidest;
    var longer := run + [g];
    forall k | 0 < k < |longer| ensures Follows(m, samples, longer[k - 1], longer[k]) {
      if k < |run| { assert Follows(m, samples, run[k - 1], run[k]); }
    }
  }

  lemma RunStart(m: Measure, samples: seq<Sample>)
    ensures IsRun(m, samples, [UNCUT]) && FirstWidest([0.0], 0)
  {}

  lemma WidestSettles(f: Filing, next: nat)
    requires FirstWidest(f.variances, next) && f.variances[next] <= 0.0
    ensures f.Settled()
  {}

  lemma WidestUnsettled(f: Filing, next: nat)
    requires next < |f.variances| && f.variances[next] > 0.0
    ensures !f.Settled()
  {}

  /**
    The cutting loop. Its index also goes down, when a box turns out not to be cuttable; then
    one box less has a positive filed variance, so the loop ends whatever the scores and
    variances are.
   */
  method CutLoop(m: Measure, t: Table) returns (cubes: array<Cube>, count: nat, ghost run: seq<Filing>)
    requires t.Tabulated()
    ensures cubes.Length == COLORS && 1 <= count <= COLORS
    ensures IsWholeRun(m, t.samples, run) && run[|run| - 1].cubes == cubes[..count]
    ensures Boxes(t.samples, cubes[..count])
    ensures KeepsSigns(m, Weigh(t.samples, WHOLE).weight) && count < COLORS ==> AllUncuttable(t.samples, cubes[..count])
  {
    hide Boxes, Steps, Follows, FirstWidest, IsRun, AllFiled, AllUncuttable, KeepsSigns, CountPositive;
    cubes := new Cube[COLORS](_ => Cube(Triple(0, 0, 0), Triple(0, 0, 0), 0));
    cubes[0] := WHOLE;
    var variances := new real[COLORS](_ => 0.0);
    var next: nat, i := 0, 1;
    run := [UNCUT];
    WholeBoxes(t.samples);
    assert cubes[..1] == [WHOLE] && variances[..1] == [0.0];
    RunStart(m, t.samples);
    while i < COLORS
      invariant cubes.Length == variances.Length == COLORS && fresh(cubes) && fresh(variances)
      invariant 1 <= i <= COLORS
      invariant |run| > 0 && IsRun(m, t.samples, run) && run[|run| - 1] == Filing(cubes[..i], variances[..i])
      invariant |run| == 1 ==> i == 1
      invariant Boxes(t.samples, cubes[..i])
      invariant next < i && FirstWidest(variances[..i], next)
      invariant |run| > 1 ==> variances[next] > 0.0
      decreases COLORS - i, CountPositive(variances[..i])
    {
      ghost var f, at := Filing(cubes[..i], variances[..i]), next;
      var last := Round(m, t, cubes, variances, next, i);
      ghost var g := Filing(cubes[..last + 1], variances[..last + 1]);
      if |run| > 1 { WidestUnsettled(f, next); }
      RunNext(m, t.samples, run, next, g);
      run := run + [g];
      RunKeepsBoxes(m, t.samples, run);
      var maximum;
      next, maximum := Widest(variances, last + 1);
      if maximum <= 0.0 {
        WidestSettles(g, next);
        if KeepsSigns(m, Weigh(t.samples, WHOLE).weight) && last + 1 < COLORS { EndsUncuttable(m, t.samples, run); }
        return cubes, last + 1, run;
      }
      if last < i { CountAfterReset(f.variances, at); }
      i := last + 1;
    }
    return cubes, COLORS, run;
  }

  // ----- The starting colours -----

  /** The result of `quantize`: one mean per box, no two alike. */
  ghost predicate MeansOf(samples: seq<Sample>, cubes: seq<Cube>, means: seq<Triple>) {
    && |means| == |cubes|
    && (forall k :: 0 <= k < |cubes| ==>
          Weigh(samples, cubes[k]).weight > 0 && means[k] == Mean(Weigh(samples, cubes[k])))
  }

  lemma MeansDistinct(samples: seq<Sample>, cubes: seq<Cube>, means: seq<Triple>)
    requires Genuine(samples)
    requires Partition(cubes) && MeansOf(samples, cubes, means)
    ensures forall j, k :: 0 <= j < k < |means| ==> means[j] != means[k]
  {
    GenuineSamples(samples);
    forall j, k | 0 <= j < k < |means| ensures means[j] != means[k] {
      assert Apart(cubes[j], cubes[k]);
      MeansDiffer(samples, cubes[j], cubes[k]);
    }
  }

  /** The colours pushed for the boxes, in order; a colour already pushed is skipped. */
  method Means(t: Table, cubes: seq<Cube>) returns (means: seq<Triple>)
    requires t.Tabulated() && Boxes(t.samples, cubes)
    ensures Weigh(t.samples, WHOLE).weight > 0 ==> MeansOf(t.samples, cubes, means)
    ensures Weigh(t.samples, WHOLE).weight <= 0 ==> means == []
  {
    means := [];
    for k := 0 to |cubes|
      invariant Weigh(t.samples, WHOLE).weight > 0 ==> MeansOf(t.samples, cubes[..k], means)
      invariant Weigh(t.samples, WHOLE).weight <= 0 ==> means == []
    {
      var cell := Read(t, cubes[k]);
      TotalAtLeast(t.samples, cubes, k);
      if cell.weight > 0 {
        var mean := Mean(cell);
        NewMean(t.samples, cubes, k, means);
        if mean !in means { means := means + [mean]; }
      }
      assert cubes[..k + 1] == cubes[..k] + [cubes[k]];
    }
    assert cubes[..|cubes|] == cubes;
  }

  /** How many boxes a partition into non-empty boxes has, if there are few because none can be cut. */
  lemma BoxCount(samples: seq<Sample>, cubes: seq<Cube>)
    requires Genuine(samples)
    requires Boxes(samples, cubes) && |cubes| <= COLORS && Weigh(samples, WHOLE).weight > 0
    requires |cubes| < COLORS ==> AllUncuttable(samples, cubes)
    ensures |cubes| == Min(COLORS, |Occupied(samples)|)
  {
    GenuineSamples(samples);
    hide Weigh, Uncuttable;
    CoveredCount(samples, cubes);
    PartitionCovers(samples, cubes);
    if |cubes| < COLORS {
      forall k | 0 <= k < |cubes| ensures |Inside(samples, cubes[k])| == 1 {
        OneInside(samples, cubes[k]);
      }
    }
  }

  lemma OneInside(samples: seq<Sample>, c: Cube)
    requires Genuine(samples)
    requires c.Proper() && Weigh(samples, c).weight > 0 && Uncuttable(samples, c)
    ensures |Inside(samples, c)| == 1
  {
    var cell := SomeInside(samples, c);
    hide Uncuttable, Weigh, Inside;
    forall other | other in Inside(samples, c) ensures other == cell {
      UncuttableHoldsOne(samples, c, cell, other);
    }
    assert Inside(samples, c) == {cell};
  }

  lemma NothingOccupied(samples: seq<Sample>)
    requires Genuine(samples)
    requires Weigh(samples, WHOLE).weight <= 0
    ensures Occupied(samples) == {}
  {
    GenuineSamples(samples);
    forall cell | cell in Occupied(samples) ensures false {
      var s :| s in samples && s.value.weight > 0 && s.cell == cell;
      assert Plausible(s) && 1 <= cell.At(Red) <= 32 && 1 <= cell.At(Green) <= 32 && 1 <= cell.At(Blue) <= 32;
      OccupiedWeighs(samples, WHOLE, cell);
    }
  }

  /** What `Wu::quantize` hands on: for each box of a partition of all opaque pixels its mean. */
  ghost predicate IsPalette(samples: seq<Sample>, cubes: seq<Cube>, means: seq<Triple>) {
    && Boxes(samples, cubes) && |cubes| <= COLORS
    && (if Weigh(samples, WHOLE).weight > 0 then MeansOf(samples, cubes, means) else means == [])
  }

  /**
    `Wu::quantize` from the image's colours. With an opaque pixel, the boxes partition colour
    space and lose no pixel, and each gives one starting colour: none is empty and the
    `contains` filter never drops one. Their number is that of the occupied bins, at most 128.
   */
  method Quantize(m: Measure, pixels: seq<Pixel>)
    returns (means: seq<Triple>, ghost cubes: seq<Cube>, ghost run: seq<Filing>)
    ensures IsWholeRun(m, Samples(pixels), run) && run[|run| - 1].cubes == cubes
    ensures IsPalette(Samples(pixels), cubes, means)
    ensures KeepsSigns(m, Weigh(Samples(pixels), WHOLE).weight) ==>
              |means| == Min(COLORS, |Occupied(Samples(pixels))|)
    ensures Rounded(m) && Counts(pixels) <= MAX_PIXELS ==> |means| == Min(COLORS, |Occupied(Samples(pixels))|)
  {
    hide Boxes, IsWholeRun, AllUncuttable, KeepsSigns, Rounded, Weigh, MeansOf;
    var t := new Table(pixels);
    t.Prefix();
    var boxes, count;
    boxes, count, run := CutLoop(m, t);
    cubes := boxes[..count];
    means := Means(t, boxes[..count]);
    WeighsAtMost(pixels, WHOLE);
    if Rounded(m) && Counts(pixels) <= MAX_PIXELS { RoundedKeepsSigns(m, Weigh(t.samples, WHOLE).weight); }
    if Weigh(t.samples, WHOLE).weight > 0 {
      MeansPositive(t.samples, cubes, means);
      if KeepsSigns(m, Weigh(t.samples, WHOLE).weight) { BoxCount(t.samples, cubes); }
    } else {
      NothingOccupied(t.samples);
    }
  }

  /** A new box's mean is not among those of the boxes before it. */
  lemma NewMean(samples: seq<Sample>, cubes: seq<Cube>, k: nat, means: seq<Triple>)
    requires Genuine(samples)
    requires k < |cubes| && Partition(cubes) && MeansOf(samples, cubes[..k], means)
    requires Weigh(samples, cubes[k]).weight > 0
    ensures Mean(Weigh(samples, cubes[k])) !in means
  {
    GenuineSamples(samples);
    forall j | 0 <= j < k ensures means[j] != Mean(Weigh(samples, cubes[k])) {
      assert Apart(cubes[j], cubes[k]) && cubes[..k][j] == cubes[j];
      MeansDiffer(samples, cubes[j], cubes[k]);
    }
  }

  /** No box weighs more than all boxes together. */
  lemma {:induction false} TotalAtLeast(samples: seq<Sample>, cubes: seq<Cube>, k: nat)
    requires Genuine(samples)
    requires k < |cubes|
    ensures 0 <= Weigh(samples, cubes[k]).weight <= TotalWeight(samples, cubes)
  {
    GenuineSamples(samples);
    var last := |cubes| - 1;
    WeighBounds(samples, cubes[last]);
    if k < last { TotalAtLeast(samples, cubes[..last], k); }
    else if last > 0 { TotalAtLeast(samples, cubes[..last], 0); }
  }

  // ----- Seeding the clusters -----

  /** The draws in order, repetitions left out. */
  function Distinct(draws: seq<nat>): (r: seq<nat>)
    ensures forall j, k :: 0 <= j < k < |r| ==> r[j] != r[k]
    ensures forall d :: d in r <==> d in draws
  {
    if draws == [] then []
    else
      var last := draws[|draws| - 1];
      assert draws == draws[..|draws| - 1] + [last];
      var front := Distinct(draws[..|draws| - 1]);
      if last in front then front else front + [last]
  }

  lemma {:induction false} DistinctPrefix(draws: seq<nat>, n: nat)
    requires n <= |draws|
    ensures Distinct(draws[..n]) <= Distinct(draws)
    decreases |draws| - n
  {
    if n < |draws| {
      DistinctPrefix(draws, n + 1);
      assert draws[..n + 1][..n] == draws[..n];
    } else {
      assert draws[..n] == draws;
    }
  }

  /** The clusters still missing after the starting colours. */
  function Missing(points: nat, starts: nat): nat {
    if starts >= Min(COLORS, points) then 0 else Min(COLORS, points) - starts
  }

  /**
    `draws` are the generator's answers; only as many as needed are looked at. The points are
    the first distinct draws; there are enough of them exactly if the draws have enough values.
   */
  method Seed(points: nat, starts: seq<Triple>, draws: seq<nat>)
    returns (chosen: seq<nat>, exhausted: bool)
    requires forall k :: 0 <= k < |draws| ==> draws[k] < points
    ensures exhausted <==> |Distinct(draws)| < Missing(points, |starts|)
    ensures chosen == Distinct(draws)[..Min(|Distinct(draws)|, Missing(points, |starts|))]
    ensures forall k :: 0 <= k < |chosen| ==> chosen[k] < points
  {
    var clusters := Min(COLORS, points);
    chosen, exhausted := [], false;
    if |starts| >= clusters { return; }
    var next := 0;
    while |chosen| < clusters - |starts| && next < |draws|
      invariant next <= |draws| && |chosen| <= clusters - |starts|
      invariant chosen == Distinct(draws[..next])
    {
      assert draws[..next + 1][..next] == draws[..next];
      if draws[next] !in chosen { chosen := chosen + [draws[next]]; }
      next := next + 1;
    }
    DistinctPrefix(draws, next);
    assert draws[..|draws|] == draws;
    exhausted := |chosen| < clusters - |starts|;
    forall k | 0 <= k < |chosen| ensures chosen[k] < points {
      assert chosen[k] in draws[..next];
    }
  }

  function Min(a: int, b: int): int { if a <= b then a else b }

  lemma MeansPositive(samples: seq<Sample>, cubes: seq<Cube>, means: seq<Triple>)
    requires MeansOf(samples, cubes, means)
    ensures |means| == |cubes| && forall k :: 0 <= k < |cubes| ==> Weigh(samples, cubes[k]).weight > 0
  {}

  /** The starting colours are distinct and never outnumber the clusters, so seeding fills up exactly. */
  lemma StartsFit(pixels: seq<Pixel>, cubes: seq<Cube>, starts: seq<Triple>)
    requires IsPalette(Samples(pixels), cubes, starts)
    ensures |starts| <= Min(COLORS, |pixels|)
    ensures forall j, k :: 0 <= j < k < |starts| ==> starts[j] != starts[k]
  {
    hide Samples, Weigh, Plausible, Apart, MeansOf;
    var samples := Samples(pixels);
    if Weigh(samples, WHOLE).weight > 0 {
      SamplesPlausible(pixels);
      MeansDistinct(samples, cubes, starts);
      MeansPositive(samples, cubes, starts);
      NoMoreCubesThanSamples(samples, cubes);
    }
  }

  /**
    `wsmeans` starts with exactly one cluster per colour of the image, at most 128: the palette
    first, then the first distinct draws, unless the draws run out of values.
   */
  method Clusters(m: Measure, pixels: seq<Pixel>, draws: seq<nat>)
    returns (starts: seq<Triple>, chosen: seq<nat>, exhausted: bool, ghost cubes: seq<Cube>, ghost run: seq<Filing>)
    requires forall k :: 0 <= k < |draws| ==> draws[k] < |pixels|
    ensures IsWholeRun(m, Samples(pixels), run) && run[|run| - 1].cubes == cubes
    ensures IsPalette(Samples(pixels), cubes, starts)
    ensures KeepsSigns(m, Weigh(Samples(pixels), WHOLE).weight) ==>
              |starts| == Min(COLORS, |Occupied(Samples(pixels))|)
    ensures Rounded(m) && Counts(pixels) <= MAX_PIXELS ==> |starts| == Min(COLORS, |Occupied(Samples(pixels))|)
    ensures forall j, k :: 0 <= j < k < |starts| ==> starts[j] != starts[k]
    ensures exhausted <==> |starts| + |Distinct(draws)| < Min(COLORS, |pixels|)
    ensures chosen <= Distinct(draws) && (exhausted ==> chosen == Distinct(draws))
    ensures !exhausted ==> |starts| + |chosen| == Min(COLORS, |pixels|)
  {
    starts, cubes, run := Quantize(m, pixels);
    StartsFit(pixels, cubes, starts);
    hide IsPalette, IsWholeRun, KeepsSigns, Rounded, Samples, Occupied;
    chosen, exhausted := Seed(|pixels|, starts, draws);
  }
}
