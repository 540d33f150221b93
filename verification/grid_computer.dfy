/**
 * The regional-accessibility worker for one origin cell
 * (`com.conveyal.r5.analyst.GridComputer.run`): the bootstrap weight matrix,
 * the per-destination reachability classification and the accumulation of
 * destination densities into one sample per bootstrap replicate.
 *
 * The routing engine, the random number generator and the propagation
 * callback are replaced by their outputs, which the caller supplies.
 */
module GridComputer {
  import opened Results
  import opened JavaInt

  /** Number of bootstrap replicates; row and sample 0 hold the point estimate on top of these. */
  const BOOTSTRAP_ITERATIONS: nat := 1000

  /** Number of entries of the sample vector and rows of the weight matrix. */
  const SAMPLE_COUNT: nat := BOOTSTRAP_ITERATIONS + 1

  datatype RunError =
    | ZoomMismatch    // the request's zoom differs from the density grid's
    | DivisionByZero  // a reached stop with a walk speed below 1 mm/s

  // ---------------------------------------------------------------------
  // Access mode

  /** Modes a request may allow for the access leg. */
  datatype LegMode = Walk | Bicycle | Car | BicycleRent | CarPark

  /** Modes of the street search that finds the access stops. */
  datatype StreetMode = Walk | Bicycle | Car

  function AsLegMode(mode: StreetMode): LegMode
  {
    match mode
    case Walk => LegMode.Walk
    case Bicycle => LegMode.Bicycle
    case Car => LegMode.Car
  }

  /** Car beats bicycle beats walking. */
  function Priority(mode: StreetMode): nat
  {
    match mode
    case Walk => 0
    case Bicycle => 1
    case Car => 2
  }

  /**
   * The street mode used to reach transit: the requested street mode of
   * highest priority, walking when neither car nor bicycle is requested.
   */
  function AccessMode(accessModes: set<LegMode>): (mode: StreetMode)
    ensures mode == StreetMode.Walk || AsLegMode(mode) in accessModes
    ensures forall m: StreetMode :: AsLegMode(m) in accessModes ==> Priority(m) <= Priority(mode)
  {
    if LegMode.Car in accessModes then StreetMode.Car
    else if LegMode.Bicycle in accessModes then StreetMode.Bicycle
    else StreetMode.Walk
  }

  /**
   * Converts the street search's distances to reached stops (millimetres)
   * into travel times (seconds) with Java's truncating integer division,
   * entry by entry in the stop map's iteration order. The first division
   * by a zero speed throws.
   */
  method DistancesToSeconds(reachedStops: seq<(int, nat)>, millimetersPerSecond: int)
    returns (r: Result<seq<(int, int)>, RunError>)
    ensures r.Err? <==> millimetersPerSecond == 0 && reachedStops != []
    ensures r.Err? ==> r.error == DivisionByZero
    ensures r.Ok? ==> |r.value| == |reachedStops|
    ensures r.Ok? ==> forall k :: 0 <= k < |reachedStops| ==>
      r.value[k].0 == reachedStops[k].0 && r.value[k].1 == JavaDiv(reachedStops[k].1, millimetersPerSecond)
  {
    var stops: seq<(int, int)> := seq(|reachedStops|, k requires 0 <= k < |reachedStops| => reachedStops[k]);
    for k := 0 to |stops|
      invariant |stops| == |reachedStops|
      invariant forall j :: k <= j < |stops| ==> stops[j] == reachedStops[j]
      invariant k > 0 ==> millimetersPerSecond != 0
      invariant forall j :: 0 <= j < k ==>
        stops[j].0 == reachedStops[j].0 && stops[j].1 == JavaDiv(reachedStops[j].1, millimetersPerSecond)
    {
      if millimetersPerSecond == 0 {
        return Err(DivisionByZero);
      }
      stops := stops[k := (stops[k].0, JavaDiv(stops[k].1, millimetersPerSecond))];
    }
    return Ok(stops);
  }

  // ---------------------------------------------------------------------
  // Destination grid

  /**
   * Java `target % width` and `target / width`: the (x, y) cell of a
   * row-major target index.
   */
  function CellOf(target: nat, width: nat): (cell: (nat, nat))
    requires width > 0
    ensures cell.0 < width && cell.1 * width + cell.0 == target
  {
    (target % width, target / width)
  }

  /** A row-major index comes back to the cell it was made from. */
  lemma CellOfRowMajor(x: nat, y: nat, width: nat)
    requires x < width
    ensures CellOf(y * width + x, width) == (x, y)
  {
    var (cx, cy) := CellOf(y * width + x, width);
    if cy < y {
      MulMonotone(cy + 1, y, width);
    } else if cy > y {
      MulMonotone(y + 1, cy, width);
    }
  }

  lemma MulMonotone(a: nat, b: nat, w: nat)
    requires a <= b
    ensures a * w <= b * w
  {
    assert b * w - a * w == (b - a) * w;
  }

  /** A target inside a width × height grid has its cell inside the grid. */
  lemma CellInGrid(target: nat, width: nat, height: nat)
    requires target < width * height
    ensures width > 0 && CellOf(target, width).1 < height
  {
    var (x, y) := CellOf(target, width);
    if y >= height {
      MulMonotone(height, y, width);
    }
  }

  /** Destination densities over the Web-Mercator cells; `density[x][y]`. */
  datatype DensityGrid = DensityGrid(zoom: int, west: int, north: int, width: nat, height: nat,
                                     density: seq<seq<real>>)
  {
    ghost predicate Valid()
    {
      |density| == width && forall x :: 0 <= x < width ==> |density[x]| == height
    }

    /** The density of a target, addressed through its cell. */
    function DensityAt(target: nat): real
      requires Valid() && target < width * height
    {
      CellInGrid(target, width, height);
      var cell := CellOf(target, width);
      density[cell.0][cell.1]
    }
  }

  // ---------------------------------------------------------------------
  // Bootstrap weights

  /** How many of the draws picked iteration `i`. */
  function Occurrences(draws: seq<int>, i: int): (k: nat)
    ensures k <= |draws|
    ensures k > 0 <==> i in draws
  {
    if draws == [] then 0
    else
      var last := draws[|draws| - 1];
      assert draws == draws[..|draws| - 1] + [last];
      Occurrences(draws[..|draws| - 1], i) + (if last == i then 1 else 0)
  }

  /**
   * Row `b` of the weight matrix: all ones for the point estimate (b = 0),
   * otherwise the number of times replicate `b` resampled each iteration.
   */
  function WeightRow(nIterations: nat, draws: seq<seq<int>>, b: nat): (row: seq<int>)
    requires b <= |draws|
    ensures |row| == nIterations
    ensures forall i :: 0 <= i < nIterations ==> row[i] >= 0
  {
    if b == 0 then seq(nIterations, _ => 1)
    else seq(nIterations, i => Occurrences(draws[b - 1], i))
  }

  /** Each replicate draws `nIterations` iterations in [0, nIterations). */
  ghost predicate ValidDraws(nIterations: nat, draws: seq<seq<int>>)
  {
    |draws| == BOOTSTRAP_ITERATIONS &&
    forall b :: 0 <= b < |draws| ==>
      |draws[b]| == nIterations && forall d :: 0 <= d < nIterations ==> 0 <= draws[b][d] < nIterations
  }

  function WeightRows(nIterations: nat, draws: seq<seq<int>>): (rows: seq<seq<int>>)
    ensures |rows| == |draws| + 1
    ensures forall b :: 0 <= b < |rows| ==> rows[b] == WeightRow(nIterations, draws, b)
  {
    seq(|draws| + 1, b requires 0 <= b <= |draws| => WeightRow(nIterations, draws, b))
  }

  /** Adding one draw `v` raises the column total over [0, n) by one exactly when `v` is a column. */
  lemma {:induction false} OccurrencesSumStep(draws: seq<int>, v: int, n: nat)
    ensures Sum(seq(n, i => Occurrences(draws + [v], i)))
         == Sum(seq(n, i => Occurrences(draws, i))) + (if 0 <= v < n then 1 else 0)
  {
    var s := draws + [v];
    assert s[..|s| - 1] == draws;
    if n > 0 {
      OccurrencesSumStep(draws, v, n - 1);
      assert seq(n, i => Occurrences(s, i))[..n - 1] == seq(n - 1, i => Occurrences(s, i));
      assert seq(n, i => Occurrences(draws, i))[..n - 1] == seq(n - 1, i => Occurrences(draws, i));
    }
  }

  /** Draws in [0, n) add up, over all n columns, to the number of draws. */
  lemma {:induction false} OccurrencesSum(draws: seq<int>, n: nat)
    requires forall d :: 0 <= d < |draws| ==> 0 <= draws[d] < n
    ensures Sum(seq(n, i => Occurrences(draws, i))) == |draws|
  {
    if draws == [] {
      if n > 0 {
        assert seq(n, i => Occurrences(draws, i))[..n - 1] == seq(n - 1, i => Occurrences(draws, i));
        OccurrencesSum(draws, n - 1);
      }
    } else {
      var init := draws[..|draws| - 1];
      OccurrencesSum(init, n);
      OccurrencesSumStep(init, draws[|draws| - 1], n);
      assert init + [draws[|draws| - 1]] == draws;
    }
  }

  /**
   * Every row of the weight matrix sums to the iteration count: row 0 by
   * construction, each resampled row because it takes exactly one increment
   * per draw.
   */
  lemma RowSumIsIterationCount(nIterations: nat, draws: seq<seq<int>>, b: nat)
    requires ValidDraws(nIterations, draws) && b <= |draws|
    ensures Sum(WeightRow(nIterations, draws, b)) == nIterations
  {
    if b == 0 {
      OnesSum(nIterations);
    } else {
      OccurrencesSum(draws[b - 1], nIterations);
    }
  }

  lemma {:induction false} OnesSum(n: nat)
    ensures Sum(seq(n, _ => 1)) == n
  {
    if n > 0 {
      assert seq(n, _ => 1)[..n - 1] == seq(n - 1, _ => 1);
      OnesSum(n - 1);
    }
  }

  /**
   * Builds the `(B+1) × I` weight matrix: row 0 all ones, then for every
   * replicate `I` draws, each incrementing the drawn column.
   * `draws[b - 1]` holds the values the generator yields while row `b` is filled.
   */
  method BootstrapWeights(nIterations: nat, draws: seq<seq<int>>) returns (weights: array2<int>)
    requires ValidDraws(nIterations, draws)
    ensures fresh(weights)
    ensures weights.Length0 == SAMPLE_COUNT && weights.Length1 == nIterations
    ensures forall b, i :: 0 <= b < SAMPLE_COUNT && 0 <= i < nIterations ==>
      weights[b, i] == WeightRow(nIterations, draws, b)[i]
  {
    weights := new int[SAMPLE_COUNT, nIterations]((_, _) => 0);
    for i := 0 to nIterations
      invariant forall j :: 0 <= j < i ==> weights[0, j] == 1
      invariant forall b, j :: 0 <= b < SAMPLE_COUNT && 0 <= j < nIterations && (b > 0 || j >= i) ==>
        weights[b, j] == 0
    {
      weights[0, i] := 1;
    }
    for b := 1 to SAMPLE_COUNT
      invariant forall c, j :: 0 <= c < b && 0 <= j < nIterations ==>
        weights[c, j] == WeightRow(nIterations, draws, c)[j]
      invariant forall c, j :: b <= c < SAMPLE_COUNT && 0 <= j < nIterations ==> weights[c, j] == 0
    {
      CountDraws(weights, b, draws[b - 1]);
    }
  }

  /**
   * One bootstrap replicate: each of the `nIterations` draws adds one to the
   * weight of the iteration it picked. Starts from a zero row.
   */
  method CountDraws(weights: array2<int>, b: nat, row: seq<int>)
    requires b < weights.Length0 && |row| == weights.Length1
    requires forall d :: 0 <= d < |row| ==> 0 <= row[d] < weights.Length1
    requires forall j :: 0 <= j < weights.Length1 ==> weights[b, j] == 0
    modifies weights
    ensures forall j :: 0 <= j < weights.Length1 ==> weights[b, j] == Occurrences(row, j)
    ensures forall c, j :: 0 <= c < weights.Length0 && c != b && 0 <= j < weights.Length1 ==>
      weights[c, j] == old(weights[c, j])
  {
    for d := 0 to |row|
      invariant forall j :: 0 <= j < weights.Length1 ==> weights[b, j] == Occurrences(row[..d], j)
      invariant forall c, j :: 0 <= c < weights.Length0 && c != b && 0 <= j < weights.Length1 ==>
        weights[c, j] == old(weights[c, j])
    {
      var i := row[d];
      weights[b, i] := weights[b, i] + 1;
      assert row[..d + 1][..d] == row[..d];
    }
    assert row[..|row|] == row;
  }

  // ---------------------------------------------------------------------
  // Reachability of one destination

  /** Some iteration reaches the destination strictly before the cutoff. */
  predicate SomeBelow(times: seq<int>, cutoff: int)
  {
    exists i :: 0 <= i < |times| && times[i] < cutoff
  }

  /** Some iteration reaches the destination strictly after the cutoff. */
  predicate SomeAbove(times: seq<int>, cutoff: int)
  {
    exists i :: 0 <= i < |times| && times[i] > cutoff
  }

  /**
   * The flag-setting scan: two separate strict comparisons, so a time equal
   * to the cutoff sets neither flag.
   */
  method Classify(times: seq<int>, cutoff: int) returns (foundBelow: bool, foundAbove: bool)
    ensures foundBelow == SomeBelow(times, cutoff)
    ensures foundAbove == SomeAbove(times, cutoff)
  {
    foundAbove, foundBelow := false, false;
    for k := 0 to |times|
      invariant foundBelow == exists i :: 0 <= i < k && times[i] < cutoff
      invariant foundAbove == exists i :: 0 <= i < k && times[i] > cutoff
    {
      if times[k] > cutoff {
        foundAbove := true;
      }
      if times[k] < cutoff {
        foundBelow := true;
      }
    }
  }

  /** Removing an iteration whose time equals the cutoff changes neither flag. */
  lemma TimeAtCutoffIsNeutral(times: seq<int>, cutoff: int, k: nat)
    requires k < |times| && times[k] == cutoff
    ensures SomeBelow(times[..k] + times[k + 1..], cutoff) == SomeBelow(times, cutoff)
    ensures SomeAbove(times[..k] + times[k + 1..], cutoff) == SomeAbove(times, cutoff)
  {
    var rest := times[..k] + times[k + 1..];
    assert forall i :: 0 <= i < |rest| ==> rest[i] == times[if i < k then i else i + 1];
    if SomeBelow(times, cutoff) {
      var i :| 0 <= i < |times| && times[i] < cutoff;
      assert rest[if i < k then i else i - 1] == times[i];
    }
    if SomeAbove(times, cutoff) {
      var i :| 0 <= i < |times| && times[i] > cutoff;
      assert rest[if i < k then i else i - 1] == times[i];
    }
  }

  /**
   * Σ_i row[i] · [times[i] < cutoff]: the iterations under the cutoff, each
   * counted as many times as the weight row resamples it.
   */
  function WeightedBelow(row: seq<int>, times: seq<int>, cutoff: int): int
    requires |row| == |times|
  {
    if times == [] then 0
    else
      WeightedBelow(row[..|row| - 1], times[..|times| - 1], cutoff)
      + (if times[|times| - 1] < cutoff then row[|row| - 1] else 0)
  }

  /** Strict majority of the original iteration count (Java integer division). */
  predicate MajorityBelow(row: seq<int>, times: seq<int>, cutoff: int)
    requires |row| == |times|
  {
    WeightedBelow(row, times, cutoff) > |times| / 2
  }

  /**
   * Whether the destination's density goes into the sample of this weight
   * row: by weighted majority for a mixed destination, always for one that
   * is never above the cutoff but sometimes below it, never otherwise.
   */
  predicate Counted(row: seq<int>, times: seq<int>, cutoff: int)
    requires |row| == |times|
  {
    if SomeBelow(times, cutoff) && SomeAbove(times, cutoff) then MajorityBelow(row, times, cutoff)
    else SomeBelow(times, cutoff) && !SomeAbove(times, cutoff)
  }

  /** With non-negative weights the running count never decreases along the iterations. */
  lemma {:induction false} WeightedBelowMonotone(row: seq<int>, times: seq<int>, cutoff: int, k: nat)
    requires |row| == |times| && k <= |times|
    requires forall i :: 0 <= i < |row| ==> row[i] >= 0
    ensures WeightedBelow(row[..k], times[..k], cutoff) <= WeightedBelow(row, times, cutoff)
    decreases |times|
  {
    if k < |times| {
      var n := |times| - 1;
      assert row[..n][..k] == row[..k];
      assert times[..n][..k] == times[..k];
      WeightedBelowMonotone(row[..n], times[..n], cutoff, k);
    } else {
      assert row[..k] == row && times[..k] == times;
    }
  }

  /**
   * The labelled `continue` stops a replicate's scan at the first prefix
   * whose count beats half the iterations; with non-negative weights such a
   * prefix exists exactly when the full weighted count beats it.
   */
  lemma EarlyExitAgrees(row: seq<int>, times: seq<int>, cutoff: int)
    requires |row| == |times|
    requires forall i :: 0 <= i < |row| ==> row[i] >= 0
    ensures (exists k :: 0 < k <= |times| && WeightedBelow(row[..k], times[..k], cutoff) > |times| / 2)
        <==> MajorityBelow(row, times, cutoff)
  {
    if MajorityBelow(row, times, cutoff) {
      assert row[..|times|] == row && times[..|times|] == times;
      assert WeightedBelow(row[..|times|], times[..|times|], cutoff) > |times| / 2;
    }
    forall k | 0 < k <= |times| && WeightedBelow(row[..k], times[..k], cutoff) > |times| / 2
      ensures MajorityBelow(row, times, cutoff)
    {
      WeightedBelowMonotone(row, times, cutoff, k);
    }
  }

  /** Number of iterations under the cutoff, unweighted. */
  function NumBelow(times: seq<int>, cutoff: int): nat
  {
    if times == [] then 0
    else NumBelow(times[..|times| - 1], cutoff) + (if times[|times| - 1] < cutoff then 1 else 0)
  }

  lemma {:induction false} UnitWeightsCountIterations(times: seq<int>, cutoff: int)
    ensures WeightedBelow(seq(|times|, _ => 1), times, cutoff) == NumBelow(times, cutoff)
  {
    if times != [] {
      var n := |times| - 1;
      assert seq(|times|, _ => 1)[..n] == seq(n, _ => 1);
      UnitWeightsCountIterations(times[..n], cutoff);
    }
  }

  /**
   * The point estimate (row 0, all ones) counts a mixed destination exactly
   * when strictly more than half of the original iterations are under the cutoff.
   */
  lemma PointEstimateIsUnweightedMajority(nIterations: nat, draws: seq<seq<int>>, times: seq<int>, cutoff: int)
    requires |times| == nIterations
    requires SomeBelow(times, cutoff) && SomeAbove(times, cutoff)
    ensures Counted(WeightRow(nIterations, draws, 0), times, cutoff) <==> NumBelow(times, cutoff) > nIterations / 2
  {
    UnitWeightsCountIterations(times, cutoff);
  }

  /** Two of four iterations under the cutoff is not a strict majority: the point estimate skips it. */
  lemma HalfBelowIsNotAMajority(draws: seq<seq<int>>)
    ensures !Counted(WeightRow(4, draws, 0), [500, 700, 500, 700], 600)
  {
    var times := [500, 700, 500, 700];
    assert times[0] < 600 && times[1] > 600;
    PointEstimateIsUnweightedMajority(4, draws, times, 600);
    assert times[..3][..2][..1][..0] == [];
    assert NumBelow(times[..3][..2][..1], 600) == 1;
    assert NumBelow(times[..3][..2], 600) == 1;
    assert NumBelow(times[..3], 600) == 2;
  }

  /**
   * Times at the cutoff set no flag, so a destination whose other times are
   * all under the cutoff counts as always reachable, in every replicate.
   */
  lemma TiesCountAsAlwaysReachable(row: seq<int>, times: seq<int>, cutoff: int)
    requires |row| == |times| && SomeBelow(times, cutoff)
    requires forall i :: 0 <= i < |times| ==> times[i] <= cutoff
    ensures Counted(row, times, cutoff)
  {
  }

  /**
   * One iteration under and two at the cutoff: a minority, yet the point
   * estimate counts the destination.
   */
  lemma MinorityWithTiesIsCounted(draws: seq<seq<int>>)
    ensures NumBelow([500, 600, 600], 600) <= 3 / 2
    ensures Counted(WeightRow(3, draws, 0), [500, 600, 600], 600)
  {
    var times := [500, 600, 600];
    assert times[..2][..1][..0] == [];
    assert NumBelow(times[..2][..1], 600) == 1;
    assert NumBelow(times[..2], 600) == 1;
    assert times[0] < 600;
    TiesCountAsAlwaysReachable(WeightRow(3, draws, 0), times, 600);
  }

  // ---------------------------------------------------------------------
  // Accumulation of samples

  /** What one destination adds to the sample of one weight row. */
  function Gain(row: seq<int>, times: seq<int>, cutoff: int, density: real): real
    requires |row| == |times|
  {
    if Counted(row, times, cutoff) then density else 0.0
  }

  /** The samples after one destination of density `density` has been processed. */
  function AddTarget(samples: seq<real>, rows: seq<seq<int>>, times: seq<int>, cutoff: int, density: real)
    : (next: seq<real>)
    requires |rows| == |samples|
    requires forall b :: 0 <= b < |rows| ==> |rows[b]| == |times|
    ensures |next| == |samples|
    ensures forall b :: 0 <= b < |samples| ==>
      next[b] == samples[b] || (next[b] == samples[b] + density && Counted(rows[b], times, cutoff))
  {
    seq(|samples|, b requires 0 <= b < |samples| => samples[b] + Gain(rows[b], times, cutoff, density))
  }

  /** A destination never under the cutoff (all times at or above it) changes no sample. */
  lemma UnreachableTargetAddsNothing(samples: seq<real>, rows: seq<seq<int>>, times: seq<int>, cutoff: int,
                                     density: real)
    requires |rows| == |samples| && forall b :: 0 <= b < |rows| ==> |rows[b]| == |times|
    requires forall i :: 0 <= i < |times| ==> times[i] >= cutoff
    ensures AddTarget(samples, rows, times, cutoff, density) == samples
  {
  }

  /**
   * A destination sometimes under and never over the cutoff adds its density
   * to every sample, whatever the weights.
   */
  lemma AlwaysReachableTargetAddsEverywhere(samples: seq<real>, rows: seq<seq<int>>, times: seq<int>,
                                            cutoff: int, density: real)
    requires |rows| == |samples| && forall b :: 0 <= b < |rows| ==> |rows[b]| == |times|
    requires SomeBelow(times, cutoff) && !SomeAbove(times, cutoff)
    ensures forall b :: 0 <= b < |samples| ==> AddTarget(samples, rows, times, cutoff, density)[b] == samples[b] + density
  {
  }

  /** A mixed destination adds its density to sample `b` exactly when row `b`'s weighted count is a majority. */
  lemma MixedTargetFollowsMajority(samples: seq<real>, rows: seq<seq<int>>, times: seq<int>, cutoff: int,
                                   density: real, b: nat)
    requires |rows| == |samples| && forall c :: 0 <= c < |rows| ==> |rows[c]| == |times|
    requires SomeBelow(times, cutoff) && SomeAbove(times, cutoff) && b < |samples|
    ensures AddTarget(samples, rows, times, cutoff, density)[b]
         == samples[b] + (if WeightedBelow(rows[b], times, cutoff) > |times| / 2 then density else 0.0)
  {
  }

  /** The samples after all the given destinations, in propagation order, starting from zeros. */
  function Accumulate(rows: seq<seq<int>>, grid: DensityGrid, targets: seq<Target>, cutoff: int)
    : (samples: seq<real>)
    requires |rows| == SAMPLE_COUNT && grid.Valid()
    requires forall t :: 0 <= t < |targets| ==> ValidTarget(targets[t], rows, grid)
    ensures |samples| == SAMPLE_COUNT
  {
    if targets == [] then seq(SAMPLE_COUNT, _ => 0.0)
    else
      var last := targets[|targets| - 1];
      assert ValidTarget(last, rows, grid);
      AddTarget(Accumulate(rows, grid, targets[..|targets| - 1], cutoff), rows, last.times, cutoff,
                grid.DensityAt(last.index))
  }

  /** One destination handed over by the propagator: its index in the grid and its time in each iteration. */
  datatype Target = Target(index: nat, times: seq<int>)

  ghost predicate ValidTarget(target: Target, rows: seq<seq<int>>, grid: DensityGrid)
  {
    target.index < grid.width * grid.height &&
    forall b :: 0 <= b < |rows| ==> |rows[b]| == |target.times|
  }

  /**
   * The end-to-end case of a 2 × 1 grid with densities 10 and 20, four
   * iterations and a 600 s cutoff: cell 0 is always reachable and cell 1 is
   * under the cutoff in two of four iterations, so the point estimate is 10.
   */
  lemma TwoCellPointEstimate(rows: seq<seq<int>>)
    requires |rows| == SAMPLE_COUNT && rows[0] == seq(4, _ => 1)
    requires forall b :: 0 <= b < |rows| ==> |rows[b]| == 4
    ensures Accumulate(rows, DensityGrid(0, 0, 0, 2, 1, [[10.0], [20.0]]),
                       [Target(0, [100, 100, 100, 100]), Target(1, [500, 700, 500, 700])], 600)[0] == 10.0
  {
    var grid := DensityGrid(0, 0, 0, 2, 1, [[10.0], [20.0]]);
    var t0 := Target(0, [100, 100, 100, 100]);
    var t1 := Target(1, [500, 700, 500, 700]);
    var targets := [t0, t1];
    assert targets[..1] == [t0] && [t0][..0] == [];
    assert t0.times[0] < 600;
    assert !SomeAbove(t0.times, 600);
    assert grid.DensityAt(0) == 10.0;
    var s0 := Accumulate(rows, grid, [], 600);
    assert s0[0] == 0.0;
    assert Counted(rows[0], t0.times, 600);
    var s1 := Accumulate(rows, grid, [t0], 600);
    assert s1 == AddTarget(s0, rows, t0.times, 600, 10.0);
    assert s1[0] == 10.0;
    HalfBelowIsNotAMajority([]);
    assert WeightRow(4, [], 0) == rows[0];
    assert !Counted(rows[0], t1.times, 600);
  }

  // ---------------------------------------------------------------------
  // The imperative worker

  ghost function RowOf(weights: array2<int>, b: nat): (row: seq<int>)
    reads weights
    requires b < weights.Length0
    ensures |row| == weights.Length1
  {
    seq(weights.Length1, i requires 0 <= i < weights.Length1 reads weights => weights[b, i])
  }

  ghost function Rows(weights: array2<int>): (rows: seq<seq<int>>)
    reads weights
    ensures |rows| == weights.Length0
  {
    seq(weights.Length0, b requires 0 <= b < weights.Length0 reads weights => RowOf(weights, b))
  }

  /**
   * The propagation callback for one destination: classify its times, then
   * add its density to the samples by majority vote per replicate (stopping
   * each replicate's scan as soon as the count beats half the iterations),
   * to all samples, or to none.
   */
  method PropagateTarget(samples: array<real>, weights: array2<int>, grid: DensityGrid, target: nat,
                         times: seq<int>, cutoff: int)
    requires samples.Length == weights.Length0 == SAMPLE_COUNT && weights.Length1 == |times|
    requires forall b, i :: 0 <= b < weights.Length0 && 0 <= i < weights.Length1 ==> weights[b, i] >= 0
    requires grid.Valid() && target < grid.width * grid.height
    modifies samples
    ensures samples[..] == AddTarget(old(samples[..]), Rows(weights), times, cutoff, grid.DensityAt(target))
  {
    var foundBelow, foundAbove := Classify(times, cutoff);
    CellInGrid(target, grid.width, grid.height);
    var (gridx, gridy) := CellOf(target, grid.width);
    var density := grid.density[gridx][gridy];
    ghost var rows := Rows(weights);

    if foundAbove && foundBelow {
      AddByMajority(samples, weights, times, cutoff, density);
    } else if foundBelow && !foundAbove {
      AddToAll(samples, density);
    }
    assert forall j :: 0 <= j < SAMPLE_COUNT ==>
      samples[j] == old(samples[j]) + Gain(rows[j], times, cutoff, density);
  }

  /**
   * The bootstrap loop for a destination with times on both sides of the
   * cutoff: for each replicate, the weighted count of iterations under the
   * cutoff is accumulated, and the replicate receives the density as soon
   * as the count exceeds half the iterations.
   */
  method AddByMajority(samples: array<real>, weights: array2<int>, times: seq<int>, cutoff: int, density: real)
    requires samples.Length == weights.Length0 == SAMPLE_COUNT && weights.Length1 == |times|
    requires forall b, i :: 0 <= b < weights.Length0 && 0 <= i < weights.Length1 ==> weights[b, i] >= 0
    requires SomeBelow(times, cutoff) && SomeAbove(times, cutoff)
    modifies samples
    ensures forall j :: 0 <= j < SAMPLE_COUNT ==>
      samples[j] == old(samples[j]) + Gain(RowOf(weights, j), times, cutoff, density)
  {
    label Bootstrap:
    for b := 0 to SAMPLE_COUNT
      invariant forall j :: 0 <= j < b ==> samples[j] == old(samples[j]) + Gain(RowOf(weights, j), times, cutoff, density)
      invariant forall j :: b <= j < SAMPLE_COUNT ==> samples[j] == old(samples[j])
    {
      ghost var row := RowOf(weights, b);
      var count := 0;
      for i := 0 to |times|
        invariant count == WeightedBelow(row[..i], times[..i], cutoff)
        invariant count <= |times| / 2
      {
        if times[i] < cutoff {
          count := count + weights[b, i];
        }
        assert row[..i + 1][..i] == row[..i] && times[..i + 1][..i] == times[..i];
        if count > |times| / 2 {
          WeightedBelowMonotone(row, times, cutoff, i + 1);
          samples[b] := samples[b] + density;
          continue Bootstrap;
        }
      }
      assert row[..|times|] == row && times[..|times|] == times;
    }
  }

  /** The loop for a destination always reached within the cutoff: every replicate receives the density. */
  method AddToAll(samples: array<real>, density: real)
    modifies samples
    ensures forall j :: 0 <= j < samples.Length ==> samples[j] == old(samples[j]) + density
  {
    for i := 0 to samples.Length
      invariant forall j :: 0 <= j < i ==> samples[j] == old(samples[j]) + density
      invariant forall j :: i <= j < samples.Length ==> samples[j] == old(samples[j])
    {
      samples[i] := samples[i] + density;
    }
  }

  /** Java `Math.round`: the nearest integer, halves rounded up. */
  function RoundHalfUp(d: real): (r: int)
    ensures r as real - 0.5 <= d < r as real + 0.5
  {
    (d + 0.5).Floor
  }

  /** `(int) Math.round(d)` for each accumulated sample. */
  function Rounded(samples: seq<real>): (r: seq<Int32>)
    ensures |r| == |samples|
    ensures forall b :: 0 <= b < |samples| && INT_MIN <= RoundHalfUp(samples[b]) <= INT_MAX ==>
      r[b] == RoundHalfUp(samples[b])
  {
    seq(|samples|, b requires 0 <= b < |samples| => Wrap(RoundHalfUp(samples[b])))
  }

  /** A rounded sample outside the `int` range wraps around: it differs from the rounded value by a multiple of 2^32. */
  lemma RoundedWraps(samples: seq<real>, b: nat)
    requires b < |samples|
    ensures (RoundHalfUp(samples[b]) - Rounded(samples)[b]) % TWO32 == 0
  {
    WrapCongruent(RoundHalfUp(samples[b]));
  }

  /** The weights array built by the bootstrap holds the weight rows, all non-negative. */
  lemma WeightsHoldRows(weights: array2<int>, nIterations: nat, draws: seq<seq<int>>)
    requires ValidDraws(nIterations, draws)
    requires weights.Length0 == SAMPLE_COUNT && weights.Length1 == nIterations
    requires forall b, i :: 0 <= b < SAMPLE_COUNT && 0 <= i < nIterations ==>
      weights[b, i] == WeightRow(nIterations, draws, b)[i]
    ensures forall b, i :: 0 <= b < SAMPLE_COUNT && 0 <= i < nIterations ==> weights[b, i] >= 0
    ensures Rows(weights) == WeightRows(nIterations, draws)
  {
    var rows := WeightRows(nIterations, draws);
    forall b | 0 <= b < SAMPLE_COUNT
      ensures RowOf(weights, b) == rows[b]
    {
    }
  }

  /**
   * `GridComputer.run` from the zoom check to the rounded sample vector:
   * a zoom mismatch fails before anything is computed, a zero walking speed
   * fails when the first reached stop is converted; otherwise the
   * weights are built, every destination the propagator yields is folded
   * into the samples, and each sample is rounded once at the end.
   */
  method Run(requestZoom: int, grid: DensityGrid, reachedStops: seq<(int, nat)>, millimetersPerSecond: int,
             nIterations: nat, draws: seq<seq<int>>, targets: seq<Target>, cutoffMinutes: Int32)
    returns (r: Result<seq<Int32>, RunError>)
    requires grid.Valid() && ValidDraws(nIterations, draws)
    requires forall t :: 0 <= t < |targets| ==>
      targets[t].index < grid.width * grid.height && |targets[t].times| == nIterations
    ensures requestZoom != grid.zoom ==> r == Err(ZoomMismatch)
    ensures requestZoom == grid.zoom && millimetersPerSecond == 0 && reachedStops != [] ==> r == Err(DivisionByZero)
    ensures requestZoom == grid.zoom && (millimetersPerSecond != 0 || reachedStops == []) ==>
      r == Ok(Rounded(Accumulate(WeightRows(nIterations, draws), grid, targets, Wrap(cutoffMinutes * 60))))
  {
    if requestZoom != grid.zoom {
      return Err(ZoomMismatch);
    }
    // The converted times feed the routing engine, whose output `targets` stands for.
    var stopTimes :- DistancesToSeconds(reachedStops, millimetersPerSecond);
    var weights := BootstrapWeights(nIterations, draws);
    ghost var rows := WeightRows(nIterations, draws);
    WeightsHoldRows(weights, nIterations, draws);
    var cutoff := Wrap(cutoffMinutes * 60);
    var samples := new real[SAMPLE_COUNT](_ => 0.0);
    for t := 0 to |targets|
      modifies samples
      invariant samples[..] == Accumulate(rows, grid, targets[..t], cutoff)
    {
      PropagateTarget(samples, weights, grid, targets[t].index, targets[t].times, cutoff);
      assert targets[..t + 1][..t] == targets[..t];
    }
    assert targets[..|targets|] == targets;
    return Ok(Rounded(samples[..]));
  }
}
