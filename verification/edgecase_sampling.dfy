/**
 * Greedy edge-case sampling over a point cloud (src/edgecase_sampling.py, `edgecase_sampling`).
 *
 * The points are rows of real numbers. They are centred once on the mean of the original data;
 * then, n times, the row farthest from the centre is picked (first one on ties), every row is
 * rescaled onto the sphere through the picked row, and every row whose rescaled copy lies closer
 * to the picked row than `magnitude_max * neighborhood` is erased (set to the zero vector) in the
 * working buffer. The picked indices form the sample.
 *
 * Floating point is replaced by exact `real` arithmetic. The Euclidean norm needs a square root,
 * which Dafny's reals do not provide: it is a parameter `sqrt` of which `IsSqrt` demands exactly
 * the defining property of the non-negative square root.
 */
module Edgecases {

  import opened Common

  type Row = seq<real>

  /** `sqrt` is the non-negative square root on the non-negative reals. */
  ghost predicate IsSqrt(sqrt: real -> real) {
    forall x :: 0.0 <= x ==> 0.0 <= sqrt(x) && sqrt(x) * sqrt(x) == x
  }

  lemma SqrtOfZero(sqrt: real -> real)
    requires IsSqrt(sqrt)
    ensures sqrt(0.0) == 0.0
  {
    ZeroProduct(sqrt(0.0), sqrt(0.0));
  }

  lemma ZeroProduct(a: real, b: real)
    requires 0.0 <= a && 0.0 <= b && a * b == 0.0
    ensures a == 0.0 || b == 0.0
  {
  }

  lemma SquareZero(a: real)
    requires a * a == 0.0
    ensures a == 0.0
  {
    if a < 0.0 {
      ZeroProduct(-a, -a);
    } else {
      ZeroProduct(a, a);
    }
  }

  lemma SqrtOfPositive(sqrt: real -> real, x: real)
    requires IsSqrt(sqrt) && 0.0 < x
    ensures 0.0 < sqrt(x)
  {
    var s := sqrt(x);
    assert 0.0 <= s && s * s == x;
  }

  // ---------------------------------------------------------------------------------------------
  // Rows and the operations torch applies to them

  predicate IsZero(v: Row) {
    forall j :: 0 <= j < |v| ==> v[j] == 0.0
  }

  function Zero(d: nat): (z: Row)
    ensures |z| == d && IsZero(z)
  {
    seq(d, _ => 0.0)
  }

  /** Elementwise product with a scalar. */
  function Scale(v: Row, c: real): (r: Row)
    ensures |r| == |v|
  {
    seq(|v|, j requires 0 <= j < |v| => v[j] * c)
  }

  /**
   * Elementwise difference. The rows of a tensor all have the same length; a component that `w`
   * lacks counts as zero, so that the operations on the working buffer need no precondition.
   */
  function Sub(u: Row, w: Row): (r: Row)
    ensures |r| == |u|
  {
    seq(|u|, j requires 0 <= j < |u| => u[j] - if j < |w| then w[j] else 0.0)
  }

  /** Sum of squares of the components. */
  function SqNorm(v: Row): real
  {
    if |v| == 0 then 0.0 else v[0] * v[0] + SqNorm(v[1..])
  }

  /** `torch.norm` of one row: the Euclidean norm. */
  function Norm(v: Row, sqrt: real -> real): real
  {
    sqrt(SqNorm(v))
  }

  lemma {:induction false} SqNormZero(v: Row)
    ensures 0.0 <= SqNorm(v)
    ensures SqNorm(v) == 0.0 <==> IsZero(v)
    decreases |v|
  {
    if |v| > 0 {
      SqNormZero(v[1..]);
      var x := v[0];
      assert 0.0 <= x * x && (x != 0.0 ==> 0.0 < x * x);
      if SqNorm(v) == 0.0 {
        SquareZero(x);
      }
      assert IsZero(v) <==> x == 0.0 && IsZero(v[1..]) by {
        if IsZero(v) {
          forall j | 0 <= j < |v[1..]| ensures v[1..][j] == 0.0 {
            assert v[1..][j] == v[j + 1];
          }
        }
        if x == 0.0 && IsZero(v[1..]) {
          forall j | 0 <= j < |v| ensures v[j] == 0.0 {
            if j > 0 { assert v[j] == v[1..][j - 1]; }
          }
        }
      }
    }
  }

  /** The norm is non-negative and vanishes exactly on the zero vector. */
  lemma NormZero(v: Row, sqrt: real -> real)
    requires IsSqrt(sqrt)
    ensures 0.0 <= Norm(v, sqrt)
    ensures Norm(v, sqrt) == 0.0 <==> IsZero(v)
  {
    SqNormZero(v);
    SqrtOfZero(sqrt);
    if !IsZero(v) {
      SqrtOfPositive(sqrt, SqNorm(v));
    }
  }

  // ---------------------------------------------------------------------------------------------
  // Point sets and centring (line 13)

  /** All rows have the same dimension, as in an (N, D) tensor. */
  predicate Rectangular(rows: seq<Row>) {
    forall i :: 0 <= i < |rows| ==> |rows[i]| == |rows[0]|
  }

  /** Sum of column `j` over all rows. */
  function ColumnSum(rows: seq<Row>, j: nat): real
    requires forall i :: 0 <= i < |rows| ==> j < |rows[i]|
  {
    if |rows| == 0 then 0.0 else rows[0][j] + ColumnSum(rows[1..], j)
  }

  /** `torch.mean(vectors, dim=0)`: the centroid of the original rows. */
  function Mean(vectors: seq<Row>): (m: Row)
    requires |vectors| > 0 && Rectangular(vectors)
    ensures |m| == |vectors[0]|
  {
    seq(|vectors[0]|, j requires 0 <= j < |vectors[0]| => ColumnSum(vectors, j) / (|vectors| as real))
  }

  /** Every row minus the same vector `m`. */
  function SubAll(rows: seq<Row>, m: Row): (r: seq<Row>)
    requires forall i :: 0 <= i < |rows| ==> |rows[i]| == |m|
    ensures |r| == |rows|
    ensures forall i :: 0 <= i < |r| ==> |r[i]| == |m|
  {
    seq(|rows|, i requires 0 <= i < |rows| => Sub(rows[i], m))
  }

  /** `vectors - torch.mean(vectors, dim=0)`: the working copy, centred once on the original mean. */
  function Centre(vectors: seq<Row>): (c: seq<Row>)
    requires |vectors| > 0 && Rectangular(vectors)
    ensures |c| == |vectors| && Rectangular(c)
    ensures forall i :: 0 <= i < |c| ==> |c[i]| == |vectors[0]|
  {
    SubAll(vectors, Mean(vectors))
  }

  lemma {:induction false} ColumnSumSubAll(rows: seq<Row>, m: Row, j: nat)
    requires forall i :: 0 <= i < |rows| ==> |rows[i]| == |m|
    requires j < |m|
    ensures ColumnSum(SubAll(rows, m), j) == ColumnSum(rows, j) - (|rows| as real) * m[j]
    decreases |rows|
  {
    if |rows| > 0 {
      assert SubAll(rows, m)[1..] == SubAll(rows[1..], m);
      ColumnSumSubAll(rows[1..], m, j);
    }
  }

  /** Centring is what it says: every column of the working copy sums to zero. */
  lemma CentredColumnsSumToZero(vectors: seq<Row>, j: nat)
    requires |vectors| > 0 && Rectangular(vectors)
    requires j < |vectors[0]|
    ensures ColumnSum(Centre(vectors), j) == 0.0
  {
    var m := Mean(vectors);
    ColumnSumSubAll(vectors, m, j);
    var n := |vectors| as real;
    assert n * (ColumnSum(vectors, j) / n) == ColumnSum(vectors, j);
  }

  // ---------------------------------------------------------------------------------------------
  // One iteration of the loop (lines 17-26)

  /** `torch.norm(vectors_centered, dim=1)`: the magnitude of every row. */
  function Magnitudes(rows: seq<Row>, sqrt: real -> real): (mags: seq<real>)
    ensures |mags| == |rows|
  {
    seq(|rows|, i requires 0 <= i < |rows| => Norm(rows[i], sqrt))
  }

  /** `torch.argmax`: an index of a largest element, the first one when several are largest. */
  function ArgMax(xs: seq<real>): (k: nat)
    requires |xs| > 0
    ensures k < |xs|
  {
    if |xs| == 1 then 0
    else
      var k' := ArgMax(xs[..|xs| - 1]);
      if xs[k'] < xs[|xs| - 1] then |xs| - 1 else k'
  }

  /** `ArgMax` holds a largest element, and every element before it is strictly smaller. */
  lemma {:induction false} ArgMaxIsFirstLargest(xs: seq<real>)
    requires |xs| > 0
    ensures forall j :: 0 <= j < |xs| ==> xs[j] <= xs[ArgMax(xs)]
    ensures forall j :: 0 <= j < ArgMax(xs) ==> xs[j] < xs[ArgMax(xs)]
  {
    if |xs| > 1 {
      ArgMaxIsFirstLargest(xs[..|xs| - 1]);
    }
  }

  /** Line 21 for one row: `v`, of magnitude `m`, rescaled to magnitude `radius`. */
  function Project(v: Row, m: real, radius: real): (r: Row)
    requires m != 0.0
    ensures |r| == |v|
  {
    seq(|v|, j requires 0 <= j < |v| => v[j] / m * radius)
  }

  /**
   * Lines 21-25 for one row: is `v`, projected onto the sphere of radius `radius`, closer to
   * `picked` than `radius * neighborhood`? A row of magnitude zero is divided by zero in the
   * source; the resulting NaN distance fails the comparison, so such a row is never in the mask.
   */
  predicate InNeighborhood(v: Row, picked: Row, radius: real, neighborhood: real, sqrt: real -> real)
  {
    var m := Norm(v, sqrt);
    m != 0.0 && Norm(Sub(Project(v, m, radius), picked), sqrt) < radius * neighborhood
  }

  /** `delete_mask` (lines 21-25) when row `p` was picked. */
  function DeleteMask(rows: seq<Row>, p: nat, neighborhood: real, sqrt: real -> real): (mask: seq<bool>)
    requires p < |rows|
    ensures |mask| == |rows|
  {
    seq(|rows|, i requires 0 <= i < |rows| =>
      InNeighborhood(rows[i], rows[p], Norm(rows[p], sqrt), neighborhood, sqrt))
  }

  /**
   * `vectors_centered[delete_mask] = vectors_centered[delete_mask] * 0` (line 26):
   * the masked rows become the zero vector, every other row keeps its value exactly.
   */
  function Erase(rows: seq<Row>, mask: seq<bool>): (r: seq<Row>)
    requires |mask| == |rows|
    ensures |r| == |rows|
    ensures forall i :: 0 <= i < |r| && mask[i] ==> r[i] == Zero(|rows[i]|)
    ensures forall i :: 0 <= i < |r| && !mask[i] ==> r[i] == rows[i]
  {
    seq(|rows|, i requires 0 <= i < |rows| => if mask[i] then Scale(rows[i], 0.0) else rows[i])
  }

  /** The working buffer after row `p` was picked: lines 21-26. */
  function Step(rows: seq<Row>, p: nat, neighborhood: real, sqrt: real -> real): (r: seq<Row>)
    requires p < |rows|
    ensures |r| == |rows|
  {
    Erase(rows, DeleteMask(rows, p, neighborhood, sqrt))
  }

  /** Indices of the rows that are not the zero vector: the points still in play. */
  function Live(rows: seq<Row>): set<nat>
  {
    set i: nat | i < |rows| && !IsZero(rows[i])
  }

  predicate Exhausted(rows: seq<Row>) {
    forall i :: 0 <= i < |rows| ==> IsZero(rows[i])
  }

  /** The largest magnitude is zero exactly when every row has been erased. */
  lemma MaxMagnitudeZeroIffExhausted(rows: seq<Row>, sqrt: real -> real)
    requires IsSqrt(sqrt) && |rows| > 0
    ensures var mags := Magnitudes(rows, sqrt);
      mags[ArgMax(mags)] == 0.0 <==> Exhausted(rows)
  {
    var mags := Magnitudes(rows, sqrt);
    var p := ArgMax(mags);
    ArgMaxIsFirstLargest(mags);
    forall i | 0 <= i < |rows| ensures 0.0 <= mags[i] && (mags[i] == 0.0 <==> IsZero(rows[i])) {
      NormZero(rows[i], sqrt);
    }
  }

  /** The picked row is in its own neighbourhood: its projection is itself, at distance 0. */
  lemma PickedRowErased(rows: seq<Row>, p: nat, neighborhood: real, sqrt: real -> real)
    requires IsSqrt(sqrt) && p < |rows|
    requires 0.0 < neighborhood && Norm(rows[p], sqrt) != 0.0
    ensures DeleteMask(rows, p, neighborhood, sqrt)[p]
    ensures IsZero(Step(rows, p, neighborhood, sqrt)[p])
  {
    var v := rows[p];
    var m := Norm(v, sqrt);
    NormZero(v, sqrt);
    assert Project(v, m, m) == v by {
      forall j | 0 <= j < |v| ensures Project(v, m, m)[j] == v[j] {
        assert v[j] / m * m == v[j];
      }
    }
    assert IsZero(Sub(v, v));
    NormZero(Sub(v, v), sqrt);
    assert 0.0 < m * neighborhood;
  }

  /** With a non-positive neighbourhood no distance is below the threshold: nothing is erased. */
  lemma NoNeighborhoodErasesNothing(rows: seq<Row>, p: nat, neighborhood: real, sqrt: real -> real)
    requires IsSqrt(sqrt) && p < |rows|
    requires neighborhood <= 0.0
    ensures forall i :: 0 <= i < |rows| ==> !DeleteMask(rows, p, neighborhood, sqrt)[i]
    ensures Step(rows, p, neighborhood, sqrt) == rows
  {
    var radius := Norm(rows[p], sqrt);
    NormZero(rows[p], sqrt);
    assert radius * neighborhood <= 0.0;
    forall i | 0 <= i < |rows| ensures !DeleteMask(rows, p, neighborhood, sqrt)[i] {
      var m := Norm(rows[i], sqrt);
      if m != 0.0 {
        NormZero(Sub(Project(rows[i], m, radius), rows[p]), sqrt);
      }
    }
  }

  /**
   * Erasing only ever removes points: a zero row stays zero, and when the picked row has a
   * positive magnitude and the neighbourhood is positive, the picked row leaves the live set.
   */
  lemma StepShrinksLive(rows: seq<Row>, p: nat, neighborhood: real, sqrt: real -> real)
    requires IsSqrt(sqrt) && p < |rows|
    ensures Live(Step(rows, p, neighborhood, sqrt)) <= Live(rows)
    ensures 0.0 < neighborhood && Norm(rows[p], sqrt) != 0.0 ==>
      p in Live(rows) && p !in Live(Step(rows, p, neighborhood, sqrt))
  {
    if 0.0 < neighborhood && Norm(rows[p], sqrt) != 0.0 {
      PickedRowErased(rows, p, neighborhood, sqrt);
      NormZero(rows[p], sqrt);
    }
  }

  // ---------------------------------------------------------------------------------------------
  // The whole loop (lines 15-27) as a reference definition

  /**
   * The sample that `k` more iterations add, starting from the working buffer `rows`.
   * The loop stops early when the largest magnitude is zero: every row has been erased.
   */
  function Run(rows: seq<Row>, k: int, neighborhood: real, sqrt: real -> real): (sample: seq<nat>)
    requires |rows| > 0
    ensures |sample| <= if k <= 0 then 0 else k
    ensures forall t :: 0 <= t < |sample| ==> sample[t] < |rows|
    decreases k
  {
    if k <= 0 then []
    else
      var mags := Magnitudes(rows, sqrt);
      var p := ArgMax(mags);
      if mags[p] == 0.0 then []
      else [p] + Run(Step(rows, p, neighborhood, sqrt), k - 1, neighborhood, sqrt)
  }

  /** One iteration: the pick, then the run from the erased buffer. */
  lemma RunUnfolds(rows: seq<Row>, k: int, neighborhood: real, sqrt: real -> real)
    requires |rows| > 0 && 0 < k
    requires var mags := Magnitudes(rows, sqrt); mags[ArgMax(mags)] != 0.0
    ensures var p := ArgMax(Magnitudes(rows, sqrt));
      Run(rows, k, neighborhood, sqrt) == [p] + Run(Step(rows, p, neighborhood, sqrt), k - 1, neighborhood, sqrt)
  {
  }

  /** A largest magnitude of zero ends the run. */
  lemma RunStops(rows: seq<Row>, k: int, neighborhood: real, sqrt: real -> real)
    requires |rows| > 0
    requires var mags := Magnitudes(rows, sqrt); mags[ArgMax(mags)] == 0.0
    ensures Run(rows, k, neighborhood, sqrt) == []
  {
  }

  /** The working buffer once the run is over: the same recursion as `Run`, keeping the rows. */
  function Final(rows: seq<Row>, k: int, neighborhood: real, sqrt: real -> real): (last: seq<Row>)
    requires |rows| > 0
    ensures |last| == |rows|
    decreases k
  {
    if k <= 0 then rows
    else
      var mags := Magnitudes(rows, sqrt);
      var p := ArgMax(mags);
      if mags[p] == 0.0 then rows
      else Final(Step(rows, p, neighborhood, sqrt), k - 1, neighborhood, sqrt)
  }

  /** The run makes all `k` picks unless it ends on a buffer in which every row is zero. */
  lemma {:induction false} RunShortOnlyWhenExhausted(rows: seq<Row>, k: int, neighborhood: real, sqrt: real -> real)
    requires IsSqrt(sqrt) && |rows| > 0
    ensures k <= 0 || |Run(rows, k, neighborhood, sqrt)| == k || Exhausted(Final(rows, k, neighborhood, sqrt))
    decreases k
  {
    if k > 0 {
      var mags := Magnitudes(rows, sqrt);
      var p := ArgMax(mags);
      if mags[p] != 0.0 {
        RunUnfolds(rows, k, neighborhood, sqrt);
        RunShortOnlyWhenExhausted(Step(rows, p, neighborhood, sqrt), k - 1, neighborhood, sqrt);
      } else {
        MaxMagnitudeZeroIffExhausted(rows, sqrt);
      }
    }
  }

  /** Every pick is a row that is still live when the run starts. */
  lemma {:induction false} RunPicksLiveRows(rows: seq<Row>, k: int, neighborhood: real, sqrt: real -> real)
    requires IsSqrt(sqrt) && |rows| > 0
    ensures forall t :: 0 <= t < |Run(rows, k, neighborhood, sqrt)| ==>
      Run(rows, k, neighborhood, sqrt)[t] in Live(rows)
    decreases k
  {
    if k > 0 {
      var mags := Magnitudes(rows, sqrt);
      var p := ArgMax(mags);
      if mags[p] != 0.0 {
        var next := Step(rows, p, neighborhood, sqrt);
        RunUnfolds(rows, k, neighborhood, sqrt);
        RunPicksLiveRows(next, k - 1, neighborhood, sqrt);
        StepShrinksLive(rows, p, neighborhood, sqrt);
        NormZero(rows[p], sqrt);
        ConsWithin(p, Run(next, k - 1, neighborhood, sqrt), Live(next), Live(rows));
      }
    }
  }

  lemma ConsWithin(p: nat, rest: seq<nat>, inner: set<nat>, outer: set<nat>)
    requires p in outer && inner <= outer
    requires forall t :: 0 <= t < |rest| ==> rest[t] in inner
    ensures forall t :: 0 <= t < |[p] + rest| ==> ([p] + rest)[t] in outer
  {
  }

  predicate Distinct(s: seq<nat>) {
    forall a, b :: 0 <= a < b < |s| ==> s[a] != s[b]
  }

  /** With a positive neighbourhood no index is picked twice. */
  lemma {:induction false} RunDistinct(rows: seq<Row>, k: int, neighborhood: real, sqrt: real -> real)
    requires IsSqrt(sqrt) && |rows| > 0
    requires 0.0 < neighborhood
    ensures Distinct(Run(rows, k, neighborhood, sqrt))
    decreases k
  {
    if k > 0 {
      var mags := Magnitudes(rows, sqrt);
      var p := ArgMax(mags);
      if mags[p] != 0.0 {
        var next := Step(rows, p, neighborhood, sqrt);
        RunUnfolds(rows, k, neighborhood, sqrt);
        RunDistinct(next, k - 1, neighborhood, sqrt);
        RunPicksLiveRows(next, k - 1, neighborhood, sqrt);
        StepShrinksLive(rows, p, neighborhood, sqrt);
        DistinctCons(p, Run(next, k - 1, neighborhood, sqrt), Live(next));
      }
    }
  }

  lemma DistinctCons(p: nat, rest: seq<nat>, live: set<nat>)
    requires Distinct(rest) && p !in live
    requires forall t :: 0 <= t < |rest| ==> rest[t] in live
    ensures Distinct([p] + rest)
  {
  }

  /** With a non-positive neighbourhood nothing is erased, so the first pick is repeated k times. */
  lemma {:induction false} RunRepeats(rows: seq<Row>, k: nat, neighborhood: real, sqrt: real -> real)
    requires IsSqrt(sqrt) && |rows| > 0
    requires neighborhood <= 0.0 && !Exhausted(rows)
    ensures Run(rows, k, neighborhood, sqrt) == seq(k, _ => ArgMax(Magnitudes(rows, sqrt)))
    decreases k
  {
    if k > 0 {
      var p := ArgMax(Magnitudes(rows, sqrt));
      MaxMagnitudeZeroIffExhausted(rows, sqrt);
      NoNeighborhoodErasesNothing(rows, p, neighborhood, sqrt);
      RunRepeats(rows, k - 1, neighborhood, sqrt);
    }
  }

  /** The elements of a sequence, as a set. */
  function Elements(s: seq<nat>): set<nat>
  {
    set t | 0 <= t < |s| :: s[t]
  }

  lemma {:induction false} DistinctElements(s: seq<nat>)
    requires Distinct(s)
    ensures |Elements(s)| == |s|
    decreases |s|
  {
    if |s| > 0 {
      var init := s[..|s| - 1];
      DistinctElements(init);
      assert Elements(s) == Elements(init) + {s[|s| - 1]};
      assert s[|s| - 1] !in Elements(init);
    }
  }

  /** A run never picks more rows than are live at its start. */
  lemma RunLengthBoundedByLive(rows: seq<Row>, k: int, neighborhood: real, sqrt: real -> real)
    requires IsSqrt(sqrt) && |rows| > 0
    requires 0.0 < neighborhood
    ensures |Run(rows, k, neighborhood, sqrt)| <= |Live(rows)| <= |rows|
  {
    var sample := Run(rows, k, neighborhood, sqrt);
    RunDistinct(rows, k, neighborhood, sqrt);
    RunPicksLiveRows(rows, k, neighborhood, sqrt);
    DistinctElements(sample);
    assert Elements(sample) <= Live(rows);
    SubsetSize(Elements(sample), Live(rows));
    assert Live(rows) <= Indices(|rows|);
    SubsetSize(Live(rows), Indices(|rows|));
  }

  /** The indices below `n`. */
  function Indices(n: nat): (r: set<nat>)
    ensures |r| == n
    ensures forall i: int :: i in r <==> 0 <= i < n
  {
    if n == 0 then {} else Indices(n - 1) + {n - 1}
  }

  lemma SubsetSize<T>(a: set<T>, b: set<T>)
    requires a <= b
    ensures |a| <= |b|
  {
    assert b == a + (b - a);
  }

  // ---------------------------------------------------------------------------------------------
  // The sampler

  /** Distance of original row `i` to the centroid of the original data. */
  function DistanceToMean(vectors: seq<Row>, i: nat, sqrt: real -> real): real
    requires |vectors| > 0 && Rectangular(vectors) && i < |vectors|
  {
    Norm(Sub(vectors[i], Mean(vectors)), sqrt)
  }

  /** Row `k` is the first of the rows farthest from the centroid. */
  ghost predicate IsFirstFarthest(vectors: seq<Row>, k: nat, sqrt: real -> real)
    requires |vectors| > 0 && Rectangular(vectors)
  {
    k < |vectors| &&
    (forall j :: 0 <= j < |vectors| ==> DistanceToMean(vectors, j, sqrt) <= DistanceToMean(vectors, k, sqrt)) &&
    (forall j :: 0 <= j < k ==> DistanceToMean(vectors, j, sqrt) < DistanceToMean(vectors, k, sqrt))
  }

  /** Lines 21-26 on the working buffer: erase, in place, every row in the picked row's neighbourhood. */
  method EraseNeighborhood(buffer: array<Row>, p: nat, neighborhood: real, sqrt: real -> real)
    requires p < buffer.Length
    modifies buffer
    ensures buffer[..] == Step(old(buffer[..]), p, neighborhood, sqrt)
  {
    var deleteMask := DeleteMask(buffer[..], p, neighborhood, sqrt);
    forall j | 0 <= j < buffer.Length && deleteMask[j] {
      buffer[j] := Scale(buffer[j], 0.0);
    }
  }

  /** What the source promises of a sample drawn from `vectors`: the properties of `Run` on the centred rows. */
  ghost predicate SampleGuarantees(vectors: seq<Row>, n: int, neighborhood: real, sqrt: real -> real, sample: seq<nat>)
    requires |vectors| > 0 && Rectangular(vectors)
  {
    (|sample| <= if n <= 0 then 0 else n) &&
    (0 < n && |sample| < n ==> Exhausted(Final(Centre(vectors), n, neighborhood, sqrt))) &&
    (forall t :: 0 <= t < |sample| ==> sample[t] < |vectors|) &&
    (0 < |sample| ==> IsFirstFarthest(vectors, sample[0], sqrt)) &&
    (0 < n && !Exhausted(Centre(vectors)) ==> 0 < |sample|) &&
    (0.0 < neighborhood ==> Distinct(sample) && |sample| <= |vectors|) &&
    (neighborhood <= 0.0 && 0 < n && !Exhausted(Centre(vectors)) ==>
      |sample| == n && forall t :: 0 <= t < n ==> sample[t] == sample[0])
  }

  /** The reference run on the centred rows meets every guarantee. */
  lemma RunMeetsGuarantees(vectors: seq<Row>, n: int, neighborhood: real, sqrt: real -> real)
    requires |vectors| > 0 && Rectangular(vectors) && IsSqrt(sqrt)
    ensures SampleGuarantees(vectors, n, neighborhood, sqrt, Run(Centre(vectors), n, neighborhood, sqrt))
  {
    var centred := Centre(vectors);
    FirstPick(vectors, n, neighborhood, sqrt);
    RunShortOnlyWhenExhausted(centred, n, neighborhood, sqrt);
    if 0.0 < neighborhood {
      RunDistinct(centred, n, neighborhood, sqrt);
      RunLengthBoundedByLive(centred, n, neighborhood, sqrt);
    }
    if neighborhood <= 0.0 && 0 < n && !Exhausted(centred) {
      RunRepeats(centred, n, neighborhood, sqrt);
    }
  }

  /**
   * One pass of the loop body (lines 17-26) on the working buffer: pick the row of largest
   * magnitude and erase its neighbourhood in place, or report that every row is zero.
   */
  method PickAndErase(buffer: array<Row>, k: int, neighborhood: real, sqrt: real -> real)
    returns (picked: Option<nat>)
    requires 0 < k && 0 < buffer.Length
    modifies buffer
    ensures var mags := Magnitudes(old(buffer[..]), sqrt);
      match picked
      case None => mags[ArgMax(mags)] == 0.0 && buffer[..] == old(buffer[..])
      case Some(p) =>
        p == ArgMax(mags) && mags[p] != 0.0 && buffer[..] == Step(old(buffer[..]), p, neighborhood, sqrt)
    ensures picked.None? ==> Run(old(buffer[..]), k, neighborhood, sqrt) == []
    ensures picked.Some? ==>
      Run(old(buffer[..]), k, neighborhood, sqrt) == [picked.value] + Run(buffer[..], k - 1, neighborhood, sqrt)
  {
    ghost var rows := buffer[..];
    var magnitudes := Magnitudes(buffer[..], sqrt);
    var mostDistId := ArgMax(magnitudes);
    var magnitudeMax := magnitudes[mostDistId];
    if magnitudeMax == 0.0 {
      RunStops(rows, k, neighborhood, sqrt);
      return None;
    }
    RunUnfolds(rows, k, neighborhood, sqrt);
    EraseNeighborhood(buffer, mostDistId, neighborhood, sqrt);
    picked := Some(mostDistId);
  }

  /**
   * The loop of lines 14-27 over the centred rows. They are copied into a working buffer owned by
   * this call (`vectors_centered`); each pass picks the row of largest magnitude and erases its
   * neighbourhood in place. The loop stops early once every row is zero.
   */
  method SampleCentred(centred: seq<Row>, n: int, neighborhood: real, sqrt: real -> real)
    returns (sample: seq<nat>)
    requires |centred| > 0
    ensures sample == Run(centred, n, neighborhood, sqrt)
  {
    var buffer := new Row[|centred|];
    forall i | 0 <= i < |centred| {
      buffer[i] := centred[i];
    }
    ghost var rows := centred;
    assert buffer[..] == rows;
    sample := [];
    var i := 0;
    while i < n
      invariant buffer.Length == |centred| && buffer[..] == rows
      invariant sample + Run(rows, n - i, neighborhood, sqrt) == Run(centred, n, neighborhood, sqrt)
      decreases n - i
    {
      var picked := PickAndErase(buffer, n - i, neighborhood, sqrt);
      if picked.None? {
        break;
      }
      AppendAssociates(sample, [picked.value], Run(buffer[..], n - i - 1, neighborhood, sqrt));
      rows := buffer[..];
      sample := sample + [picked.value];
      i := i + 1;
    }
  }

  /**
   * `edgecase_sampling(vectors, n, neighborhood)`, lines 13-27 (the plotting is not modelled).
   * The caller's rows are a value: the centring of line 13 builds a new sequence, and only the
   * buffer of `SampleCentred` is ever written. As in the source, `neighborhood` defaults to 0.6.
   */
  method EdgecaseSampling(vectors: seq<Row>, n: int, neighborhood: real := 0.6, sqrt: real -> real)
    returns (sample: seq<nat>)
    requires |vectors| > 0 && Rectangular(vectors)
    requires IsSqrt(sqrt)
    ensures sample == Run(Centre(vectors), n, neighborhood, sqrt)
    ensures SampleGuarantees(vectors, n, neighborhood, sqrt, sample)
  {
    var centred := Centre(vectors);
    sample := SampleCentred(centred, n, neighborhood, sqrt);
    RunMeetsGuarantees(vectors, n, neighborhood, sqrt);
  }

  /** The first pick is the first of the original rows farthest from the original centroid. */
  lemma FirstPick(vectors: seq<Row>, n: int, neighborhood: real, sqrt: real -> real)
    requires |vectors| > 0 && Rectangular(vectors) && IsSqrt(sqrt)
    ensures var sample := Run(Centre(vectors), n, neighborhood, sqrt);
      (0 < |sample| ==> IsFirstFarthest(vectors, sample[0], sqrt)) &&
      (0 < n && !Exhausted(Centre(vectors)) ==> 0 < |sample|)
  {
    var c := Centre(vectors);
    var mags := Magnitudes(c, sqrt);
    ArgMaxIsFirstLargest(mags);
    MaxMagnitudeZeroIffExhausted(c, sqrt);
    assert forall j :: 0 <= j < |vectors| ==> mags[j] == DistanceToMean(vectors, j, sqrt);
  }

  /** A single point is its own centroid: nothing is live, so the sample is empty. */
  lemma SingleRowSamplesNothing(v: Row, n: int, neighborhood: real, sqrt: real -> real)
    requires IsSqrt(sqrt)
    ensures Run(Centre([v]), n, neighborhood, sqrt) == []
  {
    var c := Centre([v]);
    forall j | 0 <= j < |v| ensures c[0][j] == 0.0 {
      assert [v][1..] == [];
      assert ColumnSum([v], j) == v[j];
      assert Mean([v])[j] == v[j];
    }
    MaxMagnitudeZeroIffExhausted(c, sqrt);
  }
}
