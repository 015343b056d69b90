/**
 * Spectrogram grids and the operations both directions share.
 *
 * A grid is indexed `[bin][frame]`: one row per frequency bin, one column per
 * STFT frame.  `interpolate_spectrum` appears word for word in both Rust
 * files and is modelled once here.
 */
module Spectrum {
  import opened Numerics

  type Grid = seq<seq<real>>

  const TWO_PI: real := 2.0 * PI

  /** `g` has `rows` rows of `cols` entries each. */
  predicate IsGrid(g: Grid, rows: nat, cols: nat) {
    |g| == rows && forall i | 0 <= i < rows :: |g[i]| == cols
  }

  /** The `rows` by `cols` grid of zeros, `vec![vec![0.0; cols]; rows]`. */
  function Zeros(rows: nat, cols: nat): (g: Grid)
    ensures IsGrid(g, rows, cols)
    ensures forall i, j | 0 <= i < rows && 0 <= j < cols :: g[i][j] == 0.0
  {
    seq(rows, _ => seq(cols, _ => 0.0))
  }

  /** The grid `g` with the entry at `[i][j]` replaced by `x`. */
  function Put(g: Grid, i: nat, j: nat, x: real): (r: Grid)
    requires i < |g| && j < |g[i]|
    ensures |r| == |g| && forall k | 0 <= k < |g| :: |r[k]| == |g[k]|
    ensures r[i][j] == x
    ensures forall k, l | 0 <= k < |g| && 0 <= l < |g[k]| && (k, l) != (i, j) :: r[k][l] == g[k][l]
  {
    g[i := g[i][j := x]]
  }

  /** Two pairs of grids of the same shape that agree entry by entry are equal. */
  lemma {:induction false} GridsEqual(mag: Grid, phase: Grid, g: (Grid, Grid), rows: nat, cols: nat)
    requires IsGrid(mag, rows, cols) && IsGrid(phase, rows, cols)
    requires IsGrid(g.0, rows, cols) && IsGrid(g.1, rows, cols)
    requires forall b, j | 0 <= b < rows && 0 <= j < cols :: mag[b][j] == g.0[b][j] && phase[b][j] == g.1[b][j]
    ensures (mag, phase) == g
  {
    forall b | 0 <= b < rows
      ensures mag[b] == g.0[b] && phase[b] == g.1[b]
    {
    }
    assert mag == g.0 && phase == g.1;
  }
  // ---------------------------------------------------------------------
  // Phase-difference wrapping
  // ---------------------------------------------------------------------

  /** How many whole turns the wrap loops remove from `d`. */
  function Turns(d: real): int {
    if d > PI then Ceil((d - PI) / TWO_PI)
    else if d < -PI then -Ceil((-PI - d) / TWO_PI)
    else 0
  }

  /** The phase difference `d` brought into `[-pi, pi]` by whole turns. */
  function Wrap(d: real): real {
    d - TWO_PI * Turns(d) as real
  }

  lemma {:induction false} TurnBounds(x: real, c: int)
    requires x <= c as real < x + 1.0
    ensures TWO_PI * x <= TWO_PI * c as real < TWO_PI * x + TWO_PI
  {
    MulMonotone(x, c as real, TWO_PI);
    MulStrict(c as real, x + 1.0, TWO_PI);
  }

  lemma {:induction false} TimesQuotient(a: real)
    ensures TWO_PI * (a / TWO_PI) == a
  {
  }

  /**
   * The wrapped difference lies in `[-pi, pi]`: in `(-pi, pi]` when `d` was
   * above `pi`, in `[-pi, pi)` when it was below `-pi`, and it is `d` itself
   * when `d` already was in range.
   */
  lemma {:induction false} WrapRange(d: real)
    ensures -PI <= Wrap(d) <= PI
    ensures d > PI ==> -PI < Wrap(d)
    ensures d < -PI ==> Wrap(d) < PI
    ensures -PI <= d <= PI ==> Wrap(d) == d
  {
    if d > PI {
      var x := (d - PI) / TWO_PI;
      TurnBounds(x, Ceil(x));
      TimesQuotient(d - PI);
    } else if d < -PI {
      var x := (-PI - d) / TWO_PI;
      TurnBounds(x, Ceil(x));
      TimesQuotient(-PI - d);
    }
  }

  /** Two values in a half-open interval of width `2 pi` that differ by whole turns are equal. */
  lemma {:induction false} SameTurn(a: real, b: real, n: int)
    requires a - b == TWO_PI * n as real
    requires -TWO_PI < a - b < TWO_PI
    ensures a == b
  {
    if n >= 1 {
      MulMonotone(1.0, n as real, TWO_PI);
    } else if n <= -1 {
      MulMonotone(n as real, -1.0, TWO_PI);
    }
  }

  /** `d - 2 pi n` for a whole `n` is `Wrap(d)` when it lands where the wrap loops stop. */
  lemma {:induction false} WrapUnique(d: real, r: real, n: int)
    requires r == d - TWO_PI * n as real
    requires d > PI ==> -PI < r <= PI
    requires d < -PI ==> -PI <= r < PI
    requires -PI <= d <= PI ==> r == d
    ensures r == Wrap(d)
  {
    WrapRange(d);
    var m := Turns(d) - n;
    assert r - Wrap(d) == TWO_PI * m as real;
    if -PI <= d <= PI {
    } else {
      SameTurn(r, Wrap(d), m);
    }
  }

  // ---------------------------------------------------------------------
  // interpolate_spectrum
  // ---------------------------------------------------------------------

  /** `bin_float.floor() as usize`. */
  function FloorIndex(x: real): nat {
    AsUsize(x.Floor)
  }

  /** `(bin_float.ceil() as usize).min(len - 1)`. */
  function CeilIndex(x: real, len: nat): nat
    requires len > 0
  {
    var c := AsUsize(Ceil(x));
    if c <= len - 1 then c else len - 1
  }

  /** The linear blend `a * (1 - f) + b * f`. */
  function Blend(a: real, b: real, f: real): real {
    a * (1.0 - f) + b * f
  }

  /** The phase `p1` moved towards `p2` by the fraction `f` of their wrapped difference. */
  function PhaseBlend(p1: real, p2: real, f: real): real {
    p1 + Wrap(p2 - p1) * f
  }

  /**
   * The magnitude and phase read at the fractional bin `x` of column `frame`:
   * `(0, 0)` past the last row, the stored pair when the clamped neighbours
   * coincide, and otherwise the linear blend of the two magnitudes and the
   * lower phase moved by the wrapped difference scaled by the fraction.
   */
  function Interpolated(mag: Grid, phase: Grid, x: real, frame: nat): (real, real)
    requires |mag| > 0 && |phase| == |mag|
    requires forall i | 0 <= i < |mag| :: frame < |mag[i]| && frame < |phase[i]|
  {
    var lo := FloorIndex(x);
    var hi := CeilIndex(x, |mag|);
    var frac := x - lo as real;
    if lo >= |mag| then (0.0, 0.0)
    else if lo == hi then (mag[lo][frame], phase[lo][frame])
    else
      (Blend(mag[lo][frame], mag[hi][frame], frac), PhaseBlend(phase[lo][frame], phase[hi][frame], frac))
  }

  /** When the neighbours differ, the upper one is the next row and the fraction lies strictly inside `(0, 1)`. */
  lemma {:induction false} InterpolationNeighbours(x: real, len: nat)
    requires len > 0
    requires FloorIndex(x) < len && FloorIndex(x) != CeilIndex(x, len)
    ensures 0.0 < x && FloorIndex(x) == x.Floor
    ensures CeilIndex(x, len) == FloorIndex(x) + 1
    ensures 0.0 < x - FloorIndex(x) as real < 1.0
  {
  }

  /** Every row `Interpolated` reads is below the grid's height. */
  lemma {:induction false} InterpolationInBounds(x: real, len: nat)
    requires len > 0
    ensures FloorIndex(x) < len ==> CeilIndex(x, len) < len
  {
  }

  /** A blended magnitude lies between the two neighbours it blends. */
  lemma {:induction false} BlendBetween(a: real, b: real, f: real)
    requires 0.0 <= f <= 1.0
    ensures Min(a, b) <= Blend(a, b, f) <= Max(a, b)
  {
    assert Blend(a, b, f) == a + (b - a) * f;
    if a <= b {
      MulMonotone(0.0, f, b - a);
      MulMonotone(f, 1.0, b - a);
    } else {
      MulMonotone(0.0, f, a - b);
      MulMonotone(f, 1.0, a - b);
    }
  }

  /** A blended phase moves from the lower neighbour by at most `pi`. */
  lemma {:induction false} PhaseBlendNear(p1: real, p2: real, f: real)
    requires 0.0 <= f <= 1.0
    ensures Abs(PhaseBlend(p1, p2, f) - p1) <= PI
  {
    var w := Wrap(p2 - p1);
    WrapRange(p2 - p1);
    ScaledWithin(w, f, PI);
  }

  lemma {:induction false} ScaledWithin(w: real, f: real, bound: real)
    requires -bound <= w <= bound && 0.0 <= f <= 1.0
    ensures Abs(w * f) <= bound
  {
    if w >= 0.0 {
      MulUnit(w, f);
    } else {
      assert w * (f - 1.0) >= 0.0;
    }
  }

  /**
   * The interpolated magnitude is 0 past the grid, the stored value when
   * the neighbours coincide, and otherwise lies between the two neighbours;
   * the interpolated phase moves from the lower neighbour by at most `pi`.
   */
  lemma {:induction false} InterpolatedBetween(mag: Grid, phase: Grid, x: real, frame: nat)
    requires |mag| > 0 && |phase| == |mag|
    requires forall i | 0 <= i < |mag| :: frame < |mag[i]| && frame < |phase[i]|
    ensures var lo := FloorIndex(x);
            var r := Interpolated(mag, phase, x, frame);
            && (lo >= |mag| ==> r == (0.0, 0.0))
            && (lo < |mag| && lo == CeilIndex(x, |mag|) ==> r == (mag[lo][frame], phase[lo][frame]))
            && (lo < |mag| && lo != CeilIndex(x, |mag|) ==>
                  && Min(mag[lo][frame], mag[lo + 1][frame]) <= r.0 <= Max(mag[lo][frame], mag[lo + 1][frame])
                  && Abs(r.1 - phase[lo][frame]) <= PI)
  {
    var lo := FloorIndex(x);
    if lo < |mag| && lo != CeilIndex(x, |mag|) {
      InterpolationNeighbours(x, |mag|);
      var f := x - lo as real;
      BlendBetween(mag[lo][frame], mag[lo + 1][frame], f);
      PhaseBlendNear(phase[lo][frame], phase[lo + 1][frame], f);
      assert Interpolated(mag, phase, x, frame)
          == (Blend(mag[lo][frame], mag[lo + 1][frame], f), PhaseBlend(phase[lo][frame], phase[lo + 1][frame], f));
    }
  }

  /** The two `while` loops of `interpolate_spectrum` that bring a phase difference into `[-pi, pi]`. */
  method WrapPhaseDifference(diff: real) returns (d: real)
    ensures d == Wrap(diff)
  {
    d := diff;
    ghost var turns := 0;
    while d > PI
      invariant d == diff - TWO_PI * turns as real
      invariant turns >= 0
      invariant turns > 0 ==> diff > PI && d > -PI
      decreases (d - PI).Floor
    {
      d := d - TWO_PI;
      turns := turns + 1;
    }
    while d < -PI
      invariant d == diff - TWO_PI * turns as real
      invariant d <= PI
      invariant diff > PI ==> d > -PI
      invariant -PI <= diff <= PI ==> d == diff
      invariant diff < -PI ==> (turns == 0 && d == diff) || (turns < 0 && d < PI)
      decreases (-PI - d).Floor
    {
      d := d + TWO_PI;
      turns := turns - 1;
    }
    WrapUnique(diff, d, turns);
  }

  /** `interpolate_spectrum`. */
  method InterpolateSpectrum(mag: Grid, phase: Grid, x: real, frame: nat) returns (m: real, p: real)
    requires |mag| > 0 && |phase| == |mag|
    requires forall i | 0 <= i < |mag| :: frame < |mag[i]| && frame < |phase[i]|
    ensures (m, p) == Interpolated(mag, phase, x, frame)
  {
    var lo := FloorIndex(x);
    var hi := CeilIndex(x, |mag|);
    var frac := x - lo as real;
    if lo >= |mag| {
      return 0.0, 0.0;
    }
    if lo == hi {
      return mag[lo][frame], phase[lo][frame];
    }
    m := mag[lo][frame] * (1.0 - frac) + mag[hi][frame] * frac;
    var p1 := phase[lo][frame];
    var p2 := phase[hi][frame];
    var d := WrapPhaseDifference(p2 - p1);
    p := p1 + d * frac;
    assert m == Blend(mag[lo][frame], mag[hi][frame], frac);
    assert p == PhaseBlend(p1, p2, frac);
    assert Interpolated(mag, phase, x, frame) == (Blend(mag[lo][frame], mag[hi][frame], frac), PhaseBlend(p1, p2, frac));
  }

  // ---------------------------------------------------------------------
  // Resampling between frequency scales and the grid maximum
  // ---------------------------------------------------------------------

  /** The grids whose row `k` reads every column of `mag` and `phase` at the fractional bin `positions[k]`. */
  function Resampled(mag: Grid, phase: Grid, frames: nat, positions: seq<real>): (g: (Grid, Grid))
    requires |mag| > 0 && IsGrid(mag, |mag|, frames) && IsGrid(phase, |mag|, frames)
    ensures IsGrid(g.0, |positions|, frames) && IsGrid(g.1, |positions|, frames)
  {
    (seq(|positions|, r requires 0 <= r < |positions| =>
       seq(frames, j requires 0 <= j < frames => Interpolated(mag, phase, positions[r], j).0)),
     seq(|positions|, r requires 0 <= r < |positions| =>
       seq(frames, j requires 0 <= j < frames => Interpolated(mag, phase, positions[r], j).1)))
  }

  /**
   * The nested loops that build a grid on another frequency scale: row `k`
   * of the result reads every column of the source at `positions[k]`.
   */
  method Resample(mag: Grid, phase: Grid, frames: nat, positions: seq<real>) returns (outMag: Grid, outPhase: Grid)
    requires |mag| > 0 && IsGrid(mag, |mag|, frames) && IsGrid(phase, |mag|, frames)
    ensures (outMag, outPhase) == Resampled(mag, phase, frames, positions)
  {
    outMag := Zeros(|positions|, frames);
    outPhase := Zeros(|positions|, frames);
    var k := 0;
    while k < |positions|
      invariant 0 <= k <= |positions|
      invariant IsGrid(outMag, |positions|, frames) && IsGrid(outPhase, |positions|, frames)
      invariant forall k', j | 0 <= k' < k && 0 <= j < frames ::
                  (outMag[k'][j], outPhase[k'][j]) == Interpolated(mag, phase, positions[k'], j)
    {
      var j := 0;
      while j < frames
        invariant 0 <= j <= frames
        invariant IsGrid(outMag, |positions|, frames) && IsGrid(outPhase, |positions|, frames)
        invariant forall k', j' | 0 <= k' < k && 0 <= j' < frames ::
                    (outMag[k'][j'], outPhase[k'][j']) == Interpolated(mag, phase, positions[k'], j')
        invariant forall j' | 0 <= j' < j ::
                    (outMag[k][j'], outPhase[k][j']) == Interpolated(mag, phase, positions[k], j')
      {
        var m, p := InterpolateSpectrum(mag, phase, positions[k], j);
        outMag := Put(outMag, k, j, m);
        outPhase := Put(outPhase, k, j, p);
        j := j + 1;
      }
      k := k + 1;
    }
    GridsEqual(outMag, outPhase, Resampled(mag, phase, frames, positions), |positions|, frames);
  }

  /** The largest entry of a row, folded from `acc` with `f32::max`. */
  function RowMax(row: seq<real>, acc: real): (r: real)
    ensures acc <= r
    ensures forall j | 0 <= j < |row| :: row[j] <= r
    ensures r == acc || exists j | 0 <= j < |row| :: row[j] == r
  {
    if row == [] then acc else RowMax(row[1..], Max(acc, row[0]))
  }

  /**
   * `g.iter().flat_map(..).fold(0.0, f32::max)`: the largest entry of the
   * grid, or 0 when every entry is below 0 or the grid is empty.
   */
  function GridMaxFrom(g: Grid, acc: real): (r: real)
    ensures acc <= r
    ensures forall i, j | 0 <= i < |g| && 0 <= j < |g[i]| :: g[i][j] <= r
    ensures r == acc || exists i, j | 0 <= i < |g| && 0 <= j < |g[i]| :: g[i][j] == r
  {
    if g == [] then acc
    else
      var r := GridMaxFrom(g[1..], RowMax(g[0], acc));
      assert forall i, j | 1 <= i < |g| && 0 <= j < |g[i]| :: g[i][j] == g[1..][i - 1][j];
      r
  }

  function GridMax(g: Grid): (r: real)
    ensures 0.0 <= r
    ensures forall i, j | 0 <= i < |g| && 0 <= j < |g[i]| :: g[i][j] <= r
    ensures r == 0.0 || exists i, j | 0 <= i < |g| && 0 <= j < |g[i]| :: g[i][j] == r
  {
    GridMaxFrom(g, 0.0)
  }
}
