/**
 * The numeric vocabulary of the codec.
 *
 * Sample and spectral values are modelled as exact reals.  The floating-point
 * transcendentals and the FFT library are not modelled: they are the fields
 * of a `Kernels` record of total functions that every operation needing them
 * receives as a parameter, so that only structural facts are proved about
 * their results.  The float-to-integer `as` casts of Rust (truncation toward
 * zero, saturation at the target type's bounds) are written out.
 */
module Numerics {

  /** `std::f32::consts::PI`, the exact value of the nearest `f32`. */
  const PI: real := 3.1415927410125732421875

  const USIZE_MAX: nat := 0xFFFF_FFFF_FFFF_FFFF

  const I16_MIN: int := -32768
  const I16_MAX: int := 32767

  type byte = x: int | 0 <= x < 256

  datatype Complex = Complex(re: real, im: real)

  const ZERO: Complex := Complex(0.0, 0.0)

  /** `Complex::conj`. */
  function Conj(z: Complex): Complex {
    Complex(z.re, -z.im)
  }

  /**
   * The numerics the model leaves abstract: the forward and inverse FFT of
   * `rustfft`, `Complex::norm` and `Complex::arg`, and `f32::cos`, `sin`,
   * `powf` (base, exponent), `ln` and `log2`.
   */
  datatype Kernels = Kernels(
    forward: seq<Complex> -> seq<Complex>,
    inverse: seq<Complex> -> seq<Complex>,
    norm: Complex -> real,
    arg: Complex -> real,
    cos: real -> real,
    sin: real -> real,
    pow: (real, real) -> real,
    ln: real -> real,
    log2: real -> real)

  /** The Hann window value `0.5 * (1 - cos(2 pi i / (n - 1)))` used by both directions. */
  function Hann(k: Kernels, i: nat, n: nat): real
    requires n >= 2
  {
    0.5 * (1.0 - k.cos(2.0 * PI * (i as real) / ((n as real) - 1.0)))
  }

  function Abs(x: real): real {
    if x < 0.0 then -x else x
  }

  /** `f32::max` (no NaN in this model). */
  function Max(a: real, b: real): real {
    if a >= b then a else b
  }

  /** `f32::min`. */
  function Min(a: real, b: real): real {
    if a <= b then a else b
  }

  /** Rounding toward zero. */
  function Trunc(x: real): (t: int)
    ensures Abs(x - t as real) < 1.0
    ensures x >= 0.0 ==> 0 <= t && t as real <= x
    ensures x <= 0.0 ==> t <= 0 && x <= t as real
  {
    if x >= 0.0 then x.Floor else -((-x).Floor)
  }

  /** `f32::ceil`, as the integer it yields. */
  function Ceil(x: real): (c: int)
    ensures x <= c as real < x + 1.0
  {
    -((-x).Floor)
  }

  /** The `%` of `f32`: the remainder of truncating division, with the dividend's sign. */
  function FRem(a: real, b: real): real
    requires b != 0.0
  {
    a - b * (Trunc(a / b) as real)
  }

  /** `x as u8` for a float: truncation toward zero, saturating at 0 and 255. */
  function AsU8(x: real): (r: byte)
    ensures 0.0 <= x < 255.0 ==> r == x.Floor
    ensures x <= 0.0 ==> r == 0
    ensures x >= 255.0 ==> r == 255
  {
    if x <= 0.0 then 0 else if x >= 255.0 then 255 else x.Floor
  }

  /** `x as i16` for a float: truncation toward zero, saturating at the `i16` bounds. */
  function AsI16(x: real): (r: int)
    ensures I16_MIN <= r <= I16_MAX
  {
    var t := Trunc(x);
    if t < I16_MIN then I16_MIN else if t > I16_MAX then I16_MAX else t
  }

  /** `v as usize` for an integral float `v`: saturating at 0 and `usize::MAX`. */
  function AsUsize(v: int): (r: nat)
    ensures r <= USIZE_MAX
    ensures 0 <= v <= USIZE_MAX ==> r == v
  {
    if v < 0 then 0 else if v > USIZE_MAX then USIZE_MAX else v
  }

  /** Inside the `i16` range the cast is plain truncation. */
  lemma {:induction false} AsI16InRange(x: real)
    requires I16_MIN as real <= x <= I16_MAX as real
    ensures AsI16(x) == Trunc(x)
  {
  }

  /** For a non-negative float the remainder by a positive divisor lies in `[0, b)`. */
  lemma {:induction false} FRemNonNegative(a: real, b: real)
    requires 0.0 <= a && 0.0 < b
    ensures 0.0 <= FRem(a, b) < b
  {
    var q := a / b;
    var t := Trunc(q) as real;
    assert t <= q < t + 1.0;
    DivTimes(a, b);
    BelowQuotient(a, b, t, q);
    AboveQuotient(a, b, t, q);
    assert FRem(a, b) == a - t * b;
  }

  lemma {:induction false} DivTimes(a: real, b: real)
    requires b != 0.0
    ensures (a / b) * b == a
  {
  }

  lemma {:induction false} BelowQuotient(a: real, b: real, t: real, q: real)
    requires 0.0 < b && t <= q && q * b == a
    ensures t * b <= a
  {
    MulMonotone(t, q, b);
  }

  lemma {:induction false} AboveQuotient(a: real, b: real, t: real, q: real)
    requires 0.0 < b && q < t + 1.0 && q * b == a
    ensures a < t * b + b
  {
    MulStrict(q, t + 1.0, b);
    assert q * b < (t + 1.0) * b;
    assert (t + 1.0) * b == t * b + b;
  }

  /** A remainder by a divisor larger than the dividend's magnitude is the dividend. */
  lemma {:induction false} FRemSmall(a: real, b: real)
    requires 0.0 < b && -b < a < b
    ensures FRem(a, b) == a
  {
    DivStrict(a, b, b);
    DivStrict(-b, a, b);
    assert b / b == 1.0 && (-b) / b == -1.0;
    assert Trunc(a / b) == 0;
  }

  /** Division by a positive number keeps order. */
  lemma {:induction false} DivMono(x: real, y: real, c: real)
    requires x <= y && 0.0 < c
    ensures x / c <= y / c
  {
    assert y / c - x / c == (y - x) / c;
  }

  lemma {:induction false} DivStrict(x: real, y: real, c: real)
    requires x < y && 0.0 < c
    ensures x / c < y / c
  {
    assert y / c - x / c == (y - x) / c;
    assert (y - x) / c > 0.0;
  }

  lemma {:induction false} MulMonotone(x: real, y: real, c: real)
    requires x <= y && 0.0 <= c
    ensures x * c <= y * c
  {
  }

  lemma {:induction false} MulStrict(x: real, y: real, c: real)
    requires x < y && 0.0 < c
    ensures x * c < y * c
  {
  }

  /** Scaling by a factor in `[0, 1]` keeps a non-negative value between 0 and itself. */
  lemma {:induction false} MulUnit(v: real, t: real)
    requires 0.0 <= v && 0.0 <= t <= 1.0
    ensures 0.0 <= v * t <= v
  {
    MulMonotone(t, 1.0, v);
  }
}
