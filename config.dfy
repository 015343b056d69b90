/**
 * `SpectrogramConfig`: its defaults and `validate_and_fix`, which replaces
 * each out-of-range setting by its default in place.  The settings are
 * read from and saved to a TOML file, which is not modelled; nothing in the
 * codec reads them.
 */
module Config {

  /** The fields of a configuration, as a value. */
  datatype Settings = Settings(
    fftSize: nat,
    hopSize: nat,
    minFreq: real,
    dbMin: real,
    dbMax: real,
    boostStartFreq: real,
    boostDbPerOctave: real,
    usePhaseEncoding: bool,
    useLogScale: bool,
    griffinLimIterations: nat)

  const DEFAULT_FFT_SIZE: nat := 4096
  const DEFAULT_HOP_SIZE: nat := 128
  const DEFAULT_MIN_FREQ: real := 20.0
  const DEFAULT_DB_MIN: real := -80.0
  const DEFAULT_DB_MAX: real := 0.0

  const MIN_FFT_SIZE: nat := 256
  const MAX_FFT_SIZE: nat := 16384
  const MAX_MIN_FREQ: real := 20000.0

  /** `SpectrogramConfig::default()`. */
  const DEFAULTS: Settings := Settings(DEFAULT_FFT_SIZE, DEFAULT_HOP_SIZE, DEFAULT_MIN_FREQ,
                                       DEFAULT_DB_MIN, DEFAULT_DB_MAX, 1000.0, 6.0, true, true, 30)

  /** `usize::is_power_of_two`: exactly one bit set. */
  predicate IsPowerOfTwo(n: nat)
    decreases n
  {
    n == 1 || (n >= 2 && n % 2 == 0 && IsPowerOfTwo(n / 2))
  }

  predicate FftSizeValid(n: nat) {
    MIN_FFT_SIZE <= n <= MAX_FFT_SIZE && IsPowerOfTwo(n)
  }

  predicate HopSizeValid(hop: nat, fft: nat) {
    0 < hop <= fft
  }

  predicate MinFreqValid(f: real) {
    0.0 < f < MAX_MIN_FREQ
  }

  predicate DbRangeValid(lo: real, hi: real) {
    lo < hi
  }

  /** The settings `validate_and_fix` accepts as they are. */
  predicate IsValid(s: Settings) {
    && FftSizeValid(s.fftSize)
    && HopSizeValid(s.hopSize, s.fftSize)
    && MinFreqValid(s.minFreq)
    && DbRangeValid(s.dbMin, s.dbMax)
  }

  /**
   * The settings after `validate_and_fix`: the fft size is checked first,
   * and the hop size against the fft size as already fixed; the dB bounds
   * are reset together.
   */
  function Validated(s: Settings): Settings {
    var fft := if FftSizeValid(s.fftSize) then s.fftSize else DEFAULT_FFT_SIZE;
    var hop := if HopSizeValid(s.hopSize, fft) then s.hopSize else DEFAULT_HOP_SIZE;
    var minFreq := if MinFreqValid(s.minFreq) then s.minFreq else DEFAULT_MIN_FREQ;
    var fixDb := !DbRangeValid(s.dbMin, s.dbMax);
    s.(fftSize := fft, hopSize := hop, minFreq := minFreq,
       dbMin := if fixDb then DEFAULT_DB_MIN else s.dbMin,
       dbMax := if fixDb then DEFAULT_DB_MAX else s.dbMax)
  }

  /** `2^e`. */
  function Pow2(e: nat): nat {
    if e == 0 then 1 else 2 * Pow2(e - 1)
  }

  /** Every `2^e` has exactly one bit set. */
  lemma {:induction false} Pow2IsPowerOfTwo(e: nat)
    ensures IsPowerOfTwo(Pow2(e))
  {
    if e > 0 {
      Pow2IsPowerOfTwo(e - 1);
      assert Pow2(e) / 2 == Pow2(e - 1);
    }
  }

  /** 4096 is `2^12`. */
  lemma {:induction false} DefaultFftSizeValid()
    ensures FftSizeValid(DEFAULT_FFT_SIZE)
  {
    Pow2IsPowerOfTwo(12);
    assert Pow2(12) == 4096;
  }

  /**
   * Every setting comes out valid: the fft size a power of two in
   * `[256, 16384]`, the hop size in `[1, fft size]` (the default 128 is below
   * every valid fft size), the minimum frequency in `(0, 20000)` and the dB
   * range non-empty.
   */
  lemma {:induction false} ValidatedIsValid(s: Settings)
    ensures IsValid(Validated(s))
    ensures MIN_FFT_SIZE <= Validated(s).fftSize <= MAX_FFT_SIZE && IsPowerOfTwo(Validated(s).fftSize)
    ensures 1 <= Validated(s).hopSize <= Validated(s).fftSize
    ensures 0.0 < Validated(s).minFreq < 20000.0
    ensures Validated(s).dbMin < Validated(s).dbMax
  {
    DefaultFftSizeValid();
  }

  /**
   * The fields the validator does not check are never touched, and a valid
   * field keeps its value; an invalid dB range has both bounds reset.
   */
  lemma {:induction false} ValidatedChangesOnlyInvalid(s: Settings)
    ensures var r := Validated(s);
            && r.boostStartFreq == s.boostStartFreq
            && r.boostDbPerOctave == s.boostDbPerOctave
            && r.usePhaseEncoding == s.usePhaseEncoding
            && r.useLogScale == s.useLogScale
            && r.griffinLimIterations == s.griffinLimIterations
            && (FftSizeValid(s.fftSize) <==> r.fftSize == s.fftSize)
            && (MinFreqValid(s.minFreq) <==> r.minFreq == s.minFreq)
            && (DbRangeValid(s.dbMin, s.dbMax) ==> r.dbMin == s.dbMin && r.dbMax == s.dbMax)
            && (!DbRangeValid(s.dbMin, s.dbMax) ==> r.dbMin == DEFAULT_DB_MIN && r.dbMax == DEFAULT_DB_MAX)
            && (FftSizeValid(s.fftSize) && HopSizeValid(s.hopSize, s.fftSize) ==> r.hopSize == s.hopSize)
  {
    DefaultFftSizeValid();
  }

  /** Valid settings are exactly those the validator leaves alone. */
  lemma {:induction false} ValidIffFixpoint(s: Settings)
    ensures IsValid(s) <==> Validated(s) == s
  {
    ValidatedIsValid(s);
  }

  /** Validating twice is validating once. */
  lemma {:induction false} ValidatedIdempotent(s: Settings)
    ensures Validated(Validated(s)) == Validated(s)
  {
    ValidatedIsValid(s);
    ValidIffFixpoint(Validated(s));
  }

  /** The defaults are valid, so validating them changes nothing. */
  lemma {:induction false} DefaultsUnchanged()
    ensures IsValid(DEFAULTS)
    ensures Validated(DEFAULTS) == DEFAULTS
  {
    DefaultFftSizeValid();
  }

  /**
   * The hop size is checked against the fft size as already fixed: a hop of
   * 200 with an invalid fft size of 100 survives, because 4096 replaces 100
   * first.
   */
  lemma {:induction false} HopCheckedAfterFftFix()
    ensures var s := DEFAULTS.(fftSize := 100, hopSize := 200);
            Validated(s).fftSize == 4096 && Validated(s).hopSize == 200
  {
    DefaultFftSizeValid();
  }

  class SpectrogramConfig {
    var fftSize: nat
    var hopSize: nat
    var minFreq: real
    var dbMin: real
    var dbMax: real
    var boostStartFreq: real
    var boostDbPerOctave: real
    var usePhaseEncoding: bool
    var useLogScale: bool
    var griffinLimIterations: nat

    /** The fields as a value. */
    function Current(): Settings
      reads this
    {
      Settings(fftSize, hopSize, minFreq, dbMin, dbMax, boostStartFreq, boostDbPerOctave,
               usePhaseEncoding, useLogScale, griffinLimIterations)
    }

    /** `SpectrogramConfig::default()`. */
    constructor ()
      ensures Current() == DEFAULTS
    {
      fftSize := DEFAULT_FFT_SIZE;
      hopSize := DEFAULT_HOP_SIZE;
      minFreq := DEFAULT_MIN_FREQ;
      dbMin := DEFAULT_DB_MIN;
      dbMax := DEFAULT_DB_MAX;
      boostStartFreq := 1000.0;
      boostDbPerOctave := 6.0;
      usePhaseEncoding := true;
      useLogScale := true;
      griffinLimIterations := 30;
    }

    /** `validate_and_fix`: the four checks in order, each overwriting what it finds invalid. */
    method ValidateAndFix()
      modifies this
      ensures Current() == Validated(old(Current()))
      ensures IsValid(Current())
    {
      ghost var s := Current();
      ghost var r := Validated(s);
      if !FftSizeValid(fftSize) {
        fftSize := DEFAULT_FFT_SIZE;
      }
      assert Current() == s.(fftSize := r.fftSize);
      if hopSize == 0 || hopSize > fftSize {
        hopSize := DEFAULT_HOP_SIZE;
      }
      assert Current() == s.(fftSize := r.fftSize, hopSize := r.hopSize);
      if minFreq <= 0.0 || minFreq >= MAX_MIN_FREQ {
        minFreq := DEFAULT_MIN_FREQ;
      }
      assert Current() == s.(fftSize := r.fftSize, hopSize := r.hopSize, minFreq := r.minFreq);
      if dbMin >= dbMax {
        dbMin := DEFAULT_DB_MIN;
        dbMax := DEFAULT_DB_MAX;
      }
      assert Current() == r;
      ValidatedIsValid(s);
    }
  }
}
