/**
 * `spectrogram_to_audio`: a colour spectrogram image back to 16-bit audio.
 *
 * The header (sample rate and scale) comes from the file name.  Each pixel
 * becomes a phase (from its hue) and a magnitude (its value read as a level
 * between -80 dB and 0 dB, less the high-frequency boost).  A log-scale
 * grid is resampled back onto the linear axis; magnitudes are divided by
 * their maximum; each column is turned into a Hermitian spectrum, inverted
 * and overlap-added under a Hann window; the sum is divided by the window
 * sum, scaled to a peak of 0.95 and quantised to `i16`.
 *
 * The integer subtractions of the Rust code panic on underflow (the default
 * build checks them); those panics are `Err(Aborted(..))` here.
 */
module Decoder {
  import opened Common
  import opened Paths
  import opened Header
  import opened Numerics
  import opened Color
  import opened Spectrum

  const HOP_SIZE: nat := 512
  const MIN_FREQ: real := 20.0
  const DB_MIN: real := -80.0
  const DB_MAX: real := 0.0
  const BOOST_START: real := 1000.0
  const BOOST_DB_PER_OCTAVE: real := 6.0
  const HEADROOM: real := 0.95

  // ---------------------------------------------------------------------
  // Sizes
  // ---------------------------------------------------------------------

  /** `(num_bins_image - 1) * 2`. */
  function FftSizeFor(height: nat): (fft: nat)
    requires height >= 1
    ensures fft % 2 == 0
  {
    (height - 1) * 2
  }

  /** The linear grid has exactly as many rows as the image. */
  lemma {:induction false} LinearBinsMatchHeight(height: nat)
    requires height >= 1
    ensures FftSizeFor(height) / 2 + 1 == height
  {
  }

  /** `(num_frames - 1) * HOP_SIZE + fft_size`. */
  function OutputLength(frames: nat, fft: nat): nat
    requires frames >= 1
  {
    (frames - 1) * HOP_SIZE + fft
  }

  /** Every index the overlap-add writes is inside the output, so its bounds test never skips a sample. */
  lemma {:induction false} OverlapIndexInRange(frames: nat, fft: nat, f: nat, i: nat)
    requires f < frames && i < fft
    ensures f * HOP_SIZE + i < OutputLength(frames, fft)
  {
    assert f * HOP_SIZE <= (frames - 1) * HOP_SIZE;
  }

  // ---------------------------------------------------------------------
  // Pixel decoding
  // ---------------------------------------------------------------------

  /** `(h / 360) * 2 pi - pi`. */
  function HuePhase(hue: real): real {
    (hue / 360.0) * 2.0 * PI - PI
  }

  /** A hue in `[0, 360)` decodes to a phase in `[-pi, pi)`. */
  lemma {:induction false} HuePhaseRange(hue: real)
    requires 0.0 <= hue < 360.0
    ensures -PI <= HuePhase(hue) < PI
  {
    var x := hue / 360.0;
    DivMono(0.0, hue, 360.0);
    DivStrict(hue, 360.0, 360.0);
    MulMonotone(0.0, x, 2.0 * PI);
    MulStrict(x, 1.0, 2.0 * PI);
  }

  function Nyquist(sampleRate: nat): real {
    sampleRate as real / 2.0
  }

  /** The frequency of image row `bin`: geometric from 20 Hz to Nyquist in log mode, linear from 0 otherwise. */
  function BinFrequency(k: Kernels, header: CodecHeader, bin: nat, height: nat): real
    requires height >= 2
  {
    var nyquist := Nyquist(header.sampleRate);
    var t := bin as real / (height - 1) as real;
    if header.logScale then MIN_FREQ * k.pow(nyquist / MIN_FREQ, t) else t * nyquist
  }

  /** The high-frequency boost the encoder is taken to have applied: 6 dB per octave above 1 kHz. */
  function BoostDb(k: Kernels, freq: real): (b: real)
    ensures freq <= BOOST_START ==> b == 0.0
  {
    if freq > BOOST_START then BOOST_DB_PER_OCTAVE * k.log2(freq / BOOST_START) else 0.0
  }

  /** The magnitude of a pixel value: `v` spans -80 dB to 0 dB, the boost is removed, and the level is made linear. */
  function PixelMagnitude(k: Kernels, value: real, boost: real): (m: real)
    ensures m >= 0.0
  {
    var db := value * (DB_MAX - DB_MIN) + DB_MIN;
    Max(k.pow(10.0, (db - boost) / 20.0), 0.0)
  }

  /** The magnitude and phase the pixel loop stores at `[bin][frame]`, read from the flipped row. */
  function DecodedEntry(k: Kernels, header: CodecHeader, img: Image, bin: nat, frame: nat): (real, real)
    requires WellFormed(img) && img.height >= 2 && bin < img.height && frame < img.width
  {
    var hsv := RgbToHsv(img.pixels[FlipRow(img.height, bin)][frame]);
    var boost := BoostDb(k, BinFrequency(k, header, bin, img.height));
    (PixelMagnitude(k, hsv.v, boost), HuePhase(hsv.h))
  }

  function DecodedGrids(k: Kernels, header: CodecHeader, img: Image): (g: (Grid, Grid))
    requires WellFormed(img) && img.height >= 2
    ensures IsGrid(g.0, img.height, img.width) && IsGrid(g.1, img.height, img.width)
  {
    (seq(img.height, b requires 0 <= b < img.height =>
       seq(img.width, f requires 0 <= f < img.width => DecodedEntry(k, header, img, b, f).0)),
     seq(img.height, b requires 0 <= b < img.height =>
       seq(img.width, f requires 0 <= f < img.width => DecodedEntry(k, header, img, b, f).1)))
  }

  /** Decoded magnitudes are never negative, and decoded phases lie in `[-pi, pi)`. */
  lemma {:induction false} DecodedEntryRange(k: Kernels, header: CodecHeader, img: Image, bin: nat, frame: nat)
    requires WellFormed(img) && img.height >= 2 && bin < img.height && frame < img.width
    ensures DecodedEntry(k, header, img, bin, frame).0 >= 0.0
    ensures -PI <= DecodedEntry(k, header, img, bin, frame).1 < PI
  {
    RgbToHsvRange(img.pixels[FlipRow(img.height, bin)][frame]);
    HuePhaseRange(RgbToHsv(img.pixels[FlipRow(img.height, bin)][frame]).h);
  }

  /** The nested pixel loop, frames outside and bins inside. */
  method DecodePixels(k: Kernels, header: CodecHeader, img: Image) returns (mag: Grid, phase: Grid)
    requires WellFormed(img) && img.height >= 2
    ensures (mag, phase) == DecodedGrids(k, header, img)
  {
    var height := img.height;
    var width := img.width;
    mag := Zeros(height, width);
    phase := Zeros(height, width);
    var frame := 0;
    while frame < width
      invariant 0 <= frame <= width
      invariant IsGrid(mag, height, width) && IsGrid(phase, height, width)
      invariant forall b, f | 0 <= b < height && 0 <= f < frame ::
                  (mag[b][f], phase[b][f]) == DecodedEntry(k, header, img, b, f)
    {
      mag, phase := DecodeColumn(k, header, img, mag, phase, frame);
      frame := frame + 1;
    }
    GridsEqual(mag, phase, DecodedGrids(k, header, img), height, width);
  }

  /** The inner loop over the bins of one column, bottom row first. */
  method DecodeColumn(k: Kernels, header: CodecHeader, img: Image, mag0: Grid, phase0: Grid, frame: nat)
    returns (mag: Grid, phase: Grid)
    requires WellFormed(img) && img.height >= 2 && frame < img.width
    requires IsGrid(mag0, img.height, img.width) && IsGrid(phase0, img.height, img.width)
    ensures IsGrid(mag, img.height, img.width) && IsGrid(phase, img.height, img.width)
    ensures forall b | 0 <= b < img.height :: (mag[b][frame], phase[b][frame]) == DecodedEntry(k, header, img, b, frame)
    ensures forall b, f | 0 <= b < img.height && 0 <= f < img.width && f != frame ::
              mag[b][f] == mag0[b][f] && phase[b][f] == phase0[b][f]
  {
    var height := img.height;
    mag, phase := mag0, phase0;
    var bin := 0;
    while bin < height
      invariant 0 <= bin <= height
      invariant IsGrid(mag, height, img.width) && IsGrid(phase, height, img.width)
      invariant forall b | 0 <= b < bin :: (mag[b][frame], phase[b][frame]) == DecodedEntry(k, header, img, b, frame)
      invariant forall b, f | 0 <= b < height && 0 <= f < img.width && f != frame ::
                  mag[b][f] == mag0[b][f] && phase[b][f] == phase0[b][f]
    {
      var y := height - 1 - bin;
      var hsv := RgbToHsv(img.pixels[y][frame]);
      var ph := HuePhase(hsv.h);
      var freq := BinFrequency(k, header, bin, height);
      var boost := BoostDb(k, freq);
      var m := PixelMagnitude(k, hsv.v, boost);
      mag := Put(mag, bin, frame, m);
      phase := Put(phase, bin, frame, ph);
      bin := bin + 1;
    }
  }

  // ---------------------------------------------------------------------
  // Back from the logarithmic frequency axis
  // ---------------------------------------------------------------------

  /** The decoder's demand on `ln`: it does not vanish at the ratio of Nyquist to 20 Hz when that ratio exceeds 1. */
  predicate LnDividesAt(k: Kernels, sampleRate: nat) {
    Nyquist(sampleRate) > MIN_FREQ ==> k.ln(Nyquist(sampleRate) / MIN_FREQ) != 0.0
  }

  /** The same demand for an image: only the log-to-linear resampling divides by `ln`. */
  predicate LnDividesFor(k: Kernels, header: CodecHeader) {
    header.logScale ==> LnDividesAt(k, header.sampleRate)
  }

  /** `freq_linear`: linear bin `lb` of `bins` spans 0 Hz to Nyquist, so its frequency never exceeds Nyquist. */
  function LinearFrequency(sampleRate: nat, lb: nat, bins: nat): (f: real)
    requires 2 <= bins && lb < bins
    ensures 0.0 <= f <= Nyquist(sampleRate)
  {
    DivMono(lb as real, (bins - 1) as real, (bins - 1) as real);
    MulMonotone(lb as real / (bins - 1) as real, 1.0, Nyquist(sampleRate));
    lb as real / (bins - 1) as real * Nyquist(sampleRate)
  }

  /**
   * The fractional log bin that linear bin `lb` reads: 0 up to 20 Hz, and
   * above that the position of its frequency between 20 Hz and Nyquist on a
   * logarithmic axis, times `height - 1`.
   */
  function LinearBinPosition(k: Kernels, sampleRate: nat, lb: nat, bins: nat, height: nat): real
    requires 2 <= bins && lb < bins && height >= 1
    requires LnDividesAt(k, sampleRate)
  {
    var nyquist := Nyquist(sampleRate);
    var freq := LinearFrequency(sampleRate, lb, bins);
    if freq <= MIN_FREQ then 0.0
    else
      assert nyquist > MIN_FREQ;
      k.ln(freq / MIN_FREQ) / k.ln(nyquist / MIN_FREQ) * (height - 1) as real
  }

  function LinearBinPositions(k: Kernels, sampleRate: nat, height: nat): (p: seq<real>)
    requires height >= 2
    requires LnDividesAt(k, sampleRate)
    ensures |p| == height
  {
    seq(height, lb requires 0 <= lb < height => LinearBinPosition(k, sampleRate, lb, height, height))
  }

  /** Linear bins at or below 20 Hz all read the lowest log row, position 0. */
  lemma {:induction false} LowBinsReadRowZero(k: Kernels, sampleRate: nat, lb: nat, bins: nat, height: nat)
    requires 2 <= bins && lb < bins && height >= 1
    requires LnDividesAt(k, sampleRate)
    requires LinearFrequency(sampleRate, lb, bins) <= MIN_FREQ
    ensures LinearBinPosition(k, sampleRate, lb, bins, height) == 0.0
  {
  }

  // ---------------------------------------------------------------------
  // Magnitude normalisation
  // ---------------------------------------------------------------------

  /** Every magnitude divided by the largest one, when that is positive; the grid unchanged otherwise. */
  function MagnitudesNormalized(g: Grid): (r: Grid)
    ensures |r| == |g| && forall i | 0 <= i < |g| :: |r[i]| == |g[i]|
  {
    var peak := GridMax(g);
    if peak > 0.0 then ScaledGrid(g, peak) else g
  }

  function ScaledGrid(g: Grid, d: real): (r: Grid)
    requires d != 0.0
    ensures |r| == |g| && forall i | 0 <= i < |g| :: |r[i]| == |g[i]|
    ensures forall i, j | 0 <= i < |g| && 0 <= j < |g[i]| :: r[i][j] == g[i][j] / d
  {
    seq(|g|, i requires 0 <= i < |g| => seq(|g[i]|, j requires 0 <= j < |g[i]| => g[i][j] / d))
  }

  /**
   * After normalisation non-negative magnitudes lie in `[0, 1]`, and when any
   * of them was positive the largest is exactly 1.
   */
  lemma {:induction false} MagnitudesNormalizedRange(g: Grid)
    requires forall i, j | 0 <= i < |g| && 0 <= j < |g[i]| :: g[i][j] >= 0.0
    ensures var r := MagnitudesNormalized(g);
            && (forall i, j | 0 <= i < |r| && 0 <= j < |r[i]| :: 0.0 <= r[i][j] <= 1.0)
            && (GridMax(g) > 0.0 ==> exists i, j | 0 <= i < |r| && 0 <= j < |r[i]| :: r[i][j] == 1.0)
  {
    var peak := GridMax(g);
    if peak > 0.0 {
      var r := ScaledGrid(g, peak);
      assert r == MagnitudesNormalized(g);
      forall i, j | 0 <= i < |r| && 0 <= j < |r[i]|
        ensures 0.0 <= r[i][j] <= 1.0
      {
        UnitQuotient(g[i][j], peak);
      }
      var i, j :| 0 <= i < |g| && 0 <= j < |g[i]| && g[i][j] == peak;
      DivSelf(peak);
      assert r[i][j] == 1.0;
    } else {
      assert MagnitudesNormalized(g) == g;
    }
  }

  lemma {:induction false} UnitQuotient(x: real, peak: real)
    requires 0.0 <= x <= peak && peak > 0.0
    ensures 0.0 <= x / peak <= 1.0
  {
    DivMono(0.0, x, peak);
    DivMono(x, peak, peak);
  }

  /** The `iter_mut` loops that divide every magnitude by the largest. */
  method NormalizeMagnitudes(g: Grid) returns (r: Grid)
    ensures r == MagnitudesNormalized(g)
  {
    var peak := GridMax(g);
    r := g;
    if peak > 0.0 {
      ghost var target := ScaledGrid(g, peak);
      var i := 0;
      while i < |r|
        invariant 0 <= i <= |r| && |r| == |g|
        invariant forall i' | 0 <= i' < i :: r[i'] == target[i']
        invariant forall i' | i <= i' < |g| :: r[i'] == g[i']
      {
        var row := DivideRow(r[i], peak);
        assert row == target[i];
        r := r[i := row];
        i := i + 1;
      }
      assert r == target;
    }
  }

  /** The inner `iter_mut` loop: every value of one row divided by `d`, in place. */
  method DivideRow(row: seq<real>, d: real) returns (r: seq<real>)
    requires d != 0.0
    ensures |r| == |row| && forall j | 0 <= j < |row| :: r[j] == row[j] / d
  {
    r := row;
    for j := 0 to |r|
      invariant |r| == |row|
      invariant forall j' | 0 <= j' < j :: r[j'] == row[j'] / d
      invariant forall j' | j <= j' < |row| :: r[j'] == row[j']
    {
      r := r[j := r[j] / d];
    }
  }

  // ---------------------------------------------------------------------
  // One frame's spectrum
  // ---------------------------------------------------------------------

  /** `Complex::new(m * p.cos(), m * p.sin())`. */
  function Polar(k: Kernels, m: real, p: real): Complex {
    Complex(m * k.cos(p), m * k.sin(p))
  }

  /** `spectrogram_mag.len().min(fft_size / 2 + 1)`: the bins given a value. */
  function BinsUsed(rows: nat, fft: nat): nat {
    if rows < fft / 2 + 1 then rows else fft / 2 + 1
  }

  /** `num_bins_to_use.min(fft_size / 2)`: the bins below it, from 1, are mirrored. */
  function MirrorEnd(rows: nat, fft: nat): nat {
    var used := BinsUsed(rows, fft);
    if used < fft / 2 then used else fft / 2
  }

  /** The bins used fit the buffer, and no mirrored bin lands on a bin used. */
  lemma {:induction false} MirrorBounds(rows: nat, fft: nat)
    requires fft >= 2
    ensures BinsUsed(rows, fft) <= fft
    ensures MirrorEnd(rows, fft) <= BinsUsed(rows, fft)
    ensures BinsUsed(rows, fft) + MirrorEnd(rows, fft) <= fft + 1
  {
  }

  predicate ColumnIn(mag: Grid, phase: Grid, frame: nat) {
    |phase| == |mag| && forall i | 0 <= i < |mag| :: frame < |mag[i]| && frame < |phase[i]|
  }

  /**
   * Entry `i` of the spectrum of column `frame`: the polar value of bin `i`
   * for the bins used, the conjugate of bin `fft - i` where that bin is
   * mirrored, and zero elsewhere.
   */
  function SpectrumEntry(k: Kernels, mag: Grid, phase: Grid, frame: nat, fft: nat, i: nat): Complex
    requires ColumnIn(mag, phase, frame) && i < fft
  {
    if i < BinsUsed(|mag|, fft) then Polar(k, mag[i][frame], phase[i][frame])
    else if fft - MirrorEnd(|mag|, fft) < i then
      var b := fft - i;
      Conj(Polar(k, mag[b][frame], phase[b][frame]))
    else ZERO
  }

  function SpectrumOf(k: Kernels, mag: Grid, phase: Grid, frame: nat, fft: nat): (s: seq<Complex>)
    requires ColumnIn(mag, phase, frame)
    ensures |s| == fft
  {
    seq(fft, i requires 0 <= i < fft => SpectrumEntry(k, mag, phase, frame, fft, i))
  }

  /**
   * When the grid has a row for every non-negative bin, bins 0 to `fft / 2`
   * carry their polar values and every bin above is the conjugate of its
   * mirror image: the spectrum is Hermitian apart from the Nyquist bin's
   * own phase, so its inverse is real up to that bin.
   */
  lemma {:induction false} SpectrumHermitian(k: Kernels, mag: Grid, phase: Grid, frame: nat, fft: nat)
    requires ColumnIn(mag, phase, frame) && fft >= 2 && |mag| >= fft / 2 + 1
    ensures var s := SpectrumOf(k, mag, phase, frame, fft);
            && (forall b | 0 <= b <= fft / 2 :: s[b] == Polar(k, mag[b][frame], phase[b][frame]))
            && (forall b | 1 <= b < fft / 2 :: s[fft - b] == Conj(s[b]))
  {
    var s := SpectrumOf(k, mag, phase, frame, fft);
    assert BinsUsed(|mag|, fft) == fft / 2 + 1;
    assert MirrorEnd(|mag|, fft) == fft / 2;
    forall b | 1 <= b < fft / 2
      ensures s[fft - b] == Conj(s[b])
    {
      assert s[fft - b] == SpectrumEntry(k, mag, phase, frame, fft, fft - b);
      assert fft - b >= fft / 2 + 1;
    }
  }

  /** The two loops that fill a frame's spectrum buffer. */
  method BuildSpectrum(k: Kernels, mag: Grid, phase: Grid, frame: nat, fft: nat) returns (s: seq<Complex>)
    requires ColumnIn(mag, phase, frame) && |mag| > 0 && fft >= 2
    ensures s == SpectrumOf(k, mag, phase, frame, fft)
  {
    var spectrum := new Complex[fft](_ => ZERO);
    MirrorBounds(|mag|, fft);
    SetBins(k, mag, phase, frame, spectrum);
    MirrorBins(k, mag, phase, frame, spectrum);
    s := spectrum[..];
    assert forall i | 0 <= i < fft :: s[i] == SpectrumEntry(k, mag, phase, frame, fft, i);
  }

  /** The first loop: the polar value of each bin used, in a buffer of zeros. */
  method SetBins(k: Kernels, mag: Grid, phase: Grid, frame: nat, spectrum: array<Complex>)
    requires ColumnIn(mag, phase, frame) && |mag| > 0 && spectrum.Length >= 2
    requires forall i | 0 <= i < spectrum.Length :: spectrum[i] == ZERO
    modifies spectrum
    ensures forall i | 0 <= i < spectrum.Length ::
              spectrum[i] == PartialSpectrum(k, mag, phase, frame, spectrum.Length, BinsUsed(|mag|, spectrum.Length), 1, i)
  {
    var fft := spectrum.Length;
    MirrorBounds(|mag|, fft);
    for bin := 0 to BinsUsed(|mag|, fft)
      invariant forall i | 0 <= i < fft :: spectrum[i] == PartialSpectrum(k, mag, phase, frame, fft, bin, 1, i)
    {
      spectrum[bin] := Polar(k, mag[bin][frame], phase[bin][frame]);
    }
  }

  /** The second loop: each mirrored bin's conjugate written at `fft - bin`. */
  method MirrorBins(k: Kernels, mag: Grid, phase: Grid, frame: nat, spectrum: array<Complex>)
    requires ColumnIn(mag, phase, frame) && |mag| > 0 && spectrum.Length >= 2
    requires forall i | 0 <= i < spectrum.Length ::
               spectrum[i] == PartialSpectrum(k, mag, phase, frame, spectrum.Length, BinsUsed(|mag|, spectrum.Length), 1, i)
    modifies spectrum
    ensures forall i | 0 <= i < spectrum.Length ::
              spectrum[i] == PartialSpectrum(k, mag, phase, frame, spectrum.Length, BinsUsed(|mag|, spectrum.Length),
                                             MirrorEnd(|mag|, spectrum.Length), i)
  {
    var fft := spectrum.Length;
    var used := BinsUsed(|mag|, fft);
    MirrorBounds(|mag|, fft);
    for bin := 1 to MirrorEnd(|mag|, fft)
      invariant forall i | 0 <= i < fft :: spectrum[i] == PartialSpectrum(k, mag, phase, frame, fft, used, bin, i)
    {
      spectrum[fft - bin] := Conj(spectrum[bin]);
    }
  }

  /**
   * The buffer of `BuildSpectrum` once the first `filled` bins hold their
   * polar values and the bins from 1 below `mirrored` have been mirrored.
   */
  function PartialSpectrum(k: Kernels, mag: Grid, phase: Grid, frame: nat, fft: nat, filled: nat, mirrored: nat, i: nat): Complex
    requires ColumnIn(mag, phase, frame) && fft >= 2 && i < fft
    requires filled <= BinsUsed(|mag|, fft) && mirrored <= MirrorEnd(|mag|, fft)
  {
    if i < filled then Polar(k, mag[i][frame], phase[i][frame])
    else if BinsUsed(|mag|, fft) <= i && fft - mirrored < i then
      var b := fft - i;
      Conj(Polar(k, mag[b][frame], phase[b][frame]))
    else ZERO
  }

  // ---------------------------------------------------------------------
  // Overlap-add
  // ---------------------------------------------------------------------

  /** The real parts of the first `fft` values of the inverse transform, as the loop reads the buffer. */
  function RealParts(out: seq<Complex>, fft: nat): (r: seq<real>)
    ensures |r| == fft
  {
    seq(fft, i requires 0 <= i < fft => if i < |out| then out[i].re else 0.0)
  }

  /** Column `frame` synthesised: its spectrum through the inverse FFT. */
  function FrameSignal(k: Kernels, mag: Grid, phase: Grid, frame: nat, fft: nat): (r: seq<real>)
    requires ColumnIn(mag, phase, frame)
    ensures |r| == fft
  {
    RealParts(k.inverse(SpectrumOf(k, mag, phase, frame, fft)), fft)
  }

  /** Every frame signal holds `fft` samples. */
  predicate FramesOfSize(sigs: seq<seq<real>>, fft: nat) {
    forall f | 0 <= f < |sigs| :: |sigs[f]| == fft
  }

  function FrameSignals(k: Kernels, mag: Grid, phase: Grid, frames: nat, fft: nat): (r: seq<seq<real>>)
    requires forall f | 0 <= f < frames :: ColumnIn(mag, phase, f)
    ensures |r| == frames && FramesOfSize(r, fft)
  {
    seq(frames, f requires 0 <= f < frames => FrameSignal(k, mag, phase, f, fft))
  }

  /** `frame * HOP_SIZE`: the output index where frame `f` starts. */
  function FrameStart(f: nat): nat {
    f * HOP_SIZE
  }

  /** The Hann window of one frame: `hann_window(i, fft_size)` for every `i < fft_size`. */
  function HannWindow(k: Kernels, fft: nat): (win: seq<real>)
    requires fft >= 2
    ensures |win| == fft
  {
    seq(fft, i requires 0 <= i < fft => Hann(k, i, fft))
  }

  /** The window a frame starting at `start` lays on output sample `j`, 0 outside the frame. */
  function WindowAt(win: seq<real>, start: nat, j: nat): real {
    if start <= j < start + |win| then win[j - start] else 0.0
  }

  /** One windowed sample scaled down by the transform size: `value.re * window / fft_size`. */
  function Windowed(x: real, window: real, fft: nat): real
    requires fft > 0
  {
    x * window / fft as real
  }

  /** What a frame starting at `start` adds to output sample `j`, 0 outside the frame. */
  function ContributionAt(sig: seq<real>, win: seq<real>, start: nat, j: nat): real
    requires |sig| == |win|
  {
    if start <= j < start + |win| then Windowed(sig[j - start], win[j - start], |win|) else 0.0
  }

  /** The sum at output sample `j` of the contributions of the first `n` frames. */
  function OverlapSum(sigs: seq<seq<real>>, win: seq<real>, j: nat, n: nat): real
    requires n <= |sigs| && FramesOfSize(sigs, |win|)
  {
    if n == 0 then 0.0
    else OverlapSum(sigs, win, j, n - 1) + ContributionAt(sigs[n - 1], win, FrameStart(n - 1), j)
  }

  /** The sum at output sample `j` of the windows of the first `n` frames. */
  function WindowSum(win: seq<real>, j: nat, n: nat): real {
    if n == 0 then 0.0 else WindowSum(win, j, n - 1) + WindowAt(win, FrameStart(n - 1), j)
  }

  /** The overlap sums of the first `n` frames at output samples `0 .. len - 1`. */
  function OverlapSums(sigs: seq<seq<real>>, win: seq<real>, len: nat, n: nat): (r: seq<real>)
    requires n <= |sigs| && FramesOfSize(sigs, |win|)
  {
    seq(len, j requires 0 <= j < len => OverlapSum(sigs, win, j, n))
  }

  /** The window sums of the first `n` frames at output samples `0 .. len - 1`. */
  function WindowSums(win: seq<real>, len: nat, n: nat): (r: seq<real>) {
    seq(len, j requires 0 <= j < len => WindowSum(win, j, n))
  }

  /** Adding frame `n` to the sums of the frames before it gives the sums of the first `n + 1` frames. */
  lemma {:induction false} SumsStep(sigs: seq<seq<real>>, win: seq<real>, len: nat, n: nat)
    requires n < |sigs| && FramesOfSize(sigs, |win|)
    ensures FrameAdded(OverlapSums(sigs, win, len, n), sigs[n], win, FrameStart(n)) == OverlapSums(sigs, win, len, n + 1)
    ensures WindowAdded(WindowSums(win, len, n), win, FrameStart(n)) == WindowSums(win, len, n + 1)
  {
  }

  /** A frame starting at `start` either does not cover sample `j` or holds `c` there. */
  predicate HoldsAt(sig: seq<real>, start: nat, j: nat, c: real) {
    start <= j < start + |sig| ==> sig[j - start] == c
  }

  /** `x` is `c / d` times `w`, stated without dividing: `x * d == c * w`. */
  predicate Proportional(x: real, w: real, c: real, d: real) {
    x * d == c * w
  }

  /** Sums of proportional terms are proportional. */
  lemma {:induction false} ProportionalAdd(x: real, w: real, y: real, v: real, c: real, d: real)
    requires Proportional(x, w, c, d) && Proportional(y, v, c, d)
    ensures Proportional(x + y, w + v, c, d)
  {
  }

  /**
   * Where every frame covering a sample holds the same value `c` there,
   * `fft` times the overlap sum is `c` times the window sum: dividing by a
   * positive window sum undoes the window and leaves `c / fft`.
   */
  lemma {:induction false} OverlapOfEqualValues(sigs: seq<seq<real>>, win: seq<real>, j: nat, n: nat, c: real)
    requires n <= |sigs| && FramesOfSize(sigs, |win|)
    requires forall f | 0 <= f < n :: HoldsAt(sigs[f], FrameStart(f), j, c)
    ensures Proportional(OverlapSum(sigs, win, j, n), WindowSum(win, j, n), c, |win| as real)
  {
    if n > 0 {
      OverlapOfEqualValues(sigs, win, j, n - 1, c);
      var start := FrameStart(n - 1);
      ContributionOfHeld(sigs[n - 1], win, start, j, c);
      ProportionalAdd(OverlapSum(sigs, win, j, n - 1), WindowSum(win, j, n - 1),
                      ContributionAt(sigs[n - 1], win, start, j), WindowAt(win, start, j), c, |win| as real);
    }
  }

  /** A frame holding `c` at a sample adds `c / fft` times its window there: `fft` times its contribution is `c` times its window. */
  lemma {:induction false} ContributionOfHeld(sig: seq<real>, win: seq<real>, start: nat, j: nat, c: real)
    requires |sig| == |win| && HoldsAt(sig, start, j, c)
    ensures Proportional(ContributionAt(sig, win, start, j), WindowAt(win, start, j), c, |win| as real)
  {
    if start <= j < start + |win| {
      DivTimes(c * win[j - start], |win| as real);
    }
  }

  /** The values one frame adds to the output, `value.re * window / fft_size`, by offset. */
  function Contributions(sig: seq<real>, win: seq<real>): seq<real>
    requires |sig| == |win|
  {
    seq(|win|, m requires 0 <= m < |win| => Windowed(sig[m], win[m], |win|))
  }

  /** `cur` is `base` with the first `i` values of `add` added from index `start` on. */
  ghost predicate Spread(cur: seq<real>, base: seq<real>, add: seq<real>, start: nat, i: nat)
    requires i <= |add|
  {
    && |cur| == |base|
    && forall j | 0 <= j < |cur| :: cur[j] == base[j] + (if start <= j < start + i then add[j - start] else 0.0)
  }

  /** Adding the next value, or skipping it past the end of the buffer, spreads one more. */
  lemma {:induction false} SpreadStep(cur: seq<real>, base: seq<real>, add: seq<real>, start: nat, i: nat)
    requires i < |add| && Spread(cur, base, add, start, i)
    ensures start + i < |cur| ==> Spread(cur[start + i := cur[start + i] + add[i]], base, add, start, i + 1)
    ensures start + i >= |cur| ==> Spread(cur, base, add, start, i + 1)
  {
    if start + i < |cur| {
      var next := cur[start + i := cur[start + i] + add[i]];
      forall j | 0 <= j < |next|
        ensures next[j] == base[j] + (if start <= j < start + i + 1 then add[j - start] else 0.0)
      {
        if j == start + i {
          assert j - start == i;
        }
      }
    }
  }

  /** `out` with the contribution of a frame starting at `start` added at every index. */
  function FrameAdded(out: seq<real>, sig: seq<real>, win: seq<real>, start: nat): (r: seq<real>)
    requires |sig| == |win|
  {
    seq(|out|, j requires 0 <= j < |out| => out[j] + ContributionAt(sig, win, start, j))
  }

  /** `ws` with the window of a frame starting at `start` added at every index. */
  function WindowAdded(ws: seq<real>, win: seq<real>, start: nat): (r: seq<real>) {
    seq(|ws|, j requires 0 <= j < |ws| => ws[j] + WindowAt(win, start, j))
  }

  /** A whole frame spread over the buffers adds its contribution and its window at every index. */
  lemma {:induction false} SpreadFrame(out: seq<real>, out0: seq<real>, ws: seq<real>, ws0: seq<real>,
                    sig: seq<real>, win: seq<real>, start: nat)
    requires |sig| == |win|
    requires Spread(out, out0, Contributions(sig, win), start, |win|)
    requires Spread(ws, ws0, win, start, |win|)
    ensures out == FrameAdded(out0, sig, win, start)
    ensures ws == WindowAdded(ws0, win, start)
  {
    forall j | 0 <= j < |out|
      ensures out[j] == out0[j] + ContributionAt(sig, win, start, j)
    {
      if start <= j < start + |win| {
        assert Contributions(sig, win)[j - start] == ContributionAt(sig, win, start, j);
      }
    }
  }

  /**
   * The inner overlap-add loop for one frame: each of its `fft` values, with
   * the window, is added to the output and the window to the window sum,
   * where the index lies inside the buffers.
   */
  method AddFrame(k: Kernels, output: array<real>, windowSum: array<real>, sig: seq<real>, start: nat, fft: nat)
    requires output != windowSum && output.Length == windowSum.Length
    requires fft >= 2 && |sig| == fft
    modifies output, windowSum
    ensures output[..] == FrameAdded(old(output[..]), sig, HannWindow(k, fft), start)
    ensures windowSum[..] == WindowAdded(old(windowSum[..]), HannWindow(k, fft), start)
  {
    ghost var out0 := output[..];
    ghost var ws0 := windowSum[..];
    ghost var win := HannWindow(k, fft);
    ghost var contributions := Contributions(sig, win);
    for i := 0 to fft
      invariant Spread(output[..], out0, contributions, start, i)
      invariant Spread(windowSum[..], ws0, win, start, i)
    {
      SpreadStep(output[..], out0, contributions, start, i);
      SpreadStep(windowSum[..], ws0, win, start, i);
      if start + i < output.Length {
        var window := Hann(k, i, fft);
        assert win[i] == window && contributions[i] == Windowed(sig[i], window, fft);
        output[start + i] := output[start + i] + Windowed(sig[i], window, fft);
        windowSum[start + i] := windowSum[start + i] + window;
      }
    }
    SpreadFrame(output[..], out0, windowSum[..], ws0, sig, win, start);
  }

  /** Each output sample divided by its window sum where that sum is positive. */
  function WindowNormalized(out: seq<real>, ws: seq<real>): (r: seq<real>)
    requires |ws| == |out|
    ensures |r| == |out|
    ensures forall i | 0 <= i < |out| :: ws[i] > 0.0 ==> r[i] * ws[i] == out[i]
    ensures forall i | 0 <= i < |out| :: ws[i] <= 0.0 ==> r[i] == out[i]
  {
    seq(|out|, i requires 0 <= i < |out| => if ws[i] > 0.0 then out[i] / ws[i] else out[i])
  }

  method NormalizeByWindowSum(output: array<real>, windowSum: array<real>)
    requires output != windowSum && output.Length == windowSum.Length
    modifies output
    ensures output[..] == WindowNormalized(old(output[..]), windowSum[..])
  {
    for i := 0 to output.Length
      invariant forall j | 0 <= j < i :: output[j] == WindowNormalized(old(output[..]), windowSum[..])[j]
      invariant forall j | i <= j < output.Length :: output[j] == old(output[j])
    {
      if windowSum[i] > 0.0 {
        output[i] := output[i] / windowSum[i];
      }
    }
  }

  /** The output before peak normalisation: the overlap sums, divided by the window sums where those are positive. */
  function Synthesized(k: Kernels, sigs: seq<seq<real>>, fft: nat, len: nat): (r: seq<real>)
    requires fft >= 2 && FramesOfSize(sigs, fft)
    ensures |r| == len
  {
    var win := HannWindow(k, fft);
    WindowNormalized(OverlapSums(sigs, win, len, |sigs|), WindowSums(win, len, |sigs|))
  }

  /**
   * Where every frame covering output sample `j` holds the same value `c`
   * there and the window sum is positive, normalising by the window sum
   * gives back `c / fft`: the Hann weights cancel, whatever they are.
   */
  lemma {:induction false} HeldSampleRestored(k: Kernels, sigs: seq<seq<real>>, fft: nat, len: nat, j: nat, c: real)
    requires fft >= 2 && FramesOfSize(sigs, fft) && j < len
    requires forall f | 0 <= f < |sigs| :: HoldsAt(sigs[f], FrameStart(f), j, c)
    requires WindowSum(HannWindow(k, fft), j, |sigs|) > 0.0
    ensures Synthesized(k, sigs, fft, len)[j] == c / fft as real
  {
    var win := HannWindow(k, fft);
    OverlapOfEqualValues(sigs, win, j, |sigs|, c);
    CancelWindowSum(Synthesized(k, sigs, fft, len)[j], OverlapSum(sigs, win, j, |sigs|),
                    WindowSum(win, j, |sigs|), c, fft as real);
  }

  lemma {:induction false} CancelWindowSum(r: real, o: real, ws: real, c: real, d: real)
    requires ws > 0.0 && d > 0.0
    requires r * ws == o && Proportional(o, ws, c, d)
    ensures r == c / d
  {
    assert r * d * ws == c * ws;
    assert r * d == c;
  }

  // ---------------------------------------------------------------------
  // Peak normalisation and quantisation
  // ---------------------------------------------------------------------

  function Magnitudes(s: seq<real>): (r: seq<real>)
    ensures |r| == |s| && forall i | 0 <= i < |s| :: r[i] == Abs(s[i])
  {
    seq(|s|, i requires 0 <= i < |s| => Abs(s[i]))
  }

  /** `iter().map(|x| x.abs()).fold(0.0, f32::max)`. */
  function Peak(s: seq<real>): (p: real)
    ensures 0.0 <= p && forall i | 0 <= i < |s| :: Abs(s[i]) <= p
    ensures p == 0.0 || exists i | 0 <= i < |s| :: Abs(s[i]) == p
  {
    RowMax(Magnitudes(s), 0.0)
  }

  /** One sample scaled to the headroom: `(sample / max) * 0.95`. */
  function HeadroomScaled(x: real, peak: real): real
    requires peak > 0.0
  {
    (x / peak) * HEADROOM
  }

  /** Every sample scaled by `0.95 / peak` when the peak is positive; the output unchanged otherwise. */
  function PeakNormalized(s: seq<real>): (r: seq<real>)
    ensures |r| == |s|
  {
    var peak := Peak(s);
    if peak > 0.0 then seq(|s|, i requires 0 <= i < |s| => HeadroomScaled(s[i], peak)) else s
  }

  lemma {:induction false} HeadroomScale(x: real, peak: real)
    requires 0.0 < peak && Abs(x) <= peak
    ensures Abs(HeadroomScaled(x, peak)) <= HEADROOM
  {
    QuotientInUnit(x, peak);
    var q := x / peak;
    if q >= 0.0 {
      MulMonotone(q, 1.0, HEADROOM);
    } else {
      MulMonotone(-q, 1.0, HEADROOM);
      assert (-q) * HEADROOM == -(q * HEADROOM);
    }
  }

  /**
   * After peak normalisation every sample lies within 0.95 of zero, and a
   * signal that is not silent reaches 0.95 in magnitude.
   */
  lemma {:induction false} PeakNormalizedRange(s: seq<real>)
    ensures var r := PeakNormalized(s);
            && (forall i | 0 <= i < |r| :: Abs(r[i]) <= HEADROOM)
            && (Peak(s) > 0.0 ==> exists i | 0 <= i < |r| :: Abs(r[i]) == HEADROOM)
  {
    var peak := Peak(s);
    var r := PeakNormalized(s);
    if peak > 0.0 {
      forall i | 0 <= i < |r| ensures Abs(r[i]) <= HEADROOM {
        HeadroomScale(s[i], peak);
      }
      var i :| 0 <= i < |s| && Abs(s[i]) == peak;
      HeadroomReached(s[i], peak);
      assert Abs(r[i]) == HEADROOM;
    } else {
      forall i | 0 <= i < |r| ensures Abs(r[i]) <= HEADROOM {
        assert Abs(s[i]) <= 0.0;
      }
    }
  }

  lemma {:induction false} HeadroomReached(x: real, peak: real)
    requires 0.0 < peak && Abs(x) == peak
    ensures Abs(HeadroomScaled(x, peak)) == HEADROOM
  {
    DivSelf(peak);
    if x < 0.0 {
      assert x / peak == -(peak / peak);
    }
  }

  /** The in-place loop of the peak normalisation. */
  method PeakNormalize(output: array<real>)
    modifies output
    ensures output[..] == PeakNormalized(old(output[..]))
  {
    var peak := Peak(output[..]);
    if peak > 0.0 {
      for i := 0 to output.Length
        invariant forall j | 0 <= j < i :: output[j] == HeadroomScaled(old(output[j]), peak)
        invariant forall j | i <= j < output.Length :: output[j] == old(output[j])
      {
        output[i] := HeadroomScaled(output[i], peak);
      }
    }
  }

  /** `(sample * i16::MAX as f32) as i16`. */
  function QuantizeSample(x: real): int {
    AsI16(x * 32767.0)
  }

  /**
   * A sample within the headroom is quantised without saturating, to a value
   * no larger in magnitude than 31128, the truncation of `0.95 * 32767`.
   */
  lemma {:induction false} QuantizeWithinHeadroom(x: real)
    requires Abs(x) <= HEADROOM
    ensures QuantizeSample(x) == Trunc(x * 32767.0)
    ensures -31128 <= QuantizeSample(x) <= 31128
  {
    var y := x * 32767.0;
    if x >= 0.0 {
      MulMonotone(x, HEADROOM, 32767.0);
    } else {
      MulMonotone(-x, HEADROOM, 32767.0);
      assert (-x) * 32767.0 == -y;
    }
    assert -31128.65 <= y <= 31128.65;
  }

  function Quantized(s: seq<real>): (r: seq<real>)
    ensures |r| == |s| && forall i | 0 <= i < |s| :: r[i] == QuantizeSample(s[i]) as real
  {
    seq(|s|, i requires 0 <= i < |s| => QuantizeSample(s[i]) as real)
  }

  /** The WAV header the decoder writes: mono, 16-bit integer samples at the header's rate. */
  function OutputSpec(sampleRate: nat): WavSpec {
    WavSpec(Int, 16, sampleRate, 1)
  }

  // ---------------------------------------------------------------------
  // The whole conversion
  // ---------------------------------------------------------------------

  /** The linear-scale grids the synthesis reads: the decoded pixels, resampled back from the log axis in log mode. */
  function LinearGrids(k: Kernels, header: CodecHeader, img: Image): (g: (Grid, Grid))
    requires WellFormed(img) && img.height >= 2
    requires LnDividesFor(k, header)
    ensures IsGrid(g.0, img.height, img.width) && IsGrid(g.1, img.height, img.width)
  {
    var g := DecodedGrids(k, header, img);
    if header.logScale then Resampled(g.0, g.1, img.width, LinearBinPositions(k, header.sampleRate, img.height))
    else g
  }

  /** The output before peak normalisation, from linear-scale grids of `frames` columns. */
  function SynthesizedFrom(k: Kernels, mag: Grid, phase: Grid, rows: nat, frames: nat, fft: nat): (r: seq<real>)
    requires IsGrid(mag, rows, frames) && IsGrid(phase, rows, frames) && frames >= 1 && fft >= 2
    ensures |r| == OutputLength(frames, fft)
  {
    ColumnsOfGrid(mag, phase, rows, frames);
    Synthesized(k, FrameSignals(k, mag, phase, frames, fft), fft, OutputLength(frames, fft))
  }

  /** Column `frame` can be read from grids of `frames` columns. */
  lemma {:induction false} ColumnsOfGrid(mag: Grid, phase: Grid, rows: nat, frames: nat)
    requires IsGrid(mag, rows, frames) && IsGrid(phase, rows, frames)
    ensures forall f | 0 <= f < frames :: ColumnIn(mag, phase, f)
  {
  }

  /** The samples written for an image of at least two rows and one column. */
  function DecodedSamples(k: Kernels, header: CodecHeader, img: Image): (r: seq<real>)
    requires WellFormed(img) && img.height >= 2 && img.width >= 1
    requires LnDividesFor(k, header)
    ensures |r| == OutputLength(img.width, FftSizeFor(img.height))
  {
    var g := LinearGrids(k, header, img);
    var mag := MagnitudesNormalized(g.0);
    Quantized(PeakNormalized(SynthesizedFrom(k, mag, g.1, img.height, img.width, FftSizeFor(img.height))))
  }

  /** Every sample written lies within 31128 of zero. */
  lemma {:induction false} DecodedSamplesRange(k: Kernels, header: CodecHeader, img: Image)
    requires WellFormed(img) && img.height >= 2 && img.width >= 1
    requires LnDividesFor(k, header)
    ensures forall i | 0 <= i < |DecodedSamples(k, header, img)| :: -31128.0 <= DecodedSamples(k, header, img)[i] <= 31128.0
  {
    var g := LinearGrids(k, header, img);
    var mag := MagnitudesNormalized(g.0);
    var pre := SynthesizedFrom(k, mag, g.1, img.height, img.width, FftSizeFor(img.height));
    var out := PeakNormalized(pre);
    PeakNormalizedRange(pre);
    forall i | 0 <= i < |out| ensures -31128.0 <= Quantized(out)[i] <= 31128.0 {
      QuantizeWithinHeadroom(out[i]);
    }
  }

  /**
   * `spectrogram_to_audio` with the file I/O taken out: the WAV file it
   * writes for an image and its path, or the panic it stops with.
   */
  function Decode(k: Kernels, img: Image, imagePath: FilePath): Result<Wav>
    requires WellFormed(img)
    requires LnDividesFor(k, HeaderOf(imagePath))
  {
    var header := HeaderOf(imagePath);
    if img.height == 0 || img.width == 0 then Err(Aborted(EmptyImage))
    else if img.height == 1 then Err(Aborted(ZeroFftSize))
    else Ok(Wav(OutputSpec(header.sampleRate), DecodedSamples(k, header, img)))
  }

  /** The overlap-add loop over the frames and the division by the window sum. */
  method Synthesize(k: Kernels, mag: Grid, phase: Grid, rows: nat, frames: nat, fft: nat) returns (output: array<real>)
    requires IsGrid(mag, rows, frames) && IsGrid(phase, rows, frames) && rows >= 1 && frames >= 1 && fft >= 2
    ensures fresh(output)
    ensures output[..] == SynthesizedFrom(k, mag, phase, rows, frames, fft)
  {
    ColumnsOfGrid(mag, phase, rows, frames);
    var len := OutputLength(frames, fft);
    output := new real[len](_ => 0.0);
    var windowSum := new real[len](_ => 0.0);
    ghost var sigs := FrameSignals(k, mag, phase, frames, fft);
    ghost var win := HannWindow(k, fft);
    for frame := 0 to frames
      invariant output[..] == OverlapSums(sigs, win, len, frame)
      invariant windowSum[..] == WindowSums(win, len, frame)
    {
      var spectrum := BuildSpectrum(k, mag, phase, frame, fft);
      var sig := RealParts(k.inverse(spectrum), fft);
      assert sig == sigs[frame];
      var start := frame * HOP_SIZE;
      assert start == FrameStart(frame);
      AddFrame(k, output, windowSum, sig, start, fft);
      SumsStep(sigs, win, len, frame);
    }
    NormalizeByWindowSum(output, windowSum);
  }

  /** The decoder's steps in the order the Rust code runs them, over `Vec`s and buffers. */
  method SpectrogramToAudio(k: Kernels, img: Image, imagePath: FilePath) returns (r: Result<Wav>)
    requires WellFormed(img)
    requires LnDividesFor(k, HeaderOf(imagePath))
    ensures r == Decode(k, img, imagePath)
  {
    var header := HeaderOf(imagePath);
    var width := img.width;
    var height := img.height;
    if height == 0 {
      return Err(Aborted(EmptyImage));
    }
    // A one-row or zero-column image computes its grids and then stops at
    // `num_frames - 1` or at `spectrum[0]`; nothing it computed survives.
    if width == 0 {
      return Err(Aborted(EmptyImage));
    }
    if height == 1 {
      return Err(Aborted(ZeroFftSize));
    }
    var samples := DecodeSamples(k, header, img);
    return Ok(Wav(OutputSpec(header.sampleRate), samples));
  }

  /** The steps after the size checks: pixels, linear axis, normalisation, synthesis, peak, `i16`. */
  method DecodeSamples(k: Kernels, header: CodecHeader, img: Image) returns (samples: seq<real>)
    requires WellFormed(img) && img.height >= 2 && img.width >= 1
    requires LnDividesFor(k, header)
    ensures samples == DecodedSamples(k, header, img)
  {
    var fft := FftSizeFor(img.height);
    var mag, phase := DecodePixels(k, header, img);
    if header.logScale {
      mag, phase := Resample(mag, phase, img.width, LinearBinPositions(k, header.sampleRate, img.height));
    }
    assert (mag, phase) == LinearGrids(k, header, img);
    mag := NormalizeMagnitudes(mag);
    var output := Synthesize(k, mag, phase, img.height, img.width, fft);
    PeakNormalize(output);
    samples := Quantized(output[..]);
  }

  /**
   * The decoder's outcome: an image without rows or columns stops at an
   * underflow and a one-row image at the empty spectrum; otherwise it
   * writes a mono 16-bit file at the header's rate holding
   * `(width - 1) * 512 + fft_size` samples, none saturated, each within
   * 31128 of zero.
   */
  lemma {:induction false} DecodeOutcome(k: Kernels, img: Image, imagePath: FilePath)
    requires WellFormed(img)
    requires LnDividesFor(k, HeaderOf(imagePath))
    ensures var r := Decode(k, img, imagePath);
            && (r == Err(Aborted(EmptyImage)) <==> img.height == 0 || img.width == 0)
            && (r == Err(Aborted(ZeroFftSize)) <==> img.height == 1 && img.width > 0)
            && (r.Ok? <==> img.height >= 2 && img.width >= 1)
            && (r.Ok? ==>
                  && r.value.spec == WavSpec(Int, 16, HeaderOf(imagePath).sampleRate, 1)
                  && |r.value.samples| == (img.width - 1) * HOP_SIZE + 2 * (img.height - 1)
                  && forall i | 0 <= i < |r.value.samples| :: -31128.0 <= r.value.samples[i] <= 31128.0)
  {
    if img.height >= 2 && img.width >= 1 {
      DecodedSamplesRange(k, HeaderOf(imagePath), img);
    }
  }
}
