/**
 * `audio_to_spectrogram`: a WAV recording to a colour spectrogram image.
 *
 * The samples are scaled to floats by their format, stereo is averaged to
 * mono, Hann-windowed frames of 2048 samples every 512 samples go through
 * the forward FFT, and the 1025 non-negative frequency bins of each frame
 * become one image column (optionally resampled onto a logarithmic
 * frequency axis).  A pixel's hue carries the phase and its value the
 * magnitude, compressed with exponent 0.3 after division by the largest
 * magnitude.  The sample rate and the scale travel in the file name.
 */
module Encoder {
  import opened Common
  import opened Paths
  import opened Header
  import opened Numerics
  import opened Color
  import opened Spectrum

  const FFT_SIZE: nat := 2048
  const HOP_SIZE: nat := 512
  /** The non-negative frequency bins of one frame; the image height in both scales. */
  const NUM_BINS: nat := FFT_SIZE / 2 + 1
  const MIN_FREQ: real := 20.0

  // ---------------------------------------------------------------------
  // Sample format dispatch and channel mixing
  // ---------------------------------------------------------------------

  /** The pairs of sample format and bit depth the encoder reads. */
  predicate Supported(format: SampleFormat, bits: nat) {
    (format == Float && bits == 32) || (format == Int && bits in {8, 16, 24, 32})
  }

  /**
   * What an integer sample is divided by: `i8::MAX`, `i16::MAX`, `2^23`, and
   * `i32::MAX as f32`, which rounds to `2^31`.
   */
  function IntDivisor(bits: nat): (d: real)
    requires bits in {8, 16, 24, 32}
    ensures d > 0.0
  {
    if bits == 8 then 127.0
    else if bits == 16 then 32767.0
    else if bits == 24 then 8388608.0
    else 2147483648.0
  }

  /** The smallest integer a sample of `bits` bits can hold. */
  function IntMin(bits: nat): int
    requires bits in {8, 16, 24, 32}
  {
    if bits == 8 then -128
    else if bits == 16 then -32768
    else if bits == 24 then -8388608
    else -2147483648
  }

  function Scaled(raw: seq<real>, d: real): (r: seq<real>)
    requires d > 0.0
    ensures |r| == |raw| && forall i | 0 <= i < |raw| :: r[i] == raw[i] / d
  {
    seq(|raw|, i requires 0 <= i < |raw| => raw[i] / d)
  }

  /**
   * The sample-format `match`: 32-bit floats are kept, integers are divided
   * by their format's divisor, and every other pair is an error.
   */
  function NormalizeSamples(spec: WavSpec, raw: seq<real>): (r: Result<seq<real>>)
    ensures r.Ok? <==> Supported(spec.format, spec.bitsPerSample)
    ensures r.Err? ==> r.error == UnsupportedAudioFormat
    ensures r.Ok? ==> |r.value| == |raw|
    ensures r.Ok? && spec.format == Float ==> r.value == raw
    ensures r.Ok? && spec.format == Int ==>
              forall i | 0 <= i < |raw| :: r.value[i] * IntDivisor(spec.bitsPerSample) == raw[i]
  {
    if spec.format == Float && spec.bitsPerSample == 32 then Ok(raw)
    else if spec.format == Int && spec.bitsPerSample in {8, 16, 24, 32} then
      Ok(Scaled(raw, IntDivisor(spec.bitsPerSample)))
    else Err(UnsupportedAudioFormat)
  }

  /**
   * Integer samples within their type's range come out in `[-1 - 1/127, 1]`:
   * the largest positive value maps to at most 1, the most negative to just
   * below -1 for the formats divided by a `MAX` constant.
   */
  lemma {:induction false} NormalizedIntRange(spec: WavSpec, raw: seq<real>)
    requires spec.format == Int && spec.bitsPerSample in {8, 16, 24, 32}
    requires forall i | 0 <= i < |raw| :: IntMin(spec.bitsPerSample) as real <= raw[i] <= -IntMin(spec.bitsPerSample) as real - 1.0
    ensures var r := NormalizeSamples(spec, raw);
            r.Ok? && forall i | 0 <= i < |raw| :: -1.0 - 1.0 / 127.0 <= r.value[i] <= 1.0
  {
    var b := spec.bitsPerSample;
    var d := IntDivisor(b);
    forall i | 0 <= i < |raw|
      ensures -1.0 - 1.0 / 127.0 <= raw[i] / d <= 1.0
    {
      DivMono(IntMin(b) as real, raw[i], d);
      DivMono(raw[i], -IntMin(b) as real - 1.0, d);
    }
  }

  /**
   * `samples.chunks(2).map(|c| (c[0] + c[1]) / 2.0)`: the average of each
   * interleaved pair; an odd-length buffer ends in a one-sample chunk whose
   * `c[1]` panics.
   */
  function Downmix(s: seq<real>): (r: Result<seq<real>>)
    ensures r.Ok? <==> |s| % 2 == 0
    ensures r.Err? ==> r.error == Aborted(OddStereoLength)
    ensures r.Ok? ==> |r.value| == |s| / 2
  {
    if |s| % 2 == 1 then Err(Aborted(OddStereoLength))
    else Ok(seq(|s| / 2, k requires 0 <= k < |s| / 2 => (s[2 * k] + s[2 * k + 1]) / 2.0))
  }

  /** Two channels as a WAV file stores them: left and right samples alternating. */
  function Interleave(left: seq<real>, right: seq<real>): (s: seq<real>)
    requires |left| == |right|
    ensures |s| == 2 * |left|
    ensures forall k | 0 <= k < |left| :: s[2 * k] == left[k] && s[2 * k + 1] == right[k]
  {
    seq(2 * |left|, i requires 0 <= i < 2 * |left| => if i % 2 == 0 then left[i / 2] else right[i / 2])
  }

  /** Downmixing an interleaved pair of channels averages them sample by sample. */
  lemma {:induction false} DownmixInterleaved(left: seq<real>, right: seq<real>)
    requires |left| == |right|
    ensures Downmix(Interleave(left, right)) == Ok(seq(|left|, k requires 0 <= k < |left| => (left[k] + right[k]) / 2.0))
  {
    DownmixPairs(Interleave(left, right), left, right);
  }

  lemma {:induction false} DownmixPairs(s: seq<real>, left: seq<real>, right: seq<real>)
    requires |left| == |right| && |s| == 2 * |left|
    requires forall k | 0 <= k < |left| :: s[2 * k] == left[k] && s[2 * k + 1] == right[k]
    ensures Downmix(s) == Ok(seq(|left|, k requires 0 <= k < |left| => (left[k] + right[k]) / 2.0))
  {
    assert |s| % 2 == 0 && |s| / 2 == |left|;
    var pairs := seq(|s| / 2, k requires 0 <= k < |s| / 2 => (s[2 * k] + s[2 * k + 1]) / 2.0);
    var avg := seq(|left|, k requires 0 <= k < |left| => (left[k] + right[k]) / 2.0);
    forall k | 0 <= k < |left|
      ensures pairs[k] == avg[k]
    {
      assert s[2 * k] == left[k] && s[2 * k + 1] == right[k];
    }
    assert pairs == avg;
  }

  /** The same signal on both channels downmixes to itself. */
  lemma {:induction false} DownmixIdentical(ch: seq<real>)
    ensures Downmix(Interleave(ch, ch)) == Ok(ch)
  {
    DownmixInterleaved(ch, ch);
    assert seq(|ch|, k requires 0 <= k < |ch| => (ch[k] + ch[k]) / 2.0) == ch;
  }

  /** Stereo is downmixed, more than two channels is an error, and mono is kept. */
  function MixChannels(channels: nat, s: seq<real>): (r: Result<seq<real>>)
    ensures channels > 2 ==> r == Err(TooManyChannels(channels))
    ensures channels < 2 ==> r == Ok(s)
    ensures channels == 2 ==> r == Downmix(s)
  {
    if channels == 2 then Downmix(s)
    else if channels > 2 then Err(TooManyChannels(channels))
    else Ok(s)
  }

  // ---------------------------------------------------------------------
  // Framing and analysis
  // ---------------------------------------------------------------------

  /** `(samples.len() - FFT_SIZE) / HOP_SIZE + 1`, for audio at least one window long. */
  function NumFrames(len: nat): (n: nat)
    requires len >= FFT_SIZE
    ensures n >= 1
  {
    (len - FFT_SIZE) / HOP_SIZE + 1
  }

  /** Every frame below `NumFrames` fits inside the audio, so the loop's `break` is never taken. */
  lemma {:induction false} FramesFit(len: nat, f: nat)
    requires len >= FFT_SIZE && f < NumFrames(len)
    ensures f * HOP_SIZE + FFT_SIZE <= len
  {
    var q := (len - FFT_SIZE) / HOP_SIZE;
    assert q * HOP_SIZE <= len - FFT_SIZE;
    assert f * HOP_SIZE <= q * HOP_SIZE;
  }

  /** One frame more would not fit: `NumFrames` is the largest count that does. */
  lemma {:induction false} FramesMaximal(len: nat)
    requires len >= FFT_SIZE
    ensures NumFrames(len) * HOP_SIZE + FFT_SIZE > len
  {
    var q := (len - FFT_SIZE) / HOP_SIZE;
    assert len - FFT_SIZE < q * HOP_SIZE + HOP_SIZE;
  }

  /** The `FFT_SIZE` samples from `start`, Hann-windowed, as complex numbers with zero imaginary part. */
  function WindowedFrame(k: Kernels, s: seq<real>, start: nat): (w: seq<Complex>)
    requires start + FFT_SIZE <= |s|
    ensures |w| == FFT_SIZE
  {
    seq(FFT_SIZE, i requires 0 <= i < FFT_SIZE => Complex(s[start + i] * Hann(k, i, FFT_SIZE), 0.0))
  }

  /** The magnitude and phase the analysis stores at `[bin][frame]`; `(0, 0)` where nothing is stored. */
  function AnalysisEntry(k: Kernels, s: seq<real>, bin: nat, frame: nat): (real, real) {
    if frame * HOP_SIZE + FFT_SIZE <= |s| then
      var spectrum := k.forward(WindowedFrame(k, s, frame * HOP_SIZE));
      if bin < |spectrum| then (k.norm(spectrum[bin]), k.arg(spectrum[bin])) else (0.0, 0.0)
    else (0.0, 0.0)
  }

  /** The linear magnitude and phase grids of `frames` frames. */
  function AnalysisGrids(k: Kernels, s: seq<real>, frames: nat): (g: (Grid, Grid))
    ensures IsGrid(g.0, NUM_BINS, frames) && IsGrid(g.1, NUM_BINS, frames)
  {
    (seq(NUM_BINS, b requires 0 <= b => seq(frames, f requires 0 <= f => AnalysisEntry(k, s, b, f).0)),
     seq(NUM_BINS, b requires 0 <= b => seq(frames, f requires 0 <= f => AnalysisEntry(k, s, b, f).1)))
  }

  /**
   * The STFT loop: for each frame that fits, the windowed samples go
   * through the forward FFT and the first `NUM_BINS` outputs are stored as
   * magnitude and phase; a frame that does not fit ends the loop.
   */
  method AnalyzeFrames(k: Kernels, s: seq<real>, frames: nat) returns (mag: Grid, phase: Grid)
    ensures (mag, phase) == AnalysisGrids(k, s, frames)
  {
    mag := Zeros(NUM_BINS, frames);
    phase := Zeros(NUM_BINS, frames);
    var f := 0;
    while f < frames
      invariant 0 <= f <= frames
      invariant IsGrid(mag, NUM_BINS, frames) && IsGrid(phase, NUM_BINS, frames)
      invariant forall b, j | 0 <= b < NUM_BINS && 0 <= j < f :: (mag[b][j], phase[b][j]) == AnalysisEntry(k, s, b, j)
      invariant forall b, j | 0 <= b < NUM_BINS && f <= j < frames :: mag[b][j] == 0.0 && phase[b][j] == 0.0
    {
      var start := f * HOP_SIZE;
      var end := start + FFT_SIZE;
      if end > |s| {
        assert forall j | f <= j :: j * HOP_SIZE + FFT_SIZE > |s|;
        break;
      }
      var spectrum := k.forward(WindowedFrame(k, s, start));
      var n := if |spectrum| < NUM_BINS then |spectrum| else NUM_BINS;
      var bin := 0;
      while bin < n
        invariant 0 <= bin <= n
        invariant IsGrid(mag, NUM_BINS, frames) && IsGrid(phase, NUM_BINS, frames)
        invariant forall b, j | 0 <= b < NUM_BINS && 0 <= j < f :: (mag[b][j], phase[b][j]) == AnalysisEntry(k, s, b, j)
        invariant forall b | 0 <= b < bin :: (mag[b][f], phase[b][f]) == AnalysisEntry(k, s, b, f)
        invariant forall b, j | 0 <= b < NUM_BINS && f <= j < frames && (j > f || b >= bin) :: mag[b][j] == 0.0 && phase[b][j] == 0.0
      {
        mag := Put(mag, bin, f, k.norm(spectrum[bin]));
        phase := Put(phase, bin, f, k.arg(spectrum[bin]));
        bin := bin + 1;
      }
      f := f + 1;
    }
    GridsEqual(mag, phase, AnalysisGrids(k, s, frames), NUM_BINS, frames);
  }

  // ---------------------------------------------------------------------
  // Logarithmic frequency axis
  // ---------------------------------------------------------------------

  /**
   * The fractional linear bin that log bin `lb` reads: the frequency
   * `20 * (nyquist / 20)^(lb / 1024)` as a fraction of the Nyquist
   * frequency, times 1024.
   */
  function LogBinPosition(k: Kernels, sampleRate: nat, lb: nat): real
    requires sampleRate > 0
  {
    var nyquist := sampleRate as real / 2.0;
    var t := lb as real / (NUM_BINS - 1) as real;
    var freq := MIN_FREQ * k.pow(nyquist / MIN_FREQ, t);
    freq / nyquist * (NUM_BINS - 1) as real
  }

  function LogBinPositions(k: Kernels, sampleRate: nat): (p: seq<real>)
    requires sampleRate > 0
    ensures |p| == NUM_BINS
  {
    seq(NUM_BINS, lb requires 0 <= lb => LogBinPosition(k, sampleRate, lb))
  }

  /** The grids the image shows: the analysis grids, resampled onto the log axis in log mode. */
  function EncodedGrids(k: Kernels, s: seq<real>, sampleRate: nat, useLog: bool): (g: (Grid, Grid))
    requires |s| >= FFT_SIZE
    requires useLog ==> sampleRate > 0
    ensures IsGrid(g.0, NUM_BINS, NumFrames(|s|)) && IsGrid(g.1, NUM_BINS, NumFrames(|s|))
  {
    var frames := NumFrames(|s|);
    var lin := AnalysisGrids(k, s, frames);
    if useLog then Resampled(lin.0, lin.1, frames, LogBinPositions(k, sampleRate)) else lin
  }

  // ---------------------------------------------------------------------
  // Pixels
  // ---------------------------------------------------------------------

  /** The pixel value: the magnitude over the largest one, raised to 0.3 and capped at 1; 0 when nothing is positive. */
  function PixelValue(k: Kernels, magnitude: real, maxVal: real): (v: real)
    ensures v <= 1.0
    ensures maxVal <= 0.0 ==> v == 0.0
    ensures maxVal > 0.0 && k.pow(magnitude / maxVal, 0.3) >= 0.0 ==> 0.0 <= v
  {
    if maxVal > 0.0 then Min(k.pow(magnitude / maxVal, 0.3), 1.0) else 0.0
  }

  /** The hue of a phase: `[-pi, pi]` mapped linearly onto `[0, 360]`, then `% 360`. */
  function PhaseHue(p: real): real {
    FRem((p + PI) / TWO_PI * 360.0, 360.0)
  }

  /** A phase in `[-pi, pi]` becomes a hue in `[0, 360)`; below `pi` it is the linear map itself, and `pi` wraps to 0. */
  lemma {:induction false} PhaseHueRange(p: real)
    requires -PI <= p <= PI
    ensures 0.0 <= PhaseHue(p) < 360.0
    ensures p < PI ==> PhaseHue(p) == (p + PI) / TWO_PI * 360.0
    ensures p == PI ==> PhaseHue(p) == 0.0
  {
    var x := (p + PI) / TWO_PI;
    DivMono(0.0, p + PI, TWO_PI);
    DivMono(p + PI, TWO_PI, TWO_PI);
    if p < PI {
      DivStrict(p + PI, TWO_PI, TWO_PI);
      FRemSmall(x * 360.0, 360.0);
    } else {
      assert x == 1.0;
      assert FRem(360.0, 360.0) == 0.0 by {
        assert Trunc(1.0) == 1;
      }
    }
  }

  /** The colour of the pixel for a magnitude and phase: hue from phase, full saturation, value from magnitude. */
  function PixelColor(k: Kernels, magnitude: real, phase: real, maxVal: real): Rgb {
    HsvToRgb(PhaseHue(phase), 1.0, PixelValue(k, magnitude, maxVal))
  }

  /** The image of two grids: column `frame`, row `FlipRow(bins, bin)` shows entry `[bin][frame]`. */
  function ImageOf(k: Kernels, mag: Grid, phase: Grid, bins: nat, frames: nat): (img: Image)
    requires IsGrid(mag, bins, frames) && IsGrid(phase, bins, frames)
    ensures WellFormed(img) && img.width == frames && img.height == bins
  {
    var maxVal := GridMax(mag);
    Image(frames, bins,
      seq(bins, y requires 0 <= y < bins =>
        seq(frames, x requires 0 <= x < frames =>
          PixelColor(k, mag[FlipRow(bins, y)][x], phase[FlipRow(bins, y)][x], maxVal))))
  }

  /** `img.put_pixel(x, y, c)`. */
  function PutPixel(img: Image, x: nat, y: nat, c: Rgb): (r: Image)
    requires WellFormed(img) && x < img.width && y < img.height
    ensures WellFormed(r) && r.width == img.width && r.height == img.height
    ensures r.pixels[y][x] == c
    ensures forall y', x' | 0 <= y' < img.height && 0 <= x' < img.width && (y', x') != (y, x) ::
              r.pixels[y'][x'] == img.pixels[y'][x']
  {
    img.(pixels := img.pixels[y := img.pixels[y][x := c]])
  }

  /** `ImageBuffer::new(width, height)`: every pixel black. */
  function BlackImage(width: nat, height: nat): (img: Image)
    ensures WellFormed(img) && img.width == width && img.height == height
  {
    Image(width, height, seq(height, _ => seq(width, _ => Rgb(0, 0, 0))))
  }

  /** The rendering loops: every magnitude and phase entry becomes the pixel at its column and flipped row. */
  method RenderImage(k: Kernels, mag: Grid, phase: Grid, bins: nat, frames: nat) returns (img: Image)
    requires IsGrid(mag, bins, frames) && IsGrid(phase, bins, frames)
    ensures img == ImageOf(k, mag, phase, bins, frames)
  {
    ghost var expected := ImageOf(k, mag, phase, bins, frames);
    var maxVal := GridMax(mag);
    img := BlackImage(frames, bins);
    var bin := 0;
    while bin < bins
      invariant 0 <= bin <= bins
      invariant WellFormed(img) && img.width == frames && img.height == bins
      invariant forall b, x | 0 <= b < bin && 0 <= x < frames ::
                  img.pixels[FlipRow(bins, b)][x] == expected.pixels[FlipRow(bins, b)][x]
    {
      var frame := 0;
      var y := bins - 1 - bin;
      assert FlipRow(bins, y) == bin;
      while frame < frames
        invariant 0 <= frame <= frames
        invariant WellFormed(img) && img.width == frames && img.height == bins
        invariant forall b, x | 0 <= b < bin && 0 <= x < frames ::
                    img.pixels[FlipRow(bins, b)][x] == expected.pixels[FlipRow(bins, b)][x]
        invariant forall x | 0 <= x < frame :: img.pixels[y][x] == expected.pixels[y][x]
      {
        var c := PixelColor(k, mag[bin][frame], phase[bin][frame], maxVal);
        assert c == expected.pixels[y][frame];
        img := PutPixel(img, frame, y, c);
        frame := frame + 1;
      }
      bin := bin + 1;
    }
    forall y | 0 <= y < bins
      ensures img.pixels[y] == expected.pixels[y]
    {
      FlipRowInvolution(bins, y);
    }
  }

  /** When no magnitude is positive every pixel is black. */
  lemma {:induction false} SilenceIsBlack(k: Kernels, mag: Grid, phase: Grid, bins: nat, frames: nat)
    requires IsGrid(mag, bins, frames) && IsGrid(phase, bins, frames)
    requires GridMax(mag) == 0.0
    ensures forall y, x | 0 <= y < bins && 0 <= x < frames :: ImageOf(k, mag, phase, bins, frames).pixels[y][x] == Rgb(0, 0, 0)
  {
    forall y, x | 0 <= y < bins && 0 <= x < frames
      ensures ImageOf(k, mag, phase, bins, frames).pixels[y][x] == Rgb(0, 0, 0)
    {
      BlackExample(PhaseHue(phase[FlipRow(bins, y)][x]));
    }
  }

  // ---------------------------------------------------------------------
  // The whole conversion
  // ---------------------------------------------------------------------

  /**
   * `audio_to_spectrogram` with the file I/O taken out: the image it saves
   * and the path it saves it to, or the error it returns or panics with.
   */
  function Encode(k: Kernels, wav: Wav, outputPath: FilePath, useLog: bool): Result<(Image, FilePath)>
    requires useLog ==> wav.spec.sampleRate > 0
  {
    var normalized :- NormalizeSamples(wav.spec, wav.samples);
    var mono :- MixChannels(wav.spec.channels, normalized);
    if |mono| < FFT_SIZE then Err(Aborted(ShortInput))
    else
      var g := EncodedGrids(k, mono, wav.spec.sampleRate, useLog);
      Ok((ImageOf(k, g.0, g.1, NUM_BINS, NumFrames(|mono|)),
          HeaderOutputPath(outputPath, wav.spec.sampleRate, useLog)))
  }

  /** The encoder's steps in the order the Rust code runs them. */
  method AudioToSpectrogram(k: Kernels, wav: Wav, outputPath: FilePath, useLog: bool)
    returns (r: Result<(Image, FilePath)>)
    requires useLog ==> wav.spec.sampleRate > 0
    ensures r == Encode(k, wav, outputPath, useLog)
  {
    var normalized := NormalizeSamples(wav.spec, wav.samples);
    if normalized.Err? {
      return Err(normalized.error);
    }
    var samples := normalized.value;
    var mixed := MixChannels(wav.spec.channels, samples);
    if mixed.Err? {
      return Err(mixed.error);
    }
    samples := mixed.value;
    if |samples| < FFT_SIZE {
      return Err(Aborted(ShortInput));
    }
    var frames := NumFrames(|samples|);
    var mag, phase := AnalyzeFrames(k, samples, frames);
    if useLog {
      mag, phase := Resample(mag, phase, frames, LogBinPositions(k, wav.spec.sampleRate));
    }
    var img := RenderImage(k, mag, phase, NUM_BINS, frames);
    return Ok((img, HeaderOutputPath(outputPath, wav.spec.sampleRate, useLog)));
  }

  /**
   * The encoder's outcome: an unsupported format first, then more than two
   * channels, then an odd stereo buffer, then audio shorter than one window;
   * otherwise an image 1025 rows high in both scales with one column per
   * frame, saved under the header name.
   */
  lemma {:induction false} EncodeOutcome(k: Kernels, wav: Wav, outputPath: FilePath, useLog: bool)
    requires useLog ==> wav.spec.sampleRate > 0
    ensures var r := Encode(k, wav, outputPath, useLog);
            var spec := wav.spec;
            var n := |wav.samples|;
            var monoLen := if spec.channels == 2 then n / 2 else n;
            && (!Supported(spec.format, spec.bitsPerSample) <==> r == Err(UnsupportedAudioFormat))
            && (Supported(spec.format, spec.bitsPerSample) && spec.channels > 2 ==> r == Err(TooManyChannels(spec.channels)))
            && (Supported(spec.format, spec.bitsPerSample) && spec.channels == 2 && n % 2 == 1 ==>
                  r == Err(Aborted(OddStereoLength)))
            && (Supported(spec.format, spec.bitsPerSample) && spec.channels <= 2 && (spec.channels < 2 || n % 2 == 0) ==>
                  (r == Err(Aborted(ShortInput)) <==> monoLen < FFT_SIZE))
            && (r.Ok? <==> Supported(spec.format, spec.bitsPerSample) && spec.channels <= 2
                             && (spec.channels < 2 || n % 2 == 0) && monoLen >= FFT_SIZE)
            && (r.Ok? ==> && WellFormed(r.value.0)
                          && r.value.0.height == NUM_BINS
                          && r.value.0.width == NumFrames(monoLen)
                          && r.value.1 == HeaderOutputPath(outputPath, spec.sampleRate, useLog))
  {
  }
}
