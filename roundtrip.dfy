/**
 * What survives a trip through both directions: the phase code of the hue,
 * the pixel an entry is drawn at, the quantised value, the header in the
 * file name, and the length of the resynthesised audio.
 */
module RoundTrip {
  import opened Common
  import opened Text
  import opened Paths
  import opened Header
  import opened Numerics
  import opened Color
  import opened Spectrum
  import E = Encoder
  import D = Decoder

  /** The decoder's hue-to-phase map undoes the encoder's phase-to-hue map on `[-pi, pi)`. */
  lemma {:induction false} PhaseRoundTrip(p: real)
    requires -PI <= p < PI
    ensures D.HuePhase(E.PhaseHue(p)) == p
  {
    E.PhaseHueRange(p);
    var x := (p + PI) / TWO_PI;
    assert E.PhaseHue(p) == x * 360.0;
    assert (x * 360.0) / 360.0 == x;
    assert x * 2.0 * PI == x * TWO_PI;
    DivTimes(p + PI, TWO_PI);
  }

  /** The phase `pi` is drawn with hue 0 and read back as `-pi`, the same angle. */
  lemma {:induction false} PhaseAtPiWraps()
    ensures D.HuePhase(E.PhaseHue(PI)) == -PI
  {
    E.PhaseHueRange(PI);
  }

  /**
   * The decoder reads entry `[bin][frame]` of an encoded image from the
   * pixel the encoder drew it at: the value it reads is the encoder's pixel
   * value quantised down by less than 1/255, and the magnitude it decodes is
   * the level of that value.
   */
  lemma {:induction false} EncodedPixelDecodes(k: Kernels, mag: Grid, phase: Grid, bins: nat, frames: nat,
                            header: CodecHeader, bin: nat, frame: nat)
    requires IsGrid(mag, bins, frames) && IsGrid(phase, bins, frames)
    requires bins >= 2 && bin < bins && frame < frames
    requires 0.0 <= E.PixelValue(k, mag[bin][frame], GridMax(mag))
    ensures var img := E.ImageOf(k, mag, phase, bins, frames);
            var v := E.PixelValue(k, mag[bin][frame], GridMax(mag));
            var w := RgbToHsv(img.pixels[FlipRow(bins, bin)][frame]).v;
            && v - 1.0 / 255.0 < w <= v
            && D.DecodedEntry(k, header, img, bin, frame).0
                 == D.PixelMagnitude(k, w, D.BoostDb(k, D.BinFrequency(k, header, bin, bins)))
  {
    var img := E.ImageOf(k, mag, phase, bins, frames);
    var v := E.PixelValue(k, mag[bin][frame], GridMax(mag));
    FlipRowInvolution(bins, bin);
    assert img.pixels[FlipRow(bins, bin)][frame] == HsvToRgb(E.PhaseHue(phase[bin][frame]), 1.0, v);
    ValueRoundTrip(E.PhaseHue(phase[bin][frame]), v);
  }

  /**
   * The image the encoder saves carries its header: the decoder reads back
   * the recording's sample rate, and the logarithmic scale when the encoder
   * used it or the requested stem already contained `_LOG`.
   */
  lemma {:induction false} EncodedHeaderDecodes(k: Kernels, wav: Wav, outputPath: FilePath, useLog: bool)
    requires useLog ==> wav.spec.sampleRate > 0
    requires E.Encode(k, wav, outputPath, useLog).Ok?
    requires outputPath.name.Some? && wav.spec.sampleRate <= U32_MAX
    ensures var saved := E.Encode(k, wav, outputPath, useLog).value.1;
            HeaderOf(saved)
              == CodecHeader(wav.spec.sampleRate, useLog || Contains(Lossy(FileStem(outputPath).value), "_LOG"))
  {
    E.EncodeOutcome(k, wav, outputPath, useLog);
    HeaderRoundTrip(outputPath, wav.spec.sampleRate, useLog);
  }

  /**
   * An encoded image is 1025 rows high, so the decoder's transform size is
   * the encoder's 2048, and the audio it resynthesises from `NumFrames(n)`
   * columns is at most `n` samples and less than one hop shorter.
   */
  lemma {:induction false} ResynthesisLength(n: nat)
    requires n >= E.FFT_SIZE
    ensures D.FftSizeFor(E.NUM_BINS) == E.FFT_SIZE
    ensures n - D.HOP_SIZE < D.OutputLength(E.NumFrames(n), E.FFT_SIZE) <= n
  {
    E.FramesFit(n, E.NumFrames(n) - 1);
    E.FramesMaximal(n);
  }

  /**
   * Decoding what the encoder saved succeeds, at the rate the recording had
   * when the name carries it, and gives back the mono length less what the
   * last partial hop held.
   */
  lemma {:induction false} EncodeThenDecode(k: Kernels, wav: Wav, outputPath: FilePath, useLog: bool)
    requires useLog ==> wav.spec.sampleRate > 0
    requires E.Encode(k, wav, outputPath, useLog).Ok?
    requires D.LnDividesFor(k, HeaderOf(E.Encode(k, wav, outputPath, useLog).value.1))
    ensures var enc := E.Encode(k, wav, outputPath, useLog).value;
            var n := |wav.samples|;
            var monoLen := if wav.spec.channels == 2 then n / 2 else n;
            var dec := D.Decode(k, enc.0, enc.1);
            && dec.Ok?
            && monoLen - D.HOP_SIZE < |dec.value.samples| <= monoLen
            && (outputPath.name.Some? && wav.spec.sampleRate <= U32_MAX ==>
                  dec.value.spec.sampleRate == wav.spec.sampleRate)
  {
    var enc := E.Encode(k, wav, outputPath, useLog).value;
    var n := |wav.samples|;
    var monoLen := if wav.spec.channels == 2 then n / 2 else n;
    E.EncodeOutcome(k, wav, outputPath, useLog);
    D.DecodeOutcome(k, enc.0, enc.1);
    ResynthesisLength(monoLen);
    if outputPath.name.Some? && wav.spec.sampleRate <= U32_MAX {
      EncodedHeaderDecodes(k, wav, outputPath, useLog);
    }
  }

  /**
   * The file the decoder writes is one the encoder reads: 16-bit integer
   * mono, whose samples it scales back to within `31128 / 32767` (just
   * under 0.95) of zero and keeps as the single channel.
   */
  lemma {:induction false} DecodedWavReadable(k: Kernels, img: Image, imagePath: FilePath)
    requires WellFormed(img)
    requires D.LnDividesFor(k, HeaderOf(imagePath))
    requires D.Decode(k, img, imagePath).Ok?
    ensures var wav := D.Decode(k, img, imagePath).value;
            var r := E.NormalizeSamples(wav.spec, wav.samples);
            && r.Ok?
            && E.MixChannels(wav.spec.channels, r.value) == Ok(r.value)
            && forall i | 0 <= i < |r.value| :: -31128.0 / 32767.0 <= r.value[i] <= 31128.0 / 32767.0
  {
    var wav := D.Decode(k, img, imagePath).value;
    D.DecodeOutcome(k, img, imagePath);
    assert wav.spec == WavSpec(Int, 16, HeaderOf(imagePath).sampleRate, 1);
    var r := E.NormalizeSamples(wav.spec, wav.samples);
    assert r.value == E.Scaled(wav.samples, 32767.0);
    ScaledBackRange(wav.samples);
  }

  lemma {:induction false} ScaledBackRange(samples: seq<real>)
    requires forall i | 0 <= i < |samples| :: -31128.0 <= samples[i] <= 31128.0
    ensures forall i | 0 <= i < |samples| :: -31128.0 / 32767.0 <= E.Scaled(samples, 32767.0)[i] <= 31128.0 / 32767.0
  {
    forall i | 0 <= i < |samples|
      ensures -31128.0 / 32767.0 <= samples[i] / 32767.0 <= 31128.0 / 32767.0
    {
      DivMono(-31128.0, samples[i], 32767.0);
      DivMono(samples[i], 31128.0, 32767.0);
    }
  }
}
