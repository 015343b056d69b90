# Spectrogram encoder/decoder — a Dafny model

This project models the core of a spectrogram codec: a desktop tool that turns a
WAV recording into a colour spectrogram image and an image back into audio.

- **Encoder** (`audio_to_spectrogram`):
  - scales the samples to floats by their sample format and averages stereo to mono;
  - takes a 2048-point FFT of Hann-windowed frames every 512 samples;
  - keeps the 1025 non-negative bins, optionally resampled onto a logarithmic frequency axis;
  - draws each bin of each frame as one pixel. Hue is the phase. Value is the magnitude divided by the largest magnitude and compressed with exponent 0.3. Saturation is 1.
  - High frequencies are at the top of the image.
  - The sample rate and the scale are carried in the file name, `<stem>_SR<rate>_LOG.png` or `<stem>_SR<rate>_LIN.png`.
- **Decoder** (`spectrogram_to_audio`):
  - reads that header back from the image's stem;
  - derives the FFT size from the image height;
  - decodes hue to phase and value to a magnitude (dB scale and high-frequency boost);
  - maps a logarithmic axis back to linear and normalises the magnitudes by their maximum;
  - rebuilds each frame's Hermitian spectrum and runs the inverse FFT;
  - overlap-adds the frames under a Hann window, divides by the window sum, scales the peak to 0.95, and writes 16-bit mono samples.
- **Configuration** (`SpectrogramConfig`): its defaults, and `validate_and_fix`, which resets each out-of-range field in place.
- **Front end** (`get_output_path`, `process_file`): classifies a dropped file by its lower-cased extension, predicts the output name, and runs the matching converter.

Modules, one per file:

- `Common`: result and error types, WAV values.
- `Text`: `rfind`, `contains`, digit runs, `u32` parsing, decimal printing, ASCII lower case.
- `Paths`: OS strings, `file_stem`, `extension`, `with_extension`.
- `Header`: the file-name header.
- `Numerics`: complex numbers, the abstract float kernels, the `as` casts.
- `Color`: HSV↔RGB conversion.
- `Spectrum`: grids, the phase wrap loop, `interpolate_spectrum` (identical in both source files), resampling, the grid maximum.
- `Encoder`, `Decoder`, `RoundTrip` (facts about both directions together), `Config`, `Dispatch`.

Floating-point values are modelled as reals. The FFT and every transcendental function (`cos`, `sin`, `powf`, `ln`, `log2`, `norm`, `arg`) are fields of a `Kernels` value. That value is passed to every operation that needs one, so the proofs hold for any such functions.

Loops that fill grids, images and arrays are methods. Each method is proved equal to a function that specifies it, and the properties are proved about those functions. This covers:

- the analysis loop, the log resampling loop and pixel rendering;
- the HSV decode loop and the in-place magnitude normalisation;
- spectrum fill and mirror on an array, overlap-add into two arrays, the window-sum division and peak normalisation.

A panic of the Rust code is an error value `Aborted(..)`, so each entry point is total:

- an audio file shorter than one window;
- an odd-length stereo buffer;
- an image with no rows or no columns;
- an image one row high.

The header is the weak point of the round trip:

- The decoder sets the logarithmic scale whenever the stem contains `_LOG` anywhere. The original stem can contain it too.
- So a linear-scale image of `take_LOG.wav` is decoded as logarithmic (`Header.LogTokenInStemIsMisread`).
- The sample rate is recovered for every stem, because the decoder reads the last `_SR`.

## Model

| member | source | states |
|---|---|---|
| Text.Rfind | src/image_to_audio.rs:16 | the position found is an occurrence of the pattern with no occurrence after it; there is none exactly when the string does not contain the pattern |
| Text.TakeDigits | src/image_to_audio.rs:19 | the result is a prefix made only of digits, and the character after it, if any, is not a digit |
| Text.ParseU32 | src/image_to_audio.rs:20 | parsing succeeds exactly for a non-empty digit run whose value fits in a `u32`, and yields that value |
| Text.Decimal | src/audio_to_image.rs:209 | the printed rate is a non-empty run of digits with no leading zero |
| Text.DecimalValue | src/audio_to_image.rs:209 | reading the printed digits back gives the number printed |
| Text.TakeDigitsOfDecimal | src/image_to_audio.rs:19 | `take_while` over digits followed by a non-digit returns exactly those digits |
| Text.ToLower | src/main.rs:137 | lower-casing keeps the length and lowers each character |
| Text.ToLowerOfLower | src/main.rs:137 | a string with no upper-case letter is unchanged by lower-casing |
| Paths.Lossy | src/image_to_audio.rs:14 | `to_string_lossy` keeps the length and replaces each ill-formed unit by U+FFFD |
| Paths.ToStr | src/main.rs:135 | `to_str` succeeds exactly when every unit is valid Unicode, and then returns the string the OS string holds |
| Paths.LossyFromStr | src/image_to_audio.rs:14 | a name built from a string reads back losslessly |
| Paths.ToStrFromStr | src/main.rs:135 | a name built from a string converts back to that string |
| Paths.FileStem | src/image_to_audio.rs:13 | a path has a stem exactly when it has a file name |
| Paths.Extension | src/main.rs:134 | only a path with a file name has an extension |
| Paths.WithExtension | src/main.rs:154 | replacing the extension keeps the directory, and keeps whether there is a file name |
| Paths.ExtensionSplitsName | src/main.rs:134 | a name with an extension is its stem, a dot and the extension, and the extension contains no dot |
| Paths.WithExtensionKeepsStem | src/main.rs:169 | replacing the extension by a non-empty dotless one keeps the stem and makes the new one the extension |
| Header.HeaderFileName | src/audio_to_image.rs:206-209 | computes the saved file name `<stem>_SR<rate>_LOG.png` or `<stem>_SR<rate>_LIN.png`; `Header.HeaderFileStem` states its stem and extension |
| Header.HeaderOutputPath | src/audio_to_image.rs:205-212 | computes the path the encoder saves to: the header name in the same directory when the path has a stem, the path unchanged otherwise; `Header.HeaderRoundTrip` states what the decoder reads from it |
| Header.SampleRateOf | src/image_to_audio.rs:16-26 | the rate read fits in a `u32`, and is 44100 when the stem holds no `_SR` |
| Header.ParseHeader | src/image_to_audio.rs:13-34 | no stem gives 44100 Hz linear; otherwise the log scale is on exactly when the stem contains `_LOG` |
| Header.HeaderOf | src/image_to_audio.rs:13-34 | computes the header of an image path by parsing its lossy stem, or 44100 Hz linear without a stem; `Header.ParseHeader` and `Header.HeaderRoundTrip` state its properties |
| Header.SampleRateAfterLastMarker | src/image_to_audio.rs:16-22 | with an `_SR` the rate is the digit run after its last occurrence, and 44100 when that run is empty or exceeds `u32` |
| Header.LastMarkerIsHeader | src/audio_to_image.rs:209 | in a name the encoder built, the last `_SR` is the one it appended |
| Header.LogTokenSearch | src/image_to_audio.rs:28 | a name the encoder built contains `_LOG` exactly when the encoder used the log scale or the original stem had `_LOG` |
| Header.HeaderFileStem | src/audio_to_image.rs:207-209 | the saved name's stem is `<stem>_SR<rate><suffix>` and its extension `png` |
| Header.SampleRateOfHeaderStem | src/image_to_audio.rs:16-22 | the decoder reads back the rate the encoder wrote into the stem |
| Header.ParseHeaderStem | src/image_to_audio.rs:13-34 | the header parsed from an extended stem is the rate with log scale if it was used or `_LOG` was already there |
| Header.HeaderRoundTrip | src/audio_to_image.rs:205-212 | decoding the header of the saved path recovers the rate for every stem, and the log flag up to a pre-existing `_LOG` |
| Header.HeaderRoundTripExact | src/audio_to_image.rs:205-212 | when the original stem has no `_LOG`, the header round trip is exact |
| Header.LogTokenInStemIsMisread | src/image_to_audio.rs:28 | a linear image saved from `take_LOG` is read back as logarithmic |
| Header.PlainNameDefaults | src/image_to_audio.rs:23-26 | `clip.png` decodes as 44100 Hz, linear |
| Numerics.Trunc | src/image_to_audio.rs:225 | the `as` cast truncates toward zero: within one of the value, never past it |
| Numerics.Ceil | src/image_to_audio.rs:269 | `ceil` is the least integer at or above the value |
| Numerics.AsU8 | src/audio_to_image.rs:280-282 | the saturating `as u8` floors values in `[0, 255)`, and clamps to 0 and 255 outside |
| Numerics.AsI16 | src/image_to_audio.rs:225 | the saturating `as i16` stays in the `i16` range |
| Numerics.AsI16InRange | src/image_to_audio.rs:225 | inside the `i16` range the cast is plain truncation |
| Numerics.AsUsize | src/image_to_audio.rs:268 | the saturating `as usize` is the identity on `0..usize::MAX` and never exceeds it |
| Numerics.FRemNonNegative | src/audio_to_image.rs:192 | `%` of a non-negative value by a positive modulus lies in `[0, modulus)` |
| Numerics.FRemSmall | src/audio_to_image.rs:192 | `%` leaves a value of smaller magnitude than the modulus unchanged |
| Color.FlipRow | src/audio_to_image.rs:198 | the row of a bin lies inside the image |
| Color.FlipRowInvolution | src/image_to_audio.rs:54 | the decoder's flip undoes the encoder's, so every pixel is read back from the bin it was written for |
| Color.HsvToRgb | src/audio_to_image.rs:259-284 | computes the six-sector HSV-to-RGB conversion, each channel scaled by 255 and cast by the saturating `as u8`; `Color.FullSaturation` states its channels at full saturation |
| Color.UnitToHsv | src/image_to_audio.rs:239-258 | computes hue from the sector of the largest channel, with 360 added to a negative hue, saturation as `delta/max` (0 for black) and value as the largest channel; `Color.UnitToHsvRange` states its ranges |
| Color.RgbToHsv | src/image_to_audio.rs:234-259 | scales the three 8-bit channels by 1/255 and converts them; `Color.RgbToHsvRange` and `Color.ValueRoundTrip` state its ranges and the value it recovers |
| Color.MaxChannel | src/image_to_audio.rs:239 | the maximum is one of the three channels and no channel exceeds it |
| Color.MinChannel | src/image_to_audio.rs:240 | the minimum is one of the three channels and no channel is below it |
| Color.FullSaturation | src/audio_to_image.rs:259-283 | at saturation 1 and value in `[0, 1]` the smallest channel is 0 and the largest is `trunc(v*255)`, for every hue |
| Color.RawHueRange | src/image_to_audio.rs:243-251 | the sector formula gives a hue in `[-60, 300]` before the negative correction |
| Color.SaturationRange | src/image_to_audio.rs:255 | saturation `delta/max` lies in `[0, 1]` |
| Color.UnitToHsvRange | src/image_to_audio.rs:234-259 | for channels in `[0, 1]` the hue lies in `[0, 360)`, the saturation in `[0, 1]`, and the value is the largest channel |
| Color.RgbToHsvRange | src/image_to_audio.rs:234-259 | `rgb_to_hsv` of any pixel has hue in `[0, 360)`, saturation in `[0, 1]`, and value equal to the brightest channel over 255 |
| Color.ValueRoundTrip | src/image_to_audio.rs:256 | the value read from a fully saturated pixel is `trunc(v*255)/255`, so it lies in `(v - 1/255, v]` |
| Color.SaturationRoundTrip | src/image_to_audio.rs:255 | a fully saturated, non-black pixel reads back saturation exactly 1 |
| Color.RedEncodes | src/audio_to_image.rs:259-283 | hue 0, full value gives pure red |
| Color.RedDecodes | src/image_to_audio.rs:234-259 | pure red decodes to hue 0, saturation 1, value 1 |
| Color.BlackExample | src/audio_to_image.rs:259-283 | value 0 is black for every hue, and black decodes to all zeros |
| Spectrum.Zeros | src/image_to_audio.rs:48-49 | the zero grid has the requested shape and only zeros |
| Spectrum.Wrap | src/image_to_audio.rs:289-294 | computes the phase difference shifted by whole turns into `[-pi, pi]`; `Spectrum.WrapPhaseDifference` proves the two loops compute it, and `Spectrum.WrapRange` and `Spectrum.WrapUnique` state its range |
| Spectrum.WrapRange | src/image_to_audio.rs:286-294 | the wrapped difference lies in `[-pi, pi]`, strictly above `-pi` when it came from above and strictly below `pi` when it came from below, and is unchanged inside `[-pi, pi]` |
| Spectrum.WrapUnique | src/image_to_audio.rs:289-294 | any whole-turn shift that ends where the loops stop equals the wrap |
| Spectrum.WrapPhaseDifference | src/image_to_audio.rs:286-294 | the two `while` loops terminate with the wrap of the difference |
| Spectrum.InterpolationNeighbours | src/image_to_audio.rs:268-276 | two distinct neighbours are `floor` and `floor + 1`, with a fraction strictly between 0 and 1 |
| Spectrum.InterpolationInBounds | src/image_to_audio.rs:269 | when `floor` is in range the clamped `ceil` is too, so no index passes `len - 1` |
| Spectrum.BlendBetween | src/image_to_audio.rs:281 | linear interpolation stays between the neighbours |
| Spectrum.PhaseBlendNear | src/image_to_audio.rs:296 | the interpolated phase is within `pi` of the lower neighbour's |
| Spectrum.Interpolated | src/image_to_audio.rs:262-299 | computes `interpolate_spectrum`: `(0, 0)` past the end, the stored entry when floor and clamped ceil coincide, otherwise the linear magnitude blend and the wrapped phase blend; `Spectrum.InterpolatedBetween` states its bounds |
| Spectrum.InterpolatedBetween | src/image_to_audio.rs:268-281 | `(0, 0)` past the end, the stored pair when both neighbours coincide, otherwise a magnitude between the neighbours and a phase within `pi` |
| Spectrum.InterpolateSpectrum | src/image_to_audio.rs:262-299 | the imperative interpolation returns what the interpolation function specifies |
| Spectrum.Resampled | src/image_to_audio.rs:103-136 | resampling at one position per row gives grids of that many rows and the same frames |
| Spectrum.Resample | src/image_to_audio.rs:107-136 | the nested loops fill exactly the resampled grids |
| Spectrum.RowMax | src/image_to_audio.rs:145-148 | the fold is at least its start and every element, and is the start or one of the elements |
| Spectrum.GridMaxFrom | src/image_to_audio.rs:145-148 | the fold over all rows bounds every entry and is the start or an entry |
| Spectrum.GridMax | src/audio_to_image.rs:164-167 | the maximum from 0 is non-negative, bounds every entry, and is 0 or attained |
| Encoder.IntDivisor | src/audio_to_image.rs:27-46 | every integer format has a positive divisor |
| Encoder.Scaled | src/audio_to_image.rs:27-46 | scaling divides each sample and keeps the length |
| Encoder.NormalizeSamples | src/audio_to_image.rs:21-53 | only (Float, 32) and (Int, 8/16/24/32) are read, anything else is an unsupported-format error; floats pass unchanged and integers are divided by their divisor |
| Encoder.NormalizedIntRange | src/audio_to_image.rs:27-46 | integer samples within their type's range scale into `[-1 - 1/127, 1]` |
| Encoder.Downmix | src/audio_to_image.rs:56-62 | downmixing succeeds exactly on an even-length interleaved buffer and gives half as many samples; an odd one panics on the last chunk |
| Encoder.Interleave | src/audio_to_image.rs:58-60 | interleaving puts the left samples at even and the right at odd positions |
| Encoder.DownmixPairs | src/audio_to_image.rs:58-61 | a buffer whose even positions hold the left and odd positions the right channel downmixes to their element-wise mean |
| Encoder.DownmixInterleaved | src/audio_to_image.rs:58-61 | downmixing interleaved channels gives their element-wise mean |
| Encoder.DownmixIdentical | src/audio_to_image.rs:58-61 | two identical channels downmix to that channel |
| Encoder.MixChannels | src/audio_to_image.rs:55-65 | mono passes through, stereo is downmixed, more than two channels is an error |
| Encoder.NumFrames | src/audio_to_image.rs:71 | audio of at least one window has at least one frame |
| Encoder.FramesFit | src/audio_to_image.rs:77-83 | every frame lies inside the audio, so the `break` is never taken |
| Encoder.FramesMaximal | src/audio_to_image.rs:71 | one more frame would not fit: the frames cover the audio up to less than a hop |
| Encoder.WindowedFrame | src/audio_to_image.rs:86-93 | each windowed frame holds 2048 samples |
| Encoder.AnalysisGrids | src/audio_to_image.rs:74-102 | the linear grids are 1025 bins by the frame count |
| Encoder.AnalyzeFrames | src/audio_to_image.rs:77-102 | the framing loop fills exactly the analysis grids |
| Encoder.LogBinPositions | src/audio_to_image.rs:122-128 | one fractional linear position per logarithmic bin, 1025 in all |
| Encoder.EncodedGrids | src/audio_to_image.rs:105-152 | in both scales the grids are 1025 bins by the frame count |
| Encoder.PixelValue | src/audio_to_image.rs:174-189 | the pixel value is at most 1, is 0 when the maximum is not positive, and is non-negative when the compressed ratio is |
| Encoder.PhaseHue | src/audio_to_image.rs:192 | maps a phase linearly from `[-pi, pi]` onto `[0, 360]` and takes `% 360`; `Encoder.PhaseHueRange` and `RoundTrip.PhaseRoundTrip` state its range and its inverse |
| Encoder.PhaseHueRange | src/audio_to_image.rs:192 | a phase in `[-pi, pi]` becomes a hue in `[0, 360)`; `pi` wraps to 0 |
| Encoder.PixelColor | src/audio_to_image.rs:192-195 | computes the colour of one pixel: hue from the phase, saturation 1, value from the magnitude; `Color.FullSaturation` and `RoundTrip.EncodedPixelDecodes` state what is read back |
| Encoder.ImageOf | src/audio_to_image.rs:161-201 | the image is as wide as the frame count, as high as the bin count, and well formed |
| Encoder.PutPixel | src/audio_to_image.rs:199 | `put_pixel` changes exactly the one pixel |
| Encoder.BlackImage | src/audio_to_image.rs:161 | a new image buffer has the requested size |
| Encoder.RenderImage | src/audio_to_image.rs:169-201 | the pixel loop draws exactly the specified image |
| Encoder.SilenceIsBlack | src/audio_to_image.rs:174-189 | when the largest magnitude is 0, every pixel is black |
| Encoder.Encode | src/audio_to_image.rs:9-216 | computes the encoder: sample scaling, channel mixing, the short-input abort, analysis, rendering and the header path; `Encoder.EncodeOutcome` states its outcome |
| Encoder.AudioToSpectrogram | src/audio_to_image.rs:9-216 | the encoder's steps give the specified result |
| Encoder.EncodeOutcome | src/audio_to_image.rs:9-216 | one condition per error (format, channel count, odd stereo length, short audio); otherwise an image 1025 rows by `NumFrames` columns, saved to the header path |
| Decoder.OutputLength | src/image_to_audio.rs:162 | computes `(num_frames - 1) * 512 + fft_size`; `RoundTrip.ResynthesisLength` relates it to the encoder's input length |
| Decoder.FftSizeFor | src/image_to_audio.rs:44 | the derived FFT size is even |
| Decoder.LinearBinsMatchHeight | src/image_to_audio.rs:44-45 | the linear bin count equals the image height |
| Decoder.OverlapIndexInRange | src/image_to_audio.rs:162-191 | every overlap-add index is within the output, so the guard never skips |
| Decoder.HuePhase | src/image_to_audio.rs:61 | maps a hue from `[0, 360]` linearly onto `[-pi, pi]`; `Decoder.HuePhaseRange` and `RoundTrip.PhaseRoundTrip` state its range and that it inverts the encoder's map |
| Decoder.HuePhaseRange | src/image_to_audio.rs:61 | a hue in `[0, 360)` decodes to a phase in `[-pi, pi)` |
| Decoder.BoostDb | src/image_to_audio.rs:75-79 | no boost is removed at or below 1000 Hz |
| Decoder.PixelMagnitude | src/image_to_audio.rs:81-88 | a decoded magnitude is never negative |
| Decoder.DecodedGrids | src/image_to_audio.rs:48-91 | the decoded grids are as high and wide as the image |
| Decoder.DecodeColumn | src/image_to_audio.rs:52-90 | the bin loop for one column writes the decoded entry of every bin in that column and leaves the other columns unchanged |
| Decoder.DecodedEntry | src/image_to_audio.rs:51-89 | computes the entry stored at `[bin][frame]`: the pixel of the flipped row converted to HSV, with the magnitude from the value less the boost and the phase from the hue; `Decoder.DecodedEntryRange` states its ranges |
| Decoder.DecodedEntryRange | src/image_to_audio.rs:51-91 | each decoded magnitude is non-negative and each phase lies in `[-pi, pi)` |
| Decoder.DecodePixels | src/image_to_audio.rs:51-91 | the nested pixel loop fills exactly the decoded grids |
| Decoder.LinearFrequency | src/image_to_audio.rs:109 | the frequency of a linear bin lies between 0 Hz and Nyquist |
| Decoder.LinearBinPositions | src/image_to_audio.rs:107-118 | one fractional log-bin position per linear bin, as many as the image height |
| Decoder.LowBinsReadRowZero | src/image_to_audio.rs:112-113 | bins at or below 20 Hz read log row 0 |
| Decoder.MagnitudesNormalized | src/image_to_audio.rs:145-156 | normalisation keeps the grid shape |
| Decoder.ScaledGrid | src/image_to_audio.rs:150-156 | division by the maximum divides every entry and keeps the shape |
| Decoder.DivideRow | src/image_to_audio.rs:152-154 | dividing one row in place divides each value by the maximum and keeps the length |
| Decoder.MagnitudesNormalizedRange | src/image_to_audio.rs:145-156 | non-negative magnitudes normalise into `[0, 1]`, and some entry reaches 1 when the maximum is positive |
| Decoder.NormalizeMagnitudes | src/image_to_audio.rs:150-156 | the in-place loops compute exactly the normalised grid |
| Decoder.MirrorBounds | src/image_to_audio.rs:170-184 | the bins set fit in the spectrum, and the mirror range neither reaches past them nor overlaps them |
| Decoder.SpectrumOf | src/image_to_audio.rs:167-184 | each frame's spectrum has the FFT size |
| Decoder.SpectrumEntry | src/image_to_audio.rs:167-184 | computes element `i` of a frame's spectrum: the polar entry for a used bin, the conjugate of its partner in the mirror range, zero elsewhere; `Decoder.SpectrumHermitian` states the Hermitian symmetry |
| Decoder.SpectrumHermitian | src/image_to_audio.rs:170-184 | bins `0..fft/2` hold magnitude and phase in polar form, and every mirrored bin is the conjugate of its partner |
| Decoder.BuildSpectrum | src/image_to_audio.rs:167-184 | filling and mirroring the spectrum array gives exactly the specified spectrum |
| Decoder.SetBins | src/image_to_audio.rs:171-179 | the fill loop sets the used bins and leaves the rest zero |
| Decoder.MirrorBins | src/image_to_audio.rs:182-184 | the mirror loop writes only the upper bins and leaves the bins set by the fill loop unchanged |
| Decoder.RealParts | src/image_to_audio.rs:190 | one real part per FFT output position |
| Decoder.FrameSignal | src/image_to_audio.rs:186-190 | each frame's inverse transform gives as many samples as the FFT size |
| Decoder.FrameSignals | src/image_to_audio.rs:166-197 | one signal per frame, each of FFT length |
| Decoder.OverlapOfEqualValues | src/image_to_audio.rs:189-196 | where every overlapping frame holds the same value `c`, `fft` times the overlap sum is `c` times the window sum, whatever the window weights |
| Decoder.ContributionOfHeld | src/image_to_audio.rs:193-194 | one frame holding `c` adds `c/fft` times the window weight it adds to the window sum |
| Decoder.AddFrame | src/image_to_audio.rs:189-196 | one frame's loop adds, at every covered index, its windowed sample over `fft` to `output` and its window weight to `window_sum`, and leaves every other index unchanged |
| Decoder.HannWindow | src/image_to_audio.rs:192 | the window has one weight per transform position |
| Decoder.SpreadFrame | src/image_to_audio.rs:190-196 | once the loop has covered the whole frame, both arrays hold the frame added to what they held before |
| Decoder.SumsStep | src/image_to_audio.rs:166-197 | adding frame `n` to the overlap and window sums of the first `n` frames gives the sums of the first `n + 1` |
| Decoder.WindowNormalized | src/image_to_audio.rs:199-204 | where the window sum is positive the sample times it is the accumulated sample; elsewhere the sample is unchanged |
| Decoder.NormalizeByWindowSum | src/image_to_audio.rs:199-204 | the in-place division gives the window-normalised output |
| Decoder.Synthesized | src/image_to_audio.rs:162-204 | the synthesised signal has the output length |
| Decoder.HeldSampleRestored | src/image_to_audio.rs:188-204 | where every frame holds the same value `c` at an output index with positive window sum, the synthesised sample there is exactly `c/fft` |
| Decoder.Magnitudes | src/image_to_audio.rs:207 | each element is the absolute value of a sample |
| Decoder.Peak | src/image_to_audio.rs:207 | the peak bounds every absolute sample and is 0 or attained |
| Decoder.PeakNormalized | src/image_to_audio.rs:206-212 | peak normalisation keeps the length |
| Decoder.PeakNormalizedRange | src/image_to_audio.rs:206-212 | after peak normalisation every absolute sample is at most 0.95, and 0.95 is reached when the peak is positive |
| Decoder.HeadroomScale | src/image_to_audio.rs:210 | a sample no larger than the peak is scaled to at most 0.95 in absolute value |
| Decoder.HeadroomReached | src/image_to_audio.rs:210 | the sample at the peak is scaled to exactly 0.95 in absolute value |
| Decoder.PeakNormalize | src/image_to_audio.rs:206-212 | the in-place loop computes exactly the peak-normalised output |
| Decoder.QuantizeSample | src/image_to_audio.rs:225 | computes `(sample * 32767) as i16` with the saturating cast; `Decoder.QuantizeWithinHeadroom` states that it does not saturate within the headroom |
| Decoder.QuantizeWithinHeadroom | src/image_to_audio.rs:225 | within the headroom the `i16` cast does not saturate and lands in `[-31128, 31128]` |
| Decoder.Quantized | src/image_to_audio.rs:224-226 | each written sample is the quantised output sample |
| Decoder.LinearGrids | src/image_to_audio.rs:94-142 | in both scales the linear grids are as high and wide as the image |
| Decoder.SynthesizedFrom | src/image_to_audio.rs:158-212 | synthesis produces `(frames - 1)*512 + fft` samples |
| Decoder.ColumnsOfGrid | src/image_to_audio.rs:172-173 | every frame column exists in both grids |
| Decoder.DecodedSamples | src/image_to_audio.rs:36-227 | the decoded audio has the output length for the image's size |
| Decoder.DecodedSamplesRange | src/image_to_audio.rs:206-226 | every written sample lies in `[-31128, 31128]` |
| Decoder.Synthesize | src/image_to_audio.rs:162-204 | the overlap-add and window division over fresh arrays compute exactly the synthesised signal |
| Decoder.SpectrogramToAudio | src/image_to_audio.rs:8-231 | the decoder's steps give the specified result |
| Decoder.DecodeSamples | src/image_to_audio.rs:51-226 | the pixel loop, the optional log-to-linear resampling, magnitude normalisation, synthesis, peak normalisation and the `i16` cast give exactly the specified samples |
| Decoder.Decode | src/image_to_audio.rs:8-231 | computes the decoder: the header, the empty-image and one-row aborts, and the decoded 16-bit mono samples; `Decoder.DecodeOutcome` states its outcome |
| Decoder.DecodeOutcome | src/image_to_audio.rs:8-231 | an image with no rows or columns aborts, a one-row image aborts, any other image decodes to 16-bit mono at the header's rate, of length `(w-1)*512 + 2(h-1)`, with samples in `[-31128, 31128]` |
| RoundTrip.PhaseRoundTrip | src/image_to_audio.rs:61 | the hue-to-phase map undoes the phase-to-hue map on `[-pi, pi)` |
| RoundTrip.PhaseAtPiWraps | src/audio_to_image.rs:192 | phase `pi` is drawn as hue 0 and read back as `-pi` |
| RoundTrip.EncodedPixelDecodes | src/image_to_audio.rs:51-88 | the decoder reads entry `[bin][frame]` from the pixel the encoder drew it at; the value it reads is within 1/255 below the encoder's, and it decodes that value |
| RoundTrip.EncodedHeaderDecodes | src/image_to_audio.rs:13-34 | the saved image's header holds the recording's rate, and the log flag up to a pre-existing `_LOG` |
| RoundTrip.ResynthesisLength | src/image_to_audio.rs:162 | an encoded image gives back the encoder's FFT size, and audio at most as long as the input and less than one hop shorter |
| RoundTrip.EncodeThenDecode | src/image_to_audio.rs:8-231 | decoding what the encoder saved succeeds, at the recording's rate when the name carries it, with a length in `(n - 512, n]` |
| RoundTrip.DecodedWavReadable | src/audio_to_image.rs:21-65 | the decoder's WAV is a format the encoder accepts, mono, with samples within `31128/32767` of zero |
| Config.Validated | src/config.rs:125-150 | computes the settings after the four checks in order, with the hop size checked against the already-fixed fft size; `Config.ValidatedIsValid` and `Config.ValidatedChangesOnlyInvalid` state its properties |
| Config.DefaultFftSizeValid | src/config.rs:57 | the default FFT size 4096 passes the check |
| Config.Pow2IsPowerOfTwo | src/config.rs:127 | every power of two `2^e` passes `is_power_of_two` |
| Config.ValidatedIsValid | src/config.rs:125-150 | afterwards: the FFT size is a power of two in `[256, 16384]`, `1 <= hop <= fft`, `0 < min_freq < 20000`, and `db_min < db_max` |
| Config.ValidatedChangesOnlyInvalid | src/config.rs:125-150 | the boost, phase, scale and Griffin-Lim fields never change; a valid field keeps its value; an invalid dB range resets both bounds together |
| Config.ValidIffFixpoint | src/config.rs:125-150 | valid settings are exactly those the validator leaves unchanged |
| Config.ValidatedIdempotent | src/config.rs:125-150 | validating twice is validating once |
| Config.DefaultsUnchanged | src/config.rs:57-83 | the defaults are valid and unchanged by validation |
| Config.HopCheckedAfterFftFix | src/config.rs:127-136 | the hop size is checked against the already-fixed FFT size |
| Config.SpectrogramConfig.constructor | src/config.rs:68-83 | a new configuration holds the defaults |
| Config.SpectrogramConfig.ValidateAndFix | src/config.rs:125-150 | the in-place checks leave the validated settings, which are valid |
| Dispatch.KindOf | src/main.rs:139-157 | picks the arm of the extension `match`: `wav` the encoder, `png`, `jpg` and `jpeg` the decoder, anything else the unsupported arm; `Dispatch.KindIgnoresCase` states it for the lower-cased extension |
| Dispatch.Classify | src/main.rs:134-139 | takes the extension, requires it to be UTF-8, lower-cases it and classifies it, with a no-extension error when either step fails; `Dispatch.ClassificationErrorsAgree` states its errors |
| Dispatch.GetOutputPath | src/main.rs:133-158 | predicts the output: the header name next to a WAV file, made from its header's sample rate, or the image with extension `wav`; an unknown extension fails with the message "Unsupported file format"; `Dispatch.OutputPathPredicted` relates it to `process_file` |
| Dispatch.ProcessFile | src/main.rs:160-180 | classifies the file and runs the matching converter on its contents; an unknown extension fails with the longer message that names WAV and PNG/JPG; `Dispatch.OutputPathPredicted` and `Dispatch.ConvertTwice` state what it writes |
| Dispatch.EncodeFile | src/main.rs:167-171 | runs the encoder towards `with_extension("png")` and returns the path it saved to; `Dispatch.EncodeFileResult` states its outcome |
| Dispatch.DecodeFile | src/main.rs:172-177 | runs the decoder and saves to `with_extension("wav")`; `Dispatch.DecodeFileResult` states its outcome |
| Dispatch.ToLowerIdempotent | src/main.rs:137 | lower-casing twice is lower-casing once |
| Dispatch.KindIgnoresCase | src/main.rs:139-157 | `wav` in any case selects the encoder, `png`/`jpg`/`jpeg` in any case the decoder, anything else is unsupported |
| Dispatch.UpperCaseExtensions | src/main.rs:137-153 | `WAV` is audio, `Png` and `JPEG` are images, and `gif` is unsupported |
| Dispatch.ClassifyRenamed | src/main.rs:134-139 | a file given a non-empty dotless extension is classified by that extension, lower-cased |
| Dispatch.ClassificationErrorsAgree | src/main.rs:133-180 | a missing or non-UTF-8 extension is the same no-extension error from both functions; an unknown extension is an unsupported-format error from both, each with its own message (main.rs:156 and main.rs:178) |
| Dispatch.ExtensionMeansName | src/main.rs:134 | a path with an extension has a non-empty file name |
| Dispatch.OutputPathPredicted | src/main.rs:133-180 | when `process_file` succeeds it writes where `get_output_path` said; when `get_output_path` fails, `process_file` fails too, with the same error except that the unsupported-format message is worded differently |
| Dispatch.AudioPathPredicted | src/main.rs:140-171 | for a WAV file, a successful conversion writes to the path `get_output_path` predicts |
| Dispatch.ProcessAudio | src/main.rs:167-171 | a WAV file goes to the encoder |
| Dispatch.ProcessPicture | src/main.rs:172-177 | an image goes to the decoder |
| Dispatch.EncodeFileResult | src/main.rs:169-170 | the audio branch succeeds exactly when the encoder does, saving to the header path of `with_extension("png")` |
| Dispatch.DecodeFileResult | src/main.rs:174-176 | the image branch succeeds exactly when the decoder does, saving to `with_extension("wav")` |
| Dispatch.HeaderPathIsPicture | src/audio_to_image.rs:207-209 | the header path of a named file is in the same directory, has the extension `png`, is classified as an image, and carries the rate |
| Dispatch.AudioConversionWritesPicture | src/main.rs:167-171 | a converted WAV file becomes a `png` image in the same directory, classified as an image, whose header holds the recording's rate and the log flag |
| Dispatch.PictureConversionWritesAudio | src/main.rs:172-177 | a converted image becomes the decoder's audio under the same stem with extension `wav`, classified as audio |
| Dispatch.RenamedToWav | src/main.rs:174 | an image renamed to `wav` keeps its stem and is classified as audio |
| Dispatch.ConvertTwice | src/main.rs:160-180 | converting a WAV file and then the image it produced gives audio at the recording's rate, with length in `(n - 512, n]` |
| Dispatch.EncodeWellFormed | src/audio_to_image.rs:161 | the encoder's image is well formed |

## Left out

- The FFT, `cos`, `sin`, `powf`, `ln`, `log2`, `norm` and `arg` are uninterpreted fields of `Kernels`, so no statement depends on their values. The Hann window values and the dB/boost law have no values either.
- Floating point is modelled as exact reals. Not modelled: rounding of `f32` arithmetic, of `%`, and of the `as f32` conversions; NaN and infinities.
- `PI` is the exact value of the `f32` constant. The phase round trip is exact only over reals.
- `Decoder.LinearBinPosition` requires `LnDividesAt`. It says that when Nyquist exceeds 20 Hz, the kernel `ln` is non-zero at `nyquist / 20`. A real logarithm is; the `f32` infinity or NaN a zero divisor would give is not modelled. The decoder members above it require `LnDividesFor`, which asks this only of a log-scale header, because a linear image never divides by `ln`.
- The model takes the inverse FFT to return as many values as it is given. `RealParts` reads a shorter output as zeros.
- `Encoder.Encode` requires a positive sample rate in log mode. With rate 0 the Rust code divides by a zero Nyquist frequency, giving NaN or infinite bin positions; that path is not modelled.
- `Encoder.IntDivisor`: for 32-bit audio the divisor is `2^31`, the `f32` value of `i32::MAX`.
- Color: the hue round trip through 8-bit channels is not proved. Only value and saturation are.
- Panics are modelled as debug builds run: `num_bins_image - 1` and `num_frames - 1` underflow on an empty image. A release build would wrap and then fail later; that is not modelled.
- The one-row image aborts at `spectrum[0]`. It is reported as its own error, after the empty-image checks.
- `Text.TakeDigits`: `char::is_numeric` is modelled as the ASCII digits. Rust also takes other Unicode numerals into the run, which then fails to parse as `u32` and gives 44100. The model stops the run at such a numeral, so it can read a rate from `_SR48000` followed by a non-ASCII numeral where Rust reads 44100.
- `Text.ToLower`: `to_lowercase` is modelled on ASCII only. The four accepted extensions are ASCII, and no non-ASCII character lowers to one of their letters.
- `Paths`: an OS string is a sequence of characters and ill-formed runs. Not modelled: the platform encoding, path joining and separators, and `parent()`; the directory is kept as it is.
- I/O is not modelled. For WAV reading (`hound`), a file's contents are a parameter, with `None` when it cannot be opened; a sample that fails to read mid-file (`expect`) is not modelled.
- I/O is not modelled. For image opening (`image::open`), a file's contents are a parameter, with `None` when it cannot be opened.
- Saving the PNG and writing the WAV (`img.save`, `WavWriter`) are not modelled; their failures are absent.
- `SpectrogramConfig::load`, `save` and the TOML format are I/O and are not modelled, nor is `print_info`.
- The configuration is not wired into the codec, which uses its own fixed constants. So `Config` models only the validator and the defaults, and no codec lemma depends on them.
- The desktop UI (`SpectrogramApp`, file dialogs, drag-and-drop preview) and all `println!`/`eprintln!` output are not modelled.
- Griffin-Lim, magnitude-only decoding and any phase estimator are not modelled: the code shown does not implement them.
