/**
 * The desktop front end's file dispatch: a dropped file is classified by its
 * lower-cased extension, `get_output_path` predicts the file the conversion
 * will write, and `process_file` runs the encoder on a WAV file or the
 * decoder on a PNG/JPEG file.
 *
 * The contents of the input file are parameters: `audio` is the WAV file as
 * `hound` reads it (`None` when it cannot be opened), `picture` the image as
 * the `image` crate decodes it (`None` when it cannot).
 */
module Dispatch {
  import opened Common
  import opened Text
  import opened Paths
  import opened Header
  import opened Numerics
  import opened Color
  import E = Encoder
  import D = Decoder
  import RoundTrip

  /** Which arm of the extension `match` a file takes. */
  datatype Kind = Audio | Picture | Unsupported

  /** The message `get_output_path` gives for an unsupported extension. */
  const OUTPUT_PATH_UNSUPPORTED := "Unsupported file format"

  /** The message `process_file` gives for an unsupported extension. */
  const PROCESS_FILE_UNSUPPORTED := "Unsupported file format. Use WAV for audio or PNG/JPG for images."

  /** What a conversion writes, together with the path it writes to. */
  datatype Written = ImageFile(image: Image) | AudioFile(audio: Wav)

  /** The `match` on the lower-cased extension. */
  function KindOf(ext: string): Kind {
    if ext == "wav" then Audio
    else if ext == "png" || ext == "jpg" || ext == "jpeg" then Picture
    else Unsupported
  }

  /** The extension, as UTF-8, lower-cased and classified; both front-end functions start so. */
  function Classify(path: FilePath): Result<Kind> {
    match Extension(path)
    case None => Err(NoExtension)
    case Some(ext) =>
      match ToStr(ext)
      case None => Err(NoExtension)
      case Some(s) => Ok(KindOf(ToLower(s)))
  }

  /**
   * `get_output_path`: for a WAV file, the encoder's header name built from
   * the sample rate in the file's header; for an image, the input with the
   * extension `wav`.
   */
  function GetOutputPath(path: FilePath, useLog: bool, audio: Option<Wav>): Result<FilePath> {
    var kind :- Classify(path);
    match kind
    case Audio =>
      (match audio
       case None => Err(AudioUnreadable)
       case Some(wav) =>
         match FileStem(path)
         case Some(stem) =>
           Ok(FilePath(path.dir, Some(FromStr(HeaderFileName(Lossy(stem), wav.spec.sampleRate, useLog)))))
         case None => Ok(WithExtension(path, "png")))
    case Picture => Ok(WithExtension(path, "wav"))
    case Unsupported => Err(UnsupportedFileFormat(OUTPUT_PATH_UNSUPPORTED))
  }

  /** What `process_file` needs of its inputs: the encoder's and decoder's own preconditions. */
  predicate ProcessableWith(k: Kernels, path: FilePath, useLog: bool, audio: Option<Wav>, picture: Option<Image>) {
    && (audio.Some? && useLog ==> audio.value.spec.sampleRate > 0)
    && (picture.Some? ==> WellFormed(picture.value) && D.LnDividesFor(k, HeaderOf(path)))
  }

  /**
   * `process_file`: encode a WAV file towards `with_extension("png")` and
   * return the header path the encoder actually writes, or decode an image
   * into `with_extension("wav")`.
   */
  function ProcessFile(k: Kernels, path: FilePath, useLog: bool, audio: Option<Wav>, picture: Option<Image>)
    : Result<(FilePath, Written)>
    requires ProcessableWith(k, path, useLog, audio, picture)
  {
    var kind :- Classify(path);
    match kind
    case Audio =>
      (match audio
       case None => Err(AudioUnreadable)
       case Some(wav) => EncodeFile(k, path, useLog, wav))
    case Picture =>
      (match picture
       case None => Err(ImageUnreadable)
       case Some(img) => DecodeFile(k, path, img))
    case Unsupported => Err(UnsupportedFileFormat(PROCESS_FILE_UNSUPPORTED))
  }

  /** The `wav` arm: the encoder's image and the path it saved it to. */
  function EncodeFile(k: Kernels, path: FilePath, useLog: bool, wav: Wav): Result<(FilePath, Written)>
    requires useLog ==> wav.spec.sampleRate > 0
  {
    var encoded :- E.Encode(k, wav, WithExtension(path, "png"), useLog);
    Ok((encoded.1, ImageFile(encoded.0)))
  }

  /** The image arm: the decoder's WAV file, saved next to the image. */
  function DecodeFile(k: Kernels, path: FilePath, img: Image): Result<(FilePath, Written)>
    requires WellFormed(img) && D.LnDividesFor(k, HeaderOf(path))
  {
    var decoded :- D.Decode(k, img, path);
    Ok((WithExtension(path, "wav"), AudioFile(decoded)))
  }

  /** Lower-casing ASCII twice is lower-casing once. */
  lemma {:induction false} ToLowerIdempotent(s: string)
    ensures ToLower(ToLower(s)) == ToLower(s)
  {
  }

  /**
   * The extension is compared without regard to ASCII case: exactly `wav`
   * selects the encoder, exactly `png`, `jpg` and `jpeg` the decoder, in any
   * mix of cases, and every other extension is unsupported.
   */
  lemma {:induction false} KindIgnoresCase(ext: string)
    ensures KindOf(ToLower(ext)) == KindOf(ToLower(ToLower(ext)))
    ensures KindOf(ToLower(ext)) == Audio <==> ToLower(ext) == "wav"
    ensures KindOf(ToLower(ext)) == Picture <==> ToLower(ext) in {"png", "jpg", "jpeg"}
    ensures KindOf(ToLower(ext)) == Unsupported <==> ToLower(ext) !in {"wav", "png", "jpg", "jpeg"}
  {
    ToLowerIdempotent(ext);
  }

  /** `WAV`, `Png` and `JPEG` are accepted as their lower-case forms. */
  lemma {:induction false} UpperCaseExtensions()
    ensures KindOf(ToLower("WAV")) == Audio
    ensures KindOf(ToLower("Png")) == Picture
    ensures KindOf(ToLower("JPEG")) == Picture
    ensures KindOf(ToLower("gif")) == Unsupported
  {
    assert ToLower("WAV") == "wav";
    assert ToLower("Png") == "png";
    assert ToLower("JPEG") == "jpeg";
    assert ToLower("gif") == "gif";
  }

  /**
   * A file renamed to a non-empty, dotless extension is classified by that
   * extension, lower-cased.
   */
  lemma {:induction false} ClassifyRenamed(path: FilePath, ext: string)
    requires path.name.Some? && path.name.value != []
    requires ext != "" && Dotless(ext)
    ensures Classify(WithExtension(path, ext)) == Ok(KindOf(ToLower(ext)))
  {
    WithExtensionKeepsStem(path, ext);
    ToStrFromStr(ext);
  }

  /**
   * A missing or non-UTF-8 extension stops both front-end functions with the
   * same error before any file is read.  An unsupported extension stops both
   * too, each with its own message.
   */
  lemma {:induction false} ClassificationErrorsAgree(k: Kernels, path: FilePath, useLog: bool, audio: Option<Wav>, picture: Option<Image>)
    requires ProcessableWith(k, path, useLog, audio, picture)
    ensures (Extension(path).None? || !IsUnicode(Extension(path).value)) <==> Classify(path) == Err(NoExtension)
    ensures Classify(path).Err? ==> Classify(path) == Err(NoExtension)
    ensures Classify(path).Err? ==>
              && GetOutputPath(path, useLog, audio) == Err(NoExtension)
              && ProcessFile(k, path, useLog, audio, picture) == Err(NoExtension)
    ensures Classify(path) == Ok(Unsupported) ==>
              && GetOutputPath(path, useLog, audio) == Err(UnsupportedFileFormat(OUTPUT_PATH_UNSUPPORTED))
              && ProcessFile(k, path, useLog, audio, picture) == Err(UnsupportedFileFormat(PROCESS_FILE_UNSUPPORTED))
  {
    match Extension(path)
    case None =>
    case Some(ext) =>
      if IsUnicode(ext) {
        KindIgnoresCase(ToStr(ext).value);
      }
  }

  /** A file with an extension has a non-empty name. */
  lemma {:induction false} ExtensionMeansName(path: FilePath)
    requires Extension(path).Some?
    ensures path.name.Some? && path.name.value != []
  {
    ExtensionSplitsName(path);
  }

  /**
   * The prediction is right: whenever `process_file` succeeds, it writes to
   * the path `get_output_path` returned for the same file; and whenever
   * `get_output_path` fails, `process_file` fails too, with the same error
   * except for the wording of the unsupported-format message.
   */
  lemma {:induction false} OutputPathPredicted(k: Kernels, path: FilePath, useLog: bool, audio: Option<Wav>, picture: Option<Image>)
    requires ProcessableWith(k, path, useLog, audio, picture)
    ensures ProcessFile(k, path, useLog, audio, picture).Ok? ==>
              GetOutputPath(path, useLog, audio) == Ok(ProcessFile(k, path, useLog, audio, picture).value.0)
    ensures GetOutputPath(path, useLog, audio).Err? ==> ProcessFile(k, path, useLog, audio, picture).Err?
    ensures GetOutputPath(path, useLog, audio).Err? && !GetOutputPath(path, useLog, audio).error.UnsupportedFileFormat? ==>
              ProcessFile(k, path, useLog, audio, picture) == Err(GetOutputPath(path, useLog, audio).error)
    ensures GetOutputPath(path, useLog, audio).Err? && GetOutputPath(path, useLog, audio).error.UnsupportedFileFormat? ==>
              ProcessFile(k, path, useLog, audio, picture) == Err(UnsupportedFileFormat(PROCESS_FILE_UNSUPPORTED))
  {
    ClassificationErrorsAgree(k, path, useLog, audio, picture);
    if Classify(path) == Ok(Audio) && audio.Some? {
      ProcessAudio(k, path, useLog, audio.value, picture);
      AudioPathPredicted(k, path, useLog, audio.value);
    }
  }

  /** For a WAV file, the prediction is the header path the encoder writes to. */
  lemma {:induction false} AudioPathPredicted(k: Kernels, path: FilePath, useLog: bool, wav: Wav)
    requires useLog ==> wav.spec.sampleRate > 0
    requires Classify(path) == Ok(Audio)
    ensures EncodeFile(k, path, useLog, wav).Ok? ==>
              GetOutputPath(path, useLog, Some(wav)) == Ok(EncodeFile(k, path, useLog, wav).value.0)
  {
    ExtensionMeansName(path);
    WithExtensionKeepsStem(path, "png");
    var target := WithExtension(path, "png");
    assert target.dir == path.dir;
    var r := E.Encode(k, wav, target, useLog);
    if r.Ok? {
      assert r.value.1 == HeaderOutputPath(target, wav.spec.sampleRate, useLog);
    }
  }

  /** A classified audio file goes to the encoder arm. */
  lemma {:induction false} ProcessAudio(k: Kernels, path: FilePath, useLog: bool, wav: Wav, picture: Option<Image>)
    requires ProcessableWith(k, path, useLog, Some(wav), picture)
    requires Classify(path) == Ok(Audio)
    ensures ProcessFile(k, path, useLog, Some(wav), picture) == EncodeFile(k, path, useLog, wav)
  {
  }

  /** A classified image goes to the decoder arm. */
  lemma {:induction false} ProcessPicture(k: Kernels, path: FilePath, useLog: bool, audio: Option<Wav>, img: Image)
    requires ProcessableWith(k, path, useLog, audio, Some(img))
    requires Classify(path) == Ok(Picture)
    ensures ProcessFile(k, path, useLog, audio, Some(img)) == DecodeFile(k, path, img)
  {
  }

  /** The encoder arm succeeds with the encoder, writing its image to the header path. */
  lemma {:induction false} EncodeFileResult(k: Kernels, path: FilePath, useLog: bool, wav: Wav)
    requires useLog ==> wav.spec.sampleRate > 0
    ensures var r := E.Encode(k, wav, WithExtension(path, "png"), useLog);
            && (EncodeFile(k, path, useLog, wav).Ok? <==> r.Ok?)
            && (r.Ok? ==>
                  EncodeFile(k, path, useLog, wav).value
                    == (HeaderOutputPath(WithExtension(path, "png"), wav.spec.sampleRate, useLog), ImageFile(r.value.0)))
  {
  }

  /** The decoder arm succeeds with the decoder, writing its audio next to the image. */
  lemma {:induction false} DecodeFileResult(k: Kernels, path: FilePath, img: Image)
    requires WellFormed(img) && D.LnDividesFor(k, HeaderOf(path))
    ensures var r := D.Decode(k, img, path);
            && (DecodeFile(k, path, img).Ok? <==> r.Ok?)
            && (r.Ok? ==> DecodeFile(k, path, img).value == (WithExtension(path, "wav"), AudioFile(r.value)))
  {
  }

  /**
   * The header path of a file with a name has the extension `png`, so the
   * front end takes it as an image, in the same directory, and its header
   * holds the sample rate.
   */
  lemma {:induction false} HeaderPathIsPicture(target: FilePath, sampleRate: nat, useLog: bool)
    requires target.name.Some? && sampleRate <= U32_MAX
    ensures var out := HeaderOutputPath(target, sampleRate, useLog);
            && out.dir == target.dir
            && Extension(out) == Some(FromStr("png"))
            && Classify(out) == Ok(Picture)
            && HeaderOf(out) == CodecHeader(sampleRate, useLog || Contains(Lossy(FileStem(target).value), "_LOG"))
  {
    var l := Lossy(FileStem(target).value);
    HeaderFileStem(target.dir, l, sampleRate, useLog);
    ToStrFromStr("png");
    ToLowerOfLower("png");
    HeaderRoundTrip(target, sampleRate, useLog);
  }

  /**
   * Converting a WAV file writes the encoder's image, in the same directory,
   * under a name with the extension `png` that the front end takes back as
   * an image and whose header holds the recording's sample rate.
   */
  lemma {:induction false} AudioConversionWritesPicture(k: Kernels, path: FilePath, useLog: bool, wav: Wav)
    requires useLog ==> wav.spec.sampleRate > 0
    requires Classify(path) == Ok(Audio)
    requires ProcessFile(k, path, useLog, Some(wav), None).Ok?
    requires wav.spec.sampleRate <= U32_MAX
    ensures var out := ProcessFile(k, path, useLog, Some(wav), None).value;
            && out.1.ImageFile?
            && out.0.dir == path.dir
            && Extension(out.0) == Some(FromStr("png"))
            && Classify(out.0) == Ok(Picture)
            && HeaderOf(out.0).sampleRate == wav.spec.sampleRate
            && (useLog ==> HeaderOf(out.0).logScale)
  {
    ProcessAudio(k, path, useLog, wav, None);
    EncodeFileResult(k, path, useLog, wav);
    ExtensionMeansName(path);
    var target := WithExtension(path, "png");
    assert target.name.Some? && target.dir == path.dir;
    HeaderPathIsPicture(target, wav.spec.sampleRate, useLog);
  }

  /**
   * Converting an image writes the decoder's WAV file under the same stem
   * with the extension `wav`, which the front end takes back as audio.
   */
  lemma {:induction false} PictureConversionWritesAudio(k: Kernels, path: FilePath, img: Image)
    requires WellFormed(img) && D.LnDividesFor(k, HeaderOf(path))
    requires Classify(path) == Ok(Picture)
    requires ProcessFile(k, path, false, None, Some(img)).Ok?
    ensures var out := ProcessFile(k, path, false, None, Some(img)).value;
            && out == (WithExtension(path, "wav"), AudioFile(D.Decode(k, img, path).value))
            && FileStem(out.0) == FileStem(path)
            && Classify(out.0) == Ok(Audio)
  {
    ProcessPicture(k, path, false, None, img);
    DecodeFileResult(k, path, img);
    RenamedToWav(path);
  }

  /** An image renamed to `wav` keeps its stem and is taken as audio. */
  lemma {:induction false} RenamedToWav(path: FilePath)
    requires Classify(path) == Ok(Picture)
    ensures FileStem(WithExtension(path, "wav")) == FileStem(path)
    ensures Classify(WithExtension(path, "wav")) == Ok(Audio)
  {
    ExtensionMeansName(path);
    WithExtensionKeepsStem(path, "wav");
    ClassifyRenamed(path, "wav");
    ToLowerOfLower("wav");
  }

  /**
   * Dropping a WAV file and then the image it produced gives back a WAV file
   * at the recording's sample rate, at most as long as the mono recording
   * and less than one hop shorter.
   */
  lemma {:induction false} ConvertTwice(k: Kernels, path: FilePath, useLog: bool, wav: Wav)
    requires useLog ==> wav.spec.sampleRate > 0
    requires Classify(path) == Ok(Audio)
    requires ProcessFile(k, path, useLog, Some(wav), None).Ok?
    requires wav.spec.sampleRate <= U32_MAX
    requires var out := ProcessFile(k, path, useLog, Some(wav), None).value.0;
             D.LnDividesFor(k, HeaderOf(out))
    ensures var first := ProcessFile(k, path, useLog, Some(wav), None).value;
            && first.1.ImageFile?
            && var second := ProcessFile(k, first.0, useLog, None, Some(first.1.image));
               var n := |wav.samples|;
               var monoLen := if wav.spec.channels == 2 then n / 2 else n;
               && second.Ok?
               && second.value.1.AudioFile?
               && second.value.1.audio.spec.sampleRate == wav.spec.sampleRate
               && monoLen - D.HOP_SIZE < |second.value.1.audio.samples| <= monoLen
  {
    var target := WithExtension(path, "png");
    var enc := E.Encode(k, wav, target, useLog);
    ProcessAudio(k, path, useLog, wav, None);
    EncodeFileResult(k, path, useLog, wav);
    AudioConversionWritesPicture(k, path, useLog, wav);
    var first := ProcessFile(k, path, useLog, Some(wav), None).value;
    assert first == (enc.value.1, ImageFile(enc.value.0));
    ExtensionMeansName(path);
    assert target.name.Some?;
    EncodeWellFormed(k, wav, target, useLog);
    ProcessPicture(k, first.0, useLog, None, enc.value.0);
    DecodeFileResult(k, first.0, enc.value.0);
    RoundTrip.EncodeThenDecode(k, wav, target, useLog);
  }

  /** The encoder's image is well formed. */
  lemma {:induction false} EncodeWellFormed(k: Kernels, wav: Wav, outputPath: FilePath, useLog: bool)
    requires useLog ==> wav.spec.sampleRate > 0
    requires E.Encode(k, wav, outputPath, useLog).Ok?
    ensures WellFormed(E.Encode(k, wav, outputPath, useLog).value.0)
  {
    E.EncodeOutcome(k, wav, outputPath, useLog);
  }
}
