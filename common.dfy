/**
 * Shared result types of the spectrogram codec.
 *
 * The Rust code returns `Result<_, Box<dyn Error>>` for the errors it
 * reports and panics (arithmetic underflow, out-of-bounds indexing) in a
 * few places it does not guard.  Both outcomes are values here: a panic is
 * `Err(Aborted(..))`, naming where the Rust code would stop.
 */
module Common {

  datatype Option<+T> = None | Some(value: T)

  /** Why the Rust code would panic instead of returning. */
  datatype AbortReason =
    | ShortInput        // `samples.len() - FFT_SIZE` underflows (audio shorter than one window)
    | OddStereoLength   // `chunk[1]` on the last one-sample chunk of an odd stereo buffer
    | EmptyImage        // `num_bins_image - 1` or `num_frames - 1` underflows
    | ZeroFftSize       // one-row image: `spectrum[0]` on an empty spectrum

  datatype Error =
    | UnsupportedAudioFormat          // sample format / bit depth pair not handled
    | TooManyChannels(channels: nat)  // more than two channels
    | NoExtension                     // missing or non-UTF-8 extension
    | UnsupportedFileFormat(message: string)  // extension is not wav/png/jpg/jpeg, with the caller's message
    | AudioUnreadable                 // the WAV header could not be read (I/O)
    | ImageUnreadable                 // the image file could not be opened or decoded (I/O)
    | Aborted(reason: AbortReason)

  datatype Result<+T> = Ok(value: T) | Err(error: Error) {
    predicate IsFailure() { Err? }

    function PropagateFailure<U>(): Result<U>
      requires Err?
    {
      Err(error)
    }

    function Extract(): T
      requires Ok?
    {
      value
    }
  }

  datatype SampleFormat = Float | Int

  /** The header fields of a WAV file. */
  datatype WavSpec = WavSpec(format: SampleFormat, bitsPerSample: nat, sampleRate: nat, channels: nat)

  /**
   * A WAV file: the header and the interleaved
   * samples, each the value read in the file's own sample type (the integer
   * itself for integer formats).
   */
  datatype Wav = Wav(spec: WavSpec, samples: seq<real>)
}
