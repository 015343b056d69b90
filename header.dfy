/**
 * The codec header carried out of band in the image's file name.
 *
 * The encoder names its output `<stem>_SR<rate>_LOG.png` or
 * `<stem>_SR<rate>_LIN.png`.  The decoder reads the rate from the digits
 * after the last `_SR` of the image's stem (44100 when there is no `_SR`,
 * no digits or a value beyond `u32`), and selects the logarithmic scale
 * exactly when the stem contains `_LOG` anywhere.
 */
module Header {
  import opened Common
  import opened Text
  import opened Paths

  const DEFAULT_SAMPLE_RATE: nat := 44100

  datatype CodecHeader = CodecHeader(sampleRate: nat, logScale: bool)

  const DEFAULT_HEADER := CodecHeader(DEFAULT_SAMPLE_RATE, false)

  function ScaleSuffix(logScale: bool): string {
    if logScale then "_LOG" else "_LIN"
  }

  /** `format!("{}_SR{}{}.png", stem, sample_rate, scale_suffix)`. */
  function HeaderFileName(stem: string, sampleRate: nat, logScale: bool): string {
    stem + "_SR" + Decimal(sampleRate) + ScaleSuffix(logScale) + ".png"
  }

  /**
   * The path the encoder saves to: the requested output path's stem, made
   * lossy, with the header appended, in the same directory; a path without a
   * file name is used as it is.
   */
  function HeaderOutputPath(outputPath: FilePath, sampleRate: nat, logScale: bool): FilePath {
    match FileStem(outputPath)
    case None => outputPath
    case Some(stem) =>
      FilePath(outputPath.dir, Some(FromStr(HeaderFileName(Lossy(stem), sampleRate, logScale))))
  }

  /** The sample rate the decoder reads from a (lossy) stem. */
  function SampleRateOf(stem: string): (r: nat)
    ensures r <= U32_MAX
    ensures !Contains(stem, "_SR") ==> r == DEFAULT_SAMPLE_RATE
  {
    match Rfind(stem, "_SR")
    case None => DEFAULT_SAMPLE_RATE
    case Some(pos) =>
      match ParseU32(TakeDigits(stem[pos + 3..]))
      case None => DEFAULT_SAMPLE_RATE
      case Some(v) => v
  }

  /** The header the decoder reads from a stem, or from no stem at all. */
  function ParseHeader(stem: Option<string>): (h: CodecHeader)
    ensures stem.None? ==> h == DEFAULT_HEADER
    ensures stem.Some? ==> (h.logScale <==> Contains(stem.value, "_LOG"))
  {
    match stem
    case None => DEFAULT_HEADER
    case Some(s) => CodecHeader(SampleRateOf(s), Contains(s, "_LOG"))
  }

  /** The header of an image file: its stem, made lossy, parsed. */
  function HeaderOf(imagePath: FilePath): CodecHeader {
    match FileStem(imagePath)
    case None => ParseHeader(None)
    case Some(stem) => ParseHeader(Some(Lossy(stem)))
  }

  /**
   * With an `_SR` in the stem the rate is the run of digits after its LAST
   * occurrence, read as a `u32`, and 44100 when that run is empty or too large.
   */
  lemma {:induction false} SampleRateAfterLastMarker(stem: string, pos: nat)
    requires OccursAt(stem, "_SR", pos)
    requires forall j: nat :: pos < j ==> !OccursAt(stem, "_SR", j)
    ensures var digits := TakeDigits(stem[pos + 3..]);
            SampleRateOf(stem) ==
              if digits != [] && DigitsValue(digits) <= U32_MAX then DigitsValue(digits)
              else DEFAULT_SAMPLE_RATE
  {
    var r := Rfind(stem, "_SR");
    assert r.Some?;
    assert r.value == pos;
  }

  /** `s` does not match `pat` at `j` since the characters at offset `k` differ. */
  lemma {:induction false} MismatchAt(s: string, pat: string, j: nat, k: nat)
    requires k < |pat| && j + k < |s| && s[j + k] != pat[k]
    ensures !OccursAt(s, pat, j)
  {
  }

  /** An occurrence lying inside a prefix is an occurrence in that prefix. */
  lemma {:induction false} OccursInPrefix(l: string, m: string, pat: string, j: nat)
    requires j + |pat| <= |l|
    ensures OccursAt(l + m, pat, j) <==> OccursAt(l, pat, j)
  {
    assert (l + m)[j..j + |pat|] == l[j..j + |pat|];
  }

  /**
   * The characters of the header `_SR<digits><suffix>` that a search for
   * `_SR` or `_LOG` can stop at.
   */
  lemma {:induction false} HeaderTokenShape(d: string, logScale: bool)
    requires d != [] && AllDigits(d)
    ensures var m := "_SR" + d + ScaleSuffix(logScale);
            && |m| == 7 + |d|
            && m[0] == '_' && m[1] == 'S' && m[2] == 'R'
            && (forall i | 3 <= i < 3 + |d| :: IsDigit(m[i]))
            && m[3 + |d|] == '_' && m[4 + |d|] == 'L'
            && m[5 + |d|] == (if logScale then 'O' else 'I')
            && m[6 + |d|] == (if logScale then 'G' else 'N')
  {
  }

  /** In `l + "_SR" + d + suffix` the last `_SR` is the one the encoder appended. */
  lemma {:induction false} LastMarkerIsHeader(l: string, d: string, logScale: bool)
    requires d != [] && AllDigits(d)
    ensures Rfind(l + "_SR" + d + ScaleSuffix(logScale), "_SR") == Some(|l|)
  {
    var m := "_SR" + d + ScaleSuffix(logScale);
    var t := l + "_SR" + d + ScaleSuffix(logScale);
    assert t == l + m;
    HeaderTokenShape(d, logScale);
    assert OccursAt(t, "_SR", |l|) by {
      assert t[|l|..|l| + 3] == m[..3];
    }
    forall j: nat | |l| < j
      ensures !OccursAt(t, "_SR", j)
    {
      if j + 3 <= |t| {
        var k := j - |l|;
        assert t[j] == m[k];
        if k == 3 + |d| {
          assert t[j + 1] == m[k + 1];
          MismatchAt(t, "_SR", j, 1);
        } else {
          assert m[k] != '_';
          MismatchAt(t, "_SR", j, 0);
        }
      }
    }
  }

  /** `_LOG` occurs in `l + "_SR" + d + suffix` exactly when the suffix is `_LOG` or `l` holds it. */
  lemma {:induction false} LogTokenSearch(l: string, d: string, logScale: bool)
    requires d != [] && AllDigits(d)
    ensures Contains(l + "_SR" + d + ScaleSuffix(logScale), "_LOG") <==> logScale || Contains(l, "_LOG")
  {
    var m := "_SR" + d + ScaleSuffix(logScale);
    var t := l + "_SR" + d + ScaleSuffix(logScale);
    assert t == l + m;
    HeaderTokenShape(d, logScale);
    if logScale {
      assert t[|l| + 3 + |d|..|l| + 7 + |d|] == m[3 + |d|..];
      assert OccursAt(t, "_LOG", |l| + 3 + |d|);
    } else if Contains(l, "_LOG") {
      var j: nat :| j <= |l| && OccursAt(l, "_LOG", j);
      OccursInPrefix(l, m, "_LOG", j);
    } else {
      forall j: nat | j <= |t|
        ensures !OccursAt(t, "_LOG", j)
      {
        if j + 4 <= |l| {
          OccursInPrefix(l, m, "_LOG", j);
        } else if j < |l| {
          if j + 4 <= |t| {
            assert t[|l|] == '_';
            MismatchAt(t, "_LOG", j, |l| - j);
          }
        } else if j + 4 <= |t| {
          var k := j - |l|;
          assert t[j] == m[k];
          if k == 0 {
            assert t[j + 1] == m[1];
            MismatchAt(t, "_LOG", j, 1);
          } else if k == 3 + |d| {
            assert t[j + 2] == m[k + 2];
            MismatchAt(t, "_LOG", j, 2);
          } else {
            assert m[k] != '_';
            MismatchAt(t, "_LOG", j, 0);
          }
        }
      }
    }
  }

  /** The stem the decoder sees in a file named by the encoder, and its `png` extension. */
  lemma {:induction false} HeaderFileStem(dir: OsStr, l: string, sampleRate: nat, logScale: bool)
    ensures FileStem(FilePath(dir, Some(FromStr(HeaderFileName(l, sampleRate, logScale)))))
              == Some(FromStr(l + "_SR" + Decimal(sampleRate) + ScaleSuffix(logScale)))
    ensures Extension(FilePath(dir, Some(FromStr(HeaderFileName(l, sampleRate, logScale))))) == Some(FromStr("png"))
  {
    var t := l + "_SR" + Decimal(sampleRate) + ScaleSuffix(logScale);
    var name := FromStr(HeaderFileName(l, sampleRate, logScale));
    assert HeaderFileName(l, sampleRate, logScale) == t + ".png";
    var i := |t|;
    assert name[i] == Ch('.');
    assert forall j | i < j < |name| :: name[j] != Ch('.');
    LastDotSkip(name, i + 1, |name|);
    assert LastDot(name) == Some(i);
    assert |name| > 2;
    assert name[..i] == FromStr(t);
    assert name[i + 1..] == FromStr("png");
  }

  /** The rate the decoder reads from a stem the encoder extended is the rate it wrote. */
  lemma {:induction false} SampleRateOfHeaderStem(l: string, sampleRate: nat, logScale: bool)
    requires sampleRate <= U32_MAX
    ensures SampleRateOf(l + "_SR" + Decimal(sampleRate) + ScaleSuffix(logScale)) == sampleRate
  {
    var d := Decimal(sampleRate);
    var t := l + "_SR" + d + ScaleSuffix(logScale);
    DecimalValue(sampleRate);
    LastMarkerIsHeader(l, d, logScale);
    assert t[|l| + 3..] == d + ScaleSuffix(logScale);
    TakeDigitsOfDecimal(d, ScaleSuffix(logScale));
  }

  /** The header parsed from a stem the encoder extended. */
  lemma {:induction false} ParseHeaderStem(l: string, sampleRate: nat, logScale: bool)
    requires sampleRate <= U32_MAX
    ensures ParseHeader(Some(l + "_SR" + Decimal(sampleRate) + ScaleSuffix(logScale)))
              == CodecHeader(sampleRate, logScale || Contains(l, "_LOG"))
  {
    DecimalValue(sampleRate);
    SampleRateOfHeaderStem(l, sampleRate, logScale);
    LogTokenSearch(l, Decimal(sampleRate), logScale);
  }

  /**
   * Decoding the name the encoder writes recovers the sample rate for every
   * stem, and selects the logarithmic scale when the encoder did or when the
   * original stem already contained `_LOG`.
   */
  lemma {:induction false} HeaderRoundTrip(outputPath: FilePath, sampleRate: nat, logScale: bool)
    requires outputPath.name.Some?
    requires sampleRate <= U32_MAX
    ensures var l := Lossy(FileStem(outputPath).value);
            HeaderOf(HeaderOutputPath(outputPath, sampleRate, logScale))
              == CodecHeader(sampleRate, logScale || Contains(l, "_LOG"))
  {
    var l := Lossy(FileStem(outputPath).value);
    var t := l + "_SR" + Decimal(sampleRate) + ScaleSuffix(logScale);
    HeaderFileStem(outputPath.dir, l, sampleRate, logScale);
    LossyFromStr(t);
    ParseHeaderStem(l, sampleRate, logScale);
  }

  /** When the original stem holds no `_LOG`, the header round trip is exact. */
  lemma {:induction false} HeaderRoundTripExact(outputPath: FilePath, sampleRate: nat, logScale: bool)
    requires outputPath.name.Some?
    requires sampleRate <= U32_MAX
    requires !Contains(Lossy(FileStem(outputPath).value), "_LOG")
    ensures HeaderOf(HeaderOutputPath(outputPath, sampleRate, logScale)) == CodecHeader(sampleRate, logScale)
  {
    HeaderRoundTrip(outputPath, sampleRate, logScale);
  }

  /** A linear-scale image whose stem already contains `_LOG` is read back as logarithmic. */
  lemma {:induction false} LogTokenInStemIsMisread()
    ensures var out := FilePath([], Some(FromStr("take_LOG.png")));
            HeaderOf(HeaderOutputPath(out, 48000, false)) == CodecHeader(48000, true)
  {
    var out := FilePath([], Some(FromStr("take_LOG.png")));
    var name := FromStr("take_LOG.png");
    assert LastDot(name) == Some(8) by {
      LastDotSkip(name, 9, 12);
    }
    assert |name| > 2 && name[..8] == FromStr("take_LOG");
    assert FileStem(out) == Some(FromStr("take_LOG"));
    LossyFromStr("take_LOG");
    assert OccursAt("take_LOG", "_LOG", 4);
    HeaderRoundTrip(out, 48000, false);
  }

  /** `clip.png` carries no header: 44100 Hz, linear scale. */
  lemma {:induction false} PlainNameDefaults()
    ensures HeaderOf(FilePath([], Some(FromStr("clip.png")))) == DEFAULT_HEADER
  {
    var name := FromStr("clip.png");
    assert LastDot(name) == Some(4) by {
      LastDotSkip(name, 5, 8);
    }
    assert |name| > 2 && name[..4] == FromStr("clip");
    assert FileStem(FilePath([], Some(name))) == Some(FromStr("clip"));
    LossyFromStr("clip");
    var s := "clip";
    forall j: nat | j <= |s| ensures !OccursAt(s, "_SR", j) && !OccursAt(s, "_LOG", j) {
      if j < |s| {
        MismatchAt(s, "_SR", j, 0);
        MismatchAt(s, "_LOG", j, 0);
      }
    }
  }
}
