/**
 * The part of `std::path` the codec uses: a path's last component, its
 * `file_stem()`, its `extension()`, `with_extension()`, and the conversions
 * `to_str()` / `to_string_lossy()` of an OS string.
 *
 * An OS string is a sequence of units; a unit is a character or one maximal
 * ill-formed UTF-8 byte run (`Invalid`), which `to_string_lossy` turns into
 * one U+FFFD and `to_str` refuses.  A path is its parent directory, kept
 * opaque, and its last component, absent when the path has no file name
 * (it ends in `..` or is a root).
 */
module Paths {
  import opened Common
  import opened Text

  datatype OsUnit = Ch(c: char) | Invalid

  type OsStr = seq<OsUnit>

  const REPLACEMENT: char := '\U{FFFD}'

  datatype FilePath = FilePath(dir: OsStr, name: Option<OsStr>)

  /** The OS string holding exactly the characters of `s`. */
  function FromStr(s: string): (o: OsStr)
    ensures |o| == |s| && forall i | 0 <= i < |s| :: o[i] == Ch(s[i])
  {
    seq(|s|, i requires 0 <= i < |s| => Ch(s[i]))
  }

  function LossyUnit(u: OsUnit): char {
    if u.Ch? then u.c else REPLACEMENT
  }

  /** `OsStr::to_string_lossy`. */
  function Lossy(o: OsStr): (s: string)
    ensures |s| == |o| && forall i | 0 <= i < |o| :: s[i] == LossyUnit(o[i])
  {
    seq(|o|, i requires 0 <= i < |o| => LossyUnit(o[i]))
  }

  predicate IsUnicode(o: OsStr) {
    forall i | 0 <= i < |o| :: o[i].Ch?
  }

  /** `OsStr::to_str`: the string, unless some unit is not valid Unicode. */
  function ToStr(o: OsStr): (r: Option<string>)
    ensures r.Some? <==> IsUnicode(o)
    ensures r.Some? ==> FromStr(r.value) == o && Lossy(o) == r.value
  {
    if IsUnicode(o) then Some(Lossy(o)) else None
  }

  lemma {:induction false} LossyFromStr(s: string)
    ensures Lossy(FromStr(s)) == s
  {
  }

  /** A string's OS string converts back to it. */
  lemma {:induction false} ToStrFromStr(s: string)
    ensures ToStr(FromStr(s)) == Some(s)
  {
    LossyFromStr(s);
  }

  /** The position of the last `.` in a file name. */
  function LastDotBelow(name: OsStr, n: nat): (r: Option<nat>)
    requires n <= |name|
    ensures r.Some? ==> r.value < n && name[r.value] == Ch('.')
    ensures r.Some? ==> forall j | r.value < j < n :: name[j] != Ch('.')
    ensures r.None? ==> forall j | 0 <= j < n :: name[j] != Ch('.')
  {
    if n == 0 then None
    else if name[n - 1] == Ch('.') then Some(n - 1)
    else LastDotBelow(name, n - 1)
  }

  function LastDot(name: OsStr): Option<nat> {
    LastDotBelow(name, |name|)
  }

  /** The two halves of `rsplit_file_at_dot`. */
  datatype Split = Split(before: Option<OsStr>, after: Option<OsStr>)

  /**
   * `rsplit_file_at_dot`: `..` and names whose only dot is the leading one
   * are kept whole (no extension); otherwise the name is cut at its last dot.
   */
  function SplitAtDot(name: OsStr): Split {
    if name == [Ch('.'), Ch('.')] then Split(Some(name), None)
    else
      match LastDot(name)
      case None => Split(None, Some(name))
      case Some(i) =>
        if i == 0 then Split(Some(name), None)
        else Split(Some(name[..i]), Some(name[i + 1..]))
  }

  /** `Path::file_stem`: `before.or(after)`. */
  function FileStem(p: FilePath): (r: Option<OsStr>)
    ensures r.Some? <==> p.name.Some?
  {
    match p.name
    case None => None
    case Some(n) =>
      var sp := SplitAtDot(n);
      if sp.before.Some? then sp.before else sp.after
  }

  /** `Path::extension`: `before.and(after)`. */
  function Extension(p: FilePath): (r: Option<OsStr>)
    ensures r.Some? ==> p.name.Some?
  {
    match p.name
    case None => None
    case Some(n) =>
      var sp := SplitAtDot(n);
      if sp.before.Some? then sp.after else None
  }

  predicate Dotless(s: string) {
    forall i | 0 <= i < |s| :: s[i] != '.'
  }

  /** `Path::with_extension`: the name is cut after its stem and `.ext` appended (nothing for ""). */
  function WithExtension(p: FilePath, ext: string): (r: FilePath)
    ensures r.dir == p.dir && (r.name.Some? <==> p.name.Some?)
  {
    match FileStem(p)
    case None => p
    case Some(stem) =>
      FilePath(p.dir, Some(stem + (if ext == "" then [] else [Ch('.')] + FromStr(ext))))
  }

  /** Positions without a dot do not change where the last dot below them is. */
  lemma {:induction false} LastDotSkip(name: OsStr, k: nat, n: nat)
    requires k <= n <= |name|
    requires forall j | k <= j < n :: name[j] != Ch('.')
    ensures LastDotBelow(name, n) == LastDotBelow(name, k)
    decreases n - k
  {
    if k < n {
      LastDotSkip(name, k, n - 1);
    }
  }

  /** A name with an extension is its stem, a dot and the extension; the extension holds no dot. */
  lemma {:induction false} ExtensionSplitsName(p: FilePath)
    requires Extension(p).Some?
    ensures FileStem(p).Some?
    ensures p.name.value == FileStem(p).value + [Ch('.')] + Extension(p).value
    ensures Ch('.') !in Extension(p).value
  {
    var n := p.name.value;
    var i := LastDot(n).value;
    assert n == n[..i] + [Ch('.')] + n[i + 1..];
  }

  /** A stem of a non-empty name is non-empty. */
  lemma {:induction false} StemNonEmpty(p: FilePath)
    requires p.name.Some? && p.name.value != []
    ensures FileStem(p).value != []
  {
  }

  /**
   * Replacing the extension by a non-empty, dotless one keeps the stem and
   * makes that the extension.
   */
  lemma {:induction false} WithExtensionKeepsStem(p: FilePath, ext: string)
    requires p.name.Some? && p.name.value != []
    requires ext != "" && Dotless(ext)
    ensures FileStem(WithExtension(p, ext)) == FileStem(p)
    ensures Extension(WithExtension(p, ext)) == Some(FromStr(ext))
  {
    StemNonEmpty(p);
    var stem := FileStem(p).value;
    var e := FromStr(ext);
    var n := stem + [Ch('.')] + e;
    assert stem + ([Ch('.')] + e) == n;
    assert WithExtension(p, ext).name == Some(n);
    assert LastDot(n) == Some(|stem|) by {
      forall j | |stem| < j < |n| ensures n[j] != Ch('.') {
        assert n[j] == e[j - |stem| - 1];
      }
      LastDotSkip(n, |stem| + 1, |n|);
    }
    assert |n| >= 3;
    assert n[..|stem|] == stem && n[|stem| + 1..] == e;
  }
}
