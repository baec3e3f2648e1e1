/**
 * Pixel dimensions of one image: reading ExifTool's output
 * (`get_image_resolution_exiftool`) and choosing a strategy by file
 * extension (`get_image_resolution`). The subprocess and PIL are not run;
 * their outcomes are inputs.
 */
module Resolution {
  import opened Wrappers
  import opened Text
  import opened Metadata

  /** What one `subprocess.run` call produced: a finished process, or an exception (timeout, tool missing). */
  datatype ToolRun = Completed(stdout: string, returnCode: int) | Raised

  /** What `Image.open(path)` produced: the declared size, or an exception. */
  datatype PilOutcome = Opened(size: Dimensions) | PilError

  /**
   * Unpacking `width, height = parts` and converting both with `int()`. A
   * wrong number of parts raises inside the outer `try`, so it is `None` too.
   */
  function PairOf(parts: seq<string>): (r: Option<Dimensions>)
    ensures r.Some? <==> |parts| == 2 && ParseInt(parts[0]).Some? && ParseInt(parts[1]).Some?
  {
    if |parts| != 2 then None
    else
      match (ParseInt(parts[0]), ParseInt(parts[1]))
      case (Some(w), Some(h)) => Some((w, h))
      case _ => None
  }

  /** The separator the parser splits on: `'x'` when present, otherwise a newline. */
  function Separator(d: string): char {
    if 'x' in d then 'x' else '\n'
  }

  /** The string half of `get_image_resolution_exiftool`. */
  function ParseDimensions(stdout: string, returnCode: int): (r: Option<Dimensions>)
    ensures returnCode != 0 ==> r == None
    ensures 'x' !in Strip(stdout) && '\n' !in Strip(stdout) ==> r == None
  {
    if returnCode == 0 then ParseStripped(Strip(stdout)) else None
  }

  /** The parse of the already stripped output `d`. */
  function ParseStripped(d: string): (r: Option<Dimensions>)
    ensures 'x' !in d && '\n' !in d ==> r == None
  {
    if d == [] then None
    else if 'x' in d then PairOf(Split(d, 'x'))
    else if '\n' in d then PairOf(Split(d, '\n'))
    else None
  }

  /**
   * The shape the parser accepts, stated without `split`: exactly one
   * separator, with an integer on each side of it.
   */
  ghost predicate Shaped(d: string, w: int, h: int) {
    var c := Separator(d);
    && Count(d, c) == 1
    && exists i :: 0 <= i < |d| && d[i] == c && ParseInt(d[..i]) == Some(w) && ParseInt(d[i + 1..]) == Some(h)
  }

  /** ExifTool's dimensions are accepted exactly when the process succeeded and the text is `Shaped`. */
  lemma ParseDimensionsIff(stdout: string, returnCode: int, w: int, h: int)
    ensures ParseDimensions(stdout, returnCode) == Some((w, h)) <==> returnCode == 0 && Shaped(Strip(stdout), w, h)
  {
    var d := Strip(stdout);
    if returnCode == 0 {
      if ParseStripped(d) == Some((w, h)) {
        AcceptedIsShaped(d, w, h);
      }
      if Shaped(d, w, h) {
        ShapedIsAccepted(d, w, h);
      }
    }
  }

  /**
   * An information separator in the width is refused even when it sits right
   * before the `x`, where `str.strip()` of that part alone would remove it.
   */
  lemma InfoSeparatorInWidth(a: string, b: string)
    requires 'x' !in a && 'x' !in b && HasInfoSeparator(a)
    requires a != [] && !IsSpace(a[0]) && b != [] && !IsSpace(b[|b| - 1])
    ensures ParseDimensions(a + "x" + b, 0) == None
  {
    var s := a + "x" + b;
    assert s == a + ['x'] + b;
    assert Strip(s) == s by {
      StripPadded([], s, []);
      assert [] + s + [] == s;
    }
    assert Separator(s) == 'x' by { assert s[|a|] == 'x'; }
    SplitAround(a, 'x', b);
    ParseAtSeparator(s);
  }

  /** `5<U+001C>x3` with return code 0 gives `None`. */
  lemma InfoSeparatorRefused()
    ensures ParseDimensions("5\U{1C}x3", 0) == None
  {
    var a, b := "5\U{1C}", "3";
    assert a + "x" + b == "5\U{1C}x3";
    assert 'x' !in a && 'x' !in b && !IsSpace(a[0]) && !IsSpace(b[0]);
    assert HasInfoSeparator(a) by { assert InfoSeparator(a[1]); }
    InfoSeparatorInWidth(a, b);
  }

  lemma AcceptedIsShaped(d: string, w: int, h: int)
    requires ParseStripped(d) == Some((w, h))
    ensures Shaped(d, w, h)
  {
    var a, b := AcceptedParts(d, w, h);
    PiecesAreShaped(d, Separator(d), a, b);
    ShapedAt(d, a, b, w, h);
  }

  /** An accepted output splits into two parts that parse as the width and the height. */
  lemma AcceptedParts(d: string, w: int, h: int) returns (a: string, b: string)
    requires ParseStripped(d) == Some((w, h))
    ensures Split(d, Separator(d)) == [a, b] && ParseInt(a) == Some(w) && ParseInt(b) == Some(h)
  {
    var c := Separator(d);
    assert c in d;
    ParseAtSeparator(d);
    var parts := Split(d, c);
    a, b := parts[0], parts[1];
  }

  /** Once the separator occurs, the parse is the pair read from splitting on it. */
  lemma ParseAtSeparator(d: string)
    requires Separator(d) in d
    ensures ParseStripped(d) == PairOf(Split(d, Separator(d)))
  {
  }

  lemma ShapedAt(d: string, a: string, b: string, w: int, h: int)
    requires Count(d, Separator(d)) + 1 == 2
    requires |a| < |d| && d[..|a|] == a && d[|a|] == Separator(d) && d[|a| + 1..] == b
    requires ParseInt(a) == Some(w) && ParseInt(b) == Some(h)
    ensures Shaped(d, w, h)
  {
    var i := |a|;
    assert d[i] == Separator(d) && ParseInt(d[..i]) == Some(w) && ParseInt(d[i + 1..]) == Some(h);
  }

  /** Two pieces around one separator: the separator sits right after the first piece. */
  lemma PiecesAreShaped(d: string, c: char, a: string, b: string)
    requires Split(d, c) == [a, b]
    ensures Count(d, c) + 1 == 2
    ensures |a| < |d| && d[..|a|] == a && d[|a|] == c && d[|a| + 1..] == b
  {
    SplitPieces(d, c);
    SplitTwo(d, c, a, b);
  }

  lemma ShapedIsAccepted(d: string, w: int, h: int)
    requires Shaped(d, w, h)
    ensures ParseStripped(d) == Some((w, h))
  {
    var c := Separator(d);
    var i :| 0 <= i < |d| && d[i] == c && ParseInt(d[..i]) == Some(w) && ParseInt(d[i + 1..]) == Some(h);
    SplitAtOnlySeparator(d, c, i);
    assert PairOf(Split(d, c)) == Some((w, h));
    assert c in d;
  }

  lemma SplitAtOnlySeparator(d: string, c: char, i: nat)
    requires i < |d| && d[i] == c && Count(d, c) == 1
    ensures Split(d, c) == [d[..i], d[i + 1..]]
  {
    var a, b := d[..i], d[i + 1..];
    assert d == a + [c] + b;
    CountConcat(a + [c], b, c);
    CountConcat(a, [c], c);
    CountZero(a, c);
    CountZero(b, c);
    SplitAround(a, c, b);
  }

  /** Too many or too few separators is a rejection, whatever the parts are. */
  lemma ParseDimensionsSeparatorCount(stdout: string, returnCode: int)
    requires Count(Strip(stdout), Separator(Strip(stdout))) != 1
    ensures ParseDimensions(stdout, returnCode) == None
  {
    var d := Strip(stdout);
    SplitPieces(d, Separator(d));
  }

  /**
   * What ExifTool prints for `-ImageWidth -ImageHeight -s3` (one value per
   * line) and the `WIDTHxHEIGHT` form: both read back as the same pair.
   */
  lemma DimensionsRoundTrip(w: int, h: int, sep: char)
    requires sep == 'x' || sep == '\n'
    ensures ParseDimensions(IntToString(w) + [sep] + IntToString(h) + "\n", 0) == Some((w, h))
  {
    var a, b := IntToString(w), IntToString(h);
    var core := a + [sep] + b;
    OutputStripsToCore(w, h, sep);
    CoreParses(w, h, sep);
  }

  lemma OutputStripsToCore(w: int, h: int, sep: char)
    requires sep == 'x' || sep == '\n'
    ensures Strip(IntToString(w) + [sep] + IntToString(h) + "\n") == IntToString(w) + [sep] + IntToString(h)
  {
    var a, b := IntToString(w), IntToString(h);
    IntToStringEnds(w);
    IntToStringEnds(h);
    var core := a + [sep] + b;
    assert core[0] == a[0] && core[|core| - 1] == b[|b| - 1];
    StripPadded([], core, "\n");
    assert [] + core + "\n" == a + [sep] + b + "\n";
  }

  lemma CoreParses(w: int, h: int, sep: char)
    requires sep == 'x' || sep == '\n'
    ensures ParseStripped(IntToString(w) + [sep] + IntToString(h)) == Some((w, h))
  {
    var a, b := IntToString(w), IntToString(h);
    var core := a + [sep] + b;
    NoLetterInNumber(w, sep);
    NoLetterInNumber(h, sep);
    SplitAround(a, sep, b);
    CoreSeparator(w, h, sep);
    ParseAtSeparator(core);
    IntToStringRoundTrip(w);
    IntToStringRoundTrip(h);
    assert PairOf([a, b]) == Some((w, h));
  }

  /** Numbers hold neither separator, so the separator found is the one placed between them. */
  lemma CoreSeparator(w: int, h: int, sep: char)
    requires sep == 'x' || sep == '\n'
    ensures Separator(IntToString(w) + [sep] + IntToString(h)) == sep
  {
    var a, b := IntToString(w), IntToString(h);
    var core := a + [sep] + b;
    assert core[|a|] == sep;
    if sep == '\n' {
      NoLetterInNumber(w, 'x');
      NoLetterInNumber(h, 'x');
      assert 'x' !in core;
    }
  }

  lemma NoLetterInNumber(n: int, c: char)
    requires c == 'x' || c == '\n'
    ensures c !in IntToString(n)
  {
    var digits := NatToString(if n < 0 then -n else n);
    assert c !in digits;
  }

  /** `get_image_resolution_exiftool`: an exception or a failed run gives `None`. */
  function ViaExifTool(run: ToolRun): (r: Option<Dimensions>)
    ensures run.Raised? ==> r == None
  {
    match run
    case Completed(stdout, returnCode) => ParseDimensions(stdout, returnCode)
    case Raised => None
  }

  /** Index of the last `'.'` in `name`, or -1 (Python's `str.rfind`). */
  function LastDot(name: string): (i: int)
    ensures -1 <= i < |name|
    ensures i >= 0 ==> name[i] == '.'
    ensures forall j :: i < j < |name| ==> name[j] != '.'
  {
    if name == [] then -1
    else if name[|name| - 1] == '.' then |name| - 1
    else LastDot(name[..|name| - 1])
  }

  /**
   * `Path(name).suffix` for a file name: from the last dot on, unless that dot
   * is the first or the last character.
   */
  function Suffix(name: string): (r: string)
    ensures r != [] ==> |r| >= 2 && |r| < |name| && r == name[|name| - |r|..] && r[0] == '.' && '.' !in r[1..]
    ensures '.' !in name ==> r == []
  {
    var i := LastDot(name);
    if 0 < i < |name| - 1 then name[i..] else []
  }

  /** A name made of a stem, a dot and a dot-free extension has that extension as its suffix. */
  lemma SuffixOfDottedName(stem: string, ext: string)
    requires stem != [] && ext != [] && '.' !in ext
    ensures Suffix(stem + "." + ext) == "." + ext
  {
    var name := stem + "." + ext;
    var i := LastDot(name);
    assert name[|stem|] == '.';
    forall j | |stem| < j < |name|
      ensures name[j] != '.'
    {
      assert name[j] == ext[j - |stem| - 1];
    }
    assert i == |stem|;
    assert name[i..] == "." + ext;
  }

  /** `image_path.suffix.lower()`. */
  function Extension(name: string): string {
    Lower(Suffix(name))
  }

  const RawExtension: string := ".arw"
  const RasterExtensions: set<string> := {".jpg", ".jpeg", ".png", ".tiff", ".tif", ".gif", ".bmp"}

  /** `get_image_resolution`: the strategy chosen from the lower-cased extension and ExifTool's availability. */
  function GetImageResolution(name: string, exiftoolAvailable: bool, pil: PilOutcome, exif: ToolRun): (r: Option<Dimensions>)
    ensures Extension(name) == RawExtension && exiftoolAvailable ==> r == ViaExifTool(exif)
    ensures Extension(name) in RasterExtensions && pil.Opened? ==> r == Some(pil.size)
    ensures Extension(name) in RasterExtensions && pil.PilError? ==> r == if exiftoolAvailable then ViaExifTool(exif) else None
    ensures Extension(name) != RawExtension && Extension(name) !in RasterExtensions ==> r == None
    ensures Extension(name) == RawExtension && !exiftoolAvailable ==> r == None
  {
    var ext := Extension(name);
    if ext == RawExtension && exiftoolAvailable then ViaExifTool(exif)
    else if ext in RasterExtensions then
      match pil
      case Opened(size) => Some(size)
      case PilError => if exiftoolAvailable then ViaExifTool(exif) else None
    else None
  }

  /** Without ExifTool, nothing ExifTool would have printed can affect the result. */
  lemma WithoutExifToolIgnoresIt(name: string, pil: PilOutcome, exif1: ToolRun, exif2: ToolRun)
    ensures GetImageResolution(name, false, pil, exif1) == GetImageResolution(name, false, pil, exif2)
  {
  }

  /** Only raster files consult PIL: RAW files go to ExifTool or get nothing, nor do files of any unsupported type consult it. */
  lemma NonRasterIgnoresPil(name: string, exiftoolAvailable: bool, pil1: PilOutcome, pil2: PilOutcome, exif: ToolRun)
    requires Extension(name) !in RasterExtensions
    ensures GetImageResolution(name, exiftoolAvailable, pil1, exif) == GetImageResolution(name, exiftoolAvailable, pil2, exif)
  {
  }

  /** The result is always one strategy's answer or nothing: it is never invented. */
  lemma ResolutionComesFromAStrategy(name: string, exiftoolAvailable: bool, pil: PilOutcome, exif: ToolRun)
    ensures var r := GetImageResolution(name, exiftoolAvailable, pil, exif);
      r == None || (pil.Opened? && r == Some(pil.size)) || (exiftoolAvailable && r == ViaExifTool(exif))
  {
  }

  /** The dispatch ignores case: two names that lower-case alike, such as `IMG.ARW` and `img.arw`, are treated alike. */
  lemma ExtensionCaseInsensitive(n1: string, n2: string, exiftoolAvailable: bool, pil: PilOutcome, exif: ToolRun)
    requires Lower(n1) == Lower(n2)
    ensures Extension(n1) == Extension(n2)
    ensures GetImageResolution(n1, exiftoolAvailable, pil, exif) == GetImageResolution(n2, exiftoolAvailable, pil, exif)
  {
    ExtensionIgnoresCase(n1, n2);
  }

  lemma ExtensionIgnoresCase(n1: string, n2: string)
    requires Lower(n1) == Lower(n2)
    ensures Extension(n1) == Extension(n2)
  {
    LastDotIgnoresCase(n1, n2);
    var i := LastDot(n1);
    if 0 < i < |n1| - 1 {
      assert Suffix(n1) == n1[i..] && Suffix(n2) == n2[i..];
      LowerOfTail(n1, n2, i);
    } else {
      assert Suffix(n1) == [] && Suffix(n2) == [];
    }
  }

  /** Lower-casing leaves dots where they are, so the last dot does not move. */
  lemma LastDotIgnoresCase(n1: string, n2: string)
    requires Lower(n1) == Lower(n2)
    ensures |n1| == |n2| && LastDot(n1) == LastDot(n2)
  {
    assert |n1| == |Lower(n1)| == |n2|;
    forall j | 0 <= j < |n1|
      ensures n1[j] == '.' <==> n2[j] == '.'
    {
      assert LowerChar(n1[j]) == Lower(n1)[j] == LowerChar(n2[j]);
    }
    var i1, i2 := LastDot(n1), LastDot(n2);
    assert i2 >= 0 ==> n1[i2] == '.';
    assert i1 >= 0 ==> n2[i1] == '.';
  }

  lemma LowerOfTail(n1: string, n2: string, i: nat)
    requires Lower(n1) == Lower(n2) && |n1| == |n2| && i <= |n1|
    ensures Lower(n1[i..]) == Lower(n2[i..])
  {
    forall k | 0 <= k < |n1| - i
      ensures Lower(n1[i..])[k] == Lower(n2[i..])[k]
    {
      assert Lower(n1[i..])[k] == LowerChar(n1[i + k]) == Lower(n1)[i + k];
      assert Lower(n2[i..])[k] == LowerChar(n2[i + k]) == Lower(n2)[i + k];
    }
  }
}
