/**
 * The decision logic of the image-directory converter: extension
 * normalisation, the format checks made when a Converter is built, the
 * rule that selects a file for conversion, the name of the file written,
 * and the choice of encoder.
 */
module Imgconv {
  import opened GoStrings

  datatype Option<T> = None | Some(value: T)

  datatype Result<T, E> = Ok(value: T) | Err(error: E)

  /** The `supported` table: the source formats accepted, after lower-casing. */
  const Supported: set<string> := {"jpg", "jpeg", "png", "gif"}

  /** The canonical names a supported format normalises to. */
  const CanonicalFormats: set<string> := {"jpg", "png", "gif"}

  // ---------------------------------------------------------------------------
  // normalizedExt

  /** The `switch` at the end of `normalizedExt`: "jpeg" and "jpg" both become "jpg". */
  function Canonical(low: string): string
  {
    if low == "jpeg" || low == "jpg" then "jpg" else low
  }

  /**
   * `normalizedExt`: the extension of a path without its dot, or the whole
   * argument when that is empty, lower-cased, with "jpeg" merged into "jpg".
   */
  function NormalizedExt(pathOrExt: string): string
  {
    var trimmed := TrimLeft(Ext(pathOrExt), '.');
    var ext := if trimmed == [] then pathOrExt else trimmed;
    Canonical(ToLower(ext))
  }

  /** The normalised extension is lower-case and is never "jpeg". */
  lemma NormalizedExtIsLower(p: string)
    ensures IsLower(NormalizedExt(p)) && NormalizedExt(p) != "jpeg"
  {
    var trimmed := TrimLeft(Ext(p), '.');
    var ext := if trimmed == [] then p else trimmed;
    ToLowerPointwise(ext);
    assert IsLower("jpg");
  }

  /** A path whose final element has an extension normalises to that extension. */
  lemma NormalizedExtOfExtension(prefix: string, ext: string)
    requires ext != [] && '.' !in ext && '/' !in ext
    ensures NormalizedExt(prefix + "." + ext) == Canonical(ToLower(ext))
  {
    ExtAfterLastDot(prefix, ext);
    assert ext[0] != '.';
    TrimOneDot(ext);
  }

  /**
   * When the final element has no '.', or ends in '.', the extension is empty
   * once its dot is trimmed, and the whole argument is normalised instead.
   */
  lemma NormalizedExtFallsBack(p: string)
    requires '.' !in FinalElement(p) || (p != [] && p[|p| - 1] == '.')
    ensures NormalizedExt(p) == Canonical(ToLower(p))
  {
    NoExtensionLeft(p);
    NormalizedExtOfEmptyTrim(p);
  }

  lemma NoExtensionLeft(p: string)
    requires '.' !in FinalElement(p) || (p != [] && p[|p| - 1] == '.')
    ensures TrimLeft(Ext(p), '.') == []
  {
    if p != [] && p[|p| - 1] == '.' {
      TrailingDot(p);
    } else {
      ExtEmpty(p);
    }
  }

  lemma TrailingDot(p: string)
    requires p != [] && p[|p| - 1] == '.'
    ensures TrimLeft(Ext(p), '.') == []
  {
    var e := Ext(p);
    assert e == ['.'];
    assert e[1..] == [];
  }

  lemma NormalizedExtOfEmptyTrim(p: string)
    requires TrimLeft(Ext(p), '.') == []
    ensures NormalizedExt(p) == Canonical(ToLower(p))
  {
  }

  /** "jpg" and "jpeg", in any mix of cases, normalise to "jpg". */
  lemma NormalizedJpegAliases(p: string)
    requires ToLower(p) == "jpg" || ToLower(p) == "jpeg"
    ensures NormalizedExt(p) == "jpg"
  {
    SupportedIsCanonical(p);
  }

  /** `normalizedExt` does not see case: lower-casing its argument first changes nothing. */
  lemma NormalizedExtIgnoresCase(p: string)
    ensures NormalizedExt(ToLower(p)) == NormalizedExt(p)
  {
    ExtOfLower(p);
    TrimLeftOfLower(Ext(p));
    var trimmed := TrimLeft(Ext(p), '.');
    var ext := if trimmed == [] then p else trimmed;
    assert TrimLeft(Ext(ToLower(p)), '.') == ToLower(trimmed);
    LowerIdempotent(ext);
  }

  lemma LowerIdempotent(s: string)
    ensures ToLower(ToLower(s)) == ToLower(s)
  {
    ToLowerPointwise(s);
    ToLowerPointwise(ToLower(s));
  }

  /** A format whose lower-cased form is supported normalises to its canonical name. */
  lemma SupportedIsCanonical(format: string)
    requires ToLower(format) in Supported
    ensures NormalizedExt(format) == Canonical(ToLower(format))
    ensures NormalizedExt(format) in CanonicalFormats
  {
    DotsOfLower(format);
    NormalizedExtWithoutDot(format);
  }

  /** A name without any '.' is normalised as a whole. */
  lemma NormalizedExtWithoutDot(s: string)
    requires '.' !in s
    ensures NormalizedExt(s) == Canonical(ToLower(s))
  {
    ExtWithoutDot(s);
    assert TrimLeft([], '.') == [];
  }

  // ---------------------------------------------------------------------------
  // New and validate

  /** The configuration a Converter holds; nothing changes it after `New`. */
  datatype Converter = Converter(directory: string, fromExt: string, toExt: string)

  /** What `os.Stat` reports for the cleaned directory path. */
  datatype StatOutcome = StatMissing | StatFailed | StatNotDirectory | StatDirectory

  /** The kinds of error `validate` returns, in the order it checks for them. */
  datatype ConfigError = DoesNotExist | CannotStat | NotADirectory | UnsupportedFormat | SameFormat

  /**
   * `validate`: the directory checks come first, then whether the source
   * format is in the supported table, then whether the two formats differ.
   * The target format is never looked up in the table.
   */
  function Validate(stat: StatOutcome, from: string, to: string): (r: Option<ConfigError>)
    ensures r == None <==> stat == StatDirectory && from in Supported && NormalizedExt(from) != NormalizedExt(to)
    ensures stat == StatMissing ==> r == Some(DoesNotExist)
    ensures stat == StatFailed ==> r == Some(CannotStat)
    ensures stat == StatNotDirectory ==> r == Some(NotADirectory)
    ensures stat == StatDirectory && from !in Supported ==> r == Some(UnsupportedFormat)
    ensures stat == StatDirectory && from in Supported && NormalizedExt(from) == NormalizedExt(to) ==> r == Some(SameFormat)
  {
    match stat
    case StatMissing => Some(DoesNotExist)
    case StatFailed => Some(CannotStat)
    case StatNotDirectory => Some(NotADirectory)
    case StatDirectory =>
      if from !in Supported then Some(UnsupportedFormat)
      else if NormalizedExt(from) == NormalizedExt(to) then Some(SameFormat)
      else None
  }

  /**
   * `New`: validates the lower-cased formats, but stores the arguments as
   * given. It succeeds exactly when the directory exists, the source format
   * is supported in any case, and the two formats normalise differently.
   */
  function New(directory: string, from: string, to: string, stat: StatOutcome): (r: Result<Converter, ConfigError>)
    ensures r.Ok? <==> stat == StatDirectory && ToLower(from) in Supported && NormalizedExt(from) != NormalizedExt(to)
    ensures r.Ok? ==> r.value == Converter(directory, from, to)
    ensures r.Ok? ==> NormalizedExt(from) in CanonicalFormats
    ensures stat == StatDirectory && ToLower(from) !in Supported ==> r == Err(UnsupportedFormat)
    ensures stat == StatDirectory && ToLower(from) in Supported && NormalizedExt(from) == NormalizedExt(to) ==> r == Err(SameFormat)
    ensures r.Err? ==> Validate(stat, ToLower(from), ToLower(to)) == Some(r.error)
  {
    NormalizedExtIgnoresCase(from);
    NormalizedExtIgnoresCase(to);
    match Validate(stat, ToLower(from), ToLower(to))
    case Some(e) => Err(e)
    case None =>
      SupportedIsCanonical(from);
      Ok(Converter(directory, from, to))
  }

  /**
   * `New` never looks the target up in the table: a supported source and a
   * plain unsupported target ("png" to "bmp") are accepted.
   */
  lemma NewDoesNotCheckTarget(directory: string, from: string, to: string)
    requires ToLower(from) in Supported
    requires '.' !in to && ToLower(to) !in Supported
    ensures New(directory, from, to, StatDirectory) == Ok(Converter(directory, from, to))
  {
    SupportedIsCanonical(from);
    NormalizedExtWithoutDot(to);
  }

  /** "jpg" and "jpeg", in any case, are the same format: ("jpeg", "JPG") is rejected. */
  lemma NewRejectsJpegSynonyms(directory: string, from: string, to: string)
    requires ToLower(from) == "jpg" || ToLower(from) == "jpeg"
    requires ToLower(to) == "jpg" || ToLower(to) == "jpeg"
    ensures New(directory, from, to, StatDirectory) == Err(SameFormat)
  {
    assert ToLower(from) in Supported;
    NormalizedJpegAliases(from);
    NormalizedJpegAliases(to);
  }

  // ---------------------------------------------------------------------------
  // Selecting an entry, naming its output

  /**
   * The filter in `Walk`: a file is converted when its normalised extension
   * equals the stored source format, compared verbatim.
   */
  predicate Selected(c: Converter, path: string, isDir: bool)
  {
    !isDir && NormalizedExt(path) == c.fromExt
  }

  /** A stored source format with an upper-case letter, or "jpeg", selects nothing. */
  lemma NonCanonicalSourceSelectsNothing(c: Converter, path: string, isDir: bool)
    requires !IsLower(c.fromExt) || c.fromExt == "jpeg"
    ensures !Selected(c, path, isDir)
  {
    NormalizedExtIsLower(path);
  }

  /**
   * A file named `prefix.ext` is selected exactly when its extension, in any
   * case and with "jpeg" read as "jpg", is the stored source format.
   */
  lemma SelectedByExtension(c: Converter, prefix: string, ext: string)
    requires ext != [] && '.' !in ext && '/' !in ext
    ensures Selected(c, prefix + "." + ext, false) <==> Canonical(ToLower(ext)) == c.fromExt
  {
    NormalizedExtOfExtension(prefix, ext);
  }

  /**
   * The output path: the input with its extension cut off and "." + toExt
   * appended. Only the extension differs from the input.
   */
  function Destination(path: string, toExt: string): string
  {
    TrimSuffix(path, Ext(path)) + "." + toExt
  }

  /** `prefix.ext` becomes `prefix.toExt`; this covers a trailing '.' (empty `ext`). */
  lemma DestinationReplacesExtension(prefix: string, ext: string, toExt: string)
    requires '.' !in ext && '/' !in ext
    ensures Destination(prefix + "." + ext, toExt) == prefix + "." + toExt
  {
    ExtAfterLastDot(prefix, ext);
  }

  /** A path whose final element has no extension gets the new one appended. */
  lemma DestinationAppends(path: string, toExt: string)
    requires '.' !in FinalElement(path)
    ensures Destination(path, toExt) == path + "." + toExt
  {
    ExtEmpty(path);
    assert TrimSuffix(path, []) == path;
  }

  /** The output stays in the input's directory. */
  lemma DestinationKeepsDirectory(dir: string, name: string, toExt: string)
    requires '/' !in name
    ensures Destination(dir + "/" + name, toExt) == dir + "/" + Destination(name, toExt)
  {
    ExtIgnoresDirectory(dir, name);
    DestinationOfSameExt(dir + "/" + name, name, dir + "/", toExt);
  }

  lemma DestinationOfSameExt(p: string, q: string, prefix: string, toExt: string)
    requires p == prefix + q && Ext(p) == Ext(q)
    ensures Destination(p, toExt) == prefix + Destination(q, toExt)
  {
    DestinationStem(p, toExt);
    DestinationStem(q, toExt);
    ExtIsSuffix(q);
    StemOfConcat(prefix, q, |Ext(q)|);
  }

  lemma StemOfConcat(prefix: string, q: string, k: nat)
    requires k <= |q|
    ensures (prefix + q)[..|prefix| + |q| - k] == prefix + q[..|q| - k]
  {
  }

  /** The output is the input up to its extension, then "." + toExt. */
  lemma DestinationStem(path: string, toExt: string)
    ensures |Ext(path)| <= |path|
    ensures Destination(path, toExt) == path[..|path| - |Ext(path)|] + "." + toExt
  {
    ExtIsSuffix(path);
    TrimSuffixSpec(path, Ext(path));
    assert HasSuffix(path, Ext(path));
  }

  /** With a plain target extension, the output normalises like the target format. */
  lemma DestinationNormalizesLikeTarget(path: string, toExt: string)
    requires toExt != [] && '.' !in toExt && '/' !in toExt
    ensures NormalizedExt(Destination(path, toExt)) == NormalizedExt(toExt)
  {
    DestinationStem(path, toExt);
    NormalizedExtOfExtension(path[..|path| - |Ext(path)|], toExt);
    NormalizedExtWithoutDot(toExt);
  }

  /** The source format of an accepted Converter that selects anything is its own normal form. */
  lemma SelectingSourceIsCanonical(c: Converter, path: string)
    requires New(c.directory, c.fromExt, c.toExt, StatDirectory).Ok?
    requires Selected(c, path, false)
    ensures NormalizedExt(c.fromExt) == c.fromExt
  {
    NormalizedExtIsLower(path);
    ToLowerPointwise(c.fromExt);
    SupportedIsCanonical(c.fromExt);
  }

  /**
   * For a Converter that `New` accepts, whose target format is a plain
   * extension, the output of a selected file is never itself selected, so it
   * is never the input file.
   */
  lemma DestinationNeverSelected(c: Converter, path: string)
    requires New(c.directory, c.fromExt, c.toExt, StatDirectory).Ok?
    requires c.toExt != [] && '.' !in c.toExt && '/' !in c.toExt
    requires Selected(c, path, false)
    ensures !Selected(c, Destination(path, c.toExt), false)
    ensures Destination(path, c.toExt) != path
  {
    DestinationNormalizesLikeTarget(path, c.toExt);
    SelectingSourceIsCanonical(c, path);
  }

  /**
   * For any Converter that `New` accepts, whatever its target format, the
   * output of a selected file is never the input file, so `os.Create` never
   * truncates the file being read.
   */
  lemma DestinationIsNotInput(c: Converter, path: string)
    requires New(c.directory, c.fromExt, c.toExt, StatDirectory).Ok?
    requires Selected(c, path, false)
    ensures Destination(path, c.toExt) != path
  {
    SelectedExtIsNotTarget(c, path);
    DestinationIsInputOnlyIf(path, c.toExt);
  }

  /** The output equals the input only when the extension is already "." + toExt. */
  lemma DestinationIsInputOnlyIf(path: string, toExt: string)
    ensures Destination(path, toExt) == path ==> Ext(path) == "." + toExt
  {
    DestinationStem(path, toExt);
    ExtIsSuffix(path);
    var stem := path[..|path| - |Ext(path)|];
    assert path == stem + Ext(path);
    assert Destination(path, toExt) == stem + ("." + toExt);
    AppendCancel(stem, Ext(path), "." + toExt);
  }

  lemma AppendCancel(x: string, a: string, b: string)
    ensures x + a == x + b ==> a == b
  {
    if x + a == x + b {
      assert a == (x + a)[|x|..];
      assert b == (x + b)[|x|..];
    }
  }

  /** The extension of a selected file is never "." + the target format. */
  lemma SelectedExtIsNotTarget(c: Converter, path: string)
    requires New(c.directory, c.fromExt, c.toExt, StatDirectory).Ok?
    requires Selected(c, path, false)
    ensures Ext(path) != "." + c.toExt
  {
    if '.' in c.toExt || '/' in c.toExt {
      ExtOfNoPlainTarget(path, c.toExt);
    } else if c.toExt == [] {
      SingleDotExt(path);
      SelectingSourceIsCanonical(c, path);
      if Ext(path) == "." {
        EndsInDotIsNotCanonical(path);
      }
    } else {
      PlainExtIsNotTarget(c, path);
    }
  }

  lemma ExtOfNoPlainTarget(p: string, t: string)
    requires '.' in t || '/' in t
    ensures Ext(p) != "." + t
  {
    ExtHasOneDot(p);
    assert ("." + t)[1..] == t;
  }

  lemma SingleDotExt(p: string)
    ensures Ext(p) == "." ==> p != [] && p[|p| - 1] == '.'
  {
    ExtIsSuffix(p);
  }

  lemma PlainExtIsNotTarget(c: Converter, path: string)
    requires New(c.directory, c.fromExt, c.toExt, StatDirectory).Ok?
    requires Selected(c, path, false)
    requires c.toExt != [] && '.' !in c.toExt && '/' !in c.toExt
    ensures Ext(path) != "." + c.toExt
  {
    SelectingSourceIsCanonical(c, path);
    if Ext(path) == "." + c.toExt {
      NormalizedOfTargetExt(path, c.toExt);
    }
  }

  /** A path whose extension is "." + t, for a plain t, normalises like t. */
  lemma NormalizedOfTargetExt(path: string, t: string)
    requires t != [] && '.' !in t && '/' !in t
    requires Ext(path) == "." + t
    ensures NormalizedExt(path) == NormalizedExt(t)
  {
    ExtIsSuffix(path);
    var stem := path[..|path| - |Ext(path)|];
    assert path == stem + "." + t;
    NormalizedExtOfExtension(stem, t);
    NormalizedExtWithoutDot(t);
  }

  /** A path ending in '.' never normalises to a canonical format. */
  lemma EndsInDotIsNotCanonical(p: string)
    requires p != [] && p[|p| - 1] == '.'
    ensures NormalizedExt(p) !in CanonicalFormats
  {
    NormalizedExtFallsBack(p);
    ToLowerPointwise(p);
    var l := ToLower(p);
    assert l[|l| - 1] == '.';
  }

  // ---------------------------------------------------------------------------
  // convert

  datatype Encoder = JpegEncoder | PngEncoder | GifEncoder

  /** The canonical extension each encoder writes. */
  function FormatOf(e: Encoder): string
  {
    match e
    case JpegEncoder => "jpg"
    case PngEncoder => "png"
    case GifEncoder => "gif"
  }

  /** The `switch c.ToExt` in `convert`: literal, case-sensitive names only. */
  function EncoderFor(toExt: string): (r: Option<Encoder>)
    ensures r.Some? <==> toExt in Supported
  {
    match toExt
    case "jpg" => Some(JpegEncoder)
    case "jpeg" => Some(JpegEncoder)
    case "png" => Some(PngEncoder)
    case "gif" => Some(GifEncoder)
    case _ => None
  }

  /** The encoder chosen writes the format the target name normalises to. */
  lemma EncoderMatchesNormalizedExt(toExt: string)
    requires EncoderFor(toExt).Some?
    ensures FormatOf(EncoderFor(toExt).value) == NormalizedExt(toExt)
  {
    SupportedIsLower(toExt);
    SupportedEncoder(toExt);
    SupportedIsCanonical(toExt);
  }

  /** Every name in the table is lower-case, so lower-casing leaves it as it is. */
  lemma SupportedIsLower(format: string)
    requires format in Supported
    ensures IsLower(format) && ToLower(format) == format
  {
    assert IsLower("jpg") && IsLower("jpeg") && IsLower("png") && IsLower("gif");
    ToLowerPointwise(format);
  }

  /** Every name in the table has an encoder, and it writes the name's canonical format. */
  lemma SupportedEncoder(format: string)
    requires format in Supported
    ensures EncoderFor(format).Some? && FormatOf(EncoderFor(format).value) == Canonical(format)
  {
  }

  /** Every encoder is reached by its canonical name. */
  lemma EncoderForFormat(e: Encoder)
    ensures EncoderFor(FormatOf(e)) == Some(e)
  {
  }

  /**
   * A target that differs from its lower-cased form normalises like a supported
   * format yet has no encoder: "PNG" is accepted by `New` but never encoded.
   */
  lemma UpperCaseTargetHasNoEncoder(toExt: string)
    requires ToLower(toExt) in Supported && !IsLower(toExt)
    ensures NormalizedExt(toExt) in CanonicalFormats
    ensures EncoderFor(toExt) == None
  {
    SupportedIsCanonical(toExt);
    if toExt in Supported {
      SupportedIsLower(toExt);
    }
  }

  /** The ways `convert` fails: decoding, an unknown target, or the encoder itself. */
  datatype ConvertError = DecodeFailed | UnknownFormat | EncodeFailed

  /**
   * `convert`: decode first (its outcome `decoded` is given), then dispatch on
   * the stored target format, then encode (its outcome `encoded` is given).
   */
  function Convert(toExt: string, decoded: bool, encoded: bool): (r: Result<Encoder, ConvertError>)
    ensures !decoded ==> r == Err(DecodeFailed)
    ensures decoded && toExt !in Supported ==> r == Err(UnknownFormat)
    ensures decoded && toExt in Supported && !encoded ==> r == Err(EncodeFailed)
    ensures r.Ok? <==> decoded && toExt in Supported && encoded
    ensures r.Ok? ==> r.value == EncoderFor(toExt).value
  {
    if !decoded then Err(DecodeFailed)
    else match EncoderFor(toExt)
      case None => Err(UnknownFormat)
      case Some(e) => if encoded then Ok(e) else Err(EncodeFailed)
  }
}
