# imgconv: a Dafny model of the image-directory converter

`kadai1/imkaito/imgconv/imgconv.go` builds a `Converter` from a directory, a source format and a
target format. It then walks the directory and re-encodes every file of the source format into the
target format, writing the output next to the input. This project models the decision logic of that
file:

- `normalizedExt`: the extension of a path without its dot. When that is empty, the whole argument is
  used. The result is lower-cased, and "jpeg" is merged into "jpg".
- The `supported` table and the checks of `validate`, in their order: directory errors first, then an
  unsupported source format, then identical formats.
- `New`. It validates the lower-cased formats but stores the three arguments unchanged.
- The filter in `Walk`. It compares the normalised extension of each path with the stored source format
  verbatim.
- The output path, `TrimSuffix(path, Ext(path)) + "." + ToExt`.
- The encoder `switch` in `convert`.
- The callback given to `filepath.Walk`, and the walk itself, which stops at the first error.

The model has three modules:

- `GoStrings` (`go_strings.dfy`) writes out the library functions the file relies on, over `string`:
  - `filepath.Ext`, checked against an independent definition of the final path element;
  - `strings.TrimLeft` with a one-character cutset;
  - `strings.TrimSuffix`;
  - ASCII `strings.ToLower`.
- `Imgconv` (`imgconv.dfy`) holds the pure logic. `Converter` is a datatype, since nothing changes it
  after `New`.
- `ImgconvWalk` (`walk.dfy`) holds the walk.
  - `Visit` is the callback for one entry.
  - `WalkSpec` is the walk over a sequence of entries, as a function.
  - `Walk` is a method with a loop that appends each created output and returns at the first error. It
    is proved equal to `WalkSpec`.
  - Lemmas about `WalkSpec` state what a walk creates and where it stops.

Effects are inputs to the model:

- What `os.Stat` reports is a `StatOutcome` argument.
- The walk's entries, in walk order, are a sequence.
- Each entry carries four booleans: whether open, create, decode and encode succeed.

## Model

| member | source | states |
|---|---|---|
| GoStrings.ExtIsSuffix | kadai1/imkaito/imgconv/imgconv.go:111 | The extension is a suffix of the path. |
| GoStrings.ExtHasOneDot | kadai1/imkaito/imgconv/imgconv.go:111 | A non-empty extension starts with its only '.' and holds no '/'. |
| GoStrings.ExtEmpty | kadai1/imkaito/imgconv/imgconv.go:111-114 | The extension is empty exactly when the final '/'-separated element has no '.'. |
| GoStrings.TrimLeftShape | kadai1/imkaito/imgconv/imgconv.go:111 | The result is a suffix. Only cut characters were removed, and the result does not start with one. |
| GoStrings.TrimSuffixSpec | kadai1/imkaito/imgconv/imgconv.go:80 | When the string ends with the suffix, the result plus the suffix is the string. Otherwise the string is unchanged. |
| GoStrings.ToLower | kadai1/imkaito/imgconv/imgconv.go:115 | Lower-casing keeps the length. |
| GoStrings.ToLowerPointwise | kadai1/imkaito/imgconv/imgconv.go:115 | Each character is lower-cased in place, so no upper-case letter is left. Lower-case input is unchanged. |
| GoStrings.ExtOfLower | kadai1/imkaito/imgconv/imgconv.go:111-115 | Lower-casing a path and taking its extension commute. |
| GoStrings.TrimLeftOfLower | kadai1/imkaito/imgconv/imgconv.go:111-115 | Trimming leading dots and lower-casing commute. |
| GoStrings.ExtIgnoresDirectory | kadai1/imkaito/imgconv/imgconv.go:80 | A directory prefix does not change the extension of a name without '/'. |
| GoStrings.ExtAfterLastDot | kadai1/imkaito/imgconv/imgconv.go:111 | The extension of prefix + "." + ext is "." + ext when ext holds no '.' and no '/'. |
| Imgconv.NormalizedExtIsLower | kadai1/imkaito/imgconv/imgconv.go:110-122 | The normalised extension is always lower-case and never "jpeg". |
| Imgconv.NormalizedExtOfExtension | kadai1/imkaito/imgconv/imgconv.go:111-121 | For prefix.ext with a non-empty plain ext, the result is ext lower-cased, with "jpeg" read as "jpg". |
| Imgconv.NormalizedExtFallsBack | kadai1/imkaito/imgconv/imgconv.go:111-115 | When the final element has no '.' or ends in '.', the whole argument is normalised: "PNG" gives "png" and "file." gives "file.". |
| Imgconv.NormalizedJpegAliases | kadai1/imkaito/imgconv/imgconv.go:115-118 | "jpg" and "jpeg", in any case, normalise to "jpg". |
| Imgconv.NormalizedExtIgnoresCase | kadai1/imkaito/imgconv/imgconv.go:110-122 | Lower-casing the argument first does not change the result. |
| Imgconv.NormalizedExtWithoutDot | kadai1/imkaito/imgconv/imgconv.go:111-115 | A name without '.' is normalised as a whole. |
| Imgconv.SupportedIsCanonical | kadai1/imkaito/imgconv/imgconv.go:21-26 | A format whose lower-cased form is in the table normalises to one of jpg, png, gif. |
| Imgconv.Validate | kadai1/imkaito/imgconv/imgconv.go:35-57 | It accepts exactly when the path is a directory, the source is in the table and the normalised formats differ. A missing directory, a failed stat and a non-directory each give their own error, before any format check. An unsupported source is reported before identical formats. |
| Imgconv.New | kadai1/imkaito/imgconv/imgconv.go:28-33 | It succeeds exactly when the directory exists, the lower-cased source is supported and the normalised formats differ. It stores the arguments unchanged, and otherwise returns the error `validate` gives on the lower-cased formats. |
| Imgconv.NewDoesNotCheckTarget | kadai1/imkaito/imgconv/imgconv.go:51-57 | A supported source with a plain unsupported target ("png" to "bmp") is accepted. |
| Imgconv.NewRejectsJpegSynonyms | kadai1/imkaito/imgconv/imgconv.go:55-57 | Any pair of "jpg"/"jpeg" in any case (e.g. "jpeg" and "JPG") is rejected as the same format. |
| Imgconv.NonCanonicalSourceSelectsNothing | kadai1/imkaito/imgconv/imgconv.go:69-72 | A stored source format with an upper-case letter, or "jpeg", matches no path. |
| Imgconv.SelectedByExtension | kadai1/imkaito/imgconv/imgconv.go:66-72 | A file prefix.ext is selected exactly when ext, lower-cased and with "jpeg" read as "jpg", equals the stored source format. |
| Imgconv.DestinationReplacesExtension | kadai1/imkaito/imgconv/imgconv.go:80 | prefix.ext becomes prefix.toExt. |
| Imgconv.DestinationAppends | kadai1/imkaito/imgconv/imgconv.go:80 | A path whose final element has no '.' gets "." + toExt appended. |
| Imgconv.DestinationKeepsDirectory | kadai1/imkaito/imgconv/imgconv.go:80 | The output stays in the input's directory. |
| Imgconv.DestinationStem | kadai1/imkaito/imgconv/imgconv.go:80 | The output is the input with its extension removed, followed by "." + toExt. |
| Imgconv.DestinationNormalizesLikeTarget | kadai1/imkaito/imgconv/imgconv.go:80 | With a plain target name, the output's normalised extension is the target's. |
| Imgconv.SelectingSourceIsCanonical | kadai1/imkaito/imgconv/imgconv.go:69-72 | If an accepted Converter selects some file, its stored source format is already in normal form. |
| Imgconv.DestinationNeverSelected | kadai1/imkaito/imgconv/imgconv.go:69-81 | For an accepted Converter with a plain target, an output is never selected itself and never overwrites its input. |
| Imgconv.DestinationIsNotInput | kadai1/imkaito/imgconv/imgconv.go:69-81 | For any accepted Converter, whatever its target, the output of a selected file is never the input file itself. |
| Imgconv.DestinationIsInputOnlyIf | kadai1/imkaito/imgconv/imgconv.go:80 | The output can equal the input only when the input's extension is already "." + toExt. |
| Imgconv.SelectedExtIsNotTarget | kadai1/imkaito/imgconv/imgconv.go:55-72 | For an accepted Converter, a selected file's extension is never "." + the target format. |
| Imgconv.EndsInDotIsNotCanonical | kadai1/imkaito/imgconv/imgconv.go:110-122 | A path ending in '.' never normalises to jpg, png or gif. |
| Imgconv.EncoderFor | kadai1/imkaito/imgconv/imgconv.go:96-107 | An encoder exists exactly for the four literal, case-sensitive names of the table. |
| Imgconv.SupportedIsLower | kadai1/imkaito/imgconv/imgconv.go:21-26 | Every name in the table is lower-case, so lower-casing leaves it unchanged. |
| Imgconv.SupportedEncoder | kadai1/imkaito/imgconv/imgconv.go:96-103 | Every name in the table has an encoder, and that encoder writes the name's canonical format. |
| Imgconv.EncoderMatchesNormalizedExt | kadai1/imkaito/imgconv/imgconv.go:96-103 | The encoder chosen writes the format the target name normalises to. |
| Imgconv.EncoderForFormat | kadai1/imkaito/imgconv/imgconv.go:96-103 | Each encoder is reached from its canonical name. |
| Imgconv.UpperCaseTargetHasNoEncoder | kadai1/imkaito/imgconv/imgconv.go:96-107 | A target such as "PNG" normalises to a supported format but has no encoder. |
| Imgconv.Convert | kadai1/imkaito/imgconv/imgconv.go:90-107 | A decode failure comes first, then an unknown target, then an encoder failure; each gives its own error. It succeeds exactly when all three pass, with the encoder of the target. |
| ImgconvWalk.Visit | kadai1/imkaito/imgconv/imgconv.go:62-86 | A step fails exactly when the entry is not fully fine, and a file is skipped exactly when it is not selected. A converted or failed step names the output from the destination rule. The order is a walk error, then open, then create, then convert. A failed open or create gives its own error and creates nothing. A decode, unknown-target or encode failure gives `convert`'s error, with the output already created. |
| ImgconvWalk.SelectedJobs | kadai1/imkaito/imgconv/imgconv.go:66-80 | Every job pairs a selected entry's path with its destination, and every selected entry has its job. There are at most as many jobs as entries. |
| ImgconvWalk.Walk | kadai1/imkaito/imgconv/imgconv.go:61-88 | The loop's created outputs and returned error are those of the walk specification. |
| ImgconvWalk.WalkSucceeds | kadai1/imkaito/imgconv/imgconv.go:61-88 | A walk succeeds exactly when every entry is skipped or fully converted. It then creates one output per selected file, in walk order. |
| ImgconvWalk.WalkStopsAtFirstError | kadai1/imkaito/imgconv/imgconv.go:62-86 | A failed walk stops at the first failing entry and returns that entry's error. Its outputs are those of the files selected before it, plus that entry's own output when decoding failed, the target had no encoder, or encoding failed. |
| ImgconvWalk.NothingSelectedCreatesNothing | kadai1/imkaito/imgconv/imgconv.go:62-72 | A walk that selects nothing creates nothing and can only fail with a walk error. |
| ImgconvWalk.NonCanonicalSourceCreatesNothing | kadai1/imkaito/imgconv/imgconv.go:69-72 | A stored source format with an upper-case letter, or "jpeg", converts nothing. |
| ImgconvWalk.OnlyDirectoriesWritesNothing | kadai1/imkaito/imgconv/imgconv.go:66-68 | A walk over directories, with no error reported by the walker, succeeds and creates nothing. |
| ImgconvWalk.UnsupportedTargetFailsAtEncode | kadai1/imkaito/imgconv/imgconv.go:74-107 | With a target outside the table, the first selected file that opens, is created and decodes fails with an unknown format. Its output is left created and the walk stops. |
| ImgconvWalk.WalkSkips | kadai1/imkaito/imgconv/imgconv.go:62-72 | An entry that is not selected leaves the rest of the walk as it is. |
| ImgconvWalk.WalkConverts | kadai1/imkaito/imgconv/imgconv.go:62-86 | A selected entry that converts adds its job in front of the rest of the walk. |
| ImgconvWalk.WalkConvertsPngToGif | kadai1/imkaito/imgconv/imgconv.go:69-86 | When converting png to gif, stem.png is converted to stem.gif and the walk goes on. |
| ImgconvWalk.WalkSkipsTxt | kadai1/imkaito/imgconv/imgconv.go:69-72 | When converting png to gif, stem.txt is skipped whatever would happen to it. |
| ImgconvWalk.PngConvertedToGif | kadai1/imkaito/imgconv/imgconv.go:69-80 | With source "png" and target "gif", stem.png is selected and its output is stem.gif. |
| ImgconvWalk.TxtSkipped | kadai1/imkaito/imgconv/imgconv.go:69-72 | With source "png", stem.txt is not selected. |

## Left out

- `os.Stat`, `os.Open`, `os.Create` and the deferred `Close` calls are file-system I/O. Only their
  success or failure is modelled: a `StatOutcome` argument and the booleans of `FileOutcome`. Errors
  from `Close` are ignored by the source and are not modelled.
- `filepath.Clean` on the directory only affects the path given to `os.Stat` and the error text, so it
  is not modelled.
- The traversal done by `filepath.Walk` is not modelled: which entries it visits, their lexical order,
  and the errors it reports. The entries are a given sequence, and an entry's `walkError` flag stands
  for the error the callback receives.
- `image.Decode` and the JPEG, PNG and GIF encoders are codec libraries over pixel data. Decoding and
  encoding are success flags, and the encoder choice is an enumeration.
- Error message text and `%w`/`%v` wrapping are not modelled. Errors are tagged kinds.
- GoStrings.ToLower: only ASCII letters are folded, whereas Go's `strings.ToLower` folds all of Unicode.
- Paths use '/' as the only separator; Windows volume names and '\\' are not modelled.
