# imgconv in Dafny

A model of package `imgconv` of go-imgconv, a command-line tool that converts
the images of a directory tree from one format to another (png, jpg, gif).

The package does three things, and the model covers each of them:

- **Format validation.** `NewImgconv(from, to, verbose)` accepts a pair of
  format names only when both appear in the table of supported formats and
  they differ. `from` is checked first, then `to`, then the pair. Each check
  has its own error, and every error comes with the empty `Imgconv{}`.
  `SupportedFormats` joins the names of the table with ", ".
- **Destination paths.** `buildDestPath(src, out)` splits `src` on "/". It
  overwrites the first element with `out` and the last with the base name
  whose extension is replaced by the target format, then joins the elements
  with `filepath.Join`.
- **The recursive conversion.** `ConvertRecursively(in, out)` first requires
  `in` and then `out` to be directories. It then walks `in`:
  - an error reported by the walk is returned;
  - directories are skipped;
  - a file is converted only when its extension is exactly "." followed by
    the source format (case matters);
  - the first error ends the walk and is returned, otherwise nil is returned.
  - `Convert` builds the destination path, then opens, decodes, creates and
    encodes, and returns the first error.

Two modules:

- `GoPath` (`gopath.dfy`) models the Go library functions the package relies
  on:
  - `strings.Split` and `strings.Join` on "/";
  - `filepath.Base`, `filepath.Ext` and `strings.TrimSuffix`;
  - `filepath.Join` on clean paths. A clean path has no empty, "." or ".."
    elements, except the leading empty element of an absolute path. On such
    paths `Clean` changes nothing.
- `Imgconv` (`imgconv.dfy`) models the package itself.
  - The file system, the codecs and the walk are parameters. `Io` holds the
    outcome of each file operation. A function `stat` stands for `os.Stat`.
    The walk is the sequence of entries it reports.
  - `NewImgconv`, the destination path and the outcome of the walk are
    functions. The destination path is `DestPath`; the walk's outcome is
    `Walk`, with `Converted` listing the sources it converts.
  - The imperative parts of the source are methods proved against those
    functions: `SupportedFormats`, `BuildDestPath`, `Convert`, the walk
    function `WalkFn`, the walk loop `WalkEntries` and `ConvertRecursively`.

## Behaviour worth noting

- **Only the first element is replaced.** buildDestPath overwrites element 0
  of the split source with `out`, whatever that element is:
  - `in/a/img.png` with `out` gives `out/a/img.jpg`;
  - a source root of several elements keeps all but its first one, so
    `in/sub/a/img.png` with `out` gives `out/sub/a/img.jpg`;
  - a source of a single element `img.png` becomes `img.jpg`, because the
    first and the last element are the same and the last write wins;
  - an absolute `/a/img.png` gives `out/a/img.jpg`, since its first element
    is the empty piece before the leading "/".
- **A missing root.** When `in` or `out` does not exist, ConvertRecursively
  returns the error of `os.Stat` as it is; the "is not directory" error is
  only for a path that exists and is not a directory.

## Model

| member | source | states |
|---|---|---|
| GoPath.Split | imgconv/imgconv.go:130 | strings.Split on "/" returns at least one piece and no piece holds a "/" |
| GoPath.SplitCount | imgconv/imgconv.go:130 | the number of pieces is one more than the number of "/" in the string |
| GoPath.JoinSplit | imgconv/imgconv.go:130 | joining the pieces of a split with "/" gives the string back |
| GoPath.SplitJoin | imgconv/imgconv.go:130-134 | splitting elements joined with "/" gives the first element's pieces followed by the other elements, when those hold no "/" |
| GoPath.SplitConcat | imgconv/imgconv.go:130 | splitting a + "/" + b gives the pieces of a followed by those of b |
| GoPath.SplitNoSep | imgconv/imgconv.go:130 | a string without "/" splits into itself alone |
| GoPath.JoinWith | imgconv/imgconv.go:38 | strings.Join: the elements with the separator between each pair; JoinEndsWithLast, SplitJoin and JoinSplit state its properties |
| GoPath.PathJoin | imgconv/imgconv.go:134 | filepath.Join of clean elements is their "/"-join; PathJoinClean states that the result is clean and which pieces it splits into |
| GoPath.JoinEndsWithLast | imgconv/imgconv.go:134 | a join of elements ends with its last element |
| GoPath.CleanSegmentIsCleanPath | imgconv/imgconv.go:134 | a clean element is a clean path that splits into itself |
| GoPath.PathJoinClean | imgconv/imgconv.go:134 | filepath.Join of clean elements is a clean path whose pieces are those of the first element followed by the other elements |
| GoPath.Base | imgconv/imgconv.go:131 | filepath.Base: "." for an empty path, "/" for a path of only "/", otherwise the last element once trailing "/" are removed; BaseShape, BaseIsLastSegment, BaseOfCleanPath and BaseOfJoin state its properties |
| GoPath.TrimTrailingSepsPrefix | imgconv/imgconv.go:131 | removing trailing "/" keeps a prefix that no longer ends in "/", and keeps a path without one unchanged |
| GoPath.AfterLastSepSuffix | imgconv/imgconv.go:131 | the text after the last "/" is a suffix without "/" and is preceded by "/" unless it is the whole path |
| GoPath.AfterLastSepIsLastSegment | imgconv/imgconv.go:130-131 | the text after the last "/" is the last piece of strings.Split |
| GoPath.BaseShape | imgconv/imgconv.go:131 | filepath.Base is never empty and holds "/" only when it is "/" |
| GoPath.BaseIsLastSegment | imgconv/imgconv.go:130-131 | the base name is the last piece of the split when that piece is not empty |
| GoPath.BaseOfCleanPath | imgconv/imgconv.go:130-131 | the base name of a clean path is its last element |
| GoPath.BaseOfJoin | imgconv/imgconv.go:131-134 | the base name of joined elements is the last element |
| GoPath.Ext | imgconv/imgconv.go:74 | filepath.Ext: the suffix from the last "." of the last element, or empty; ExtIsSuffix, NoExt and ExtOfDotSuffix state its properties |
| GoPath.ExtIsSuffix | imgconv/imgconv.go:74 | filepath.Ext is a suffix of the path that starts with "." and holds no other "." and no "/" |
| GoPath.NoExt | imgconv/imgconv.go:74 | a path has no extension only when every "." in it is followed by a "/" |
| GoPath.ExtOfDotSuffix | imgconv/imgconv.go:133 | a path ending in "." and a word without "." or "/" has "." and that word as its extension |
| GoPath.TrimSuffix | imgconv/imgconv.go:133 | strings.TrimSuffix; TrimSuffixSpec and TrimExt state its properties |
| GoPath.TrimSuffixSpec | imgconv/imgconv.go:133 | strings.TrimSuffix removes the suffix when the string ends with it and changes nothing otherwise |
| GoPath.TrimExt | imgconv/imgconv.go:133 | the name without its extension, followed by the extension, is the name |
| Imgconv.SupportedNames | imgconv/imgconv.go:26-30 | the supported formats are exactly png, jpg and gif |
| Imgconv.SupportedIsFormatName | imgconv/imgconv.go:26-30 | every supported name is non-empty and holds no "." and no "/" |
| Imgconv.NewImgconv | imgconv/imgconv.go:42-53 | nil error exactly when both formats are supported and differ; on success the options hold the given from, to and verbose; every error returns the empty options; an unsupported from is reported first, then an unsupported to, then the same formats |
| Imgconv.NewImgconvAcceptsValid | imgconv/imgconv.go:42-53 | options are valid exactly when NewImgconv gives them back from their own fields without error |
| Imgconv.NewImgconvRefuses | imgconv/imgconv.go:43-51 | an unsupported name is refused as from and as to, and a supported name paired with itself is refused as the same format |
| Imgconv.SupportedFormats | imgconv/imgconv.go:32-39 | the result is the names joined with ", " in the order the map gave them; each supported name appears exactly once and nothing else appears |
| Imgconv.NewName | imgconv/imgconv.go:133 | the base name without its extension, then "." and the target format; NewNameShape and NewNameNoExt state its properties |
| Imgconv.NewNameShape | imgconv/imgconv.go:133 | the new name is a clean element whose extension is "." and the target format, whatever the old extension was |
| Imgconv.NewNameNoExt | imgconv/imgconv.go:133 | a base name without extension keeps its whole text and gains "." and the target format |
| Imgconv.BaseOfSourcePath | imgconv/imgconv.go:130-131 | the base name of a source path is the last piece of its split, so the basename buildDestPath computes and the element it overwrites agree |
| Imgconv.ReplacedClean | imgconv/imgconv.go:132-134 | the elements after the replacement satisfy what filepath.Join needs to keep them all |
| Imgconv.JoinDestClean | imgconv/imgconv.go:132-134 | the joined destination is a clean path |
| Imgconv.JoinDestBase | imgconv/imgconv.go:132-134 | the base name of the joined destination is the new name |
| Imgconv.JoinDestExt | imgconv/imgconv.go:133-134 | the joined destination has the target format as its extension |
| Imgconv.JoinDestSplit | imgconv/imgconv.go:132-134 | the joined destination's pieces are those of out, the middle elements of the source, then the new name |
| Imgconv.DestPath | imgconv/imgconv.go:129-134 | the destination of a source: out, the source's middle elements and the new name, joined; DestPathClean, DestPathExt, DestPathBase, DestPathElements, DestPathKeepsElements and ConvertNeverOverwritesSource state its properties |
| Imgconv.DestPathClean | imgconv/imgconv.go:129-134 | the destination path is a clean path |
| Imgconv.DestPathExt | imgconv/imgconv.go:131-134 | the destination's extension is always "." and the target format, also when the source name had no extension |
| Imgconv.DestPathBase | imgconv/imgconv.go:131-134 | the destination's base name is the source's base name with its extension replaced by the target format |
| Imgconv.DestPathElements | imgconv/imgconv.go:130-134 | a single-element source becomes the new name alone; otherwise the destination's pieces are those of out, then the source's middle elements unchanged, then the new name |
| Imgconv.DestPathKeepsElements | imgconv/imgconv.go:130-134 | when out is one element, the destination has as many elements as the source: element 0 is out, the middle ones are unchanged and the last is the new name |
| Imgconv.JoinedExt | imgconv/imgconv.go:133-134 | joined elements whose last is a stem, "." and a format name have that format as their extension |
| Imgconv.BuildDestPath | imgconv/imgconv.go:129-134 | the in-place overwrite of the first and last split elements followed by Join computes DestPath |
| Imgconv.UpdatedElements | imgconv/imgconv.go:130-134 | overwriting element 0 and then the last element gives the elements DestPath joins, and they are clean; a single element ends up as the new name alone |
| Imgconv.ConvertResult | imgconv/imgconv.go:94-126 | the first failing step among open, decode, create and (for png, jpg and gif) encode, or nil; Convert is proved to compute it |
| Imgconv.Convert | imgconv/imgconv.go:94-126 | the result is the outcome of opening, decoding, creating the destination and encoding, in that order; it is nil exactly when every step that runs succeeds, and a format without an encoder skips the encoding |
| Imgconv.ConvertNeverOverwritesSource | imgconv/imgconv.go:74-79 | with valid options, a file that passed the extension filter is never converted onto itself |
| Imgconv.Visit | imgconv/imgconv.go:67-84 | the walk function's result for one entry; VisitFilter states its three cases and WalkFn is proved to compute it |
| Imgconv.VisitFilter | imgconv/imgconv.go:67-84 | the walk function returns the walk's error, converts a regular file with extension "." and the source format, and skips every other entry with nil |
| Imgconv.WalkFn | imgconv/imgconv.go:67-84 | the walk function as written, with its early returns, computes the outcome VisitFilter describes, and calls Convert exactly when the entry is a regular file with the source extension |
| Imgconv.StopIndex | imgconv/imgconv.go:67-84 | the walk stops at the first entry whose visit fails: all earlier visits return nil |
| Imgconv.Walk | imgconv/imgconv.go:67-90 | the walk returns nil exactly when every entry's visit returns nil |
| Imgconv.MatchingPaths | imgconv/imgconv.go:71-79 | a path is listed exactly when some entry with that path is a regular file with the source extension |
| Imgconv.MatchingStep | imgconv/imgconv.go:71-79 | one more walked entry adds its path to the list exactly when it matches |
| Imgconv.MatchingPrefix | imgconv/imgconv.go:71-79 | a path is listed for the first n entries exactly when one of them has that path and matches |
| Imgconv.Converted | imgconv/imgconv.go:67-84 | the sources the walk hands to Convert: the matching entries up to and including the one where the walk stops; ConvertedMatch, WalkStopsAt, WalkCompletes and NothingToConvert state its properties |
| Imgconv.ConvertedMatch | imgconv/imgconv.go:67-84 | a path is handed to Convert exactly when a matching entry at or before the stopping point has that path |
| Imgconv.WalkableTail | imgconv/imgconv.go:67 | the entries after the first still satisfy the walk's requirements |
| Imgconv.WalkStopsAt | imgconv/imgconv.go:67-90 | when entry k is the first to fail, the walk returns its error and nothing after entry k is converted |
| Imgconv.WalkCompletes | imgconv/imgconv.go:67-90 | when every visit passes, the walk returns nil and every matching entry is converted |
| Imgconv.WalkFailureCause | imgconv/imgconv.go:67-90 | a failed walk fails with the error of some entry: a walk error, or the failed conversion of a matching file |
| Imgconv.NothingToConvert | imgconv/imgconv.go:67-90 | when no entry matches and the walk meets no error, the result is nil and nothing is converted |
| Imgconv.WalkEntries | imgconv/imgconv.go:67-88 | the loop over the entries with early exit returns the walk's outcome; the sources it records are those on which the walk function called Convert, and they are exactly the ones Converted lists |
| Imgconv.ConvertRecursively | imgconv/imgconv.go:56-91 | a stat error on in is returned as it is, then in not being a directory, then the same two checks on out, with nothing converted; when both are directories the result is the walk's outcome and the converted sources are those of the walk |

## Left out

- The image codecs. `image.Decode`, and `png.Encode`, `jpeg.Encode` at quality 100 and `gif.Encode` with 256 colours, are foreign libraries. Each step is reduced to its outcome, supplied in `Io`.
- The file system. `os.Stat`, `os.Open` and `os.Create` are reduced to their outcomes. `defer w.Close()` is left out. The source file, which the code never closes, is left out too.
- `filepath.Walk`'s traversal. The walk is the sequence of entries it reports. The model does not relate those entries to the directory `in`, and the walk's order is not modelled.
- Creating the destination directory. The `os.Stat` and `os.MkdirAll` in buildDestPath are left out; the code ignores MkdirAll's error.
- `vLog`. It only prints, and has no effect on the result.
- The text of errors. Each error is a constructor, not a formatted string. Errors from the operating system, the walk and the codecs are `System` codes that are passed on unchanged.
- `filepath.Clean` in general. `filepath.Join` is modelled only on clean paths, where Clean changes nothing.
- Imgconv.DestPath: requires `out` to be a clean path, so an `out` of ".", of "..", with a trailing "/" or with an empty, "." or ".." element is not modelled. It requires the source's elements after the first to be clean, so a source ending in "/" or with an empty, "." or ".." element after the first is not modelled; the first element may be anything. The target format must hold no "." or "/". On the inputs left out, Join would clean or drop elements.
- Imgconv.BuildDestPath: has the same requirements as DestPath, which the Go code does not impose.
- Imgconv.Convert: has the same requirements as DestPath, which the Go code does not impose.
- Imgconv.WalkFn: requires the path of an entry it converts to meet DestPath's requirement on sources. A walk from a root such as `../../x` reports paths with ".." after the first element, and those are not modelled. Directories, skipped files and walk errors may have any path. `out` and the target format must be as DestPath needs.
- Imgconv.WalkEntries: has the same requirements as WalkFn, for every entry.
- Imgconv.ConvertRecursively: has the same requirements as WalkEntries. Options built by NewImgconv always meet the format requirement.
- Imgconv.SupportedFormats: does not fix the order of the names, because Go's map iteration order is random; only the set of names and their uniqueness are stated.
- `imgconv/imgconv_test.go` is not part of this model. It exercises functions this version of the package does not have.
