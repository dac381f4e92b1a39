/**
 * A model of package imgconv (imgconv/imgconv.go): validating the pair of
 * image formats, deriving the destination path of a converted file, and the
 * recursive conversion that walks a source tree and stops at the first error.
 *
 * The file system, filepath.Walk's traversal and the image codecs are not
 * modelled: they are given as parameters (a stat function, the sequence of
 * entries the walk visits, and the outcome of converting one file).
 */
module Imgconv {
  import opened GoPath

  /** The errors the package returns. Those produced by the operating system,
      by filepath.Walk or by a codec are opaque to the package: it only passes
      them on, so the model gives them a code and nothing else. */
  datatype Error =
    | FromNotSupported(format: string)   // "from:%s is not supported"
    | ToNotSupported(format: string)     // "to:%s is not supported"
    | SameFormats                        // "same formats are specified"
    | NotDirectory(dir: string)          // "%s is not directory"
    | System(code: nat)                  // an error from os, filepath or a codec

  /** A Go `error` result: nil, or an error. */
  datatype Outcome = Pass | Fail(err: Error)

  /** The options of a run: the format converted from, the format converted
      to, and whether to print verbose output. */
  datatype Imgconv = Imgconv(from: string, to: string, verbose: bool)

  /** The zero value `Imgconv{}` that every error path returns. */
  const EmptyImgconv: Imgconv := Imgconv("", "", false)

  // ---------------------------------------------------------------------------
  // Supported formats and NewImgconv
  // ---------------------------------------------------------------------------

  /** The table of supported format names; the values play no part. */
  const SupportedFormatTable: map<string, int> := map["png" := 1, "jpg" := 1, "gif" := 1]

  predicate IsSupported(format: string)
  {
    format in SupportedFormatTable
  }

  /** What NewImgconv guarantees of the options it returns without error. */
  predicate Valid(c: Imgconv)
  {
    IsSupported(c.from) && IsSupported(c.to) && c.from != c.to
  }

  /** The supported names are exactly png, jpg and gif. */
  lemma SupportedNames(format: string)
    ensures IsSupported(format) <==> format == "png" || format == "jpg" || format == "gif"
  {
  }

  /** What the path computation needs of a target format name: it is not
      empty and holds neither '.' nor '/'. */
  predicate IsFormatName(format: string)
  {
    format != "" && '.' !in format && Sep !in format
  }

  /** Every supported name is a format name. */
  lemma SupportedIsFormatName(format: string)
    requires IsSupported(format)
    ensures IsFormatName(format)
  {
    SupportedNames(format);
  }

  /** NewImgconv(from, to, verbose): `from` is checked first, then `to`, then
      that the two differ; each check has its own error, and every error comes
      with the empty options. */
  function NewImgconv(from: string, to: string, verbose: bool): (r: (Imgconv, Outcome))
    ensures r.1 == Pass <==> IsSupported(from) && IsSupported(to) && from != to
    ensures r.1 == Pass ==> r.0 == Imgconv(from, to, verbose) && Valid(r.0)
    ensures r.1 != Pass ==> r.0 == EmptyImgconv
    ensures !IsSupported(from) ==> r.1 == Fail(FromNotSupported(from))
    ensures IsSupported(from) && !IsSupported(to) ==> r.1 == Fail(ToNotSupported(to))
    ensures IsSupported(from) && IsSupported(to) && from == to ==> r.1 == Fail(SameFormats)
  {
    if from !in SupportedFormatTable then (EmptyImgconv, Fail(FromNotSupported(from)))
    else if to !in SupportedFormatTable then (EmptyImgconv, Fail(ToNotSupported(to)))
    else if from == to then (EmptyImgconv, Fail(SameFormats))
    else (Imgconv(from, to, verbose), Pass)
  }

  /** Valid options are exactly those NewImgconv accepts: building them again
      from their own fields gives them back without error. */
  lemma NewImgconvAcceptsValid(c: Imgconv)
    ensures Valid(c) <==> NewImgconv(c.from, c.to, c.verbose) == (c, Pass)
  {
  }

  /** An unsupported name is refused on either side, and a supported name
      paired with itself is refused as the same format. */
  lemma NewImgconvRefuses(f: string, v: string, verbose: bool)
    requires !IsSupported(f) && IsSupported(v)
    ensures NewImgconv(f, v, verbose) == (EmptyImgconv, Fail(FromNotSupported(f)))
    ensures NewImgconv(v, f, verbose) == (EmptyImgconv, Fail(ToNotSupported(f)))
    ensures NewImgconv(v, v, verbose) == (EmptyImgconv, Fail(SameFormats))
  {
  }

  /** Each supported name once, and nothing else, in some order. */
  ghost predicate ListsSupported(names: seq<string>)
  {
    (forall f :: f in names <==> IsSupported(f)) &&
    forall i, j :: 0 <= i < j < |names| ==> names[i] != names[j]
  }

  /** SupportedFormats(): the supported names joined with ", ". Go visits the
      keys of a map in no fixed order, so the loop takes them in any order;
      `order` is the order it took. The second postcondition says the same of
      `s` alone, without the ghost `order`. */
  method SupportedFormats() returns (s: string, ghost order: seq<string>)
    ensures ListsSupported(order) && s == JoinWith(order, ", ")
    ensures exists names :: ListsSupported(names) && s == JoinWith(names, ", ")
  {
    var formats: seq<string> := [];
    var rest := SupportedFormatTable.Keys;
    while rest != {}
      invariant forall f :: f in formats ==> IsSupported(f) && f !in rest
      invariant forall f :: f in rest ==> IsSupported(f)
      invariant forall f :: IsSupported(f) ==> f in formats || f in rest
      invariant forall i, j :: 0 <= i < j < |formats| ==> formats[i] != formats[j]
      decreases rest
    {
      var k :| k in rest;
      formats := formats + [k];
      rest := rest - {k};
    }
    s := JoinWith(formats, ", ");
    order := formats;
  }

  // ---------------------------------------------------------------------------
  // buildDestPath
  // ---------------------------------------------------------------------------

  /** The new file name: the base name without its extension, then "." and the
      target format. */
  function NewName(base: string, to: string): string
  {
    TrimSuffix(base, Ext(base)) + "." + to
  }

  /** The new name is a clean path element whose extension is the target
      format, whatever extension (if any) the old name had. */
  lemma NewNameShape(base: string, to: string)
    requires Sep !in base && IsFormatName(to)
    ensures Sep !in TrimSuffix(base, Ext(base))
    ensures IsCleanSegment(NewName(base, to))
    ensures Ext(NewName(base, to)) == "." + to
  {
    var stem := TrimSuffix(base, Ext(base));
    TrimExt(base);
    ExtIsSuffix(base);
    assert forall i :: 0 <= i < |stem| ==> stem[i] == base[i];
    ExtOfDotSuffix(stem, to);
    var name := NewName(base, to);
    assert name[|name| - 1] == to[|to| - 1];
  }

  /** A base name without extension keeps its whole text and gains the
      target format: "img" becomes "img.jpg". */
  lemma NewNameNoExt(base: string, to: string)
    requires Ext(base) == ""
    ensures NewName(base, to) == base + "." + to
  {
    assert base[|base|..] == "" && base[..|base|] == base;
  }

  /** What buildDestPath needs of a source path: the elements after the first
      are clean, and so is the last. The first element is overwritten by `out`
      and may be anything, such as "..", "." or the empty piece before the "/"
      of an absolute path. */
  predicate IsSourcePath(src: string)
  {
    var segs := Split(src);
    IsCleanSegment(segs[|segs| - 1]) &&
    forall i :: 1 <= i < |segs| ==> IsCleanSegment(segs[i])
  }

  /** The base name of a source path is its last element. */
  lemma BaseOfSourcePath(src: string)
    requires IsSourcePath(src)
    ensures var segs := Split(src); Base(src) == segs[|segs| - 1]
  {
    BaseIsLastSegment(src);
  }

  /** The elements of the destination when the source has at least two:
      `out`, then the source's middle elements, then the new name. */
  function Replaced(segs: seq<string>, out: string, name: string): (elems: seq<string>)
    requires |segs| >= 2
    ensures |elems| == |segs| && elems[0] == out && elems[|segs| - 1] == name
    ensures forall i :: 1 <= i < |segs| - 1 ==> elems[i] == segs[i]
  {
    [out] + segs[1..|segs| - 1] + [name]
  }

  /** What the path elements of a destination must satisfy: the source's
      elements after the first are clean, `out` is a clean path and the new
      name a clean element. */
  predicate Joinable(segs: seq<string>, out: string, name: string)
  {
    && |segs| >= 1
    && IsCleanPath(out)
    && IsCleanSegment(name)
    && forall i :: 1 <= i < |segs| ==> IsCleanSegment(segs[i])
  }

  lemma ReplacedClean(segs: seq<string>, out: string, name: string)
    requires Joinable(segs, out, name) && |segs| >= 2
    ensures var elems := Replaced(segs, out, name);
      IsCleanPath(elems[0]) && forall i :: 1 <= i < |elems| ==> IsCleanSegment(elems[i])
  {
    var elems := Replaced(segs, out, name);
    forall i | 1 <= i < |elems| ensures IsCleanSegment(elems[i]) {
      if i < |elems| - 1 {
        assert elems[i] == segs[i];
      }
    }
  }

  /** The destination built from the source's elements: a single element is
      replaced by the new name alone (the first and the last element are the
      same, and the last write wins); otherwise the first element becomes
      `out`, the last the new name, and the elements are joined. */
  function JoinDest(segs: seq<string>, out: string, name: string): string
    requires Joinable(segs, out, name)
  {
    if |segs| == 1 then name
    else
      ReplacedClean(segs, out, name);
      PathJoin(Replaced(segs, out, name))
  }

  lemma JoinDestClean(segs: seq<string>, out: string, name: string)
    requires Joinable(segs, out, name)
    ensures IsCleanPath(JoinDest(segs, out, name))
  {
    if |segs| == 1 {
      CleanSegmentIsCleanPath(name);
    } else {
      ReplacedClean(segs, out, name);
      PathJoinClean(Replaced(segs, out, name));
    }
  }

  lemma JoinDestBase(segs: seq<string>, out: string, name: string)
    requires Joinable(segs, out, name)
    ensures Base(JoinDest(segs, out, name)) == name
  {
    if |segs| == 1 {
      CleanSegmentIsCleanPath(name);
      BaseIsLastSegment(name);
    } else {
      var elems := Replaced(segs, out, name);
      ReplacedClean(segs, out, name);
      assert forall i :: 1 <= i < |elems| ==> Sep !in elems[i];
      BaseOfJoin(elems);
    }
  }

  lemma JoinDestExt(segs: seq<string>, out: string, name: string, stem: string, to: string)
    requires Joinable(segs, out, name)
    requires IsFormatName(to) && Sep !in stem && name == stem + "." + to
    ensures Ext(JoinDest(segs, out, name)) == "." + to
  {
    if |segs| == 1 {
      ExtOfDotSuffix(stem, to);
    } else {
      JoinedExt(Replaced(segs, out, name), stem, to);
    }
  }

  lemma JoinDestSplit(segs: seq<string>, out: string, name: string)
    requires Joinable(segs, out, name) && |segs| >= 2
    ensures Split(JoinDest(segs, out, name)) == Split(out) + segs[1..|segs| - 1] + [name]
  {
    var elems := Replaced(segs, out, name);
    ReplacedClean(segs, out, name);
    PathJoinClean(elems);
    assert elems[1..] == segs[1..|segs| - 1] + [name];
  }

  /** The destination path that buildDestPath computes, as a definition on
      path elements: the first element of `src` is replaced by `out`, the
      last by the new name, and the others are kept. */
  function DestPath(to: string, src: string, out: string): string
    requires IsSourcePath(src) && IsCleanPath(out) && IsFormatName(to)
  {
    var segs := Split(src);
    NewNameShape(segs[|segs| - 1], to);
    JoinDest(segs, out, NewName(segs[|segs| - 1], to))
  }

  /** The destination is again a clean path. */
  lemma DestPathClean(to: string, src: string, out: string)
    requires IsSourcePath(src) && IsCleanPath(out) && IsFormatName(to)
    ensures IsCleanPath(DestPath(to, src, out))
  {
    var segs := Split(src);
    var name := NewName(segs[|segs| - 1], to);
    assert Joinable(segs, out, name) by {
      NewNameShape(segs[|segs| - 1], to);
    }
    JoinDestClean(segs, out, name);
  }

  /** The destination always has the target format as its extension, whether
      or not the source name had an extension. */
  lemma DestPathExt(to: string, src: string, out: string)
    requires IsSourcePath(src) && IsCleanPath(out) && IsFormatName(to)
    ensures Ext(DestPath(to, src, out)) == "." + to
  {
    var segs := Split(src);
    var base := segs[|segs| - 1];
    var stem, name := TrimSuffix(base, Ext(base)), NewName(base, to);
    assert Joinable(segs, out, name) && Sep !in stem && name == stem + "." + to by {
      NewNameShape(base, to);
    }
    assert DestPath(to, src, out) == JoinDest(segs, out, name);
    JoinDestExt(segs, out, name, stem, to);
  }

  /** The destination's base name is the source's base name with its
      extension replaced by the target format. */
  lemma DestPathBase(to: string, src: string, out: string)
    requires IsSourcePath(src) && IsCleanPath(out) && IsFormatName(to)
    ensures Base(DestPath(to, src, out)) == NewName(Base(src), to)
  {
    var segs := Split(src);
    var name := NewName(segs[|segs| - 1], to);
    var dest := DestPath(to, src, out);
    assert Joinable(segs, out, name) by {
      NewNameShape(segs[|segs| - 1], to);
    }
    assert dest == JoinDest(segs, out, name);
    assert Base(dest) == name by {
      JoinDestBase(segs, out, name);
    }
    assert Base(src) == segs[|segs| - 1] by {
      BaseOfSourcePath(src);
    }
  }

  /** Element by element: a single-element source becomes the new name
      alone; otherwise the destination's elements are those of `out`, then the
      middle elements of `src` unchanged, then the new name. */
  lemma DestPathElements(to: string, src: string, out: string)
    requires IsSourcePath(src) && IsCleanPath(out) && IsFormatName(to)
    ensures var segs := Split(src);
      |segs| == 1 ==> DestPath(to, src, out) == NewName(src, to)
    ensures var segs := Split(src);
      |segs| >= 2 ==> Split(DestPath(to, src, out)) == Split(out) + segs[1..|segs| - 1] + [NewName(Base(src), to)]
  {
    var segs := Split(src);
    BaseOfSourcePath(src);
    NewNameShape(segs[|segs| - 1], to);
    if |segs| == 1 {
      JoinSplit(src);
      assert src == segs[0];
    } else {
      JoinDestSplit(segs, out, NewName(segs[|segs| - 1], to));
    }
  }

  /** When `out` is one element, the destination has as many elements as the
      source: element 0 is `out`, the middle ones are those of `src`, and the
      last is the new name. */
  lemma DestPathKeepsElements(to: string, src: string, out: string)
    requires IsSourcePath(src) && IsCleanPath(out) && Sep !in out && IsFormatName(to)
    requires |Split(src)| >= 2
    ensures var segs, dsegs := Split(src), Split(DestPath(to, src, out));
      && |dsegs| == |segs|
      && dsegs[0] == out
      && (forall i :: 1 <= i < |segs| - 1 ==> dsegs[i] == segs[i])
      && dsegs[|segs| - 1] == NewName(segs[|segs| - 1], to)
  {
    DestPathElements(to, src, out);
    SplitNoSep(out);
    BaseOfSourcePath(src);
  }

  /** Joined elements whose last is a stem, "." and a format name have that
      format as their extension. */
  lemma JoinedExt(elems: seq<string>, stem: string, to: string)
    requires |elems| >= 1 && IsFormatName(to) && Sep !in stem
    requires elems[|elems| - 1] == stem + "." + to
    ensures Ext(JoinWith(elems, [Sep])) == "." + to
  {
    JoinEndsWithLast(elems, [Sep]);
    var dest := JoinWith(elems, [Sep]);
    var name := stem + "." + to;
    var prefix := dest[..|dest| - |name|];
    assert dest == prefix + name;
    ConcatAssoc(prefix, stem, to);
    ExtOfDotSuffix(prefix + stem, to);
  }

  lemma ConcatAssoc(a: string, b: string, c: string)
    ensures a + (b + "." + c) == (a + b) + "." + c
  {
  }

  /** buildDestPath(src, out): the path is split on "/", element 0 is
      overwritten with `out` and the last element with the new name, and the
      elements are joined again. Creating the destination directory is left
      out. */
  method BuildDestPath(c: Imgconv, src: string, out: string) returns (dest: string)
    requires IsSourcePath(src) && IsCleanPath(out) && IsFormatName(c.to)
    ensures dest == DestPath(c.to, src, out)
  {
    var destPath := Split(src);
    var basename := Base(src);
    destPath := destPath[0 := out];
    destPath := destPath[|destPath| - 1 := TrimSuffix(basename, Ext(basename)) + "." + c.to];
    ghost var segs := Split(src);
    BaseOfSourcePath(src);
    NewNameShape(basename, c.to);
    UpdatedElements(segs, out, NewName(basename, c.to), destPath);
    dest := PathJoin(destPath);
  }

  /** Overwriting the first and then the last element gives the elements that
      JoinDest joins; a single element ends up as the new name alone. */
  lemma UpdatedElements(segs: seq<string>, out: string, name: string, elems: seq<string>)
    requires Joinable(segs, out, name)
    requires elems == segs[0 := out][|segs| - 1 := name]
    ensures |elems| >= 1 && IsCleanPath(elems[0])
    ensures forall i :: 1 <= i < |elems| ==> IsCleanSegment(elems[i])
    ensures PathJoin(elems) == JoinDest(segs, out, name)
  {
    if |segs| == 1 {
      assert elems == [name];
      CleanSegmentIsCleanPath(name);
      assert PathJoin(elems) == name;
    } else {
      var r := Replaced(segs, out, name);
      forall i | 0 <= i < |r| ensures elems[i] == r[i] {
      }
      assert elems == r;
      ReplacedClean(segs, out, name);
    }
  }

  // ---------------------------------------------------------------------------
  // Convert
  // ---------------------------------------------------------------------------

  /** The file system and codec steps of Convert, each reduced to its outcome:
      opening the source, decoding it, creating the destination, and encoding
      the image in a format into the destination. */
  datatype Io = Io(
    open: string -> Outcome,
    decode: string -> Outcome,
    create: string -> Outcome,
    encode: (string, string) -> Outcome)

  /** The formats the switch of Convert has an encoder for. */
  predicate HasEncoder(format: string)
  {
    format == "png" || format == "jpg" || format == "gif"
  }

  /** The outcome of converting `src`: the first step that fails decides the
      error; when the target format has no encoder, nothing is encoded and the
      conversion succeeds once the destination is created. */
  function ConvertResult(c: Imgconv, src: string, out: string, io: Io): Outcome
    requires IsSourcePath(src) && IsCleanPath(out) && IsFormatName(c.to)
  {
    var dest := DestPath(c.to, src, out);
    if io.open(src).Fail? then io.open(src)
    else if io.decode(src).Fail? then io.decode(src)
    else if io.create(dest).Fail? then io.create(dest)
    else if HasEncoder(c.to) then io.encode(c.to, dest)
    else Pass
  }

  /** Convert(src, out): the destination path is built first, then the steps
      run in order and the first error is returned. */
  method Convert(c: Imgconv, src: string, out: string, io: Io) returns (err: Outcome)
    requires IsSourcePath(src) && IsCleanPath(out) && IsFormatName(c.to)
    ensures err == ConvertResult(c, src, out, io)
    ensures err == Pass <==>
      && io.open(src) == Pass && io.decode(src) == Pass
      && io.create(DestPath(c.to, src, out)) == Pass
      && (HasEncoder(c.to) ==> io.encode(c.to, DestPath(c.to, src, out)) == Pass)
  {
    var dest := BuildDestPath(c, src, out);
    err := io.open(src);
    if err.Fail? {
      return;
    }
    err := io.decode(src);
    if err.Fail? {
      return;
    }
    err := io.create(dest);
    if err.Fail? {
      return;
    }
    if c.to == "png" {
      err := io.encode("png", dest);
    } else if c.to == "jpg" {
      err := io.encode("jpg", dest);
    } else if c.to == "gif" {
      err := io.encode("gif", dest);
    }
  }

  /** A file that passed the filter is never converted onto itself: the
      destination ends in the target format and the source in the other one. */
  lemma ConvertNeverOverwritesSource(c: Imgconv, src: string, out: string)
    requires Valid(c) && IsSourcePath(src) && IsCleanPath(out)
    requires Ext(src) == "." + c.from
    ensures IsFormatName(c.to)
    ensures DestPath(c.to, src, out) != src
  {
    SupportedIsFormatName(c.to);
    DestPathExt(c.to, src, out);
    assert ("." + c.from)[1..] == c.from && ("." + c.to)[1..] == c.to;
  }

  // ---------------------------------------------------------------------------
  // ConvertRecursively
  // ---------------------------------------------------------------------------

  /** What os.Stat or filepath.Walk reports about a path: whether it is a
      directory, or the error it met. */
  datatype FileInfo = Info(isDir: bool) | StatError(err: Error)

  /** One call of the walk function: a path and what the walk found there. */
  datatype Entry = Entry(path: string, info: FileInfo)

  /** The entries that reach Convert: regular files whose extension is
      exactly "." followed by the source format (case matters). */
  predicate Matches(c: Imgconv, e: Entry)
  {
    e.info == Info(false) && Ext(e.path) == "." + c.from
  }

  /** What the walk needs to convert a file: `out`, the format and every
      path the walk hands to Convert are of the shape the path computation
      handles. Directories and files that are skipped may have any path. */
  predicate Walkable(c: Imgconv, out: string, entries: seq<Entry>)
  {
    IsCleanPath(out) && IsFormatName(c.to) &&
    forall i :: 0 <= i < |entries| ==> Matches(c, entries[i]) ==> IsSourcePath(entries[i].path)
  }

  /** The walk function: an error from the walk is returned, directories and
      files of another format are skipped, and the rest are converted. */
  function Visit(c: Imgconv, out: string, e: Entry, io: Io): Outcome
    requires IsCleanPath(out) && IsFormatName(c.to) && (Matches(c, e) ==> IsSourcePath(e.path))
  {
    match e.info
    case StatError(err) => Fail(err)
    case Info(isDir) =>
      if isDir then Pass
      else if Ext(e.path) != "." + c.from then Pass
      else ConvertResult(c, e.path, out, io)
  }

  /** Only a walk error or a failed conversion makes the walk function fail;
      an entry that is neither is skipped. */
  lemma VisitFilter(c: Imgconv, out: string, e: Entry, io: Io)
    requires IsCleanPath(out) && IsFormatName(c.to) && (Matches(c, e) ==> IsSourcePath(e.path))
    ensures e.info.StatError? ==> Visit(c, out, e, io) == Fail(e.info.err)
    ensures Matches(c, e) ==> Visit(c, out, e, io) == ConvertResult(c, e.path, out, io)
    ensures !e.info.StatError? && !Matches(c, e) ==> Visit(c, out, e, io) == Pass
  {
  }

  /** The index of the first entry whose visit fails, or the number of
      entries when none fails: the walk stops there. */
  function StopIndex(c: Imgconv, out: string, entries: seq<Entry>, io: Io): (k: nat)
    requires Walkable(c, out, entries)
    ensures k <= |entries|
    ensures forall j :: 0 <= j < k ==> Visit(c, out, entries[j], io) == Pass
    ensures k < |entries| ==> Visit(c, out, entries[k], io).Fail?
    decreases |entries|
  {
    if entries == [] then 0
    else if Visit(c, out, entries[0], io).Fail? then 0
    else
      WalkableTail(c, out, entries);
      1 + StopIndex(c, out, entries[1..], io)
  }

  lemma WalkableTail(c: Imgconv, out: string, entries: seq<Entry>)
    requires Walkable(c, out, entries) && entries != []
    ensures Walkable(c, out, entries[1..])
  {
    assert forall i :: 1 <= i < |entries| ==> entries[1..][i - 1] == entries[i];
  }

  /** The outcome of filepath.Walk with the walk function: the error of the
      first entry that fails, or nil. */
  function Walk(c: Imgconv, out: string, entries: seq<Entry>, io: Io): (r: Outcome)
    requires Walkable(c, out, entries)
    ensures r == Pass <==> forall i :: 0 <= i < |entries| ==> Visit(c, out, entries[i], io) == Pass
  {
    var k := StopIndex(c, out, entries, io);
    if k < |entries| then Visit(c, out, entries[k], io) else Pass
  }

  /** The paths of the matching entries, in walk order. */
  function Matching(c: Imgconv, entries: seq<Entry>): (paths: seq<string>)
    ensures |paths| <= |entries|
    decreases |entries|
  {
    if entries == [] then []
    else
      var last := entries[|entries| - 1];
      Matching(c, entries[..|entries| - 1]) + (if Matches(c, last) then [last.path] else [])
  }

  /** A path is listed exactly when some entry with that path matches. */
  lemma {:induction false} MatchingPaths(c: Imgconv, entries: seq<Entry>, p: string)
    ensures p in Matching(c, entries) <==>
      exists i :: 0 <= i < |entries| && entries[i].path == p && Matches(c, entries[i])
    decreases |entries|
  {
    if entries != [] {
      var init := entries[..|entries| - 1];
      MatchingPaths(c, init, p);
      assert forall i :: 0 <= i < |init| ==> init[i] == entries[i];
    }
  }

  /** Extending the walked prefix by one entry adds its path when it
      matches. */
  lemma MatchingStep(c: Imgconv, entries: seq<Entry>, i: nat)
    requires i < |entries|
    ensures Matching(c, entries[..i + 1]) ==
      Matching(c, entries[..i]) + (if Matches(c, entries[i]) then [entries[i].path] else [])
  {
    assert entries[..i + 1][..i] == entries[..i];
  }

  /** The sources handed to Convert: the matching entries up to and including
      the one where the walk stops. */
  function Converted(c: Imgconv, out: string, entries: seq<Entry>, io: Io): seq<string>
    requires Walkable(c, out, entries)
  {
    var k := StopIndex(c, out, entries, io);
    Matching(c, entries[..if k < |entries| then k + 1 else k])
  }

  /** Only matching entries are converted, each at most once per entry, and
      none after the entry where the walk stops. */
  lemma ConvertedMatch(c: Imgconv, out: string, entries: seq<Entry>, io: Io, p: string)
    requires Walkable(c, out, entries)
    ensures p in Converted(c, out, entries, io) <==>
      exists i :: 0 <= i < |entries| && i <= StopIndex(c, out, entries, io) &&
        entries[i].path == p && Matches(c, entries[i])
  {
    var k := StopIndex(c, out, entries, io);
    var n := if k < |entries| then k + 1 else k;
    assert Converted(c, out, entries, io) == Matching(c, entries[..n]);
    MatchingPrefix(c, entries, n, p);
  }

  lemma MatchingPrefix(c: Imgconv, entries: seq<Entry>, n: nat, p: string)
    requires n <= |entries|
    ensures p in Matching(c, entries[..n]) <==>
      exists i :: 0 <= i < n && entries[i].path == p && Matches(c, entries[i])
  {
    var prefix := entries[..n];
    MatchingPaths(c, prefix, p);
    assert forall i :: 0 <= i < n ==> prefix[i] == entries[i];
  }

  /** When the visit of entry k fails after all earlier ones passed, the walk
      returns that error and nothing after entry k is converted. */
  lemma WalkStopsAt(c: Imgconv, out: string, entries: seq<Entry>, io: Io, k: nat)
    requires Walkable(c, out, entries) && k < |entries|
    requires forall j :: 0 <= j < k ==> Visit(c, out, entries[j], io) == Pass
    requires Visit(c, out, entries[k], io).Fail?
    ensures StopIndex(c, out, entries, io) == k
    ensures Walk(c, out, entries, io) == Visit(c, out, entries[k], io)
    ensures Converted(c, out, entries, io) == Matching(c, entries[..k + 1])
  {
  }

  /** When every visit passes, the walk returns nil and every matching entry
      is converted. */
  lemma WalkCompletes(c: Imgconv, out: string, entries: seq<Entry>, io: Io)
    requires Walkable(c, out, entries)
    requires forall j :: 0 <= j < |entries| ==> Visit(c, out, entries[j], io) == Pass
    ensures StopIndex(c, out, entries, io) == |entries|
    ensures Walk(c, out, entries, io) == Pass
    ensures Converted(c, out, entries, io) == Matching(c, entries)
  {
    assert entries[..|entries|] == entries;
  }

  /** A failed walk fails with the error of some entry, either a walk error
      or the failed conversion of a matching file. */
  lemma WalkFailureCause(c: Imgconv, out: string, entries: seq<Entry>, io: Io)
    requires Walkable(c, out, entries) && Walk(c, out, entries, io).Fail?
    ensures var r := Walk(c, out, entries, io);
      (exists k :: 0 <= k < |entries| &&
         (entries[k].info == StatError(r.err) ||
          (Matches(c, entries[k]) && ConvertResult(c, entries[k].path, out, io) == r)))
  {
    var k := StopIndex(c, out, entries, io);
    VisitFilter(c, out, entries[k], io);
  }

  /** When no entry matches and the walk meets no error, there is nothing to
      convert and the result is nil. */
  lemma NothingToConvert(c: Imgconv, out: string, entries: seq<Entry>, io: Io)
    requires Walkable(c, out, entries)
    requires forall i :: 0 <= i < |entries| ==> !Matches(c, entries[i]) && !entries[i].info.StatError?
    ensures Walk(c, out, entries, io) == Pass
    ensures Converted(c, out, entries, io) == []
  {
    forall i | 0 <= i < |entries| ensures Visit(c, out, entries[i], io) == Pass {
      VisitFilter(c, out, entries[i], io);
    }
    WalkCompletes(c, out, entries, io);
    var m := Matching(c, entries);
    if m != [] {
      MatchingPaths(c, entries, m[0]);
    }
  }

  /** The walk function passed to filepath.Walk, as a method: it returns the
      walk's error, skips directories and files of another format, and
      converts the rest. `called` records whether Convert was called. */
  method WalkFn(c: Imgconv, out: string, e: Entry, io: Io) returns (err: Outcome, ghost called: bool)
    requires IsCleanPath(out) && IsFormatName(c.to) && (Matches(c, e) ==> IsSourcePath(e.path))
    ensures err == Visit(c, out, e, io)
    ensures called <==> Matches(c, e)
  {
    called := false;
    if e.info.StatError? {
      return Fail(e.info.err), called;
    }
    if e.info.isDir {
      return Pass, called;
    }
    if Ext(e.path) != "." + c.from {
      return Pass, called;
    }
    err := Convert(c, e.path, out, io);
    called := true;
    if err.Fail? {
      return err, called;
    }
    return Pass, called;
  }

  /** filepath.Walk over the given entries: the walk function is called on
      each in turn and the first error it returns ends the walk. `converted`
      lists the sources handed to Convert. */
  method WalkEntries(c: Imgconv, out: string, entries: seq<Entry>, io: Io)
    returns (err: Outcome, ghost converted: seq<string>)
    requires Walkable(c, out, entries)
    ensures err == Walk(c, out, entries, io)
    ensures converted == Converted(c, out, entries, io)
  {
    converted := [];
    var i := 0;
    while i < |entries|
      invariant 0 <= i <= |entries|
      invariant forall j :: 0 <= j < i ==> Visit(c, out, entries[j], io) == Pass
      invariant converted == Matching(c, entries[..i])
    {
      MatchingStep(c, entries, i);
      ghost var called;
      err, called := WalkFn(c, out, entries[i], io);
      if called {
        converted := converted + [entries[i].path];
      }
      if err.Fail? {
        WalkStopsAt(c, out, entries, io, i);
        return;
      }
      i := i + 1;
    }
    WalkCompletes(c, out, entries, io);
    err := Pass;
  }

  /** ConvertRecursively(in, out): both paths must be directories, `in`
      checked first (`inDir` stands for the parameter `in`); then the walk
      visits the entries in order and stops at the first error, which is
      returned. `converted` lists the sources that were handed to Convert. */
  method ConvertRecursively(c: Imgconv, inDir: string, out: string, stat: string -> FileInfo,
                            entries: seq<Entry>, io: Io)
    returns (err: Outcome, ghost converted: seq<string>)
    requires Walkable(c, out, entries)
    ensures stat(inDir).StatError? ==> err == Fail(stat(inDir).err)
    ensures stat(inDir) == Info(false) ==> err == Fail(NotDirectory(inDir))
    ensures stat(inDir) == Info(true) && stat(out).StatError? ==> err == Fail(stat(out).err)
    ensures stat(inDir) == Info(true) && stat(out) == Info(false) ==> err == Fail(NotDirectory(out))
    ensures stat(inDir) == Info(true) && stat(out) == Info(true) ==> err == Walk(c, out, entries, io)
    ensures stat(inDir) != Info(true) || stat(out) != Info(true) ==> converted == []
    ensures stat(inDir) == Info(true) && stat(out) == Info(true) ==>
      converted == Converted(c, out, entries, io)
  {
    converted := [];
    var dirs := [inDir, out];
    for n := 0 to |dirs|
      invariant n >= 1 ==> stat(inDir) == Info(true)
      invariant n >= 2 ==> stat(out) == Info(true)
    {
      var info := stat(dirs[n]);
      if info.StatError? {
        return Fail(info.err), [];
      }
      if !info.isDir {
        return Fail(NotDirectory(dirs[n])), [];
      }
    }
    err, converted := WalkEntries(c, out, entries, io);
  }
}
