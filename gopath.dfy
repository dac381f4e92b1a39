/**
 * Models of the helpers from Go's `strings` and `path/filepath` packages that
 * imgconv relies on, for Unix paths, whose only separator is '/'.
 *
 * Go works on the bytes of a string; '/' and '.' are single ASCII bytes, so
 * modelling a string as `seq<char>` changes nothing that is stated here.
 */
module GoPath {

  const Sep: char := '/'

  // ---------------------------------------------------------------------------
  // strings.Split(s, "/") and strings.Join(elems, sep)
  // ---------------------------------------------------------------------------

  /** strings.Split(s, "/"): the pieces of `s` between separators, one more
      piece than there are separators (so never none), no piece holding one. */
  function Split(s: string): (segs: seq<string>)
    ensures |segs| >= 1
    ensures forall i :: 0 <= i < |segs| ==> Sep !in segs[i]
    decreases |s|
  {
    if |s| == 0 then [""]
    else
      var rest := Split(s[1..]);
      if s[0] == Sep then [""] + rest
      else [[s[0]] + rest[0]] + rest[1..]
  }

  /** There is one piece more than there are separators. */
  lemma {:induction false} SplitCount(s: string)
    ensures |Split(s)| == multiset(s)[Sep] + 1
    decreases |s|
  {
    if |s| > 0 {
      SplitCount(s[1..]);
      assert s == [s[0]] + s[1..];
    }
  }

  /** strings.Join(elems, sep): the elements with `sep` between neighbours. */
  function JoinWith(elems: seq<string>, sep: string): string
  {
    if |elems| == 0 then ""
    else if |elems| == 1 then elems[0]
    else elems[0] + sep + JoinWith(elems[1..], sep)
  }

  /** A joined string ends with the last element. */
  lemma {:induction false} JoinEndsWithLast(elems: seq<string>, sep: string)
    requires |elems| >= 1
    ensures var r, last := JoinWith(elems, sep), elems[|elems| - 1];
      |last| <= |r| && r[|r| - |last|..] == last
    decreases |elems|
  {
    if |elems| >= 2 {
      JoinEndsWithLast(elems[1..], sep);
      assert elems[1..][|elems[1..]| - 1] == elems[|elems| - 1];
    }
  }

  /** A piece without a separator splits into itself. */
  lemma {:induction false} SplitNoSep(s: string)
    requires Sep !in s
    ensures Split(s) == [s]
    decreases |s|
  {
    if |s| > 0 {
      assert Sep !in s[1..];
      SplitNoSep(s[1..]);
      assert s == [s[0]] + s[1..];
    }
  }

  /** Splitting at a separator splits each side on its own. */
  lemma {:induction false} SplitConcat(a: string, b: string)
    ensures Split(a + [Sep] + b) == Split(a) + Split(b)
    decreases |a|
  {
    var s := a + [Sep] + b;
    if |a| == 0 {
      assert s[1..] == b;
    } else {
      assert s[1..] == a[1..] + [Sep] + b;
      SplitConcat(a[1..], b);
    }
  }

  /** Joining with "/" and splitting again gives back the pieces, the first of
      which may itself hold separators. */
  lemma {:induction false} SplitJoin(elems: seq<string>)
    requires |elems| >= 1
    requires forall i :: 1 <= i < |elems| ==> Sep !in elems[i]
    ensures Split(JoinWith(elems, [Sep])) == Split(elems[0]) + elems[1..]
    decreases |elems|
  {
    if |elems| >= 2 {
      var rest := elems[1..];
      SplitJoin(rest);
      SplitNoSep(rest[0]);
      SplitConcat(elems[0], JoinWith(rest, [Sep]));
      assert rest[1..] == elems[2..];
      assert [rest[0]] + elems[2..] == elems[1..];
    }
  }

  /** Splitting on "/" and joining with "/" gives back the string. */
  lemma {:induction false} JoinSplit(s: string)
    ensures JoinWith(Split(s), [Sep]) == s
    decreases |s|
  {
    if |s| > 0 {
      JoinSplit(s[1..]);
      JoinSplitStep(s);
    }
  }

  /** One step of JoinSplit: the first character goes in front of the first
      piece, or is a separator in front of an empty piece. */
  lemma JoinSplitStep(s: string)
    requires |s| > 0 && JoinWith(Split(s[1..]), [Sep]) == s[1..]
    ensures JoinWith(Split(s), [Sep]) == s
  {
    if s[0] == Sep { JoinSplitSepStep(s); } else { JoinSplitCharStep(s); }
  }

  lemma JoinSplitSepStep(s: string)
    requires |s| > 0 && s[0] == Sep && JoinWith(Split(s[1..]), [Sep]) == s[1..]
    ensures JoinWith(Split(s), [Sep]) == s
  {
    var t := Split(s[1..]);
    SplitUnfold(s);
    JoinCons("", t);
    HeadTail(s);
  }

  lemma JoinSplitCharStep(s: string)
    requires |s| > 0 && s[0] != Sep && JoinWith(Split(s[1..]), [Sep]) == s[1..]
    ensures JoinWith(Split(s), [Sep]) == s
  {
    var t := Split(s[1..]);
    SplitUnfold(s);
    JoinPrepend(s[0], t[0], t[1..]);
    HeadTail(t);
    HeadTail(s);
  }

  /** The defining equation of Split on a non-empty string. */
  lemma SplitUnfold(s: string)
    requires |s| > 0
    ensures var t := Split(s[1..]);
      Split(s) == if s[0] == Sep then [""] + t else [[s[0]] + t[0]] + t[1..]
  {
  }

  lemma HeadTail<T>(t: seq<T>)
    requires |t| >= 1
    ensures [t[0]] + t[1..] == t
  {
  }

  /** Putting a character in front of the first element puts it in front of
      the joined string. */
  lemma JoinPrepend(c: char, x: string, rest: seq<string>)
    ensures JoinWith([[c] + x] + rest, [Sep]) == [c] + JoinWith([x] + rest, [Sep])
  {
    JoinCons(x, rest);
    JoinCons([c] + x, rest);
  }

  /** Joining with "/" after a first element. */
  lemma JoinCons(x: string, rest: seq<string>)
    ensures JoinWith([x] + rest, [Sep]) == if rest == [] then x else x + [Sep] + JoinWith(rest, [Sep])
  {
    if rest != [] {
      assert ([x] + rest)[1..] == rest;
    }
  }

  // ---------------------------------------------------------------------------
  // Clean paths: the inputs on which filepath.Join's Clean changes nothing
  // ---------------------------------------------------------------------------

  /** A path element that Clean keeps as it is: not empty, not "." or "..". */
  predicate IsCleanSegment(s: string)
  {
    s != "" && s != "." && s != ".." && Sep !in s
  }

  /** A path that filepath.Clean leaves unchanged and whose elements are all
      kept: clean elements, except for one empty first piece, which is the
      leading "/" of an absolute path followed by at least one element. */
  predicate IsCleanPath(p: string)
  {
    var segs := Split(p);
    (IsCleanSegment(segs[0]) || (segs[0] == "" && |segs| >= 2)) &&
    forall i :: 1 <= i < |segs| ==> IsCleanSegment(segs[i])
  }

  /** A clean element is a clean (relative) path on its own. */
  lemma CleanSegmentIsCleanPath(s: string)
    requires IsCleanSegment(s)
    ensures IsCleanPath(s) && Split(s) == [s]
  {
    SplitNoSep(s);
  }

  /** filepath.Join(elems...) on clean input: Join drops empty elements and
      Cleans the result, neither of which changes anything here, so it is the
      elements joined with "/". */
  function PathJoin(elems: seq<string>): string
    requires |elems| >= 1 && IsCleanPath(elems[0])
    requires forall i :: 1 <= i < |elems| ==> IsCleanSegment(elems[i])
  {
    JoinWith(elems, [Sep])
  }

  /** Joining clean elements gives a clean path that splits into the first
      element's pieces followed by the other elements. */
  lemma PathJoinClean(elems: seq<string>)
    requires |elems| >= 1 && IsCleanPath(elems[0])
    requires forall i :: 1 <= i < |elems| ==> IsCleanSegment(elems[i])
    ensures Split(PathJoin(elems)) == Split(elems[0]) + elems[1..]
    ensures IsCleanPath(PathJoin(elems))
  {
    assert forall i :: 1 <= i < |elems| ==> IsCleanSegment(elems[i]) ==> Sep !in elems[i];
    SplitJoin(elems);
  }

  // ---------------------------------------------------------------------------
  // filepath.Base and filepath.Ext, strings.TrimSuffix
  // ---------------------------------------------------------------------------

  /** The path with its trailing separators removed. */
  function TrimTrailingSeps(path: string): string
  {
    if path != "" && path[|path| - 1] == Sep then TrimTrailingSeps(path[..|path| - 1])
    else path
  }

  /** Trimming keeps a prefix of the path that no longer ends in a separator,
      and leaves a path without a trailing separator as it is. */
  lemma {:induction false} TrimTrailingSepsPrefix(path: string)
    ensures var r := TrimTrailingSeps(path);
      |r| <= |path| && r == path[..|r|] && (r == "" || r[|r| - 1] != Sep)
    ensures path == "" || path[|path| - 1] != Sep ==> TrimTrailingSeps(path) == path
    decreases |path|
  {
    if path != "" && path[|path| - 1] == Sep {
      TrimTrailingSepsPrefix(path[..|path| - 1]);
    }
  }

  /** The part of the path after its last separator (all of it if it has
      none). */
  function AfterLastSep(path: string): string
  {
    if path == "" then ""
    else if path[|path| - 1] == Sep then ""
    else AfterLastSep(path[..|path| - 1]) + [path[|path| - 1]]
  }

  /** The part after the last separator is a suffix without separators, and
      it is preceded by a separator unless it is the whole path. */
  lemma {:induction false} AfterLastSepSuffix(path: string)
    ensures var r := AfterLastSep(path);
      && |r| <= |path| && r == path[|path| - |r|..]
      && Sep !in r
      && (|r| < |path| ==> path[|path| - |r| - 1] == Sep)
    decreases |path|
  {
    if path != "" && path[|path| - 1] != Sep {
      var init := path[..|path| - 1];
      AfterLastSepSuffix(init);
      assert path == init + [path[|path| - 1]];
    }
  }

  /** The text after the last separator is the last piece of strings.Split. */
  lemma AfterLastSepIsLastSegment(path: string)
    ensures var segs := Split(path); AfterLastSep(path) == segs[|segs| - 1]
  {
    AfterLastSepSuffix(path);
    var r := AfterLastSep(path);
    if |r| == |path| {
      assert r == path;
      SplitNoSep(path);
    } else {
      var k := |path| - |r| - 1;
      assert path == path[..k] + [Sep] + r;
      SplitConcat(path[..k], r);
      SplitNoSep(r);
    }
  }

  /** filepath.Base: "." for the empty path, "/" for a path of separators only,
      otherwise the last element after trailing separators are removed. */
  function Base(path: string): string
  {
    if path == "" then "."
    else
      var p := TrimTrailingSeps(path);
      if p == "" then [Sep]
      else
        var last := AfterLastSep(p);
        if last == "" then [Sep] else last
  }

  /** The base name is never empty, and it holds a separator only when it is
      "/" itself. */
  lemma BaseShape(path: string)
    ensures Base(path) != ""
    ensures Sep in Base(path) ==> Base(path) == [Sep]
  {
    if path != "" {
      var p := TrimTrailingSeps(path);
      if p != "" {
        AfterLastSepSuffix(p);
      }
    }
  }

  /** When the last piece of a path is not empty (no trailing separator), the
      base name is that piece. */
  lemma BaseIsLastSegment(p: string)
    requires var segs := Split(p); segs[|segs| - 1] != ""
    ensures var segs := Split(p); Base(p) == segs[|segs| - 1]
  {
    AfterLastSepIsLastSegment(p);
    AfterLastSepSuffix(p);
    var last := AfterLastSep(p);
    assert p[|p| - 1] == last[|last| - 1];
    TrimTrailingSepsPrefix(p);
  }

  /** The base name of a clean path is its last element. */
  lemma BaseOfCleanPath(p: string)
    requires IsCleanPath(p)
    ensures var segs := Split(p); Base(p) == segs[|segs| - 1]
  {
    var segs := Split(p);
    assert IsCleanSegment(segs[|segs| - 1]);
    BaseIsLastSegment(p);
  }

  /** The base name of joined elements is the last element, when it is not
      empty and the elements after the first hold no separator. */
  lemma BaseOfJoin(elems: seq<string>)
    requires |elems| >= 2 && elems[|elems| - 1] != ""
    requires forall i :: 1 <= i < |elems| ==> Sep !in elems[i]
    ensures Base(JoinWith(elems, [Sep])) == elems[|elems| - 1]
  {
    SplitJoin(elems);
    BaseIsLastSegment(JoinWith(elems, [Sep]));
  }

  /** filepath.Ext: the suffix of the path that starts at the last '.' of its
      final element, or "" when the final element has no '.'. */
  function Ext(path: string): string
  {
    if path == "" then ""
    else
      var c := path[|path| - 1];
      if c == Sep then ""
      else if c == '.' then "."
      else
        var e := Ext(path[..|path| - 1]);
        if e == "" then "" else e + [c]
  }

  /** The extension is a suffix of the path that starts with '.' and has no
      other '.' and no separator. */
  lemma {:induction false} ExtIsSuffix(path: string)
    ensures var e := Ext(path);
      && |e| <= |path| && e == path[|path| - |e|..]
      && (e != "" ==> e[0] == '.' && forall i :: 1 <= i < |e| ==> e[i] != '.' && e[i] != Sep)
    decreases |path|
  {
    if path != "" && path[|path| - 1] != Sep && path[|path| - 1] != '.' {
      var init := path[..|path| - 1];
      ExtIsSuffix(init);
      assert path == init + [path[|path| - 1]];
    }
  }

  /** A path has no extension only when every '.' in it is followed by a
      separator, that is, when its final element has no '.'. */
  lemma {:induction false} NoExt(path: string)
    requires Ext(path) == ""
    ensures forall i :: 0 <= i < |path| && path[i] == '.' ==>
      exists j :: i < j < |path| && path[j] == Sep
    decreases |path|
  {
    if path != "" && path[|path| - 1] != Sep {
      NoExt(path[..|path| - 1]);
    }
  }

  /** strings.TrimSuffix(s, suffix): `s` without `suffix` when it ends with it,
      otherwise `s` unchanged. */
  function TrimSuffix(s: string, suffix: string): string
  {
    if |suffix| <= |s| && s[|s| - |suffix|..] == suffix then s[..|s| - |suffix|] else s
  }

  /** Trimming a suffix the string ends with leaves what comes before it;
      trimming any other suffix changes nothing. */
  lemma TrimSuffixSpec(s: string, suffix: string)
    ensures var r := TrimSuffix(s, suffix);
      if |suffix| <= |s| && s[|s| - |suffix|..] == suffix then r + suffix == s else r == s
  {
    if |suffix| <= |s| && s[|s| - |suffix|..] == suffix {
      assert s == s[..|s| - |suffix|] + s[|s| - |suffix|..];
    }
  }

  /** A name's stem followed by its extension is the name again. */
  lemma TrimExt(name: string)
    ensures TrimSuffix(name, Ext(name)) + Ext(name) == name
  {
    ExtIsSuffix(name);
    TrimSuffixSpec(name, Ext(name));
  }

  /** A path that ends in "." followed by a word without '.' or '/' has that
      word, with its dot, as its extension, whatever comes before. */
  lemma {:induction false} ExtOfDotSuffix(p: string, x: string)
    requires '.' !in x && Sep !in x
    ensures Ext(p + "." + x) == "." + x
    decreases |x|
  {
    var path := p + "." + x;
    if |x| > 0 {
      var init := x[..|x| - 1];
      assert path[..|path| - 1] == p + "." + init;
      assert '.' !in init && Sep !in init by {
        assert forall i :: 0 <= i < |init| ==> init[i] == x[i];
      }
      ExtOfDotSuffix(p, init);
      assert x == init + [x[|x| - 1]];
    }
  }
}
