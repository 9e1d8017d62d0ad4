/**
  String-level path handling of the shell: Python's `str.split`, `str.join`,
  `str.rstrip`/`lstrip`/`strip` on one character, the segment view of a path
  that directory lookup uses, `get_absolute_path`, and the string expression
  that `cd ..` evaluates.
*/
module Paths {

  const Slash: char := '/'

  predicate StartsWithSlash(s: string) {
    |s| > 0 && s[0] == Slash
  }

  // ---------------------------------------------------------------------
  // split and join
  // ---------------------------------------------------------------------

  /** `s.split(sep)`: n separators give n + 1 parts, none containing `sep`. */
  function Split(s: string, sep: char): (parts: seq<string>)
    ensures |parts| >= 1
    ensures forall i :: 0 <= i < |parts| ==> sep !in parts[i]
    decreases |s|
  {
    if s == [] then [""]
    else if s[0] == sep then [""] + Split(s[1..], sep)
    else
      var rest := Split(s[1..], sep);
      assert sep !in [s[0]] + rest[0];
      [[s[0]] + rest[0]] + rest[1..]
  }

  /** `sep.join(parts)`. */
  function Join(parts: seq<string>, sep: char): string
  {
    if |parts| == 0 then ""
    else if |parts| == 1 then parts[0]
    else parts[0] + [sep] + Join(parts[1..], sep)
  }

  /** Joining the parts of a split gives back the original string. */
  lemma {:induction false} JoinSplit(s: string, sep: char)
    ensures Join(Split(s, sep), sep) == s
    decreases |s|
  {
    if s == [] {
    } else if s[0] == sep {
      JoinSplit(s[1..], sep);
      assert s == [sep] + s[1..];
    } else {
      JoinSplit(s[1..], sep);
      var rest := Split(s[1..], sep);
      if |rest| == 1 {
      } else {
        assert Join(rest, sep) == rest[0] + [sep] + Join(rest[1..], sep);
        assert s == [s[0]] + s[1..];
      }
    }
  }

  /** A string without separators splits into itself alone. */
  lemma {:induction false} SplitNoSeparator(w: string, sep: char)
    requires sep !in w
    ensures Split(w, sep) == [w]
    decreases |w|
  {
    if w != [] {
      assert sep !in w[1..] by {
        forall k | 0 <= k < |w[1..]| ensures w[1..][k] != sep { assert w[1..][k] == w[k + 1]; }
      }
      SplitNoSeparator(w[1..], sep);
      assert w == [w[0]] + w[1..];
    }
  }

  /** Splitting at one separator splits each side independently. */
  lemma {:induction false} SplitConcat(a: string, b: string, sep: char)
    ensures Split(a + [sep] + b, sep) == Split(a, sep) + Split(b, sep)
    decreases |a|
  {
    var s := a + [sep] + b;
    if a == [] {
      assert s == [sep] + b;
      assert s[1..] == b;
    } else {
      assert s[0] == a[0];
      assert s[1..] == a[1..] + [sep] + b;
      SplitConcat(a[1..], b, sep);
      var ra := Split(a[1..], sep);
      var rest := Split(s[1..], sep);
      assert rest == ra + Split(b, sep);
      if a[0] == sep {
        assert Split(s, sep) == [""] + rest;
        assert Split(a, sep) == [""] + ra;
      } else {
        assert rest[0] == ra[0];
        assert rest[1..] == ra[1..] + Split(b, sep);
        assert Split(s, sep) == [[a[0]] + rest[0]] + rest[1..];
        assert Split(a, sep) == [[a[0]] + ra[0]] + ra[1..];
      }
    }
  }

  /** Splitting the join of separator-free parts gives the parts back. */
  lemma {:induction false} SplitJoin(parts: seq<string>, sep: char)
    requires |parts| >= 1
    requires forall i :: 0 <= i < |parts| ==> sep !in parts[i]
    ensures Split(Join(parts, sep), sep) == parts
    decreases |parts|
  {
    SplitNoSeparator(parts[0], sep);
    if |parts| > 1 {
      SplitJoin(parts[1..], sep);
      SplitConcat(parts[0], Join(parts[1..], sep), sep);
      assert parts == [parts[0]] + parts[1..];
    }
  }

  // ---------------------------------------------------------------------
  // stripping one character
  // ---------------------------------------------------------------------

  /** `s.rstrip(c)`: the longest prefix of `s` not ending in `c`, followed in `s` only by `c`s. */
  function RStrip(s: string, c: char): (r: string)
    ensures r <= s
    ensures r == [] || r[|r| - 1] != c
    ensures forall i :: |r| <= i < |s| ==> s[i] == c
    decreases |s|
  {
    if |s| > 0 && s[|s| - 1] == c then RStrip(s[..|s| - 1], c) else s
  }

  /** `s.lstrip(c)`: the longest suffix of `s` not starting with `c`, preceded in `s` only by `c`s. */
  function LStrip(s: string, c: char): (r: string)
    ensures |r| <= |s| && r == s[|s| - |r|..]
    ensures r == [] || r[0] != c
    ensures forall i :: 0 <= i < |s| - |r| ==> s[i] == c
    decreases |s|
  {
    if |s| > 0 && s[0] == c then LStrip(s[1..], c) else s
  }

  /** `s.strip(c)`: neither end of the result is `c`. */
  function Strip(s: string, c: char): (r: string)
    ensures |r| <= |s|
    ensures r == [] || (r[0] != c && r[|r| - 1] != c)
  {
    LStrip(RStrip(s, c), c)
  }

  // ---------------------------------------------------------------------
  // segments: the parts of a path that directory lookup walks
  // ---------------------------------------------------------------------

  /** The non-empty parts, in order (`if part:` in the lookup loop). */
  function NonEmpty(parts: seq<string>): (r: seq<string>)
    ensures |r| <= |parts|
    ensures forall i :: 0 <= i < |r| ==> r[i] != ""
  {
    if parts == [] then []
    else if parts[0] == "" then NonEmpty(parts[1..])
    else [parts[0]] + NonEmpty(parts[1..])
  }

  lemma {:induction false} NonEmptyConcat(a: seq<string>, b: seq<string>)
    ensures NonEmpty(a + b) == NonEmpty(a) + NonEmpty(b)
    decreases |a|
  {
    if a == [] {
      assert a + b == b;
    } else {
      assert (a + b)[0] == a[0];
      assert (a + b)[1..] == a[1..] + b;
      NonEmptyConcat(a[1..], b);
      if a[0] == "" {
        assert NonEmpty(a + b) == NonEmpty(a[1..] + b);
      } else {
        assert NonEmpty(a + b) == [a[0]] + NonEmpty(a[1..] + b);
      }
    }
  }

  /** Parts without empty ones are kept as they are. */
  lemma {:induction false} NonEmptyKeeps(parts: seq<string>)
    requires "" !in parts
    ensures NonEmpty(parts) == parts
    decreases |parts|
  {
    if parts != [] {
      assert parts[0] in parts;
      assert "" !in parts[1..] by {
        forall k | 0 <= k < |parts[1..]| ensures parts[1..][k] != "" { assert parts[1..][k] == parts[k + 1]; }
      }
      NonEmptyKeeps(parts[1..]);
    }
  }

  /** The names a path denotes once empty parts (from `//`, a leading or a trailing `/`) are dropped. */
  function Segments(path: string): seq<string>
  {
    NonEmpty(Split(path, Slash))
  }

  /** A `/` between two paths just concatenates their segments. */
  lemma SegmentsConcat(a: string, b: string)
    ensures Segments(a + "/" + b) == Segments(a) + Segments(b)
  {
    assert a + "/" + b == a + [Slash] + b;
    SplitConcat(a, b, Slash);
    NonEmptyConcat(Split(a, Slash), Split(b, Slash));
  }

  /** Extra leading or trailing slashes do not change the segments. */
  lemma SegmentsIgnoreOuterSlashes(s: string)
    ensures Segments("/" + s) == Segments(s)
    ensures Segments(s + "/") == Segments(s)
  {
    SegmentsConcat("", s);
    assert "" + "/" + s == "/" + s;
    SegmentsConcat(s, "");
    assert s + "/" + "" == s + "/";
  }

  lemma {:induction false} RStripSegments(s: string)
    ensures Segments(RStrip(s, Slash)) == Segments(s)
    decreases |s|
  {
    if |s| > 0 && s[|s| - 1] == Slash {
      var t := s[..|s| - 1];
      RStripSegments(t);
      assert s == t + "/";
      SegmentsIgnoreOuterSlashes(t);
    }
  }

  lemma {:induction false} LStripSegments(s: string)
    ensures Segments(LStrip(s, Slash)) == Segments(s)
    decreases |s|
  {
    if |s| > 0 && s[0] == Slash {
      var t := s[1..];
      assert s == "/" + t;
      LStripSegments(t);
      SegmentsIgnoreOuterSlashes(t);
      calc {
        Segments(LStrip(s, Slash));
        { assert LStrip(s, Slash) == LStrip(t, Slash); }
        Segments(LStrip(t, Slash));
        Segments(t);
        Segments("/" + t);
      }
    }
  }

  /** Stripping slashes first (as lookup and `rm` do) keeps the segments. */
  lemma StripSegments(s: string)
    ensures Segments(Strip(s, Slash)) == Segments(s)
  {
    RStripSegments(s);
    LStripSegments(RStrip(s, Slash));
  }

  /** `path.strip('/').split('/')`: the parts that lookup and `rm` go through. */
  function StrippedParts(path: string): (parts: seq<string>)
    ensures |parts| >= 1
  {
    Split(Strip(path, Slash), Slash)
  }

  /** The non-empty stripped parts are the segments of the path. */
  lemma StrippedPartsSegments(path: string)
    ensures NonEmpty(StrippedParts(path)) == Segments(path)
  {
    StripSegments(path);
  }

  /** A path has no segments exactly when it consists of slashes only: `"/"`, `""`, `"///"`. */
  lemma {:induction false} NoSegmentsIffSlashes(s: string)
    ensures Segments(s) == [] <==> forall i :: 0 <= i < |s| ==> s[i] == Slash
    decreases |s|
  {
    if s != [] {
      var t := s[1..];
      assert s == [s[0]] + t;
      NoSegmentsIffSlashes(t);
      if s[0] == Slash {
        assert s == "/" + t;
        SegmentsIgnoreOuterSlashes(t);
        assert (forall i :: 0 <= i < |s| ==> s[i] == Slash) <==> (forall i :: 0 <= i < |t| ==> t[i] == Slash) by {
          forall i | 0 <= i < |t| ensures t[i] == s[i + 1] { }
        }
      } else {
        var rest := Split(t, Slash);
        assert Split(s, Slash)[0] == [s[0]] + rest[0];
        assert Segments(s)[0] == [s[0]] + rest[0];
      }
    }
  }

  /** Stripping a string of slashes only leaves nothing. */
  lemma {:induction false} RStripSlashesOnly(s: string)
    requires forall i :: 0 <= i < |s| ==> s[i] == Slash
    ensures RStrip(s, Slash) == ""
  {
  }

  /** The last part of a split is empty only for the empty string or a trailing separator. */
  lemma {:induction false} SplitLastPart(s: string, sep: char)
    requires s != [] && s[|s| - 1] != sep
    ensures Split(s, sep)[|Split(s, sep)| - 1] != ""
    decreases |s|
  {
    if s[0] == sep {
      SplitLastPart(s[1..], sep);
    } else if |s| > 1 {
      SplitLastPart(s[1..], sep);
    }
  }

  // ---------------------------------------------------------------------
  // get_absolute_path and `cd ..`
  // ---------------------------------------------------------------------

  /**
    `get_absolute_path`: an input starting with `/` is returned unchanged;
    otherwise `cwd.rstrip('/')`, a `/` and the input. Nothing is normalised.
  */
  function AbsolutePath(cwd: string, path: string): (r: string)
    ensures StartsWithSlash(path) ==> r == path
    ensures !StartsWithSlash(path) && cwd == "/" ==> r == "/" + path
    ensures StartsWithSlash(cwd) ==> StartsWithSlash(r)
  {
    if StartsWithSlash(path) then path
    else RStrip(cwd, Slash) + "/" + path  // '/'.join of a two-element list
  }

  /** A relative path resolves to the segments of `cwd` followed by its own. */
  lemma AbsolutePathSegments(cwd: string, path: string)
    ensures Segments(AbsolutePath(cwd, path))
         == if StartsWithSlash(path) then Segments(path) else Segments(cwd) + Segments(path)
  {
    if !StartsWithSlash(path) {
      assert AbsolutePath(cwd, path) == RStrip(cwd, Slash) + "/" + path;
      SegmentsConcat(RStrip(cwd, Slash), path);
      RStripSegments(cwd);
    }
  }

  /**
    The new `cwd` of `cd ..`: drop the last `/`-separated part of
    `cwd.rstrip('/')` and fall back to `/` when nothing is left.
  */
  function Parent(cwd: string): (r: string)
    ensures r != ""
  {
    var parts := Split(RStrip(cwd, Slash), Slash);
    var up := Join(parts[..|parts| - 1], Slash);
    if up == "" then "/" else up
  }

  function DropLast(s: seq<string>): seq<string>
  {
    if s == [] then [] else s[..|s| - 1]
  }

  /** `cd ..` removes exactly the last segment of the working directory. */
  lemma ParentSegments(cwd: string)
    ensures Segments(Parent(cwd)) == DropLast(Segments(cwd))
  {
    var r0 := RStrip(cwd, Slash);
    var parts := Split(r0, Slash);
    var k := |parts|;
    var q := parts[..k - 1];
    var up := Join(q, Slash);
    RStripSegments(cwd);
    assert Segments("/") == [] by { SegmentsIgnoreOuterSlashes(""); }
    assert Segments("") == [];
    assert parts == q + [parts[k - 1]];
    NonEmptyConcat(q, [parts[k - 1]]);
    if r0 == [] {
      assert parts == [""];
    } else {
      SplitLastPart(r0, Slash);
      assert NonEmpty([parts[k - 1]]) == [parts[k - 1]];
      assert Segments(cwd) == NonEmpty(q) + [parts[k - 1]];
      if q == [] {
      } else {
        SplitJoin(q, Slash);
        assert Segments(up) == NonEmpty(q);
      }
    }
  }

  /** `cd ..` keeps an absolute working directory absolute. */
  lemma ParentStartsWithSlash(cwd: string)
    requires StartsWithSlash(cwd)
    ensures StartsWithSlash(Parent(cwd))
  {
    var r0 := RStrip(cwd, Slash);
    var parts := Split(r0, Slash);
    var q := parts[..|parts| - 1];
    if r0 != [] && |q| >= 2 {
      assert r0[0] == Slash;
      assert parts[0] == "";
      assert Join(q, Slash) == q[0] + [Slash] + Join(q[1..], Slash);
    }
  }

  /** The `cwd` after one `cd ..`: the shell leaves `/` as it is and otherwise takes the parent. */
  function CdUp(cwd: string): string
  {
    if cwd == "/" then cwd else Parent(cwd)
  }

  /** The `cwd` after `n` successive `cd ..` commands. */
  function CdUpTimes(cwd: string, n: nat): string
    decreases n
  {
    if n == 0 then cwd else CdUpTimes(CdUp(cwd), n - 1)
  }

  /**
    Repeated `cd ..` reaches `/` after at most one step more than the number
    of segments of `cwd`, and stays there. The extra step is needed because
    leading slashes survive `cd ..`: `//` has no segments but is not `/`, and
    `///a`, with one segment, first goes to `//`.
  */
  lemma {:induction false} CdUpReachesRoot(cwd: string, n: nat)
    requires n > |Segments(cwd)|
    ensures CdUpTimes(cwd, n) == "/"
    decreases n
  {
    if cwd == "/" {
      if n > 1 { CdUpStaysAtRoot(n - 1); }
    } else if Segments(cwd) == [] {
      NoSegmentsIffSlashes(cwd);
      RStripSlashesOnly(cwd);
      assert Parent(cwd) == "/";
      CdUpStaysAtRoot(n - 1);
    } else {
      ParentSegments(cwd);
      CdUpReachesRoot(Parent(cwd), n - 1);
    }
  }

  /** Once at `/`, further `cd ..` commands stay at `/`. */
  lemma {:induction false} CdUpStaysAtRoot(n: nat)
    ensures CdUpTimes("/", n) == "/"
  {
    if n > 0 { CdUpStaysAtRoot(n - 1); }
  }
}
