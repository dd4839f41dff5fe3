/** Identifier cleaning: `clean_func_name` in build_triples.py.
    A qualified name such as `com.foo.Bar.baz_` is split at `.`, the last
    segment is kept, and leading and trailing underscores are stripped.
    The letters are left as they are: nothing is lower-cased. */
module FuncNames {

  /** Every element of `s` from position `lo` up to (not including) `hi`
      is `c`. */
  predicate RunOf(s: string, lo: nat, hi: nat, c: char)
    requires lo <= hi <= |s|
  {
    forall i :: lo <= i < hi ==> s[i] == c
  }

  /** Python's `str.split(sep)`: the maximal runs between separators, in
      order; the empty string splits into one empty segment. */
  function Split(s: string, sep: char): (parts: seq<string>)
    ensures |parts| >= 1
    ensures forall k :: 0 <= k < |parts| ==> sep !in parts[k]
    ensures Join(parts, sep) == s
  {
    if s == [] then [[]]
    else
      var rest := Split(s[1..], sep);
      if s[0] == sep then [[]] + rest
      else
        JoinHeadCons(s[0], rest, sep);
        [[s[0]] + rest[0]] + rest[1..]
  }

  /** Python's `sep.join(parts)`: the segments with one separator between
      neighbours; no segments join to the empty string. */
  function Join(parts: seq<string>, sep: char): string {
    if parts == [] then []
    else if |parts| == 1 then parts[0]
    else parts[0] + [sep] + Join(parts[1..], sep)
  }

  /** Extending the first segment extends the joined string at the front. */
  lemma JoinHeadCons(c: char, parts: seq<string>, sep: char)
    requires |parts| >= 1
    ensures Join([[c] + parts[0]] + parts[1..], sep) == [c] + Join(parts, sep)
  {
    var p := [[c] + parts[0]] + parts[1..];
    assert p[1..] == parts[1..];
  }

  /** The other round trip: joining segments that hold no separator and
      splitting again gives the segments back. */
  lemma {:induction false} SplitJoin(parts: seq<string>, sep: char)
    requires |parts| >= 1
    requires forall k :: 0 <= k < |parts| ==> sep !in parts[k]
    ensures Split(Join(parts, sep), sep) == parts
  {
    if |parts| == 1 {
      SplitNoSeparator(parts[0], sep);
    } else {
      var tail := Join(parts[1..], sep);
      SplitJoin(parts[1..], sep);
      SplitPrefix(parts[0], tail, sep);
      assert Join(parts, sep) == parts[0] + ([sep] + tail);
      assert [parts[0]] + parts[1..] == parts;
    }
  }

  /** A string without a separator is a single segment. */
  lemma {:induction false} SplitNoSeparator(s: string, sep: char)
    requires sep !in s
    ensures Split(s, sep) == [s]
  {
    if s != [] {
      assert sep !in s[1..] by {
        forall i | 0 <= i < |s[1..]| ensures s[1..][i] != sep {
          assert s[1..][i] == s[i + 1];
        }
      }
      SplitNoSeparator(s[1..], sep);
      assert [s[0]] + s[1..] == s;
    }
  }

  /** Splitting `w + [sep] + t`, where `w` holds no separator, puts `w` in
      front of the segments of `t`. */
  lemma {:induction false} SplitPrefix(w: string, t: string, sep: char)
    requires sep !in w
    ensures Split(w + ([sep] + t), sep) == [w] + Split(t, sep)
  {
    var s := w + ([sep] + t);
    if w == [] {
      assert s == [sep] + t;
      assert s[1..] == t;
    } else {
      assert sep !in w[1..] by {
        forall i | 0 <= i < |w[1..]| ensures w[1..][i] != sep {
          assert w[1..][i] == w[i + 1];
        }
      }
      SplitPrefix(w[1..], t, sep);
      assert s[1..] == w[1..] + ([sep] + t);
      assert [w[0]] + w[1..] == w;
    }
  }

  /** `s.split(sep)[-1]`: the text after the last separator. */
  function LastSegment(s: string, sep: char): (r: string)
    ensures sep !in r
    ensures |r| <= |s| && r == s[|s| - |r|..]
    ensures |r| < |s| ==> s[|s| - |r| - 1] == sep
  {
    var parts := Split(s, sep);
    LastSegmentIsSuffix(parts, sep);
    parts[|parts| - 1]
  }

  /** The last of the joined segments is a suffix of the joined string,
      preceded by a separator when it is not all of it. */
  lemma {:induction false} LastSegmentIsSuffix(parts: seq<string>, sep: char)
    requires |parts| >= 1
    ensures var s, r := Join(parts, sep), parts[|parts| - 1];
      |r| <= |s| && r == s[|s| - |r|..] && (|r| < |s| ==> s[|s| - |r| - 1] == sep)
  {
    if |parts| > 1 {
      LastSegmentIsSuffix(parts[1..], sep);
      var t := Join(parts[1..], sep);
      var r := parts[|parts| - 1];
      assert r == parts[1..][|parts[1..]| - 1];
      var s := parts[0] + [sep] + t;
      assert s[|s| - |t|..] == t;
      assert s[|s| - |r|..] == t[|t| - |r|..];
      if |r| == |t| {
        assert s[|s| - |r| - 1] == sep;
      } else {
        assert s[|s| - |r| - 1] == t[|t| - |r| - 1];
      }
    }
  }

  /** The end of the run of `c` that starts at `i`. */
  function RunEnd(s: string, c: char, i: nat): (n: nat)
    requires i <= |s|
    ensures i <= n <= |s| && RunOf(s, i, n, c) && (n == |s| || s[n] != c)
    decreases |s| - i
  {
    if i < |s| && s[i] == c then RunEnd(s, c, i + 1) else i
  }

  /** The start of the run of `c` that ends at `j`, going no lower than
      `lo`. */
  function RunStart(s: string, c: char, lo: nat, j: nat): (n: nat)
    requires lo <= j <= |s|
    ensures lo <= n <= j && RunOf(s, n, j, c) && (n == lo || s[n - 1] != c)
    decreases j
  {
    if lo < j && s[j - 1] == c then RunStart(s, c, lo, j - 1) else j
  }

  /** `s[a..b]` is what is left once every leading and every trailing `c`
      is gone: only `c` lies outside it, and it neither starts nor ends
      with `c`. */
  predicate StripsTo(s: string, c: char, a: nat, b: nat) {
    && a <= b <= |s| && RunOf(s, 0, a, c) && RunOf(s, b, |s|, c)
    && (a < b ==> s[a] != c && s[b - 1] != c)
  }

  /** Python's `s.strip(c)`. */
  function Strip(s: string, c: char): (r: string)
    ensures |r| <= |s|
    ensures r == [] || (r[0] != c && r[|r| - 1] != c)
  {
    var a := RunEnd(s, c, 0);
    s[a..RunStart(s, c, a, |s|)]
  }

  /** `Strip` removes exactly the leading and trailing runs of `c`: it is
      the slice `StripsTo` describes, and there is such a slice. */
  lemma StripSpec(s: string, c: char)
    ensures exists a: nat, b: nat :: StripsTo(s, c, a, b) && Strip(s, c) == s[a..b]
  {
    var a := RunEnd(s, c, 0);
    var b := RunStart(s, c, a, |s|);
    assert RunOf(s, b, |s|, c);
    assert StripsTo(s, c, a, b);
  }

  /** Any slice `StripsTo` describes is the result of `Strip`. */
  lemma StripCharacterised(s: string, c: char, a: nat, b: nat)
    requires StripsTo(s, c, a, b)
    ensures Strip(s, c) == s[a..b]
  {
    var a' := RunEnd(s, c, 0);
    var b' := RunStart(s, c, a', |s|);
    if a < b {
      assert a' == a by {
        assert RunOf(s, 0, a', c) && s[a] != c;
      }
      assert b' == b by {
        assert RunOf(s, b', |s|, c) && s[b - 1] != c;
      }
    } else {
      assert RunOf(s, 0, |s|, c) by {
        forall i | 0 <= i < |s| ensures s[i] == c {
          if i >= a { assert i >= b; }
        }
      }
      assert a' == |s|;
    }
  }

  /** Stripping adds no character: one absent from `s` is absent from the
      result. */
  lemma StripKeepsAbsent(s: string, c: char, x: char)
    requires x !in s
    ensures x !in Strip(s, c)
  {
    var r, a := Strip(s, c), RunEnd(s, c, 0);
    forall i | 0 <= i < |r| ensures r[i] != x {
      assert r[i] == s[a + i];
    }
  }

  /** A string that neither starts nor ends with `c` is left alone. */
  lemma StripStripped(s: string, c: char)
    requires s == [] || (s[0] != c && s[|s| - 1] != c)
    ensures Strip(s, c) == s
  {
    StripCharacterised(s, c, 0, |s|);
  }

  /** `clean_func_name`: the last `.`-separated segment without its leading
      and trailing underscores. */
  function CleanFuncName(name: string): (r: string)
    ensures '.' !in r
    ensures r == [] || (r[0] != '_' && r[|r| - 1] != '_')
  {
    var last := LastSegment(name, '.');
    StripKeepsAbsent(last, '_', '.');
    Strip(last, '_')
  }

  /** `name[a..b]` is what stripping underscores leaves of the segment
      `name[off..]`: that segment starts just after a `.` (or at 0) and
      holds none, only underscores lie between `off` and `a`, and only
      underscores follow `b`. */
  predicate IsCleanedSlice(name: string, off: nat, a: nat, b: nat) {
    off <= a <= b <= |name|
    && (off == 0 || name[off - 1] == '.') && '.' !in name[off..]
    && RunOf(name, off, a, '_') && RunOf(name, b, |name|, '_')
  }

  /** The cleaned name is a contiguous slice of the qualified name, so
      interior underscores and the case of every letter are kept. */
  lemma CleanFuncNameIsSlice(name: string)
    ensures exists off: nat, a: nat, b: nat :: IsCleanedSlice(name, off, a, b) && CleanFuncName(name) == name[a..b]
  {
    var last := LastSegment(name, '.');
    var off := |name| - |last|;
    var a0 := RunEnd(last, '_', 0);
    var b0 := RunStart(last, '_', a0, |last|);
    assert name[off..] == last;
    var a, b := off + a0, off + b0;
    RunShift(name, off, last, 0, a0, '_');
    RunShift(name, off, last, b0, |last|, '_');
    assert CleanFuncName(name) == name[a..b] by {
      assert last[a0..b0] == name[a..b];
    }
    assert IsCleanedSlice(name, off, a, b);
  }

  /** A run inside a suffix of `name` is a run of `name`, shifted. */
  lemma RunShift(name: string, off: nat, last: string, lo: nat, hi: nat, c: char)
    requires off <= |name| && name[off..] == last && lo <= hi <= |last|
    requires RunOf(last, lo, hi, c)
    ensures RunOf(name, off + lo, off + hi, c)
  {
    forall i | off + lo <= i < off + hi ensures name[i] == c {
      assert name[i] == last[i - off];
    }
  }

  /** Cleaning a clean name changes nothing. */
  lemma CleanFuncNameIdempotent(name: string)
    ensures CleanFuncName(CleanFuncName(name)) == CleanFuncName(name)
  {
    var r := CleanFuncName(name);
    SplitNoSeparator(r, '.');
    assert LastSegment(r, '.') == r;
    StripStripped(r, '_');
  }

  /** Worked example: the package path and the trailing underscore go. */
  lemma CleanQualifiedExample()
    ensures CleanFuncName("foo.Bar.baz_") == "baz"
  {
    var parts := ["foo", "Bar", "baz_"];
    assert Join(parts, '.') == "foo.Bar.baz_";
    SplitJoin(parts, '.');
    StripCharacterised("baz_", '_', 0, 3);
  }

  /** Worked example: underscores go from both ends. */
  lemma CleanUnderscoredExample()
    ensures CleanFuncName("_x_") == "x"
  {
    SplitNoSeparator("_x_", '.');
    StripCharacterised("_x_", '_', 1, 2);
  }

  /** Worked example: interior underscores and upper-case letters stay. */
  lemma CleanKeepsCaseExample()
    ensures CleanFuncName("Io.Get_Id_") == "Get_Id"
  {
    var parts := ["Io", "Get_Id_"];
    assert Join(parts, '.') == "Io.Get_Id_";
    SplitJoin(parts, '.');
    StripCharacterised("Get_Id_", '_', 0, 6);
  }
}
