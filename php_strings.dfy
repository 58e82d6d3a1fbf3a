/**
  The few PHP string built-ins the updater relies on, as functions on
  `string` (a `seq<char>`):
  - `str_replace` with one search string (ReplaceAll),
  - `explode` (Explode), with `implode` (Implode) as its inverse; the updater
    itself never calls `implode`, it is the reference definition here,
  - `basename` on a '/'-separated path (Basename).
  Each is characterised by lemmas that do not depend on how it is computed:
  `str_replace` is `implode` of `explode`, `explode` is undone by `implode`
  and never leaves a separator inside a piece, `basename` is the longest
  slash-free tail of the path.
 */
module PhpStrings {

  /** True when `pat` occurs as a contiguous run somewhere in `s`. */
  predicate Contains(s: string, pat: string)
    decreases |s|
  {
    |pat| <= |s| && (s[..|pat|] == pat || (|s| > 0 && Contains(s[1..], pat)))
  }

  /**
    PHP `explode(sep, s)`: the pieces of `s` between the occurrences of `sep`,
    found left to right without overlap. PHP raises an error for an empty
    separator, hence the requires. The first piece is always a prefix of `s`.
   */
  function Explode(sep: string, s: string): (parts: seq<string>)
    requires |sep| > 0
    ensures |parts| >= 1 && parts[0] <= s
    decreases |s|
  {
    if |s| < |sep| then [s]
    else if s[..|sep|] == sep then [[]] + Explode(sep, s[|sep|..])
    else
      var rest := Explode(sep, s[1..]);
      [[s[0]] + rest[0]] + rest[1..]
  }

  /** PHP `implode(glue, parts)`: the pieces joined with `glue` between them. */
  function Implode(glue: string, parts: seq<string>): string
    decreases |parts|
  {
    if |parts| == 0 then []
    else if |parts| == 1 then parts[0]
    else parts[0] + glue + Implode(glue, parts[1..])
  }

  /**
    PHP `str_replace(search, replace, s)` for a single search string: scans
    `s` from the left and replaces every non-overlapping occurrence of
    `search`. An empty `search` leaves `s` as it is.
   */
  function ReplaceAll(s: string, search: string, replace: string): (result: string)
    ensures !Contains(s, search) ==> result == s
    decreases |s|
  {
    if |search| == 0 || |s| < |search| then s
    else if s[..|search|] == search then replace + ReplaceAll(s[|search|..], search, replace)
    else [s[0]] + ReplaceAll(s[1..], search, replace)
  }

  /** Gluing a prefix onto the first piece glues it onto the whole result. */
  lemma ImplodePrependToFirst(glue: string, x: string, parts: seq<string>)
    requires |parts| >= 1
    ensures Implode(glue, [x + parts[0]] + parts[1..]) == x + Implode(glue, parts)
  {
    var ps := [x + parts[0]] + parts[1..];
    if |parts| > 1 {
      assert ps[1..] == parts[1..];
    }
  }

  /** `implode` undoes `explode`: joining the pieces with the separator gives `s` back. */
  lemma {:induction false} ImplodeExplode(sep: string, s: string)
    requires |sep| > 0
    ensures Implode(sep, Explode(sep, s)) == s
    decreases |s|
  {
    if |s| < |sep| {
    } else if s[..|sep|] == sep {
      var t := s[|sep|..];
      var tail := Explode(sep, t);
      var parts := [[]] + tail;
      assert Explode(sep, s) == parts;
      assert parts[1..] == tail;
      assert Implode(sep, parts) == [] + sep + Implode(sep, tail);
      ImplodeExplode(sep, t);
      assert s == sep + t;
    } else {
      var rest := Explode(sep, s[1..]);
      assert Explode(sep, s) == [[s[0]] + rest[0]] + rest[1..];
      ImplodePrependToFirst(sep, [s[0]], rest);
      ImplodeExplode(sep, s[1..]);
      assert s == [s[0]] + s[1..];
    }
  }

  /** No piece produced by `explode` contains the separator. */
  lemma {:induction false} ExplodePiecesAvoidSeparator(sep: string, s: string)
    requires |sep| > 0
    ensures forall i :: 0 <= i < |Explode(sep, s)| ==> !Contains(Explode(sep, s)[i], sep)
    decreases |s|
  {
    var parts := Explode(sep, s);
    if |s| < |sep| {
      assert !Contains(s, sep);
    } else if s[..|sep|] == sep {
      ExplodePiecesAvoidSeparator(sep, s[|sep|..]);
      assert !Contains([], sep);
      assert forall i :: 1 <= i < |parts| ==> parts[i] == Explode(sep, s[|sep|..])[i - 1];
    } else {
      var rest := Explode(sep, s[1..]);
      ExplodePiecesAvoidSeparator(sep, s[1..]);
      var first := [s[0]] + rest[0];
      assert first <= s;
      if |sep| <= |first| {
        assert first[..|sep|] == s[..|sep|];
      }
      assert !Contains(first, sep);
      assert forall i :: 1 <= i < |parts| ==> parts[i] == rest[i];
    }
  }

  /** Without an occurrence of the separator, `explode` gives the whole string back as one piece. */
  lemma {:induction false} ExplodeWithoutSeparator(sep: string, s: string)
    requires |sep| > 0 && !Contains(s, sep)
    ensures Explode(sep, s) == [s]
    decreases |s|
  {
    if |s| >= |sep| {
      ExplodeWithoutSeparator(sep, s[1..]);
      assert s == [s[0]] + s[1..];
    }
  }

  /**
    `explode` at the first occurrence of `sep`, for a separator of any
    length: when no occurrence of `sep` starts inside `w` (not even one that
    runs on into the separator that follows), the first piece of
    `w + sep + t` is `w` and the rest are the pieces of `t`.
   */
  lemma {:induction false} ExplodeAtFirstOccurrence(sep: string, w: string, t: string)
    requires |sep| > 0 && !Contains(w + sep[..|sep| - 1], sep)
    ensures Explode(sep, w + sep + t) == [w] + Explode(sep, t)
    decreases |w|
  {
    var s := w + sep + t;
    if w == [] {
      assert s[..|sep|] == sep;
      assert s[|sep|..] == t;
    } else {
      var head := w + sep[..|sep| - 1];
      assert s[..|sep|] == head[..|sep|];
      assert s[..|sep|] != sep;
      assert head[1..] == w[1..] + sep[..|sep| - 1];
      ExplodeAtFirstOccurrence(sep, w[1..], t);
      assert s[1..] == w[1..] + sep + t;
      assert [w[0]] + w[1..] == w;
    }
  }

  /** The one-character case: a first piece `w` free of `c` ends at the first `c`. */
  lemma ExplodeAtFirstSeparator(c: char, w: string, t: string)
    requires c !in w
    ensures Explode([c], w + [c] + t) == [w] + Explode([c], t)
  {
    ContainsChar(w, c);
    assert w + [c][..0] == w;
    ExplodeAtFirstOccurrence([c], w, t);
  }

  /** A string containing the one-character separator `c` explodes into at least two pieces. */
  lemma {:induction false} ExplodeSplitsAtSeparator(c: char, s: string)
    requires c in s
    ensures |Explode([c], s)| >= 2
    decreases |s|
  {
    if s[0] == c {
      assert s[..1] == [c];
    } else {
      assert s[..1] != [c];
      assert c in s[1..] by {
        var i :| 0 <= i < |s| && s[i] == c;
        assert s[1..][i - 1] == c;
      }
      ExplodeSplitsAtSeparator(c, s[1..]);
    }
  }

  /** A one-character string occurs in `s` exactly when that character does. */
  lemma {:induction false} ContainsChar(s: string, c: char)
    ensures Contains(s, [c]) <==> c in s
    decreases |s|
  {
    if |s| > 0 {
      ContainsChar(s[1..], c);
      assert s == [s[0]] + s[1..];
      assert s[..1] == [s[0]];
    }
  }

  /**
    PHP `str_replace` with one search string equals `implode(replace,
    explode(search, s))`: every occurrence found by `explode` is replaced and
    nothing else changes.
   */
  lemma {:induction false} ReplaceAllIsImplodeExplode(s: string, search: string, replace: string)
    requires |search| > 0
    ensures ReplaceAll(s, search, replace) == Implode(replace, Explode(search, s))
    decreases |s|
  {
    if |s| < |search| {
    } else if s[..|search|] == search {
      var tail := Explode(search, s[|search|..]);
      ReplaceAllIsImplodeExplode(s[|search|..], search, replace);
      assert ([[]] + tail)[1..] == tail;
    } else {
      var rest := Explode(search, s[1..]);
      ReplaceAllIsImplodeExplode(s[1..], search, replace);
      ImplodePrependToFirst(replace, [s[0]], rest);
    }
  }

  /**
    `str_replace` at the first occurrence of `search`: the text before it is
    kept, the occurrence is replaced, and the scan resumes right after it.
   */
  lemma ReplaceAllAtFirstOccurrence(w: string, search: string, t: string, replace: string)
    requires |search| > 0 && !Contains(w + search[..|search| - 1], search)
    ensures ReplaceAll(w + search + t, search, replace) == w + replace + ReplaceAll(t, search, replace)
  {
    var tail := Explode(search, t);
    ReplaceAllIsImplodeExplode(w + search + t, search, replace);
    ReplaceAllIsImplodeExplode(t, search, replace);
    ExplodeAtFirstOccurrence(search, w, t);
    assert ([w] + tail)[1..] == tail;
  }

  /** The path with every trailing '/' removed. */
  function TrimTrailingSlashes(path: string): (trimmed: string)
    ensures trimmed <= path
    ensures trimmed == [] || trimmed[|trimmed| - 1] != '/'
    ensures forall i :: |trimmed| <= i < |path| ==> path[i] == '/'
    decreases |path|
  {
    if |path| > 0 && path[|path| - 1] == '/' then TrimTrailingSlashes(path[..|path| - 1]) else path
  }

  /** The longest tail of `s` that holds no '/'. */
  function LastSegment(s: string): (segment: string)
    ensures '/' !in segment
    ensures |segment| <= |s| && s[|s| - |segment|..] == segment
    ensures |segment| < |s| ==> s[|s| - |segment| - 1] == '/'
    decreases |s|
  {
    if |s| == 0 || s[|s| - 1] == '/' then []
    else LastSegment(s[..|s| - 1]) + [s[|s| - 1]]
  }

  /** PHP `basename(path)` for '/'-separated paths: the last component, trailing slashes ignored. */
  function Basename(path: string): (name: string)
    ensures '/' !in name
    ensures |name| <= |path|
  {
    LastSegment(TrimTrailingSlashes(path))
  }

  /** The basename of `dir/name` is `name` for a nonempty, slash-free `name`. */
  lemma BasenameOfJoin(dir: string, name: string)
    requires name != [] && '/' !in name
    ensures Basename(dir + "/" + name) == name
  {
    var path := dir + "/" + name;
    var k := |dir| + 1;
    assert forall i :: k <= i < |path| ==> path[i] == name[i - k];
    assert path[k - 1] == '/';
    assert TrimTrailingSlashes(path) == path;
    var b := LastSegment(path);
    assert |b| == |name|;
    assert path[k..] == name;
  }
}
