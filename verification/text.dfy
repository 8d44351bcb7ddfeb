/**
 The handful of Python string operations the workspace shim relies on:
 `str.strip()`, `str.lower()`, `str.startswith` and `str.split(sep, 1)`,
 stated over `string == seq<char>`.
 */
module Text {
  import opened Options

  /** The code points Python's `str.isspace` accepts, which are exactly the
      characters `str.strip()` removes when called without arguments. */
  predicate IsSpace(c: char) {
    || ('\t' <= c <= '\r')
    || ('\U{1C}' <= c <= '\U{1F}')
    || c == ' '
    || c == '\U{85}'
    || c == '\U{A0}'
    || c == '\U{1680}'
    || ('\U{2000}' <= c <= '\U{200A}')
    || c == '\U{2028}'
    || c == '\U{2029}'
    || c == '\U{202F}'
    || c == '\U{205F}'
    || c == '\U{3000}'
  }

  predicate AllSpace(s: string) {
    forall i :: 0 <= i < |s| ==> IsSpace(s[i])
  }

  /** Neither the first nor the last character of `w` is whitespace. */
  predicate NoOuterSpace(w: string) {
    w == [] || (!IsSpace(w[0]) && !IsSpace(w[|w| - 1]))
  }

  /** `s` is `w` with (possibly empty) runs of whitespace on both sides. */
  predicate PaddedBy(s: string, w: string) {
    exists i :: 0 <= i <= |s| - |w| && AllSpace(s[..i]) && s[i..i + |w|] == w && AllSpace(s[i + |w|..])
  }

  lemma AllSpaceConcat(a: string, b: string)
    requires AllSpace(a) && AllSpace(b)
    ensures AllSpace(a + b)
  {
  }

  /** `str.lstrip()`: drop the leading whitespace. */
  function TrimStart(s: string): (r: string)
    ensures |r| <= |s| && r == s[|s| - |r|..]
    ensures AllSpace(s[..|s| - |r|])
    ensures r == [] || !IsSpace(r[0])
  {
    if s != [] && IsSpace(s[0]) then
      var r := TrimStart(s[1..]);
      assert s[..|s| - |r|] == [s[0]] + s[1..][..|s| - 1 - |r|];
      AllSpaceConcat([s[0]], s[1..][..|s| - 1 - |r|]);
      r
    else s
  }

  /** `str.rstrip()`: drop the trailing whitespace. */
  function TrimEnd(s: string): (r: string)
    ensures |r| <= |s| && r == s[..|r|]
    ensures AllSpace(s[|r|..])
    ensures r == [] || !IsSpace(r[|r| - 1])
  {
    if s != [] && IsSpace(s[|s| - 1]) then
      var r := TrimEnd(s[..|s| - 1]);
      assert s[|r|..] == s[..|s| - 1][|r|..] + [s[|s| - 1]];
      AllSpaceConcat(s[..|s| - 1][|r|..], [s[|s| - 1]]);
      r
    else s
  }

  /** `str.strip()`: the result is `s` without its surrounding whitespace.
      Together with `StripUnique` this pins the result down completely. */
  function Strip(s: string): (r: string)
    ensures NoOuterSpace(r)
    ensures PaddedBy(s, r)
  {
    TrimBoth(s);
    TrimEnd(TrimStart(s))
  }

  lemma TrimBoth(s: string)
    ensures NoOuterSpace(TrimEnd(TrimStart(s)))
    ensures PaddedBy(s, TrimEnd(TrimStart(s)))
  {
    var t := TrimStart(s);
    var r := TrimEnd(t);
    var i := |s| - |t|;
    assert r != [] ==> r[0] == t[0];
    assert s[i..i + |r|] == r;
    assert s[i + |r|..] == t[|r|..];
    PaddedByWitness(s, r, i);
  }

  lemma PaddedByWitness(s: string, w: string, i: nat)
    requires i + |w| <= |s| && AllSpace(s[..i]) && s[i..i + |w|] == w && AllSpace(s[i + |w|..])
    ensures PaddedBy(s, w)
  {
  }

  lemma {:induction false} TrimStartOfPadded(a: string, w: string)
    requires AllSpace(a)
    requires w == [] || !IsSpace(w[0])
    ensures TrimStart(a + w) == w
  {
    if a == [] {
      assert a + w == w;
    } else {
      assert (a + w)[1..] == a[1..] + w;
      TrimStartOfPadded(a[1..], w);
    }
  }

  lemma {:induction false} TrimEndOfPadded(w: string, b: string)
    requires AllSpace(b)
    requires w == [] || !IsSpace(w[|w| - 1])
    ensures TrimEnd(w + b) == w
  {
    if b == [] {
      assert w + b == w;
    } else {
      assert (w + b)[..|w + b| - 1] == w + b[..|b| - 1];
      TrimEndOfPadded(w, b[..|b| - 1]);
    }
  }

  /** Stripping whitespace, then `w`, then whitespace gives back `w` when
      `w` has no outer whitespace of its own. */
  lemma StripOfParts(a: string, w: string, b: string)
    requires AllSpace(a) && AllSpace(b) && NoOuterSpace(w)
    ensures Strip(a + w + b) == w
  {
    if w == [] {
      assert a + w + b == a + b + [];
      AllSpaceConcat(a, b);
      TrimStartOfPadded(a + b, []);
    } else {
      assert a + w + b == a + (w + b);
      assert (w + b)[0] == w[0];
      TrimStartOfPadded(a, w + b);
      TrimEndOfPadded(w, b);
    }
  }

  /** Any way of writing `s` as whitespace, then `w`, then whitespace, where
      `w` itself has no outer whitespace, recovers exactly `Strip(s)`. */
  lemma StripUnique(s: string, w: string)
    requires PaddedBy(s, w) && NoOuterSpace(w)
    ensures Strip(s) == w
  {
    var i :| 0 <= i <= |s| - |w| && AllSpace(s[..i]) && s[i..i + |w|] == w && AllSpace(s[i + |w|..]);
    assert s == s[..i] + w + s[i + |w|..];
    StripOfParts(s[..i], w, s[i + |w|..]);
  }

  /** Stripping twice is stripping once. */
  lemma StripIdempotent(s: string)
    ensures Strip(Strip(s)) == Strip(s)
  {
    var w := Strip(s);
    assert w[0..|w|] == w && AllSpace(w[..0]) && AllSpace(w[|w|..]);
    StripUnique(w, w);
  }

  /** ASCII lower-casing of one character; other characters are unchanged. */
  function LowerChar(c: char): char {
    if 'A' <= c <= 'Z' then (c as int - 'A' as int + 'a' as int) as char else c
  }

  function UpperChar(c: char): char {
    if 'a' <= c <= 'z' then (c as int - 'a' as int + 'A' as int) as char else c
  }

  /** `str.lower()`, restricted to ASCII letters. */
  function Lower(s: string): (r: string)
    ensures |r| == |s|
    ensures forall i :: 0 <= i < |s| ==> r[i] == LowerChar(s[i])
  {
    if s == [] then [] else [LowerChar(s[0])] + Lower(s[1..])
  }

  /** A word made of lower-case ASCII letters only. */
  predicate IsLowerWord(w: string) {
    forall i :: 0 <= i < |w| ==> 'a' <= w[i] <= 'z'
  }

  /** `x` spells `w` with any of its letters capitalised. */
  predicate CaseVariant(x: string, w: string) {
    |x| == |w| && forall i :: 0 <= i < |x| ==> x[i] == w[i] || x[i] == UpperChar(w[i])
  }

  lemma LowerCharIs(c: char, l: char)
    requires 'a' <= l <= 'z'
    ensures LowerChar(c) == l <==> c == l || c == UpperChar(l)
  {
  }

  /** Lower-casing gives the lower-case word `w` exactly for the spellings of
      `w` in mixed case. */
  lemma LowerIsIff(x: string, w: string)
    requires IsLowerWord(w)
    ensures Lower(x) == w <==> CaseVariant(x, w)
  {
    if Lower(x) == w {
      forall i | 0 <= i < |x|
        ensures x[i] == w[i] || x[i] == UpperChar(w[i])
      {
        LowerCharIs(x[i], w[i]);
      }
    }
    if CaseVariant(x, w) {
      forall i | 0 <= i < |x|
        ensures Lower(x)[i] == w[i]
      {
        LowerCharIs(x[i], w[i]);
      }
    }
  }

  predicate StartsWith(s: string, prefix: string) {
    |prefix| <= |s| && s[..|prefix|] == prefix
  }

  /** `s.split(c, 1)[1]`: the text after the first occurrence of `c`.
      The result is the suffix that follows a `c` with no `c` before it. */
  function AfterFirst(s: string, c: char): (r: string)
    requires c in s
    ensures |r| < |s|
    ensures s[|s| - |r| - 1] == c && c !in s[..|s| - |r| - 1]
    ensures r == s[|s| - |r|..]
  {
    if s[0] == c then s[1..] else AfterFirst(s[1..], c)
  }

  /** When `s` begins with `prefix`, whose only `c` is its last character,
      the text after the first `c` is the text after the prefix. */
  lemma AfterFirstOfPrefix(s: string, prefix: string, c: char)
    requires StartsWith(s, prefix) && prefix != []
    requires prefix[|prefix| - 1] == c && c !in prefix[..|prefix| - 1]
    ensures c in s
    ensures AfterFirst(s, c) == s[|prefix|..]
  {
    assert s[|prefix| - 1] == c;
    var r := AfterFirst(s, c);
    var p := |s| - |r| - 1;
    assert s[..|prefix| - 1] == prefix[..|prefix| - 1];
    assert forall k :: 0 <= k < p ==> s[..p][k] == s[k];
  }

  /** Joining a POSIX directory and a name, as `Path(dir) / name` does for a
      directory already in pathlib's normal form: non-empty, without a
      trailing or repeated `/`, and without `.` components. */
  function Join(dir: string, name: string): string {
    dir + "/" + name
  }

  /** Splits a path at its last `/` into the directory part (absent when
      there is no `/`) and the final component, which never contains `/`. */
  function SplitLast(path: string): (r: (Option<string>, string))
    ensures '/' !in r.1
    ensures r.0.None? ==> r.1 == path
    ensures r.0.Some? ==> path == Join(r.0.value, r.1)
  {
    if path == [] then (None, path)
    else if path[|path| - 1] == '/' then (Some(path[..|path| - 1]), [])
    else
      var (dir, last) := SplitLast(path[..|path| - 1]);
      (dir, last + [path[|path| - 1]])
  }

  /** A path without `/` is a bare name with no directory part. */
  lemma {:induction false} SplitLastNoSlash(path: string)
    requires '/' !in path
    ensures SplitLast(path) == (None, path)
  {
    if path != [] {
      var init := path[..|path| - 1];
      assert forall k :: 0 <= k < |init| ==> init[k] == path[k];
      SplitLastNoSlash(init);
      assert init + [path[|path| - 1]] == path;
    }
  }

  /** Splitting a joined path at its last `/` gives back the directory and
      the name, provided the name holds no `/`. */
  lemma {:induction false} SplitLastJoin(dir: string, name: string)
    requires '/' !in name
    ensures SplitLast(Join(dir, name)) == (Some(dir), name)
  {
    var p := Join(dir, name);
    if name == [] {
      assert p[..|p| - 1] == dir;
    } else {
      var init := name[..|name| - 1];
      assert p[..|p| - 1] == Join(dir, init);
      assert forall k :: 0 <= k < |init| ==> init[k] == name[k];
      SplitLastJoin(dir, init);
      assert init + [name[|name| - 1]] == name;
    }
  }
}
