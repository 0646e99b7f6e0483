/** The string operations the loader and the resolver apply: Python's `str.strip()`
    without arguments, `str.split(sep)`, slicing `s[0:n]`, and ASCII case folding. */
module Text {

  /** Python's whitespace for `str.isspace()` on byte strings: tab, line feed,
      vertical tab, form feed, carriage return (9 to 13) and space. */
  predicate IsSpace(c: char)
    ensures IsSpace(c) <==> c as int in {9, 10, 11, 12, 13, 32}
  {
    c == ' ' || '\t' <= c <= '\r'
  }

  ghost predicate AllSpace(s: string) {
    forall k | 0 <= k < |s| :: IsSpace(s[k])
  }

  /** No whitespace at either end. */
  ghost predicate Trimmed(s: string) {
    s == [] || (!IsSpace(s[0]) && !IsSpace(s[|s| - 1]))
  }

  /** `s.lstrip()`: the longest suffix of `s` that does not start with whitespace. */
  function StripStart(s: string): (r: string)
    ensures r == [] || !IsSpace(r[0])
  {
    if s != [] && IsSpace(s[0]) then StripStart(s[1..]) else s
  }

  /** `s.rstrip()`: the longest prefix of `s` that does not end with whitespace. */
  function StripEnd(s: string): (r: string)
    ensures r == [] || !IsSpace(r[|r| - 1])
  {
    if s != [] && IsSpace(s[|s| - 1]) then StripEnd(s[..|s| - 1]) else s
  }

  /** `lstrip` returns a suffix of its input and removes whitespace only. */
  lemma {:induction false} StripStartSuffix(s: string)
    ensures |StripStart(s)| <= |s| && StripStart(s) == s[|s| - |StripStart(s)|..]
    ensures AllSpace(s[..|s| - |StripStart(s)|])
    decreases |s|
  {
    if s != [] && IsSpace(s[0]) {
      StripStartSuffix(s[1..]);
      var n := |s| - |StripStart(s)|;
      assert s[1..][n - 1..] == s[n..];
      forall k | 0 <= k < n ensures IsSpace(s[..n][k]) {
        if k > 0 { assert s[..n][k] == s[1..][..n - 1][k - 1]; }
      }
    }
  }

  /** `rstrip` returns a prefix of its input and removes whitespace only. */
  lemma {:induction false} StripEndPrefix(s: string)
    ensures |StripEnd(s)| <= |s| && StripEnd(s) == s[..|StripEnd(s)|]
    ensures AllSpace(s[|StripEnd(s)|..])
    decreases |s|
  {
    if s != [] && IsSpace(s[|s| - 1]) {
      var t := s[..|s| - 1];
      StripEndPrefix(t);
      var n := |StripEnd(s)|;
      assert t[..n] == s[..n];
      forall k | 0 <= k < |s| - n ensures IsSpace(s[n..][k]) {
        if n + k < |s| - 1 { assert s[n..][k] == t[n..][k]; }
      }
    }
  }

  /** `s.strip()`: `s` with the whitespace at both ends removed. */
  function Strip(s: string): (r: string)
    ensures Trimmed(r)
  {
    var a := StripStart(s);
    StripEndPrefix(a);
    var r := StripEnd(a);
    assert r != [] ==> r[0] == a[0];
    r
  }

  /** What `Strip` removes is whitespace only: the result is a slice `s[i..j]`
      whose cut-off ends are all whitespace. */
  lemma StripSlice(s: string)
    ensures exists i, j | 0 <= i <= j <= |s| :: Strip(s) == s[i..j] && AllSpace(s[..i]) && AllSpace(s[j..])
  {
    var a := StripStart(s);
    var r := StripEnd(a);
    var i := |s| - |a|;
    StripStartSuffix(s);
    StripEndPrefix(a);
    assert r == s[i..i + |r|];
    assert s[i + |r|..] == a[|r|..];
  }

  /** Leading whitespace in front of a string that does not start with whitespace
      is exactly what `StripStart` removes. */
  lemma {:induction false} StripStartPadded(left: string, rest: string)
    requires AllSpace(left) && (rest == [] || !IsSpace(rest[0]))
    ensures StripStart(left + rest) == rest
    decreases |left|
  {
    if left != [] {
      assert (left + rest)[1..] == left[1..] + rest;
      StripStartPadded(left[1..], rest);
    }
  }

  /** Trailing whitespace after a string that does not end with whitespace is
      exactly what `StripEnd` removes. */
  lemma {:induction false} StripEndPadded(rest: string, right: string)
    requires AllSpace(right) && (rest == [] || !IsSpace(rest[|rest| - 1]))
    ensures StripEnd(rest + right) == rest
    decreases |right|
  {
    if right != [] {
      assert (rest + right)[..|rest + right| - 1] == rest + right[..|right| - 1];
      StripEndPadded(rest, right[..|right| - 1]);
    }
  }

  /** Whitespace padding on both sides of an already trimmed string is exactly
      what `Strip` removes. */
  lemma StripPadded(left: string, core: string, right: string)
    requires AllSpace(left) && AllSpace(right) && Trimmed(core)
    ensures Strip(left + core + right) == core
  {
    assert left + core + right == left + (core + right);
    if core == [] {
      assert core + right == right;
      StripStartPadded(left + right, []);
      assert left + right + [] == left + right;
    } else {
      StripStartPadded(left, core + right);
      StripEndPadded(core, right);
    }
  }

  /** Stripping twice is stripping once. */
  lemma StripIdempotent(s: string)
    ensures Strip(Strip(s)) == Strip(s)
  {
    StripPadded([], Strip(s), []);
    assert [] + Strip(s) + [] == Strip(s);
  }

  /** Python's `s.split(sep)`: the pieces of `s` between the occurrences of `sep`.
      There is always at least one piece, and `"".split(sep)` is `[""]`. */
  function Split(s: string, sep: char): (r: seq<string>)
    ensures |r| >= 1
    decreases |s|
  {
    if s == [] then [[]]
    else
      var rest := Split(s[1..], sep);
      if s[0] == sep then [[]] + rest else [[s[0]] + rest[0]] + rest[1..]
  }

  /** `sep.join(pieces)`. */
  function Join(pieces: seq<string>, sep: char): string
    requires |pieces| >= 1
  {
    if |pieces| == 1 then pieces[0] else pieces[0] + [sep] + Join(pieces[1..], sep)
  }

  /** Splitting loses nothing: the pieces joined back with `sep` are the input. */
  lemma {:induction false} JoinSplit(s: string, sep: char)
    ensures Join(Split(s, sep), sep) == s
    decreases |s|
  {
    if s != [] {
      JoinSplit(s[1..], sep);
      var rest := Split(s[1..], sep);
      if s[0] != sep && |rest| > 1 {
        assert Split(s, sep)[1..] == rest[1..];
      }
    }
  }

  /** No piece of a split contains the separator. */
  lemma {:induction false} SplitPiecesFree(s: string, sep: char)
    ensures forall k | 0 <= k < |Split(s, sep)| :: sep !in Split(s, sep)[k]
    decreases |s|
  {
    if s != [] {
      SplitPiecesFree(s[1..], sep);
    }
  }

  /** A piece free of the separator followed by the separator splits off as one piece. */
  lemma {:induction false} SplitCons(a: string, sep: char, b: string)
    requires sep !in a
    ensures Split(a + [sep] + b, sep) == [a] + Split(b, sep)
    decreases |a|
  {
    if a == [] {
      assert a + [sep] + b == [sep] + b;
      assert ([sep] + b)[1..] == b;
    } else {
      SplitCons(a[1..], sep, b);
      assert (a + [sep] + b)[1..] == a[1..] + [sep] + b;
      assert [a[0]] + a[1..] == a;
    }
  }

  /** A string free of the separator is a single piece. */
  lemma {:induction false} SplitNone(a: string, sep: char)
    requires sep !in a
    ensures Split(a, sep) == [a]
    decreases |a|
  {
    if a != [] {
      SplitNone(a[1..], sep);
      assert [a[0]] + a[1..] == a;
    }
  }

  /** Splitting is the inverse of joining pieces that are free of the separator. */
  lemma {:induction false} SplitJoin(pieces: seq<string>, sep: char)
    requires |pieces| >= 1
    requires forall k | 0 <= k < |pieces| :: sep !in pieces[k]
    ensures Split(Join(pieces, sep), sep) == pieces
    decreases |pieces|
  {
    if |pieces| == 1 {
      SplitNone(pieces[0], sep);
    } else {
      SplitJoin(pieces[1..], sep);
      SplitCons(pieces[0], sep, Join(pieces[1..], sep));
      assert [pieces[0]] + pieces[1..] == pieces;
    }
  }

  /** Python's slice `s[0:n]`: the first `n` characters, or all of `s` when it is shorter. */
  function Truncate(s: string, n: nat): (r: string)
    ensures |r| == if |s| < n then |s| else n
    ensures r == s[..|r|]
  {
    if |s| <= n then s else s[..n]
  }

  /** ASCII lower-casing of one character; every other character is left alone. */
  function LowerAscii(c: char): char {
    if 'A' <= c <= 'Z' then (c as int + 32) as char else c
  }

  /** Equality up to ASCII case. */
  predicate EqualIgnoringAsciiCase(a: string, b: string) {
    |a| == |b| && forall k | 0 <= k < |a| :: LowerAscii(a[k]) == LowerAscii(b[k])
  }
}
