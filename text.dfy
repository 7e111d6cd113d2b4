/** The parts of Python's `str` that the URL resolver relies on: the
    whitespace test behind `strip()` and `split()`, `strip()` itself,
    `lstrip(c)` for a single character `c`, `split()` without arguments and
    `replace(a, b)` for single characters. Strings are sequences of Unicode
    scalar values, as Python's `str` is for everything the user can type.
    The scans work on indices, the way CPython's own implementation does. */
module Text {

  /** Python's `str.isspace` for one character: the characters of Unicode
      category Zs or bidirectional class WS, B or S. This is the finite set
      both `strip()` and `split()` use. */
  predicate IsSpace(c: char)
  {
    var n := c as int;
    || 0x09 <= n <= 0x0D
    || 0x1C <= n <= 0x20
    || n == 0x85 || n == 0xA0 || n == 0x1680
    || 0x2000 <= n <= 0x200A
    || n == 0x2028 || n == 0x2029 || n == 0x202F || n == 0x205F || n == 0x3000
  }

  /** Every character of `s` is whitespace (this includes the empty string). */
  predicate AllSpace(s: string)
  {
    forall k :: 0 <= k < |s| ==> IsSpace(s[k])
  }

  /** No character of `s` is whitespace. */
  predicate NoSpace(s: string)
  {
    forall k :: 0 <= k < |s| ==> !IsSpace(s[k])
  }

  /** Every character of `s` is `c` (this includes the empty string). */
  predicate AllChar(s: string, c: char)
  {
    forall k :: 0 <= k < |s| ==> s[k] == c
  }

  /** The first index at or after `i` that does not hold whitespace, or `|s|`. */
  function SkipSpace(s: string, i: nat): (j: nat)
    requires i <= |s|
    ensures i <= j <= |s|
    ensures forall k :: i <= k < j ==> IsSpace(s[k])
    ensures j < |s| ==> !IsSpace(s[j])
    decreases |s| - i
  {
    if i < |s| && IsSpace(s[i]) then SkipSpace(s, i + 1) else i
  }

  /** The first index at or after `i` that holds whitespace, or `|s|`. */
  function SkipWord(s: string, i: nat): (j: nat)
    requires i <= |s|
    ensures i <= j <= |s|
    ensures forall k :: i <= k < j ==> !IsSpace(s[k])
    ensures j < |s| ==> IsSpace(s[j])
    decreases |s| - i
  {
    if i < |s| && !IsSpace(s[i]) then SkipWord(s, i + 1) else i
  }

  /** Walking back from `j`, but not past `i`: the end of the text before
      a run of trailing whitespace. */
  function BackOverSpace(s: string, i: nat, j: nat): (e: nat)
    requires i <= j <= |s|
    ensures i <= e <= j
    ensures forall k :: e <= k < j ==> IsSpace(s[k])
    ensures e > i ==> !IsSpace(s[e - 1])
    decreases j
  {
    if j > i && IsSpace(s[j - 1]) then BackOverSpace(s, i, j - 1) else j
  }

  /** `s.strip()`: the slice of `s` between its leading and its trailing
      whitespace. Everything cut off is whitespace, and what is kept neither
      starts nor ends with whitespace. */
  function Strip(s: string): (r: string)
    ensures var i := SkipSpace(s, 0);
      && i + |r| <= |s| && r == s[i..i + |r|]
      && (forall k :: 0 <= k < i ==> IsSpace(s[k]))
      && (forall k :: i + |r| <= k < |s| ==> IsSpace(s[k]))
    ensures r != [] ==> !IsSpace(r[0]) && !IsSpace(r[|r| - 1])
    ensures r == [] <==> AllSpace(s)
  {
    var i := SkipSpace(s, 0);
    var j := BackOverSpace(s, i, |s|);
    assert i == |s| ==> j == i;
    s[i..j]
  }

  /** The first index at or after `i` that does not hold `c`, or `|s|`. */
  function SkipChar(s: string, c: char, i: nat): (j: nat)
    requires i <= |s|
    ensures i <= j <= |s|
    ensures forall k :: i <= k < j ==> s[k] == c
    ensures j < |s| ==> s[j] != c
    decreases |s| - i
  {
    if i < |s| && s[i] == c then SkipChar(s, c, i + 1) else i
  }

  /** `s.lstrip(c)`: every leading copy of `c` removed, not just the first. */
  function LStripChar(s: string, c: char): (r: string)
    ensures |r| <= |s| && r == s[|s| - |r|..]
    ensures forall k :: 0 <= k < |s| - |r| ==> s[k] == c
    ensures r != [] ==> r[0] != c
    ensures r == [] <==> AllChar(s, c)
  {
    s[SkipChar(s, c, 0)..]
  }

  /** The tokens of `s.split()` found from index `i` on. */
  function SplitFrom(s: string, i: nat): (ws: seq<string>)
    requires i <= |s|
    ensures forall n :: 0 <= n < |ws| ==> ws[n] != [] && NoSpace(ws[n])
    ensures ws == [] <==> forall k :: i <= k < |s| ==> IsSpace(s[k])
    decreases |s| - i
  {
    var j := SkipSpace(s, i);
    if j == |s| then []
    else
      var e := SkipWord(s, j);
      var w, rest := s[j..e], SplitFrom(s, e);
      assert w != [] && NoSpace(w) by {
        assert e > j && forall k :: 0 <= k < |w| ==> w[k] == s[j + k];
      }
      assert !IsSpace(s[j]);
      assert forall n :: 1 <= n < |rest| + 1 ==> ([w] + rest)[n] == rest[n - 1];
      [w] + rest
  }

  /** `s.split()`: the maximal runs of non-whitespace characters, in order.
      Every token is non-empty and free of whitespace, and only the
      whitespace-only strings have no token at all. */
  function Split(s: string): (ws: seq<string>)
    ensures forall n :: 0 <= n < |ws| ==> ws[n] != [] && NoSpace(ws[n])
    ensures ws == [] <==> AllSpace(s)
  {
    SplitFrom(s, 0)
  }

  /** `s.replace(a, b)` for single characters: every `a` becomes `b`, and
      nothing else changes. */
  function Replace(s: string, a: char, b: char): (r: string)
    ensures |r| == |s|
    ensures forall k :: 0 <= k < |s| ==> r[k] == if s[k] == a then b else s[k]
  {
    if s == [] then [] else [if s[0] == a then b else s[0]] + Replace(s[1..], a, b)
  }

  /** The characters of `s` that are not whitespace, in order: an independent
      description of what `Split` keeps. */
  function DropSpace(s: string): string
  {
    if s == [] then [] else (if IsSpace(s[0]) then [] else [s[0]]) + DropSpace(s[1..])
  }

  /** The tokens glued back together. */
  function Concat(ws: seq<string>): string
  {
    if ws == [] then [] else ws[0] + Concat(ws[1..])
  }

  /** `SkipSpace` is pinned down by its contract: any index that ends a run
      of whitespace started at `i` is the one it returns. */
  lemma {:induction false} SkipSpaceUnique(s: string, i: nat, j: nat)
    requires i <= j <= |s|
    requires forall k :: i <= k < j ==> IsSpace(s[k])
    requires j < |s| ==> !IsSpace(s[j])
    ensures SkipSpace(s, i) == j
    decreases j - i
  {
    if i < j {
      SkipSpaceUnique(s, i + 1, j);
    }
  }

  lemma {:induction false} SkipWordUnique(s: string, i: nat, j: nat)
    requires i <= j <= |s|
    requires forall k :: i <= k < j ==> !IsSpace(s[k])
    requires j < |s| ==> IsSpace(s[j])
    ensures SkipWord(s, i) == j
    decreases j - i
  {
    if i < j {
      SkipWordUnique(s, i + 1, j);
    }
  }

  lemma {:induction false} BackOverSpaceUnique(s: string, i: nat, e: nat, j: nat)
    requires i <= e <= j <= |s|
    requires forall k :: e <= k < j ==> IsSpace(s[k])
    requires e > i ==> !IsSpace(s[e - 1])
    ensures BackOverSpace(s, i, j) == e
    decreases j
  {
    if e < j {
      BackOverSpaceUnique(s, i, e, j - 1);
    }
  }

  /** `strip()` is pinned down by what it promises: a slice that has only
      whitespace around it and starts and ends with non-whitespace is the
      slice `strip()` returns. */
  lemma StripUnique(s: string, i: nat, j: nat)
    requires i < j <= |s|
    requires forall k :: 0 <= k < i ==> IsSpace(s[k])
    requires forall k :: j <= k < |s| ==> IsSpace(s[k])
    requires !IsSpace(s[i]) && !IsSpace(s[j - 1])
    ensures Strip(s) == s[i..j]
  {
    SkipSpaceUnique(s, 0, i);
    BackOverSpaceUnique(s, i, j, |s|);
  }

  /** `strip()` is idempotent. */
  lemma StripIdempotent(s: string)
    ensures Strip(Strip(s)) == Strip(s)
  {
    var t := Strip(s);
    if t != [] {
      StripUnique(t, 0, |t|);
    }
  }

  /** Whitespace added around a string changes nothing `strip()` returns. */
  lemma StripIgnoresPadding(u: string, s: string, v: string)
    requires AllSpace(u) && AllSpace(v)
    ensures Strip(u + s + v) == Strip(s)
  {
    var t := u + s + v;
    assert t[|u|..|u| + |s|] == s;
    forall k | 0 <= k < |u| ensures IsSpace(t[k]) {
      assert t[k] == u[k];
    }
    forall k | |u| + |s| <= k < |t| ensures IsSpace(t[k]) {
      assert t[k] == v[k - |u| - |s|];
    }
    if AllSpace(s) {
      forall k | |u| <= k < |u| + |s| ensures IsSpace(t[k]) {
        assert t[k] == t[|u|..|u| + |s|][k - |u|];
      }
    } else {
      var i := SkipSpace(s, 0);
      var j := i + |Strip(s)|;
      StripBounds(s);
      PaddedSliceIsStrip(t, s, |u|, i, j);
    }
  }

  /** Where the kept slice of a non-blank string starts and ends. */
  lemma StripBounds(s: string)
    requires !AllSpace(s)
    ensures var i := SkipSpace(s, 0); var j := i + |Strip(s)|;
      && i < j <= |s| && Strip(s) == s[i..j]
      && !IsSpace(s[i]) && !IsSpace(s[j - 1])
      && (forall k :: 0 <= k < i ==> IsSpace(s[k]))
      && (forall k :: j <= k < |s| ==> IsSpace(s[k]))
  {
    var r := Strip(s);
    var i := SkipSpace(s, 0);
    assert r != [] && r[0] == s[i] && r[|r| - 1] == s[i + |r| - 1];
  }

  /** A slice of `s` surrounded by whitespace in `s`, where `s` itself is
      surrounded by whitespace in `t`, is what `strip()` keeps of `t`. */
  lemma PaddedSliceIsStrip(t: string, s: string, off: nat, i: nat, j: nat)
    requires off + |s| <= |t| && t[off..off + |s|] == s
    requires i < j <= |s| && !IsSpace(s[i]) && !IsSpace(s[j - 1])
    requires forall k :: 0 <= k < off ==> IsSpace(t[k])
    requires forall k :: off + |s| <= k < |t| ==> IsSpace(t[k])
    requires forall k :: 0 <= k < i ==> IsSpace(s[k])
    requires forall k :: j <= k < |s| ==> IsSpace(s[k])
    ensures Strip(t) == s[i..j]
  {
    SliceAt(t, s, off, i, j);
    PaddedSpaces(t, s, off, i, j);
    StripUnique(t, off + i, off + j);
  }

  /** Where `s` sits in `t` at offset `off`, a slice of `s` and its end
      characters are those of `t` shifted by `off`. */
  lemma SliceAt(t: string, s: string, off: nat, i: nat, j: nat)
    requires off + |s| <= |t| && t[off..off + |s|] == s
    requires i < j <= |s|
    ensures t[off + i..off + j] == s[i..j]
    ensures t[off + i] == s[i] && t[off + j - 1] == s[j - 1]
  {
    forall k | 0 <= k < j - i ensures t[off + i..off + j][k] == s[i..j][k] {
      assert t[off + i + k] == t[off..off + |s|][i + k];
    }
    assert t[off + i] == t[off..off + |s|][i];
    assert t[off + j - 1] == t[off..off + |s|][j - 1];
  }

  /** The whitespace around `s` inside `t`, and the whitespace at the ends
      of `s`, together surround `s[i..j]` inside `t`. */
  lemma PaddedSpaces(t: string, s: string, off: nat, i: nat, j: nat)
    requires off + |s| <= |t| && t[off..off + |s|] == s && i <= j <= |s|
    requires forall k :: 0 <= k < off ==> IsSpace(t[k])
    requires forall k :: off + |s| <= k < |t| ==> IsSpace(t[k])
    requires forall k :: 0 <= k < i ==> IsSpace(s[k])
    requires forall k :: j <= k < |s| ==> IsSpace(s[k])
    ensures forall k :: 0 <= k < off + i ==> IsSpace(t[k])
    ensures forall k :: off + j <= k < |t| ==> IsSpace(t[k])
  {
    forall k | 0 <= k < off + i ensures IsSpace(t[k]) {
      if k >= off { assert t[k] == t[off..off + |s|][k - off]; }
    }
    forall k | off + j <= k < |t| ensures IsSpace(t[k]) {
      if k < off + |s| { assert t[k] == t[off..off + |s|][k - off]; }
    }
  }

  lemma {:induction false} DropSpaceAppend(a: string, b: string)
    ensures DropSpace(a + b) == DropSpace(a) + DropSpace(b)
    decreases |a|
  {
    if a == [] {
      assert a + b == b;
    } else {
      assert (a + b)[0] == a[0];
      assert (a + b)[1..] == a[1..] + b;
      DropSpaceAppend(a[1..], b);
      var x := if IsSpace(a[0]) then [] else [a[0]];
      assert x + (DropSpace(a[1..]) + DropSpace(b)) == (x + DropSpace(a[1..])) + DropSpace(b);
    }
  }

  lemma {:induction false} DropSpaceOfSpace(s: string)
    requires AllSpace(s)
    ensures DropSpace(s) == []
    decreases |s|
  {
    if s != [] { DropSpaceOfSpace(s[1..]); }
  }

  lemma {:induction false} DropSpaceOfWord(s: string)
    requires NoSpace(s)
    ensures DropSpace(s) == s
    decreases |s|
  {
    if s != [] { DropSpaceOfWord(s[1..]); }
  }

  lemma {:induction false} SplitFromKeepsEverythingButSpace(s: string, i: nat)
    requires i <= |s|
    ensures Concat(SplitFrom(s, i)) == DropSpace(s[i..])
    decreases |s| - i
  {
    var j := SkipSpace(s, i);
    SpaceRunDrops(s, i, j);
    if j == |s| {
      assert s[j..] == [];
    } else {
      var e := SkipWord(s, j);
      WordRunKept(s, j, e);
      SplitFromKeepsEverythingButSpace(s, e);
      var rest := SplitFrom(s, e);
      assert SplitFrom(s, i) == [s[j..e]] + rest;
      assert ([s[j..e]] + rest)[1..] == rest;
    }
  }

  /** A run of whitespace in front contributes nothing to `DropSpace`. */
  lemma SpaceRunDrops(s: string, i: nat, j: nat)
    requires i <= j <= |s|
    requires forall k :: i <= k < j ==> IsSpace(s[k])
    ensures DropSpace(s[i..]) == DropSpace(s[j..])
  {
    assert s[i..] == s[i..j] + s[j..];
    DropSpaceAppend(s[i..j], s[j..]);
    DropSpaceOfSpace(s[i..j]);
  }

  /** A run of non-whitespace in front is kept whole by `DropSpace`. */
  lemma WordRunKept(s: string, j: nat, e: nat)
    requires j <= e <= |s|
    requires forall k :: j <= k < e ==> !IsSpace(s[k])
    ensures DropSpace(s[j..]) == s[j..e] + DropSpace(s[e..])
  {
    assert s[j..] == s[j..e] + s[e..];
    DropSpaceAppend(s[j..e], s[e..]);
    DropSpaceOfWord(s[j..e]);
  }

  /** `split()` loses only whitespace: its tokens, glued together, are the
      non-whitespace characters of the input in their original order. */
  lemma SplitKeepsEverythingButSpace(s: string)
    ensures Concat(Split(s)) == DropSpace(s)
  {
    SplitFromKeepsEverythingButSpace(s, 0);
    assert s[0..] == s;
  }

  /** `w` is the first run of non-whitespace in `s`: it starts at the first
      non-whitespace character and stops at the next whitespace or at the
      end. */
  predicate IsFirstRun(s: string, w: string)
  {
    var i := SkipSpace(s, 0);
    && w != [] && NoSpace(w)
    && i + |w| <= |s| && s[i..i + |w|] == w
    && (i + |w| == |s| || IsSpace(s[i + |w|]))
  }

  /** The first token of `split()` is the first run of non-whitespace. */
  lemma FirstTokenShape(s: string)
    requires !AllSpace(s)
    ensures IsFirstRun(s, Split(s)[0])
  {
  }

  lemma {:induction false} SkipCharUnique(s: string, c: char, i: nat, j: nat)
    requires i <= j <= |s|
    requires forall k :: i <= k < j ==> s[k] == c
    requires j < |s| ==> s[j] != c
    ensures SkipChar(s, c, i) == j
    decreases j - i
  {
    if i < j {
      SkipCharUnique(s, c, i + 1, j);
    }
  }

  /** Any number of leading copies of `c` vanish under `lstrip(c)`. */
  lemma LStripCharPrefix(n: nat, c: char, s: string)
    ensures LStripChar(seq(n, _ => c) + s, c) == LStripChar(s, c)
  {
    var t := seq(n, _ => c) + s;
    var m := SkipChar(s, c, 0);
    assert forall k :: 0 <= k < |s| ==> t[n + k] == s[k];
    SkipCharUnique(t, c, 0, n + m);
    assert t[n + m..] == s[m..];
  }

  /** A string that neither starts nor ends with whitespace is its own
      `strip()`. */
  lemma StripOfTrimmed(s: string)
    requires s != [] && !IsSpace(s[0]) && !IsSpace(s[|s| - 1])
    ensures Strip(s) == s
  {
    StripUnique(s, 0, |s|);
    assert s[0..|s|] == s;
  }

  /** The first token of a string that starts with `e` non-whitespace
      characters followed by whitespace or the end is those characters. */
  lemma FirstTokenIs(s: string, e: nat)
    requires 0 < e <= |s|
    requires forall k :: 0 <= k < e ==> !IsSpace(s[k])
    requires e == |s| || IsSpace(s[e])
    ensures Split(s) != [] && Split(s)[0] == s[..e]
  {
    SkipSpaceUnique(s, 0, 0);
    SkipWordUnique(s, 0, e);
  }
}
