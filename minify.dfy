/**
 The whitespace minifier for markup text (HTML/XML) of
 `minfile/src/minify_markup_language.rs`.

 `minify` applies two fixed regular-expression substitutions in sequence,
 each through `replace_all` over the whole text:
   1. `>[\r\n ]+<` is replaced by `><` (whitespace between tags);
   2. `\s\B` is replaced by the empty string (a whitespace character not
      followed by a word boundary).
 Each pattern is modelled here as a direct scanner over the characters,
 with the character classes of the `CharClasses` module (ASCII only).
 */
module MinifyMarkupLanguage {
  import opened CharClasses
  import opened Sequences

  // ---------------------------------------------------------------------
  // Pass 1: `>[\r\n ]+<`  ->  `><`
  // ---------------------------------------------------------------------

  /** Length of the greedy run `[\r\n ]*` at the start of `s`. */
  function GapRunLength(s: seq<char>): (n: nat)
    ensures n <= |s|
  {
    if s != [] && IsGapChar(s[0]) then 1 + GapRunLength(s[1..]) else 0
  }

  /** The run is made of `[\r\n ]` and is maximal. */
  lemma {:induction false} GapRunLengthSpec(s: seq<char>)
    ensures forall i :: 0 <= i < GapRunLength(s) ==> IsGapChar(s[i])
    ensures GapRunLength(s) < |s| ==> !IsGapChar(s[GapRunLength(s)])
  {
    if s != [] && IsGapChar(s[0]) {
      GapRunLengthSpec(s[1..]);
    }
  }

  /** The inter-tag pattern matches at the start of `s`: a `>`, a non-empty
      run of `[\r\n ]`, and a `<` right after that run. Because the run is
      greedy and `<` is not in the class, only the maximal run can match. */
  predicate TagGapAt(s: seq<char>)
  {
    |s| > 1 && s[0] == '>' &&
    var n := GapRunLength(s[1..]);
    n > 0 && n + 1 < |s| && s[n + 1] == '<'
  }

  /** `replace_all` of `>[\r\n ]+<` by `><`: the leftmost match is replaced
      and scanning resumes right after it. */
  function Pass1(s: seq<char>): (r: seq<char>)
    ensures |r| <= |s|
    ensures |s| > 0 ==> |r| > 0 && r[0] == s[0]
    decreases |s|
  {
    if s == [] then []
    else if TagGapAt(s) then "><" + Pass1(s[GapRunLength(s[1..]) + 2..])
    else [s[0]] + Pass1(s[1..])
  }

  /** `s[j..k+1]` is `>`, then only `[\r\n ]`, then `<`. */
  predicate TagGapSpan(s: seq<char>, j: int, k: int)
    requires 0 <= j < k < |s|
  {
    s[j] == '>' && s[k] == '<' && forall m :: j < m < k ==> IsGapChar(s[m])
  }

  /** Reference definition of what pass 1 removes: the characters lying
      strictly inside some `>`…`<` span made only of `[\r\n ]`. */
  ghost predicate InTagGap(s: seq<char>, i: int)
  {
    0 <= i < |s| && exists j, k :: 0 <= j < i < k < |s| && TagGapSpan(s, j, k)
  }

  ghost function Pass1Kept(s: seq<char>): (keep: seq<bool>)
    ensures |keep| == |s|
  {
    seq(|s|, i => !InTagGap(s, i))
  }

  lemma TagGapSpanShift(s: seq<char>, d: nat, j: int, k: int)
    requires d <= |s| && 0 <= j < k < |s| - d
    ensures TagGapSpan(s[d..], j, k) == TagGapSpan(s, j + d, k + d)
  {
    if TagGapSpan(s, j + d, k + d) {
      forall m | j < m < k ensures IsGapChar(s[d..][m]) {
        assert s[d..][m] == s[m + d];
      }
    }
    if TagGapSpan(s[d..], j, k) {
      forall m | j + d < m < k + d ensures IsGapChar(s[m]) {
        assert s[m] == s[d..][m - d];
      }
    }
  }

  /** After a position that no gap span can cross, membership in a gap is
      decided by the suffix alone. */
  lemma InTagGapSuffix(s: seq<char>, d: nat, i: int)
    requires d <= i < |s|
    requires forall j, k :: 0 <= j < d && j < k < |s| && j < i < k ==> !TagGapSpan(s, j, k)
    ensures InTagGap(s, i) == InTagGap(s[d..], i - d)
  {
    if InTagGap(s, i) {
      var j, k :| 0 <= j < i < k < |s| && TagGapSpan(s, j, k);
      TagGapSpanShift(s, d, j - d, k - d);
    }
    if InTagGap(s[d..], i - d) {
      var j, k :| 0 <= j < i - d < k < |s| - d && TagGapSpan(s[d..], j, k);
      TagGapSpanShift(s, d, j, k);
    }
  }

  /** The characters inside a gap span are `\r`, `\n` or spaces. */
  lemma InTagGapIsGapChar(s: seq<char>, i: int)
    requires InTagGap(s, i)
    ensures IsGapChar(s[i])
  {
    var j, k :| 0 <= j < i < k < |s| && TagGapSpan(s, j, k);
  }

  /** Where the inter-tag pattern matches at the start, the mask keeps the
      `>` and the `<` and drops the run between them; after the `<` no span
      can reach back, so the rest of the mask is that of the remainder. */
  lemma Pass1KeptAtMatch(s: seq<char>)
    requires TagGapAt(s)
    ensures Pass1Kept(s) ==
      [true] + seq(GapRunLength(s[1..]), _ => false) + [true] + Pass1Kept(s[GapRunLength(s[1..]) + 2..])
  {
    var keep := Pass1Kept(s);
    var n := GapRunLength(s[1..]);
    var t := s[n + 2..];
    GapRunLengthSpec(s[1..]);
    assert TagGapSpan(s, 0, n + 1) by {
      forall m | 0 < m < n + 1 ensures IsGapChar(s[m]) {
        assert s[m] == s[1..][m - 1];
      }
    }
    forall i | 0 <= i < |t| ensures keep[n + 2 + i] == Pass1Kept(t)[i] {
      forall j, k | 0 <= j < n + 2 && j < k < |s| && j < n + 2 + i < k
        ensures !TagGapSpan(s, j, k)
      {
        if j <= n {
          assert !IsGapChar(s[n + 1]);
        }
      }
      InTagGapSuffix(s, n + 2, n + 2 + i);
    }
    assert !InTagGap(s, n + 1) by {
      if InTagGap(s, n + 1) {
        InTagGapIsGapChar(s, n + 1);
      }
    }
    forall i | 1 <= i <= n ensures !keep[i] {
      assert InTagGap(s, i);
    }
  }

  /** Where the pattern does not match at the start, the first character is
      kept and no span starts there, so the rest of the mask is that of
      the tail. */
  lemma Pass1KeptOther(s: seq<char>)
    requires s != [] && !TagGapAt(s)
    ensures Pass1Kept(s) == [true] + Pass1Kept(s[1..])
  {
    var keep := Pass1Kept(s);
    var t := s[1..];
    assert !InTagGap(s, 0);
    forall i | 0 <= i < |t| ensures keep[1 + i] == Pass1Kept(t)[i] {
      forall j, k | 0 <= j < 1 && j < k < |s| && j < 1 + i < k
        ensures !TagGapSpan(s, j, k)
      {
        if TagGapSpan(s, j, k) {
          GapRunLengthSpec(t);
          assert false;
        }
      }
      InTagGapSuffix(s, 1, 1 + i);
    }
  }

  lemma SplitAround(s: seq<char>, n: nat)
    requires n + 2 <= |s|
    ensures s == [s[0]] + s[1..n + 1] + [s[n + 1]] + s[n + 2..]
  {
  }

  /** Selecting `>`, a dropped run and `<` leaves `><`. */
  lemma SelectTagGap(s: seq<char>, n: nat)
    requires TagGapAt(s) && n == GapRunLength(s[1..])
    ensures Select(s, [true] + seq(n, _ => false) + [true] + Pass1Kept(s[n + 2..]))
            == "><" + Select(s[n + 2..], Pass1Kept(s[n + 2..]))
  {
    var t := s[n + 2..];
    SplitAround(s, n);
    assert s[0] == '>' && s[n + 1] == '<';
    SelectDropRun(s[0], s[1..n + 1], s[n + 1], t, Pass1Kept(t));
  }

  /** Pass 1 keeps every character except those strictly inside a
      `>[\r\n ]+<` span; in particular it removes only `\r`, `\n` and
      spaces, and leaves tabs between tags alone. */
  lemma {:induction false} Pass1Spec(s: seq<char>)
    ensures Pass1(s) == Select(s, Pass1Kept(s))
    ensures forall i :: 0 <= i < |s| && !Pass1Kept(s)[i] ==> IsGapChar(s[i])
    decreases |s|
  {
    forall i | 0 <= i < |s| && !Pass1Kept(s)[i] ensures IsGapChar(s[i]) {
      InTagGapIsGapChar(s, i);
    }
    if s == [] {
    } else if TagGapAt(s) {
      var n := GapRunLength(s[1..]);
      Pass1Spec(s[n + 2..]);
      Pass1KeptAtMatch(s);
      SelectTagGap(s, n);
    } else {
      var t := s[1..];
      Pass1Spec(t);
      Pass1KeptOther(s);
      assert s == [s[0]] + t;
      SelectAppend([s[0]], [true], t, Pass1Kept(t));
    }
  }

  /** Pass 1 replaces a `>[\r\n ]+<` match by exactly `><`, and the text on
      either side of the match is processed as if on its own. */
  lemma Pass1CollapsesGap(x: seq<char>, w: seq<char>, y: seq<char>)
    requires w != [] && forall i :: 0 <= i < |w| ==> IsGapChar(w[i])
    ensures Pass1(x + ['>'] + w + ['<'] + y) == Pass1(x) + "><" + Pass1(y)
  {
    var z := ['>'] + w + ['<'] + y;
    assert x + ['>'] + w + ['<'] + y == x + z;
    Pass1SplitBefore(x, z);
    Pass1AtGap(w, y);
    AppendAssoc(Pass1(x), "><", Pass1(y));
  }

  lemma Pass1AtGap(w: seq<char>, y: seq<char>)
    requires w != [] && forall i :: 0 <= i < |w| ==> IsGapChar(w[i])
    ensures Pass1(['>'] + w + ['<'] + y) == "><" + Pass1(y)
  {
    var z := ['>'] + w + ['<'] + y;
    GapRunLengthExact(w, ['<'] + y);
    assert z[1..] == w + (['<'] + y);
    assert z[|w| + 1] == '<';
    assert TagGapAt(z);
    assert z[|w| + 2..] == y;
  }

  lemma {:induction false} GapRunLengthExact(w: seq<char>, z: seq<char>)
    requires forall i :: 0 <= i < |w| ==> IsGapChar(w[i])
    requires z == [] || !IsGapChar(z[0])
    ensures GapRunLength(w + z) == |w|
  {
    if w != [] {
      assert (w + z)[1..] == w[1..] + z;
      GapRunLengthExact(w[1..], z);
    }
  }

  /** Appending text that starts outside `[\r\n <]` does not change whether
      the inter-tag pattern matches at the start, nor the length of the run
      it would consume. */
  lemma TagGapAtPrefix(x: seq<char>, z: seq<char>)
    requires x != []
    requires z == [] || (!IsGapChar(z[0]) && z[0] != '<')
    ensures GapRunLength((x + z)[1..]) == GapRunLength(x[1..])
    ensures TagGapAt(x + z) == TagGapAt(x)
  {
    var s := x + z;
    assert s[1..] == x[1..] + z;
    GapRunLengthPrefix(x[1..], z);
    var n := GapRunLength(x[1..]);
    if n + 1 < |x| {
      assert s[n + 1] == x[n + 1];
    } else if n + 1 < |s| {
      assert s[n + 1] == z[0];
    }
  }

  /** A character outside `[\r\n <]` cannot lie inside or end a match, so
      pass 1 treats the text before it independently. */
  lemma {:induction false} Pass1SplitBefore(x: seq<char>, z: seq<char>)
    requires z == [] || (!IsGapChar(z[0]) && z[0] != '<')
    ensures Pass1(x + z) == Pass1(x) + Pass1(z)
    decreases |x|, 1
  {
    if x == [] {
      assert x + z == z;
    } else if TagGapAt(x) {
      Pass1SplitBeforeMatch(x, z);
    } else {
      Pass1SplitBeforeOther(x, z);
    }
  }

  lemma {:induction false} Pass1SplitBeforeMatch(x: seq<char>, z: seq<char>)
    requires z == [] || (!IsGapChar(z[0]) && z[0] != '<')
    requires x != [] && TagGapAt(x)
    ensures Pass1(x + z) == Pass1(x) + Pass1(z)
    decreases |x|, 0
  {
    var n := GapRunLength(x[1..]);
    Pass1SplitBefore(x[n + 2..], z);
    Pass1MatchAppend(x, z);
  }

  lemma Pass1MatchAppend(x: seq<char>, z: seq<char>)
    requires z == [] || (!IsGapChar(z[0]) && z[0] != '<')
    requires x != [] && TagGapAt(x)
    requires Pass1(x[GapRunLength(x[1..]) + 2..] + z) == Pass1(x[GapRunLength(x[1..]) + 2..]) + Pass1(z)
    ensures Pass1(x + z) == Pass1(x) + Pass1(z)
  {
    TagGapAtPrefix(x, z);
    var n := GapRunLength(x[1..]);
    var rest := x[n + 2..];
    DropAppend(x, z, n + 2);
    Pass1AtMatch(x + z);
    Pass1AtMatch(x);
    AppendAssoc("><", Pass1(rest), Pass1(z));
  }

  /** One step of pass 1 where the pattern matches at the start. */
  lemma Pass1AtMatch(s: seq<char>)
    requires TagGapAt(s)
    ensures Pass1(s) == "><" + Pass1(s[GapRunLength(s[1..]) + 2..])
  {
  }

  lemma DropAppend(x: seq<char>, z: seq<char>, m: nat)
    requires m <= |x|
    ensures (x + z)[m..] == x[m..] + z
  {
  }

  lemma {:induction false} Pass1SplitBeforeOther(x: seq<char>, z: seq<char>)
    requires z == [] || (!IsGapChar(z[0]) && z[0] != '<')
    requires x != [] && !TagGapAt(x)
    ensures Pass1(x + z) == Pass1(x) + Pass1(z)
    decreases |x|, 0
  {
    var s := x + z;
    TagGapAtPrefix(x, z);
    assert s[0] == x[0];
    assert s[1..] == x[1..] + z;
    Pass1SplitBefore(x[1..], z);
  }

  lemma {:induction false} GapRunLengthPrefix(x: seq<char>, z: seq<char>)
    requires z == [] || !IsGapChar(z[0])
    ensures GapRunLength(x + z) == GapRunLength(x)
  {
    if x != [] {
      assert (x + z)[1..] == x[1..] + z;
      GapRunLengthPrefix(x[1..], z);
    }
  }

  // ---------------------------------------------------------------------
  // Pass 2: `\s\B`  ->  ``
  // ---------------------------------------------------------------------

  /** `\s\B` matches at the start of `s`: a whitespace character with no word
      boundary right after it. The match is one character wide and the `\B`
      looks at the pass-2 input, not at what earlier replacements left. */
  predicate SpaceNotAtBoundary(s: seq<char>)
  {
    |s| > 0 && IsSpace(s[0]) && !IsWordBoundary(s, 1)
  }

  /** `replace_all` of `\s\B` by the empty string. */
  function Pass2(s: seq<char>): (r: seq<char>)
    ensures |r| <= |s|
    ensures |s| > 0 && !IsSpace(s[0]) ==> |r| > 0 && r[0] == s[0]
  {
    if s == [] then []
    else (if SpaceNotAtBoundary(s) then [] else [s[0]]) + Pass2(s[1..])
  }

  /** Whether pass 2 keeps character `c` when `next` is the text after it:
      whitespace survives only in front of a word character. */
  predicate KeptBefore(c: char, next: seq<char>)
  {
    !IsSpace(c) || (next != [] && IsWord(next[0]))
  }

  /** One step of pass 2, with the `\B` test worked out: a whitespace
      character is never a word character, so the position after it is a
      boundary exactly when a word character follows. */
  lemma Pass2Cons(c: char, t: seq<char>)
    ensures Pass2([c] + t) == (if KeptBefore(c, t) then [c] else []) + Pass2(t)
  {
    var s := [c] + t;
    assert s[0] == c && s[1..] == t;
    GapCharIsSpace(c);
    if |s| > 1 {
      assert s[1] == t[0];
    }
  }

  /** Every whitespace character of `s` is immediately followed by a word
      character (so `s` does not end in whitespace). */
  predicate SpacesBeforeWords(s: seq<char>)
  {
    forall i :: 0 <= i < |s| && IsSpace(s[i]) ==> i + 1 < |s| && IsWord(s[i + 1])
  }

  /** Reference definition of what pass 2 keeps: every non-whitespace
      character, and a whitespace character exactly when the next character
      is a word character. */
  function Pass2Kept(s: seq<char>): (keep: seq<bool>)
    ensures |keep| == |s|
  {
    seq(|s|, i requires 0 <= i < |s| => KeptBefore(s[i], s[i + 1..]))
  }

  lemma Pass2KeptCons(s: seq<char>)
    requires s != []
    ensures Pass2Kept(s) == [KeptBefore(s[0], s[1..])] + Pass2Kept(s[1..])
  {
    var keep, t := Pass2Kept(s), s[1..];
    forall i | 0 <= i < |t| ensures keep[1..][i] == Pass2Kept(t)[i] {
      assert s[i + 2..] == t[i + 1..];
    }
    assert keep[1..] == Pass2Kept(t);
    assert keep == [keep[0]] + keep[1..];
  }

  lemma {:induction false} Pass2SelectsKept(s: seq<char>)
    ensures Pass2(s) == Select(s, Pass2Kept(s))
  {
    if s != [] {
      var t := s[1..];
      Pass2SelectsKept(t);
      assert s == [s[0]] + t;
      Pass2Cons(s[0], t);
      Pass2KeptCons(s);
      SelectCons(s[0], t, KeptBefore(s[0], t), Pass2Kept(t));
    }
  }

  lemma Pass2Spec(s: seq<char>)
    ensures Pass2(s) == Select(s, Pass2Kept(s))
    ensures forall i :: 0 <= i < |s| && !Pass2Kept(s)[i] ==> IsSpace(s[i])
    ensures forall i :: 0 <= i < |s| && IsSpace(s[i]) ==>
              (Pass2Kept(s)[i] <==> i + 1 < |s| && IsWord(s[i + 1]))
  {
    Pass2SelectsKept(s);
    forall i | 0 <= i < |s| && IsSpace(s[i])
      ensures Pass2Kept(s)[i] <==> i + 1 < |s| && IsWord(s[i + 1])
    {
      if i + 1 < |s| {
        assert s[i + 1..][0] == s[i + 1];
      }
    }
  }

  /** Pass 2 never leaves a whitespace character that is not followed by a
      word character. */
  lemma {:induction false} Pass2OutputInvariant(s: seq<char>)
    ensures SpacesBeforeWords(Pass2(s))
  {
    if s != [] {
      var t := s[1..];
      Pass2OutputInvariant(t);
      assert s == [s[0]] + t;
      Pass2Cons(s[0], t);
      var rest := Pass2(t);
      if KeptBefore(s[0], t) {
        var r := [s[0]] + rest;
        assert Pass2(s) == r;
        if t != [] {
          GapCharIsSpace(t[0]);
        }
        forall i | 0 <= i < |r| && IsSpace(r[i]) ensures i + 1 < |r| && IsWord(r[i + 1]) {
          if i > 0 {
            assert r[i] == rest[i - 1];
          }
        }
      }
    }
  }

  /** A non-whitespace character splits pass 2: what precedes it and what
      follows it are processed independently. */
  lemma {:induction false} Pass2SplitAfter(x: seq<char>, c: char, y: seq<char>)
    requires !IsSpace(c)
    ensures Pass2(x + [c] + y) == Pass2(x + [c]) + Pass2(y)
    decreases |x|
  {
    if x == [] {
      assert x + [c] + y == [c] + y;
      assert x + [c] == [c] + [];
      Pass2Cons(c, y);
      Pass2Cons(c, []);
      AppendAssoc([c], [], Pass2(y));
    } else {
      var r := x[1..] + [c];
      assert x + [c] == [x[0]] + r;
      assert x + [c] + y == [x[0]] + r + y;
      assert r + y == x[1..] + [c] + y;
      Pass2SplitAfter(x[1..], c, y);
      Pass2AppendStep(x[0], r, y);
    }
  }

  lemma AppendAssoc(a: seq<char>, b: seq<char>, c: seq<char>)
    ensures a + (b + c) == (a + b) + c
  {
  }

  lemma KeptBeforeAppend(c: char, r: seq<char>, z: seq<char>)
    requires r != [] || z == [] || !IsWord(z[0])
    ensures KeptBefore(c, r + z) == KeptBefore(c, r)
  {
    if r != [] {
      assert (r + z)[0] == r[0];
    } else {
      assert r + z == z;
    }
  }

  lemma Pass2ConsAppend(h: char, r: seq<char>, z: seq<char>)
    requires r != [] || z == [] || !IsWord(z[0])
    ensures Pass2([h] + r + z) == (if KeptBefore(h, r) then [h] else []) + Pass2(r + z)
  {
    assert [h] + r + z == [h] + (r + z);
    Pass2Cons(h, r + z);
    KeptBeforeAppend(h, r, z);
  }

  lemma Pass2AppendStep(h: char, r: seq<char>, z: seq<char>)
    requires r != [] || z == [] || !IsWord(z[0])
    requires Pass2(r + z) == Pass2(r) + Pass2(z)
    ensures Pass2([h] + r + z) == Pass2([h] + r) + Pass2(z)
  {
    var k := if KeptBefore(h, r) then [h] else [];
    Pass2ConsAppend(h, r, z);
    Pass2Cons(h, r);
    AppendAssoc(k, Pass2(r), Pass2(z));
  }

  lemma {:induction false} Pass2Append(x: seq<char>, z: seq<char>)
    requires z == [] || !IsWord(z[0])
    ensures Pass2(x + z) == Pass2(x) + Pass2(z)
    decreases |x|
  {
    if x == [] {
      assert x + z == z;
    } else {
      assert x == [x[0]] + x[1..];
      Pass2Append(x[1..], z);
      Pass2AppendStep(x[0], x[1..], z);
    }
  }

  /** A whitespace character survives pass 2 exactly when a word character
      follows it, and the text before and after it is processed
      independently (whitespace and the end of text are both non-word). */
  lemma Pass2AtSpace(x: seq<char>, c: char, y: seq<char>)
    requires IsSpace(c)
    ensures Pass2(x + [c] + y) == Pass2(x) + (if KeptBefore(c, y) then [c] else []) + Pass2(y)
  {
    GapCharIsSpace(c);
    assert x + [c] + y == x + ([c] + y);
    Pass2Append(x, [c] + y);
    Pass2Cons(c, y);
  }

  /** Whitespace in front of more whitespace is always deleted. */
  lemma Pass2RunStep(c: char, v: seq<char>, y: seq<char>)
    requires IsSpace(c) && v != [] && IsSpace(v[0])
    ensures Pass2([c] + v + y) == Pass2(v + y)
  {
    assert [c] + v + y == [c] + (v + y);
    assert (v + y)[0] == v[0];
    GapCharIsSpace(v[0]);
    Pass2Cons(c, v + y);
  }

  lemma {:induction false} Pass2Run(w: seq<char>, y: seq<char>)
    requires w != [] && AllSpace(w)
    ensures Pass2(w + y) == (if KeptBefore(w[|w| - 1], y) then [w[|w| - 1]] else []) + Pass2(y)
    decreases |w|
  {
    var c, v := w[0], w[1..];
    assert w == [c] + v;
    if v == [] {
      assert w + y == [c] + y;
      Pass2Cons(c, y);
    } else {
      assert IsSpace(v[0]) by { assert v[0] == w[1]; }
      Pass2RunStep(c, v, y);
      assert AllSpace(v) by {
        forall i | 0 <= i < |v| ensures IsSpace(v[i]) {
          assert v[i] == w[i + 1];
        }
      }
      Pass2Run(v, y);
      assert v[|v| - 1] == w[|w| - 1];
    }
  }

  /** A run of whitespace shrinks to its last character when a word
      character follows it, and disappears otherwise. */
  lemma Pass2SpaceRun(x: seq<char>, w: seq<char>, y: seq<char>)
    requires w != [] && AllSpace(w)
    ensures Pass2(x + w + y) == Pass2(x) + (if KeptBefore(w[|w| - 1], y) then [w[|w| - 1]] else []) + Pass2(y)
  {
    assert x + w + y == x + (w + y);
    assert (w + y)[0] == w[0];
    GapCharIsSpace(w[0]);
    Pass2Append(x, w + y);
    Pass2Run(w, y);
  }

  lemma {:induction false} Pass2DropsLeadingSpace(w: seq<char>, t: seq<char>)
    requires AllSpace(w)
    requires t == [] || !IsWord(t[0])
    ensures Pass2(w + t) == Pass2(t)
  {
    if w != [] {
      var u := w[1..] + t;
      assert w + t == [w[0]] + u;
      assert IsSpace(w[0]);
      Pass2Cons(w[0], u);
      if w[1..] != [] {
        assert u[0] == w[1];
        GapCharIsSpace(w[1]);
      } else {
        assert u == t;
      }
      assert AllSpace(w[1..]) by {
        forall i | 0 <= i < |w[1..]| ensures IsSpace(w[1..][i]) {
          assert w[1..][i] == w[i + 1];
        }
      }
      Pass2DropsLeadingSpace(w[1..], t);
    } else {
      assert w + t == t;
    }
  }

  lemma Pass2DropsTrailingSpace(t: seq<char>, w: seq<char>)
    requires AllSpace(w)
    ensures Pass2(t + w) == Pass2(t)
  {
    if w != [] {
      var c, y := w[0], w[1..];
      assert t + w == t + [c] + y;
      assert IsSpace(c);
      Pass2AtSpace(t, c, y);
      if y != [] {
        assert y[0] == w[1];
        assert IsSpace(w[1]);
        GapCharIsSpace(w[1]);
      }
      assert !KeptBefore(c, y);
      assert AllSpace(y) by {
        forall i | 0 <= i < |y| ensures IsSpace(y[i]) {
          assert y[i] == w[i + 1];
        }
      }
      assert y + [] == y;
      Pass2DropsLeadingSpace(y, []);
      assert Pass2(y) == [];
      assert Pass2(t + w) == Pass2(t) + [] + [];
    } else {
      assert t + w == t;
    }
  }

  /** The fixed points of pass 2 are exactly the texts in which every
      whitespace character precedes a word character. */
  lemma Pass2Fixpoint(s: seq<char>)
    ensures Pass2(s) == s <==> SpacesBeforeWords(s)
  {
    Pass2OutputInvariant(s);
    if SpacesBeforeWords(s) {
      Pass2Spec(s);
    }
  }

  // ---------------------------------------------------------------------
  // The two passes together
  // ---------------------------------------------------------------------

  /** `minify`: inter-tag whitespace first, then whitespace without a word
      boundary after it. */
  function Minify(content: seq<char>): (r: seq<char>)
    ensures |r| <= |content|
  {
    Pass2(Pass1(content))
  }

  lemma Pass2AfterTags(p: seq<char>)
    ensures Pass2("><" + p) == "><" + Pass2(p)
  {
    assert "><" + p == ['>'] + (['<'] + p);
    Pass2Cons('>', ['<'] + p);
    Pass2Cons('<', p);
  }

  lemma Pass2AtTagGap(w: seq<char>, t: seq<char>)
    requires AllSpace(w)
    ensures Pass2(['>'] + w + ['<'] + t) == "><" + Pass2(t)
  {
    assert ['>'] + w + ['<'] + t == ['>'] + (w + (['<'] + t));
    Pass2Cons('>', w + (['<'] + t));
    Pass2DropsLeadingSpace(w, ['<'] + t);
    Pass2Cons('<', t);
  }

  lemma GapRunIsSpace(s: seq<char>)
    requires TagGapAt(s)
    ensures AllSpace(s[1..GapRunLength(s[1..]) + 1])
  {
    var w := s[1..GapRunLength(s[1..]) + 1];
    GapRunLengthSpec(s[1..]);
    forall i | 0 <= i < |w| ensures IsSpace(w[i]) {
      assert w[i] == s[1..][i];
      GapCharIsSpace(w[i]);
    }
  }

  lemma Pass1SubsumedAtMatch(s: seq<char>)
    requires TagGapAt(s)
    requires Pass2(Pass1(s[GapRunLength(s[1..]) + 2..])) == Pass2(s[GapRunLength(s[1..]) + 2..])
    ensures Pass2(Pass1(s)) == Pass2(s)
  {
    var n := GapRunLength(s[1..]);
    var t := s[n + 2..];
    Pass1AtMatch(s);
    Pass2AfterTags(Pass1(t));
    GapRunIsSpace(s);
    SplitAround(s, n);
    Pass2AtTagGap(s[1..n + 1], t);
  }

  lemma {:induction false} Pass1SubsumedAtOther(s: seq<char>)
    requires s != [] && !TagGapAt(s)
    requires Pass2(Pass1(s[1..])) == Pass2(s[1..])
    ensures Pass2(Pass1(s)) == Pass2(s)
  {
    var t := s[1..];
    var p := Pass1(t);
    assert Pass1(s) == [s[0]] + p;
    assert s == [s[0]] + t;
    Pass2Cons(s[0], p);
    Pass2Cons(s[0], t);
    assert KeptBefore(s[0], p) == KeptBefore(s[0], t);
  }

  /** Pass 1 is subsumed by pass 2: every character it deletes is whitespace
      followed by whitespace or `<`, and it never changes the character that
      follows a character it keeps. */
  lemma {:induction false} Pass1SubsumedByPass2(s: seq<char>)
    ensures Pass2(Pass1(s)) == Pass2(s)
    decreases |s|
  {
    if s == [] {
    } else if TagGapAt(s) {
      Pass1SubsumedByPass2(s[GapRunLength(s[1..]) + 2..]);
      Pass1SubsumedAtMatch(s);
    } else {
      Pass1SubsumedByPass2(s[1..]);
      Pass1SubsumedAtOther(s);
    }
  }

  /** Minify removes exactly the whitespace characters that are not
      followed by a word character; everything else is kept in order. */
  lemma MinifySpec(content: seq<char>)
    ensures Minify(content) == Select(content, Pass2Kept(content))
    ensures forall i :: 0 <= i < |content| && !Pass2Kept(content)[i] ==> IsSpace(content[i])
    ensures forall i :: 0 <= i < |content| && IsSpace(content[i]) ==>
              (Pass2Kept(content)[i] <==> i + 1 < |content| && IsWord(content[i + 1]))
  {
    Pass1SubsumedByPass2(content);
    Pass2Spec(content);
  }

  /** The non-whitespace characters of `s`, in order. */
  function NonSpace(s: seq<char>): (r: seq<char>)
    ensures forall i :: 0 <= i < |r| ==> !IsSpace(r[i])
    ensures |r| <= |s|
  {
    if s == [] then [] else (if IsSpace(s[0]) then [] else [s[0]]) + NonSpace(s[1..])
  }

  lemma {:induction false} SelectKeepsNonSpace(s: seq<char>, keep: seq<bool>)
    requires |keep| == |s|
    requires forall i :: 0 <= i < |s| && !keep[i] ==> IsSpace(s[i])
    ensures NonSpace(Select(s, keep)) == NonSpace(s)
  {
    if s != [] {
      SelectKeepsNonSpace(s[1..], keep[1..]);
      var rest := Select(s[1..], keep[1..]);
      if keep[0] {
        var r := [s[0]] + rest;
        assert Select(s, keep) == r;
        assert r[0] == s[0] && r[1..] == rest;
      } else {
        assert Select(s, keep) == rest;
        assert IsSpace(s[0]);
      }
    }
  }

  /** Minify only deletes whitespace: the result is a subsequence of the
      input, no longer than it, with the same non-whitespace characters in
      the same order. */
  lemma MinifyOnlyDeletesWhitespace(content: seq<char>)
    ensures |Minify(content)| <= |content|
    ensures IsSubsequence(Minify(content), content)
    ensures NonSpace(Minify(content)) == NonSpace(content)
  {
    MinifySpec(content);
    SelectIsSubsequence(content, Pass2Kept(content));
    SelectKeepsNonSpace(content, Pass2Kept(content));
  }

  /** In the output every whitespace character precedes a word character, so
      no `>`, whitespace, `<` pattern remains and the output does not end in
      whitespace. */
  lemma MinifyOutputInvariant(content: seq<char>)
    ensures SpacesBeforeWords(Minify(content))
    ensures forall i :: !InTagGap(Minify(content), i)
    ensures |Minify(content)| > 0 ==> !IsSpace(Minify(content)[|Minify(content)| - 1])
    ensures Pass1(Minify(content)) == Minify(content)
  {
    var r := Minify(content);
    Pass2OutputInvariant(Pass1(content));
    forall i ensures !InTagGap(r, i) {
      if InTagGap(r, i) {
        var j, k :| 0 <= j < i < k < |r| && TagGapSpan(r, j, k);
        GapCharIsSpace(r[k - 1]);
      }
    }
    Pass1Spec(r);
  }

  /** Running minify again changes nothing. */
  lemma MinifyIdempotent(content: seq<char>)
    ensures Minify(Minify(content)) == Minify(content)
  {
    var r := Minify(content);
    MinifyOutputInvariant(content);
    Pass2Fixpoint(r);
  }

  /** The texts minify leaves unchanged are exactly those in which every
      whitespace character precedes a word character. */
  lemma MinifyFixpoint(content: seq<char>)
    ensures Minify(content) == content <==> SpacesBeforeWords(content)
  {
    Pass1SubsumedByPass2(content);
    Pass2Fixpoint(content);
  }

  /** A whitespace character survives minify exactly when a word character
      follows it; the text on either side is minified independently. */
  lemma MinifyAtSpace(x: seq<char>, c: char, y: seq<char>)
    requires IsSpace(c)
    ensures Minify(x + [c] + y) == Minify(x) + (if y != [] && IsWord(y[0]) then [c] else []) + Minify(y)
  {
    Pass1SubsumedByPass2(x + [c] + y);
    Pass1SubsumedByPass2(x);
    Pass1SubsumedByPass2(y);
    Pass2AtSpace(x, c, y);
  }

  /** A non-whitespace character is kept, and the text on either side of it
      is minified independently. */
  lemma MinifySplitAfter(x: seq<char>, c: char, y: seq<char>)
    requires !IsSpace(c)
    ensures Minify(x + [c] + y) == Minify(x + [c]) + Minify(y)
  {
    Pass1SubsumedByPass2(x + [c] + y);
    Pass1SubsumedByPass2(x + [c]);
    Pass1SubsumedByPass2(y);
    Pass2SplitAfter(x, c, y);
  }

  /** Text without whitespace is left as it is. */
  lemma MinifyNoSpace(content: seq<char>)
    requires forall i :: 0 <= i < |content| ==> !IsSpace(content[i])
    ensures Minify(content) == content
  {
    MinifyFixpoint(content);
  }

  /** A run of whitespace shrinks to its last character when a word
      character follows it (the run between two attributes becomes one
      space), and disappears otherwise; the text on either side is minified
      independently. */
  lemma MinifySpaceRun(x: seq<char>, w: seq<char>, y: seq<char>)
    requires w != [] && AllSpace(w)
    ensures Minify(x + w + y) ==
      Minify(x) + (if y != [] && IsWord(y[0]) then [w[|w| - 1]] else []) + Minify(y)
  {
    Pass1SubsumedByPass2(x + w + y);
    Pass1SubsumedByPass2(x);
    Pass1SubsumedByPass2(y);
    Pass2SpaceRun(x, w, y);
  }

  /** One step along a document: a whitespace run followed by a piece of
      text without whitespace; the run leaves its last character only if the
      text starts with a word character. */
  lemma MinifySpaceThenText(x: seq<char>, w: seq<char>, t: seq<char>)
    requires w != [] && AllSpace(w)
    requires t != [] && forall i :: 0 <= i < |t| ==> !IsSpace(t[i])
    ensures Minify(x + w + t) == Minify(x) + (if IsWord(t[0]) then [w[|w| - 1]] else []) + t
  {
    MinifySpaceRun(x, w, t);
    MinifyNoSpace(t);
  }

  /** Whitespace at the start of the document is removed when the first
      non-whitespace character is not a word character (a tag, say). */
  lemma MinifyDropsLeadingSpace(w: seq<char>, t: seq<char>)
    requires AllSpace(w)
    requires t == [] || !IsWord(t[0])
    ensures Minify(w + t) == Minify(t)
  {
    Pass1SubsumedByPass2(w + t);
    Pass1SubsumedByPass2(t);
    Pass2DropsLeadingSpace(w, t);
  }

  /** Whitespace at the end of the document is always removed. */
  lemma MinifyDropsTrailingSpace(t: seq<char>, w: seq<char>)
    requires AllSpace(w)
    ensures Minify(t + w) == Minify(t)
  {
    Pass1SubsumedByPass2(t + w);
    Pass1SubsumedByPass2(t);
    Pass2DropsTrailingSpace(t, w);
  }
}
