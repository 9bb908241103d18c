/**
 Filtering a sequence by a mask, the reference form in which both
 substitution passes are specified (each pass removes characters and
 never inserts any other).
 */
module Sequences {

  /** The elements of `s` whose mask bit is set, in their original order. */
  function Select<T>(s: seq<T>, keep: seq<bool>): (r: seq<T>)
    requires |keep| == |s|
    ensures |r| <= |s|
    ensures (forall i :: 0 <= i < |s| ==> keep[i]) ==> r == s
    ensures (forall i :: 0 <= i < |s| ==> !keep[i]) ==> r == []
  {
    if s == [] then [] else (if keep[0] then [s[0]] else []) + Select(s[1..], keep[1..])
  }

  lemma {:induction false} SelectAppend<T>(a: seq<T>, ka: seq<bool>, b: seq<T>, kb: seq<bool>)
    requires |ka| == |a| && |kb| == |b|
    ensures Select(a + b, ka + kb) == Select(a, ka) + Select(b, kb)
  {
    if a == [] {
      assert a + b == b && ka + kb == kb;
    } else {
      var s, k := a + b, ka + kb;
      assert s[0] == a[0] && k[0] == ka[0];
      assert s[1..] == a[1..] + b;
      assert k[1..] == ka[1..] + kb;
      SelectAppend(a[1..], ka[1..], b, kb);
      calc {
        Select(s, k);
        (if k[0] then [s[0]] else []) + Select(s[1..], k[1..]);
        (if ka[0] then [a[0]] else []) + (Select(a[1..], ka[1..]) + Select(b, kb));
      }
    }
  }

  /** `t` can be obtained from `s` by deleting elements. */
  ghost predicate IsSubsequence<T>(t: seq<T>, s: seq<T>)
    decreases |s|
  {
    t == [] || (s != [] && ((t[0] == s[0] && IsSubsequence(t[1..], s[1..])) || IsSubsequence(t, s[1..])))
  }

  lemma {:induction false} SelectIsSubsequence<T>(s: seq<T>, keep: seq<bool>)
    requires |keep| == |s|
    ensures IsSubsequence(Select(s, keep), s)
  {
    if s != [] {
      SelectIsSubsequence(s[1..], keep[1..]);
      var t, rest := Select(s, keep), Select(s[1..], keep[1..]);
      if keep[0] {
        assert t == [s[0]] + rest;
        assert t[0] == s[0] && t[1..] == rest;
      } else {
        assert t == rest;
      }
    }
  }

  lemma SelectCons<T>(x: T, t: seq<T>, k: bool, kt: seq<bool>)
    requires |kt| == |t|
    ensures Select([x] + t, [k] + kt) == (if k then [x] else []) + Select(t, kt)
  {
    assert ([x] + t)[1..] == t && ([k] + kt)[1..] == kt;
  }

  /** Dropping a prefix of `w`'s length leaves the selection of the rest. */
  lemma {:induction false} SelectSkip<T>(w: seq<T>, t: seq<T>, kt: seq<bool>)
    requires |kt| == |t|
    ensures Select(w + t, seq(|w|, _ => false) + kt) == Select(t, kt)
  {
    if w != [] {
      var drops := seq(|w|, _ => false);
      assert w + t == [w[0]] + (w[1..] + t);
      assert drops + kt == [false] + (seq(|w| - 1, _ => false) + kt);
      SelectCons(w[0], w[1..] + t, false, seq(|w| - 1, _ => false) + kt);
      SelectSkip(w[1..], t, kt);
    } else {
      assert w + t == t;
      assert seq(|w|, _ => false) + kt == kt;
    }
  }

  /** Keeping `a` and `b` and dropping everything between them. */
  lemma SelectDropRun<T>(a: T, w: seq<T>, b: T, t: seq<T>, kt: seq<bool>)
    requires |kt| == |t|
    ensures Select([a] + w + [b] + t, [true] + seq(|w|, _ => false) + [true] + kt) == [a, b] + Select(t, kt)
  {
    var drops := seq(|w|, _ => false);
    assert [a] + w + [b] + t == [a] + (w + ([b] + t));
    assert [true] + drops + [true] + kt == [true] + (drops + ([true] + kt));
    SelectCons(a, w + ([b] + t), true, drops + ([true] + kt));
    SelectSkip(w, [b] + t, [true] + kt);
    SelectCons(b, t, true, kt);
  }
}
