/**
 Character classes used by the two substitution patterns of the minifier.

 The patterns are compiled by Rust's `regex` crate, whose `\s`, `\w` and
 `\b`/`\B` are Unicode-aware by default (`\s` is the Unicode White_Space
 property, `\w` covers every Unicode letter, mark, digit and connector
 punctuation). This model restricts both classes to ASCII; on ASCII input the
 two agree.
 */
module CharClasses {

  /** `\w` restricted to ASCII: `[A-Za-z0-9_]`. */
  predicate IsWord(c: char)
  {
    ('A' <= c <= 'Z') || ('a' <= c <= 'z') || ('0' <= c <= '9') || c == '_'
  }

  /** `\s` restricted to ASCII: space, tab, line feed, carriage return,
      vertical tab and form feed. */
  predicate IsSpace(c: char)
  {
    c == ' ' || c == '\t' || c == '\n' || c == '\r' || c == '\U{B}' || c == '\U{C}'
  }

  /** The character class `[\r\n ]` of the inter-tag pattern (no tab). */
  predicate IsGapChar(c: char)
  {
    c == '\r' || c == '\n' || c == ' '
  }

  lemma GapCharIsSpace(c: char)
    ensures IsGapChar(c) ==> IsSpace(c)
    ensures IsSpace(c) ==> !IsWord(c) && c != '<' && c != '>'
  {
  }

  /** Every character of `s` is whitespace. */
  predicate AllSpace(s: seq<char>)
  {
    forall i :: 0 <= i < |s| ==> IsSpace(s[i])
  }

  /** Whether position `q` of `s` holds a word character; positions outside
      the text count as non-word, as they do for `\b`. */
  predicate WordAt(s: seq<char>, q: int)
  {
    0 <= q < |s| && IsWord(s[q])
  }

  /** `\b` at the position between `s[p-1]` and `s[p]`: exactly one side is a
      word character. */
  predicate IsWordBoundary(s: seq<char>, p: int)
    requires 0 <= p <= |s|
  {
    WordAt(s, p - 1) != WordAt(s, p)
  }
}
