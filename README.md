# minfile: whitespace minification of markup text

`minfile` shrinks XML and HTML documents by deleting whitespace. Its function
`minify` (`minfile/src/minify_markup_language.rs:37-43`) applies two fixed
regular-expression substitutions to the whole text, one after the other,
each with the `regex` crate's `replace_all`:

1. `>[\r\n ]+<` becomes `><`. This removes line breaks, carriage returns and
   spaces between a closing `>` and the next `<`. Tabs are not in the class.
2. `\s\B` becomes the empty string. `\B` is zero-width and judged on the
   text this pass receives. So a whitespace character is deleted exactly when
   the character after it is not a word character. A whitespace character at
   the end of the text is deleted as well.

This Dafny project models the two passes as recursive scanners over
`seq<char>`. It then proves what the minifier promises: it only deletes
whitespace, what survives follows a simple rule, minifying again changes
nothing, and the documentation example and the four unit tests give the
outputs they expect.

Files:

- `chars.dfy`, module `CharClasses`: the word class `[A-Za-z0-9_]`, the
  whitespace class, the inter-tag class `[\r\n ]`, and `\b`/`\B`.
- `sequences.dfy`, module `Sequences`: `Select`, which filters a sequence
  by a mask. It is the reference form both passes are specified against.
  This module also holds the subsequence relation.
- `minify.dfy`, module `MinifyMarkupLanguage`: `Pass1`, `Pass2`, `Minify`
  and their properties.
- `minify_tests.dfy`, module `MinifyTests`: the documentation example, the
  four unit tests of `minify_markup_language.rs`, and fragments of those
  tests that each show one rule.

The central result is `Pass1SubsumedByPass2`: `Pass2(Pass1(s)) == Pass2(s)`
for every text. Every character pass 1 deletes is whitespace followed by
whitespace or `<`, so pass 2 would delete it anyway. Pass 1 never changes the
character after a whitespace character it keeps. From this, the properties of
`minify` follow from those of pass 2 alone.

## Model

| member | source | states |
|---|---|---|
| `CharClasses.GapCharIsSpace` | minfile/src/minify_markup_language.rs:39-42 | `\r`, `\n` and space are whitespace; no whitespace character is a word character, `<` or `>` |
| `MinifyMarkupLanguage.GapRunLengthSpec` | minfile/src/minify_markup_language.rs:39 | the greedy `[\r\n ]+` run at the start of a text consists only of `\r`, `\n` and spaces and cannot be extended |
| `MinifyMarkupLanguage.Pass1` | minfile/src/minify_markup_language.rs:39 | pass 1 never lengthens the text and never changes its first character |
| `MinifyMarkupLanguage.Pass1Spec` | minfile/src/minify_markup_language.rs:39 | pass 1 keeps exactly the characters that do not lie strictly inside a `>`, `[\r\n ]`-only, `<` span; every character it removes is `\r`, `\n` or a space, so tabs between tags stay |
| `MinifyMarkupLanguage.Pass1CollapsesGap` | minfile/src/minify_markup_language.rs:39 | any `>` followed by a non-empty run of `\r`, `\n`, spaces and then `<` becomes exactly `><`, and the text on either side is processed as if on its own |
| `MinifyMarkupLanguage.Pass1SplitBefore` | minfile/src/minify_markup_language.rs:39 | a character outside `[\r\n <]` cannot be inside or end a match, so pass 1 processes the text before it and the text from it independently |
| `MinifyMarkupLanguage.Pass2` | minfile/src/minify_markup_language.rs:42 | pass 2 never lengthens the text and keeps a leading non-whitespace character |
| `MinifyMarkupLanguage.Pass2Cons` | minfile/src/minify_markup_language.rs:42 | one step of `\s\B` with the boundary test worked out: a character is deleted exactly when it is whitespace and the next character is not a word character (or there is none) |
| `MinifyMarkupLanguage.Pass2Spec` | minfile/src/minify_markup_language.rs:42 | pass 2 equals filtering by the mask "not whitespace, or followed by a word character"; only whitespace is removed; a whitespace character is kept if and only if the next character of the pass-2 input is a word character |
| `MinifyMarkupLanguage.Pass2OutputInvariant` | minfile/src/minify_markup_language.rs:42 | in the output of pass 2 every whitespace character is immediately followed by a word character |
| `MinifyMarkupLanguage.Pass2Fixpoint` | minfile/src/minify_markup_language.rs:42 | pass 2 leaves a text unchanged if and only if every whitespace character in it precedes a word character |
| `MinifyMarkupLanguage.Pass2Append` | minfile/src/minify_markup_language.rs:42 | text followed by a non-word character or by nothing is processed by pass 2 independently of what follows |
| `MinifyMarkupLanguage.Pass2SplitAfter` | minfile/src/minify_markup_language.rs:42 | a non-whitespace character splits pass 2 into the text up to it and the text after it |
| `MinifyMarkupLanguage.Pass2AtSpace` | minfile/src/minify_markup_language.rs:42 | a single whitespace character survives pass 2 exactly when a word character follows it |
| `MinifyMarkupLanguage.Pass2SpaceRun` | minfile/src/minify_markup_language.rs:42 | a whitespace run shrinks to its last character when a word character follows it and disappears otherwise |
| `MinifyMarkupLanguage.Pass2DropsLeadingSpace` | minfile/src/minify_markup_language.rs:42 | whitespace in front of a non-word character, or at the end, is removed completely |
| `MinifyMarkupLanguage.Pass2DropsTrailingSpace` | minfile/src/minify_markup_language.rs:42 | whitespace at the end of the text is removed completely |
| `MinifyMarkupLanguage.Minify` | minfile/src/minify_markup_language.rs:37-43 | `minify` never lengthens the text |
| `MinifyMarkupLanguage.Pass1SubsumedByPass2` | minfile/src/minify_markup_language.rs:39-42 | pass 2 after pass 1 gives the same text as pass 2 alone |
| `MinifyMarkupLanguage.MinifySpec` | minfile/src/minify_markup_language.rs:37-43 | `minify` keeps exactly the non-whitespace characters and the whitespace characters followed by a word character in its input, in order |
| `MinifyMarkupLanguage.MinifyOnlyDeletesWhitespace` | minfile/src/minify_markup_language.rs:37-43 | the output is an order-preserving subsequence of the input, no longer than it, with the same non-whitespace characters in the same order |
| `MinifyMarkupLanguage.MinifyOutputInvariant` | minfile/src/minify_markup_language.rs:37-43 | every whitespace character of the output precedes a word character; no `>`, whitespace, `<` span remains; the output does not end in whitespace; pass 1 leaves it unchanged |
| `MinifyMarkupLanguage.MinifyIdempotent` | minfile/src/minify_markup_language.rs:37-43 | minifying a minified text changes nothing |
| `MinifyMarkupLanguage.MinifyFixpoint` | minfile/src/minify_markup_language.rs:37-43 | `minify` leaves a text unchanged if and only if every whitespace character in it precedes a word character |
| `MinifyMarkupLanguage.MinifyAtSpace` | minfile/src/minify_markup_language.rs:37-43 | a single whitespace character survives exactly when a word character follows it, and each side is minified independently |
| `MinifyMarkupLanguage.MinifySplitAfter` | minfile/src/minify_markup_language.rs:37-43 | a non-whitespace character is kept, and each side of it is minified independently |
| `MinifyMarkupLanguage.MinifyNoSpace` | minfile/src/minify_markup_language.rs:37-43 | text without whitespace is returned unchanged |
| `MinifyMarkupLanguage.MinifySpaceRun` | minfile/src/minify_markup_language.rs:37-43 | a whitespace run becomes its last character before a word character, as between two attributes, and vanishes otherwise |
| `MinifyMarkupLanguage.MinifySpaceThenText` | minfile/src/minify_markup_language.rs:37-43 | a whitespace run and the whitespace-free text after it leave that text, plus the run's last character when the text starts with a word character |
| `MinifyMarkupLanguage.MinifyDropsLeadingSpace` | minfile/src/minify_markup_language.rs:37-43 | whitespace at the start of a document is removed when the first other character is not a word character |
| `MinifyMarkupLanguage.MinifyDropsTrailingSpace` | minfile/src/minify_markup_language.rs:37-43 | whitespace at the end of a document is removed |
| `MinifyTests.DocExample` | minfile/src/minify_markup_language.rs:34-35 | `minify("<class><element   /> </class>")` is `<class><element/></class>` |
| `MinifyTests.AttributeRun` | minfile/src/minify_markup_language.rs:93 | the run of spaces between `version="1.0"` and `encoding` becomes one space, and the space before `?>` goes |
| `MinifyTests.CommentText` | minfile/src/minify_markup_language.rs:98 | `<description>The best comment</description>` is left unchanged |
| `MinifyTests.StyleRule` | minfile/src/minify_markup_language.rs:124 | `<style>a { pointer-events: none; }</style>` becomes `<style>a{ pointer-events: none;}</style>` |
| `MinifyTests.StyleAttribute` | minfile/src/minify_markup_language.rs:127 | `style="background-color: red;"` is left unchanged |
| `MinifyTests.BasicXml` | minfile/src/minify_markup_language.rs:51-63 | `test_basic_xml`: the input minifies to the expected output |
| `MinifyTests.BasicHtml` | minfile/src/minify_markup_language.rs:66-87 | `test_basic_html`: the input minifies to the expected output, with leading and trailing whitespace and indentation between tags gone |
| `MinifyTests.ComplexXml` | minfile/src/minify_markup_language.rs:90-116 | `test_complex_xml`: the input minifies to the expected output |
| `MinifyTests.ComplexHtml` | minfile/src/minify_markup_language.rs:119-141 | `test_complex_html`: the input minifies to the expected output |

In `MinifyTests` each input and expected output is a constant written as a
concatenation. The pieces are the whitespace runs and the text between them,
in order. Joined, they are exactly the string literals of the tests.

## Left out

- The general regex engine. `apply_regular_expression_to_content`
  (`minify_markup_language.rs:16-22`) compiles any pattern with the foreign
  `regex` crate. The model has only the two fixed patterns `minify` passes to
  it, each written out as its own scanner (`Pass1`, `Pass2`).
- The `unwrap` on `Regex::new` (`:18`). It cannot fail for these two fixed
  patterns, so there is no error path to model.
- The other example in that function's documentation, which removes digits
  with `[0-9]+` (`:13-14`). It uses a pattern `minify` never uses.
- Unicode character classes. The `regex` crate's `\s`, `\w` and
  `\b`/`\B` are Unicode-aware by default. The model restricts them to ASCII:
  word characters are `[A-Za-z0-9_]`, and whitespace is space, tab, line
  feed, carriage return, vertical tab and form feed. On ASCII text the two
  agree. Non-ASCII whitespace such as U+00A0, and non-ASCII letters next to
  whitespace, are treated differently.
- Rust's `String`/`&str` representation. Text is a sequence of characters,
  and UTF-8 encoding is not modelled.
- `minfile/tests/integration_tests.rs` is not part of this model. It reads
  fixture files from disk, builds their names, and compares `minify`'s output
  against files that are not shown. It adds no minification logic.
- The expected outputs in `MinifyTests` are not compared with the tests'
  string literals in one piece. Each is written as the concatenation of its
  pieces instead, which is equal to the literal character for character.
  Proving that equality on the long literals costs more than the verifier
  allows.
