# Run links for Rust code samples

A model of the hover-to-run script `js/playpen.198.js`. The script is used by
the CIS 198 course slides. When the pointer enters a `code.rust` element, the
mouse-over handler builds a link to the Rust playground:

1. It joins the text of every child node, each followed by a newline, and
   trims the result.
2. It wraps the sample in `fn main() { … }`, indenting every line by four
   spaces, unless some line already starts with `fn main` at a word boundary.
3. It puts `#![allow(dead_code)]` on a line in front.
4. It picks the nightly channel when a feature-gate regular expression
   matches.
5. It appends a `Run` anchor whose `href` is
   `playgroundUrl + "?code=" + encodeURIComponent(code) + channel`.

When the pointer leaves, the mouse-out handler removes the first such anchor.

The feature test as the source writes it never matches (see "## Findings").
`Playpen.Href` and its lemmas model that test as written, and
`Hover.MouseOverAsWritten` is the hover handler built on it. `Hover.MouseOver`
is the handler with the corrected test, `Playpen.HrefIntended`; the replay of
pointer paths uses it. `Hover.AsWrittenDiffersOnFeature` states that the two
handlers differ exactly on code holding a `#![feature(…)]` line.

The modules follow those steps:

- `Chars`: the JavaScript whitespace, line-terminator and word-character sets.
- `Results`: `Option` and `Result`. The script's own failure is the TypeError of `removeChild(undefined)` in the mouse-out handler. URIError is raised only by the model's `decodeURIComponent`, which the script never calls.
- `Text`: `String.prototype.trim` and the lines that the multiline anchor `^` sees.
- `Sample`: joining and trimming the child texts.
- `MainWrap`: the `fn main` test, the indentation and the wrapping.
- `Feature`: the feature-gate pattern as the source builds it, and as its author meant it.
- `Uri`:
  - `encodeURIComponent`, following section 15.1.3.4 of ECMA-262 5.1;
  - `decodeURIComponent`, following section 15.1.3.2, which serves as the encoder's inverse.
- `Playpen`: the built code and the link target.
- `Hover`:
  - the child list of one element under the two handlers;
  - a replay of a whole pointer path over the element.

Characters are Unicode scalar values, so strings hold no lone surrogates.

The source calls `code.match(/^fn main\b/m)`. `MainWrap.HasMain` states that
test directly: some position starts a line, `fn main` follows, and then the
input ends or a non-word character follows.

The feature test is applied to the final code, the one that begins with
`#![allow(dead_code)]`, as line 49 of the source does.

## Model

| member | source | states |
|---|---|---|
| Sample.CollectText | js/playpen.198.js:36-39 | The accumulation loop produces each child text followed by a newline, in child order (its result equals the recursive `JoinChildren`). |
| Sample.JoinChildrenConcat | js/playpen.198.js:36-39 | Joining two runs of children equals joining each run and concatenating the two results. |
| Sample.ChildTextInPlace | js/playpen.198.js:36-39 | Every child's text appears whole, followed by a newline, right after the joined texts of the children before it. |
| Sample.SampleText | js/playpen.198.js:36-40 | The sample text has no whitespace at either end and never ends in a newline. It is the joined text minus some whitespace at each end. |
| Sample.SingleChildSample | js/playpen.198.js:36-40 | A single child with nothing to trim yields exactly its own text. |
| Text.Trim | js/playpen.198.js:40 | The trimmed string starts and ends with a non-whitespace character, or is empty. Only whitespace lies around it in the input. |
| Text.TrimUnique | js/playpen.198.js:40 | Only one infix of `s` has non-whitespace ends and nothing but whitespace around it, and it is `Trim(s)`. So the contract of `Trim` determines its result. |
| Text.TrimNothing | js/playpen.198.js:40 | A string that neither starts nor ends with whitespace is left unchanged. |
| Text.TrimIdempotent | js/playpen.198.js:40 | Trimming twice is the same as trimming once. |
| Text.TrimAllWhiteSpace | js/playpen.198.js:40 | A string made only of whitespace trims to the empty string. |
| MainWrap.IndentRest | js/playpen.198.js:44 | Indenting after the first line adds four characters per line terminator. |
| MainWrap.Indent | js/playpen.198.js:44 | The indented text is four characters longer per line of the input. |
| MainWrap.IndentIsReplaceAtLineStarts | js/playpen.198.js:44 | The indentation equals inserting four spaces at every position where the multiline `^` matches, including the empty match at the end, as `replace(/^/gm, "    ")` does. |
| MainWrap.IndentLines | js/playpen.198.js:44 | Line by line, the indented text is the original with four spaces in front of each line, so the number of lines is preserved. |
| MainWrap.DedentIndent | js/playpen.198.js:44 | Removing four leading spaces from every line recovers the original text. |
| MainWrap.WrapMain | js/playpen.198.js:44 | The wrapped text starts with `fn main() {` and a newline, and ends with a newline and `}`. Dedenting what lies between gives back the sample. A `fn main` match sits at position 0. |
| MainWrap.WrapMainLines | js/playpen.198.js:44 | The wrapped text's lines are `fn main() {`, every sample line indented by four spaces, then `}`. |
| MainWrap.WrapMainEmpty | js/playpen.198.js:44 | The empty sample becomes `fn main() {\n    \n}`. |
| MainWrap.CheckAndWrap | js/playpen.198.js:42-45 | The sample is left unchanged if and only if it has a line starting with `fn main` at a word boundary. The result always has such a line. A wrapped result dedents back to the sample. |
| MainWrap.CheckAndWrapIdempotent | js/playpen.198.js:42-45 | Checking and wrapping twice is the same as doing it once. |
| Playpen.BuildCode | js/playpen.198.js:42-46 | The code always starts with `#![allow(dead_code)]` and a newline. The rest is the sample exactly when the sample has a `fn main` line. The rest always has a `fn main` line. |
| Playpen.BuildCodeLines | js/playpen.198.js:42-46 | The code's lines are the directive line followed by the sample's lines. For a sample without `fn main`, they are the directive line, `fn main() {`, the indented sample lines and `}`. |
| Playpen.WrapExample | js/playpen.198.js:42-46 | The sample `fn foo() {}` becomes the directive line, `fn main() {`, the sample indented by four spaces, and `}`. |
| Feature.AsWrittenNeedsFeatureFirst | js/playpen.198.js:23 | The pattern the source builds matches only inputs that start with the letter `s` or with `#![feature(`. |
| Feature.IntendedFindsFeatureLine | js/playpen.198.js:23 | The intended pattern matches any line that holds `#![feature(…)]` after optional whitespace. |
| Playpen.DirectiveDefeatsAsWritten | js/playpen.198.js:23 | The pattern as built never matches text that starts with `#![allow(dead_code)]`. |
| Playpen.ChannelAlwaysEmpty | js/playpen.198.js:46-51 | The feature test as written is false on every built code, so the channel is always empty. |
| Playpen.Href | js/playpen.198.js:53-54 | The link target starts with the base URL and `?code=`. Everything after that is `encodeURIComponent` of the built code, so the channel is empty. That text is a well-formed percent-encoding that decodes back to the built code. |
| Playpen.EncodedAfter | js/playpen.198.js:53-54 | In `prefix + encodeURIComponent(code)`, what follows the prefix is a well-formed payload that decodes to `code`. |
| Playpen.PayloadNotNightly | js/playpen.198.js:53-54 | A percent-encoded payload cannot end with `&version=nightly`, because it never holds `&`. |
| Playpen.HrefNeverNightly | js/playpen.198.js:48-54 | As written, no link target asks for the nightly channel. |
| Playpen.HrefIntended | js/playpen.198.js:48-54 | With the intended test, the link target ends with `&version=nightly` if and only if some line of the code is a `#![feature(…)]` attribute. Between `?code=` and the channel lies `encodeURIComponent` of the code, which decodes back to it. |
| Playpen.FeatureLineUnwrapped | js/playpen.198.js:42-51 | A `#![feature(…)]` line in a sample that is kept unwrapped is found by the intended test. |
| Playpen.FeatureLineWrapped | js/playpen.198.js:42-51 | A `#![feature(…)]` line in a sample that gets wrapped is still found by the intended test once indented. |
| Playpen.FeatureLineSelectsNightly | js/playpen.198.js:48-54 | With the intended test and any base URL, a sample holding a `#![feature(…)]` line gets the nightly channel. |
| Playpen.BoxSyntaxExample | js/playpen.198.js:48-54 | For the sample `#![feature(box_syntax)]`, the intended test picks nightly and the test as written does not. |
| Uri.Encode | js/playpen.198.js:54 | The encoding is a run of unreserved characters and `%XY` triples with upper-case hexadecimal digits, and is no shorter than its input. |
| Uri.EncodeConcat | js/playpen.198.js:54 | Encoding works character by character: the encoding of a concatenation is the concatenation of the encodings. |
| Uri.EncodeURIComponent | js/playpen.198.js:54 | The loop of the Encode operation computes the same result as `Encode`. |
| Uri.PayloadCharacters | js/playpen.198.js:54 | Every character of a payload is unreserved, `%`, or an upper-case hexadecimal digit. |
| Uri.PayloadIsQuerySafe | js/playpen.198.js:54 | A payload contains none of `&`, `=`, `#`, `?`, space or `+`. |
| Uri.EncodeUnreserved | js/playpen.198.js:54 | A string made only of unreserved characters is its own encoding. |
| Uri.DecodeEncode | js/playpen.198.js:54 | `decodeURIComponent(encodeURIComponent(s))` gives back `s` without error. |
| Uri.EncodeInjective | js/playpen.198.js:54 | Different code yields different payloads. |
| Hover.ChildTextsConcat | js/playpen.198.js:37-38 | Reading the texts of two runs of children reads the first run, then the second. |
| Hover.RehoverReadsRun | js/playpen.198.js:34-38 | A second mouse-over with no mouse-out in between reads the texts of the original children, then the label `Run` of the link added before. |
| Hover.MouseOver | js/playpen.198.js:27-57 | Coming from inside the element changes nothing. Otherwise, exactly one `Run` link is appended as the last child, all earlier children are kept, and the number of links grows by one. |
| Hover.MouseOverAsWritten | js/playpen.198.js:27-57 | The handler as written: it changes nothing when the pointer comes from inside. Otherwise it appends one `Run` link after the kept children. The link's target is the base URL, `?code=` and `encodeURIComponent` of the code built from the element's text, and it never ends with `&version=nightly`. |
| Hover.AsWrittenDiffersOnFeature | js/playpen.198.js:23-54 | The handler as written and the corrected one produce the same children if and only if the element's code has no `#![feature(…)]` line. |
| Hover.OverLinkCarriesCode | js/playpen.198.js:32-57 | After `?code=`, the appended link's target holds `encodeURIComponent` of the code built from the element's text, which decodes back to that code. The target ends with `&version=nightly` if and only if a line of that code is a `#![feature(…)]` attribute (the corrected test). |
| Hover.FirstRunLink | js/playpen.198.js:65 | The position found is a `Run` link with no link before it. |
| Hover.FirstRunLinkIs | js/playpen.198.js:65 | A link preceded only by content is the one found first. |
| Hover.MouseOut | js/playpen.198.js:60-66 | Moving to inside the element changes nothing. Otherwise, the handler throws a TypeError if and only if there is no link. When there is one, it removes exactly the first link, keeps every other child in order, and the number of links drops by one. |
| Hover.OutRemovesTheLink | js/playpen.198.js:60-66 | Leaving removes the one link appended after link-free children. |
| Hover.OverThenOutRestores | js/playpen.198.js:27-66 | Entering an element without a link and then leaving it restores its children exactly. |
| Hover.PointerPathKeepsOneLink | js/playpen.198.js:27-66 | Along any valid pointer path, no handler throws. While the pointer is over the element, its children are the original ones plus one trailing link; otherwise they are the original ones. |
| Hover.SessionRestores | js/playpen.198.js:27-66 | A session that starts outside an element without a link never throws. It leaves one link while the pointer is over the element and none otherwise, and the original children once the pointer is outside. |

## Left out

- The `DOMContentLoaded` listener and the `querySelectorAll('code.rust')` loop are browser plumbing. The model treats one element at a time.
- Event dispatch and `el.contains(e.relatedTarget)` are reduced to a boolean parameter of each handler. `Hover.PointerPath` states which orders of events the model admits.
- `createElement`, `setAttribute('class', …)`, `textContent = 'Run'` and `target="_blank"` are DOM side effects. A link is a node holding its `href`.
- The `window.playgroundUrl` guard is an early return. The base URL is a parameter.
- `querySelectorAll('a.test-arrow')` also searches descendants, not just direct children. The model's content nodes hold no anchors.
- Navigation to the playground is left out.
- The model has no general regular-expression engine. The three patterns the script uses are written out as predicates.
- Whitespace follows the ECMAScript WhiteSpace and LineTerminator sets, with the current Unicode space separators.
- Hover.MouseOver: builds its link with the corrected feature test (`Playpen.HrefIntended`), not the test as written, so on code holding a `#![feature(…)]` line its link asks for nightly where the source's does not. The handler as written is `Hover.MouseOverAsWritten`, and `Hover.AsWrittenDiffersOnFeature` states exactly where the two differ.
- The URIError that `encodeURIComponent` raises for a lone surrogate cannot arise, because characters are Unicode scalar values.

## Findings

| source | as written | input that shows it | evidently intended | confidence | as-written member | corrected member |
|---|---|---|---|---|---|---|
| js/playpen.198.js:23 | The pattern is built from the string literal `'^\s*#!\\[feature\\(\.*?\\)\\]'`, in which `\s` and `\.` are not escapes. The regular expression is therefore `^s*#!\[feature\(.*?\)\]`, with no multiline flag. It is tested on code that always starts with `#![allow(dead_code)]`, so it never matches and the nightly channel is never chosen. | The sample `#![feature(box_syntax)]` (`Playpen.BoxSyntaxExample`) | `/^\s*#!\[feature\(.*?\)\]/m`: pick nightly when any line of the code is a `#![feature(…)]` attribute after optional whitespace | not executed | Playpen.HrefNeverNightly | Playpen.HrefIntended |
