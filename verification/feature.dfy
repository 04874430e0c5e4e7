/**
 The feature-gate test that picks the playground channel.

 The source writes the pattern as the string literal
 `'^\s*#!\\[feature\\(\.*?\\)\\]'`. In a JavaScript string `\s` and `\.` are
 not escapes and stand for `s` and `.`, so the regular expression actually
 built is `^s*#!\[feature\(.*?\)\]`, without the `m` flag: optional letters
 `s` at the very start of the input, then `#![feature(`, then any characters
 other than line terminators, then `)]`.

 `FeatureIntended` is the pattern with the escapes its author evidently meant
 and the multiline flag: `/^\s*#!\[feature\(.*?\)\]/m`.
 */
module Feature {
  import opened Chars

  const FeatureOpen: string := "#![feature("
  const FeatureClose: string := ")]"

  /** The common tail `#!\[feature\(.*?\)\]` of both patterns, with
      `#![feature(` at `k` and the closing `)]` at `j`. */
  predicate FeatureAttrAt(s: string, k: int, j: int) {
    && 0 <= k
    && k + |FeatureOpen| <= j
    && j + |FeatureClose| <= |s|
    && s[k..k + |FeatureOpen|] == FeatureOpen
    && NoLineTerminator(s[k + |FeatureOpen|..j])
    && s[j..j + |FeatureClose|] == FeatureClose
  }

  /** True iff every character of `s` is the letter `s` (the as-written `s*`). */
  predicate AllLetterS(s: string) {
    forall m | 0 <= m < |s| :: s[m] == 's'
  }

  /** `featureRegexp.test(code)` for the regular expression the source builds. */
  predicate FeatureAsWritten(code: string) {
    exists k, j | 0 <= k <= j <= |code| :: AllLetterS(code[..k]) && FeatureAttrAt(code, k, j)
  }

  /** `/^\s*#!\[feature\(.*?\)\]/m.test(s)`. */
  predicate FeatureIntended(s: string) {
    exists i, k, j | 0 <= i <= k <= j <= |s| ::
      LineStart(s, i) && AllWhiteSpace(s[i..k]) && FeatureAttrAt(s, k, j)
  }

  /** The as-written pattern can only match an input that starts with the
      letter `s` or with `#![feature(` itself. */
  lemma AsWrittenNeedsFeatureFirst(code: string)
    ensures FeatureAsWritten(code) ==>
              (|code| > 0 && code[0] == 's') || StartsWith(code, FeatureOpen)
  {
    if FeatureAsWritten(code) {
      var k, j :| 0 <= k <= j <= |code| && AllLetterS(code[..k]) && FeatureAttrAt(code, k, j);
      if k > 0 {
        assert code[..k][0] == code[0];
      } else {
        assert code[..|FeatureOpen|] == code[k..k + |FeatureOpen|];
      }
    }
  }

  /** A line of `s` that, after optional whitespace, holds
      `#![feature(<attr>)]` satisfies the intended pattern. */
  lemma IntendedFindsFeatureLine(pre: string, blank: string, attr: string, post: string)
    requires |pre| == 0 || IsLineTerminator(pre[|pre| - 1])
    requires AllWhiteSpace(blank)
    requires NoLineTerminator(attr)
    ensures FeatureIntended(pre + blank + FeatureOpen + attr + FeatureClose + post)
  {
    var s := pre + blank + FeatureOpen + attr + FeatureClose + post;
    var i := |pre|;
    var k := i + |blank|;
    var j := k + |FeatureOpen| + |attr|;
    assert s[i..k] == blank;
    assert s[k..k + |FeatureOpen|] == FeatureOpen;
    assert s[k + |FeatureOpen|..j] == attr;
    assert s[j..j + |FeatureClose|] == FeatureClose;
    assert i > 0 ==> s[i - 1] == pre[|pre| - 1];
    assert LineStart(s, i) && AllWhiteSpace(s[i..k]) && FeatureAttrAt(s, k, j);
  }
}
