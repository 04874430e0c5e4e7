/**
 The entry-point step of the hover handler: if no line of the sample text
 starts with `fn main` followed by a word boundary (the pattern
 `/^fn main\b/m`), the sample becomes the body of a generated `fn main`, every
 line indented by four spaces (`replace(/^/gm, "    ")`).
 */
module MainWrap {
  import opened Chars
  import opened Text

  const Indentation: string := "    "
  const Header: string := "fn main() {\n"
  const Footer: string := "\n}"

  lemma IndentationIsBlank()
    ensures AllWhiteSpace(Indentation) && NoLineTerminator(Indentation)
  {
    assert forall k | 0 <= k < |Indentation| :: Indentation[k] == ' ';
  }

  /** `/^fn main\b/m` matches at position `i` of `s`: a line starts there, the
      next seven characters are `fn main`, and what follows is the end of the
      input or a character that is not a word character. */
  predicate MainAt(s: string, i: int) {
    && LineStart(s, i)
    && i + 7 <= |s|
    && s[i..i + 7] == "fn main"
    && (i + 7 == |s| || !IsWordChar(s[i + 7]))
  }

  /** `s.match(/^fn main\b/m)` is not null. */
  predicate HasMain(s: string) {
    exists i | 0 <= i <= |s| :: MainAt(s, i)
  }

  /** The part of the indentation after the first line: every line terminator
      is followed by four spaces. */
  function IndentRest(s: string): (r: string)
    ensures |r| == |s| + 4 * CountTerminators(s)
  {
    if |s| == 0 then ""
    else if IsLineTerminator(s[0]) then [s[0]] + Indentation + IndentRest(s[1..])
    else [s[0]] + IndentRest(s[1..])
  }

  lemma {:induction false} IndentRestConcat(x: string, y: string)
    ensures IndentRest(x + y) == IndentRest(x) + IndentRest(y)
  {
    if |x| == 0 {
      assert x + y == y;
    } else {
      assert (x + y)[0] == x[0];
      assert (x + y)[1..] == x[1..] + y;
      IndentRestConcat(x[1..], y);
    }
  }

  /** A single line gets no indentation after its start. */
  lemma {:induction false} IndentRestSingleLine(p: string)
    requires NoLineTerminator(p)
    ensures IndentRest(p) == p
  {
    if |p| > 0 {
      IndentRestSingleLine(p[1..]);
      assert [p[0]] + p[1..] == p;
    }
  }

  /** A text ending in a line terminator gets the indentation of the next line
      after it. */
  lemma IndentRestEndsLine(p: string, t: char)
    requires IsLineTerminator(t)
    ensures IndentRest(p + [t]) == IndentRest(p) + [t] + Indentation
  {
    IndentRestConcat(p, [t]);
    assert [t][1..] == "";
  }

  /** What precedes a sample line once the sample is indented, given the
      text `pre` before that line. */
  function IndentLead(pre: string): (lead: string)
    requires |pre| == 0 || IsLineTerminator(pre[|pre| - 1])
    ensures |lead| == 0 || IsLineTerminator(lead[|lead| - 1])
  {
    if |pre| == 0 then "" else Indentation + IndentRest(pre[..|pre| - 1]) + [pre[|pre| - 1]]
  }

  /** Where a sample line lands once the sample is indented: after the
      indented text before it and four spaces. */
  lemma IndentedLine(pre: string, line: string, post: string)
    requires |pre| == 0 || IsLineTerminator(pre[|pre| - 1])
    requires NoLineTerminator(line)
    ensures Indent(pre + line + post) == IndentLead(pre) + Indentation + line + IndentRest(post)
  {
    IndentRestSingleLine(line);
    if |pre| == 0 {
      IndentedFirstLine(line, post);
      assert pre + line + post == line + post;
    } else {
      IndentedLaterLine(pre, line, post);
    }
  }

  lemma IndentedFirstLine(line: string, post: string)
    requires NoLineTerminator(line)
    ensures Indent(line + post) == Indentation + line + IndentRest(post)
  {
    IndentRestConcat(line, post);
    IndentRestSingleLine(line);
  }

  lemma IndentedLaterLine(pre: string, line: string, post: string)
    requires |pre| > 0 && IsLineTerminator(pre[|pre| - 1])
    requires IndentRest(line) == line
    ensures Indent(pre + line + post) == IndentLead(pre) + Indentation + line + IndentRest(post)
  {
    var p0, t := pre[..|pre| - 1], pre[|pre| - 1];
    assert pre == p0 + [t];
    IndentRestAround(pre, line, post);
    IndentRestEndsLine(p0, t);
    var ip, tail := IndentRest(p0), line + IndentRest(post);
    assert Indentation + ((ip + [t] + Indentation) + tail)
        == (Indentation + ip + [t]) + Indentation + tail;
  }

  lemma IndentRestAround(pre: string, line: string, post: string)
    requires IndentRest(line) == line
    ensures IndentRest(pre + line + post) == IndentRest(pre) + (line + IndentRest(post))
  {
    assert pre + line + post == pre + (line + post);
    IndentRestConcat(pre, line + post);
    IndentRestConcat(line, post);
  }

  /** `s.replace(/^/gm, "    ")`: four spaces in front of every line. */
  function Indent(s: string): (r: string)
    ensures |r| == |s| + 4 * |Lines(s)|
  {
    LinesCount(s);
    Indentation + IndentRest(s)
  }

  /** Reference reading of `replace(/^/gm, ins)`: walk every position `i` of
      `s` from `from` to the end, inserting `ins` wherever `^` matches (the
      empty match at the very end included), then copying the character. */
  function InsertAtLineStarts(s: string, ins: string, from: nat): string
    requires from <= |s|
    decreases |s| - from
  {
    (if LineStart(s, from) then ins else "")
    + (if from == |s| then "" else [s[from]] + InsertAtLineStarts(s, ins, from + 1))
  }

  lemma {:induction false} IndentRestAgrees(s: string, from: nat)
    requires from <= |s|
    decreases |s| - from
    ensures InsertAtLineStarts(s, Indentation, from)
         == (if LineStart(s, from) then Indentation else "") + IndentRest(s[from..])
  {
    if from < |s| {
      IndentRestAgrees(s, from + 1);
      IndentRestFrom(s, from);
    }
  }

  /** `IndentRest` of a suffix takes its first character, then the
      indentation exactly where the next position starts a line. */
  lemma IndentRestFrom(s: string, from: nat)
    requires from < |s|
    ensures IndentRest(s[from..])
         == [s[from]] + ((if LineStart(s, from + 1) then Indentation else "") + IndentRest(s[from + 1..]))
  {
    var x := s[from..];
    assert x[0] == s[from] && x[1..] == s[from + 1..];
  }

  /** `Indent` inserts the four spaces exactly where the multiline anchor
      matches, as the global replace does. */
  lemma IndentIsReplaceAtLineStarts(s: string)
    ensures Indent(s) == InsertAtLineStarts(s, Indentation, 0)
  {
    IndentRestAgrees(s, 0);
    assert s[0..] == s;
  }

  /** Every line with the indentation in front. */
  function PrefixAll(ls: seq<string>): (r: seq<string>)
    ensures |r| == |ls|
  {
    seq(|ls|, k requires 0 <= k < |ls| => Indentation + ls[k])
  }

  lemma LinesAfterIndentation(x: string)
    ensures Lines(Indentation + x) == [Indentation + Lines(x)[0]] + Lines(x)[1..]
  {
    IndentationIsBlank();
    LinesAfterLinePart(Indentation, x);
  }

  lemma {:induction false} LinesIndentRest(s: string)
    ensures var l := Lines(s);
            Lines(IndentRest(s)) == [l[0]] + PrefixAll(l[1..])
  {
    if |s| > 0 {
      LinesIndentRest(s[1..]);
      LinesIndentRestStep(s[0], s[1..]);
      assert s == [s[0]] + s[1..];
    }
  }

  lemma LinesIndentRestStep(c: char, s: string)
    requires var l := Lines(s);
             Lines(IndentRest(s)) == [l[0]] + PrefixAll(l[1..])
    ensures var l := Lines([c] + s);
            Lines(IndentRest([c] + s)) == [l[0]] + PrefixAll(l[1..])
  {
    var l := Lines(s);
    LinesCons(c, s);
    IndentRestCons(c, s);
    if IsLineTerminator(c) {
      LinesIndentRestTerminator(c, s);
      assert ([""] + l)[1..] == l;
    } else {
      LinesIndentRestOther(c, s);
      var l2 := [[c] + l[0]] + l[1..];
      assert l2[0] == [c] + l[0] && l2[1..] == l[1..];
    }
  }

  lemma IndentRestCons(c: char, s: string)
    ensures IsLineTerminator(c) ==> IndentRest([c] + s) == [c] + (Indentation + IndentRest(s))
    ensures !IsLineTerminator(c) ==> IndentRest([c] + s) == [c] + IndentRest(s)
  {
    assert ([c] + s)[0] == c && ([c] + s)[1..] == s;
  }

  lemma PrefixAllCons(l: seq<string>)
    requires |l| >= 1
    ensures PrefixAll(l) == [Indentation + l[0]] + PrefixAll(l[1..])
  {
  }

  lemma LinesIndentRestTerminator(c: char, s: string)
    requires IsLineTerminator(c)
    requires Lines(IndentRest(s)) == [Lines(s)[0]] + PrefixAll(Lines(s)[1..])
    ensures Lines(IndentRest([c] + s)) == [""] + PrefixAll(Lines(s))
  {
    var l, x := Lines(s), IndentRest(s);
    IndentRestCons(c, s);
    LinesCons(c, Indentation + x);
    LinesAfterIndentation(x);
    assert Lines(x)[0] == l[0] && Lines(x)[1..] == PrefixAll(l[1..]);
    PrefixAllCons(l);
  }

  lemma LinesIndentRestOther(c: char, s: string)
    requires !IsLineTerminator(c)
    requires Lines(IndentRest(s)) == [Lines(s)[0]] + PrefixAll(Lines(s)[1..])
    ensures Lines(IndentRest([c] + s)) == [[c] + Lines(s)[0]] + PrefixAll(Lines(s)[1..])
  {
    var l, x := Lines(s), IndentRest(s);
    IndentRestCons(c, s);
    LinesCons(c, x);
    assert Lines(x)[0] == l[0] && Lines(x)[1..] == PrefixAll(l[1..]);
  }

  /** Line by line, the indented text is the original with four spaces in
      front of each line; in particular the number of lines is unchanged. */
  lemma IndentLines(s: string)
    ensures Lines(Indent(s)) == PrefixAll(Lines(s))
  {
    LinesIndentRest(s);
    LinesAfterIndentation(IndentRest(s));
    var l := Lines(s);
    assert PrefixAll(l) == [Indentation + l[0]] + PrefixAll(l[1..]);
  }

  /** Removes four leading spaces from every line that has them; the inverse
      of `Indent`. `atLineStart` says whether `s` begins a line. */
  function DedentFrom(s: string, atLineStart: bool): (r: string)
    ensures |r| <= |s|
    decreases |s|
  {
    if atLineStart && StartsWith(s, Indentation) then DedentFrom(s[4..], false)
    else if |s| == 0 then ""
    else [s[0]] + DedentFrom(s[1..], IsLineTerminator(s[0]))
  }

  function Dedent(s: string): (r: string)
    ensures |r| <= |s|
  {
    DedentFrom(s, true)
  }

  lemma {:induction false} DedentIndentRest(s: string)
    ensures DedentFrom(IndentRest(s), false) == s
  {
    if |s| > 0 {
      DedentIndentRest(s[1..]);
      DedentIndentRestStep(s[0], s[1..]);
      assert s == [s[0]] + s[1..];
    }
  }

  /** One character of `IndentRest` and the indentation it may add are undone. */
  lemma DedentIndentRestStep(c: char, s: string)
    requires DedentFrom(IndentRest(s), false) == s
    ensures DedentFrom(IndentRest([c] + s), false) == [c] + s
  {
    var x := IndentRest(s);
    assert ([c] + s)[0] == c && ([c] + s)[1..] == s;
    if IsLineTerminator(c) {
      assert IndentRest([c] + s) == [c] + (Indentation + x);
      DedentSkipsIndentation(x);
      DedentFirst(c, Indentation + x, false);
    } else {
      assert IndentRest([c] + s) == [c] + x;
      DedentFirst(c, x, false);
    }
  }

  lemma DedentSkipsIndentation(x: string)
    ensures DedentFrom(Indentation + x, true) == DedentFrom(x, false)
  {
    assert StartsWith(Indentation + x, Indentation);
    assert (Indentation + x)[4..] == x;
  }

  /** A character that does not begin an indentation is kept. */
  lemma DedentFirst(c: char, x: string, atLineStart: bool)
    requires !atLineStart
    ensures DedentFrom([c] + x, atLineStart) == [c] + DedentFrom(x, IsLineTerminator(c))
  {
    assert ([c] + x)[0] == c && ([c] + x)[1..] == x;
  }

  /** Stripping four leading spaces from every line recovers the original. */
  lemma DedentIndent(s: string)
    ensures Dedent(Indent(s)) == s
  {
    DedentIndentRest(s);
    assert (Indentation + IndentRest(s))[4..] == IndentRest(s);
  }

  /** The generated entry point around the indented sample. */
  function WrapMain(s: string): (r: string)
    ensures StartsWith(r, Header)
    ensures |r| >= |Header| + |Footer| && r[|r| - |Footer|..] == Footer
    ensures Dedent(r[|Header|..|r| - |Footer|]) == s
    ensures MainAt(r, 0)
  {
    var r := Header + Indent(s) + Footer;
    assert r[|Header|..|r| - |Footer|] == Indent(s);
    assert r[..|Header|] == Header;
    assert r[0..7] == "fn main";
    DedentIndent(s);
    r
  }

  lemma LinesFooter()
    ensures Lines(Footer) == ["", "}"]
  {
    LinesSingle("}");
    LinesCons('\n', "}");
    assert Footer == ['\n'] + "}";
  }

  lemma LinesHeaderThen(x: string)
    ensures Lines(Header + x) == ["fn main() {"] + Lines(x)
  {
    assert NoLineTerminator("fn main() {");
    LinesPrependLine("fn main() {", x);
    assert Header + x == "fn main() {" + "\n" + x;
  }

  lemma LinesThenFooter(x: string)
    ensures Lines(x + Footer) == Lines(x) + ["}"]
  {
    LinesFooter();
    LinesConcat(x, Footer);
    var l := Lines(x);
    var n := |l| - 1;
    assert Fuse(l, ["", "}"]) == l[..n] + [l[n] + ""] + ["}"];
    assert l[n] + "" == l[n];
    assert l[..n] + [l[n]] == l;
  }

  /** The wrapped text, line by line: the `fn main() {` line, every sample line
      indented, and the closing `}` line. */
  lemma WrapMainLines(s: string)
    ensures Lines(WrapMain(s)) == ["fn main() {"] + PrefixAll(Lines(s)) + ["}"]
  {
    IndentLines(s);
    LinesHeaderThen(Indent(s));
    LinesThenFooter(Header + Indent(s));
  }

  /** The generated stub for an empty sample. */
  lemma WrapMainEmpty()
    ensures WrapMain("") == "fn main() {\n    \n}"
  {
  }

  /** The hover handler's check-and-wrap step: the sample is kept as it is
      when a line already starts with `fn main`, and wrapped otherwise. */
  function CheckAndWrap(s: string): (r: string)
    ensures r == s <==> HasMain(s)
    ensures HasMain(r)
    ensures !HasMain(s) ==>
              && StartsWith(r, Header) && |r| >= |Header| + |Footer|
              && Dedent(r[|Header|..|r| - |Footer|]) == s
  {
    if HasMain(s) then s
    else
      var w := WrapMain(s);
      assert 0 <= 0 <= |w| && MainAt(w, 0);
      w
  }

  /** The check-and-wrap step is idempotent. */
  lemma CheckAndWrapIdempotent(s: string)
    ensures CheckAndWrap(CheckAndWrap(s)) == CheckAndWrap(s)
  {
  }
}
