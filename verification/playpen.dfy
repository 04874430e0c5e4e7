/**
 The text pipeline of the mouse-over handler: from the sample text to the
 code sent to the playground, and from that code to the link's `href`.
 */
module Playpen {
  import opened Chars
  import opened Text
  import opened MainWrap
  import opened Feature
  import opened Uri
  import opened Results

  /** The attribute line put in front of every program. */
  const Directive: string := "#![allow(dead_code)]\n"
  const DirectiveLine: string := "#![allow(dead_code)]"
  /** The query parameter that selects the nightly compiler. */
  const NightlyChannel: string := "&version=nightly"
  const CodeParam: string := "?code="

  /** The code the hover handler sends: the directive line, then the sample,
      wrapped in `fn main` when it has no `fn main` line of its own. */
  function BuildCode(sample: string): (r: string)
    ensures StartsWith(r, Directive)
    ensures HasMain(sample) <==> r[|Directive|..] == sample
    ensures HasMain(r[|Directive|..])
  {
    var body := CheckAndWrap(sample);
    var r := Directive + body;
    assert r[|Directive|..] == body;
    r
  }

  /** Line by line, the built code is the directive line followed by the
      sample, or by the generated `fn main` with every sample line indented. */
  lemma BuildCodeLines(sample: string)
    ensures HasMain(sample) ==> Lines(BuildCode(sample)) == [DirectiveLine] + Lines(sample)
    ensures !HasMain(sample) ==>
              Lines(BuildCode(sample))
              == [DirectiveLine, "fn main() {"] + PrefixAll(Lines(sample)) + ["}"]
  {
    if HasMain(sample) {
      LinesAfterDirective(sample);
    } else {
      var w := WrapMain(sample);
      assert BuildCode(sample) == Directive + w;
      LinesAfterDirective(w);
      WrapMainLines(sample);
      var m := PrefixAll(Lines(sample));
      assert [DirectiveLine] + (["fn main() {"] + m + ["}"]) == [DirectiveLine, "fn main() {"] + m + ["}"];
    }
  }

  lemma LinesAfterDirective(body: string)
    ensures Lines(Directive + body) == [DirectiveLine] + Lines(body)
  {
    assert NoLineTerminator(DirectiveLine);
    assert Directive == DirectiveLine + "\n";
    LinesPrependLine(DirectiveLine, body);
  }

  /** The channel suffix the source picks with its feature test as written. */
  function Channel(code: string): string {
    if FeatureAsWritten(code) then NightlyChannel else ""
  }

  /** The feature test as written never succeeds on built code: the code
      begins with `#![allow(`, neither the letter `s` nor `#![feature(`. */
  lemma ChannelAlwaysEmpty(sample: string)
    ensures !FeatureAsWritten(BuildCode(sample))
    ensures Channel(BuildCode(sample)) == ""
  {
    DirectiveDefeatsAsWritten(BuildCode(sample));
  }

  lemma DirectiveDefeatsAsWritten(code: string)
    requires StartsWith(code, Directive)
    ensures !FeatureAsWritten(code)
  {
    assert code[0] == Directive[0] == '#';
    assert code[3] == Directive[3] == 'a';
    assert !StartsWith(code, FeatureOpen) by {
      assert FeatureOpen[3] == 'f';
    }
    AsWrittenNeedsFeatureFirst(code);
  }

  /** The final link target `playgroundUrl + "?code=" +
      encodeURIComponent(code) + channel`: everything after `?code=` is the
      encoding of the built code, a well-formed percent-encoding that decodes
      back to it; because the channel is always empty, nothing follows it. */
  function Href(base: string, sample: string): (r: string)
    ensures StartsWith(r, base + CodeParam)
    ensures r[|base| + |CodeParam|..] == Encode(BuildCode(sample))
    ensures IsEncodedPayload(r[|base| + |CodeParam|..])
    ensures Decode(r[|base| + |CodeParam|..]) == Ok(BuildCode(sample))
  {
    var code := BuildCode(sample);
    ChannelAlwaysEmpty(sample);
    var r := base + CodeParam + Encode(code) + Channel(code);
    assert r == (base + CodeParam) + Encode(code);
    EncodedAfter(base + CodeParam, code, r);
    r
  }

  /** What follows `prefix` in `prefix + Encode(code)` is a percent-encoding
      that decodes to `code`. */
  lemma EncodedAfter(prefix: string, code: string, r: string)
    requires r == prefix + Encode(code)
    ensures StartsWith(r, prefix)
    ensures r[|prefix|..] == Encode(code)
    ensures IsEncodedPayload(r[|prefix|..])
    ensures Decode(r[|prefix|..]) == Ok(code)
  {
    DecodeEncode(code);
    assert r[..|prefix|] == prefix;
    assert r[|prefix|..] == Encode(code);
  }

  /** A payload longer than the nightly suffix cannot end with it, because
      the suffix starts with `&`. */
  lemma PayloadNotNightly(prefix: string, payload: string)
    requires IsEncodedPayload(payload) && |payload| >= |NightlyChannel|
    ensures !EndsWith(prefix + payload, NightlyChannel)
  {
    PayloadIsQuerySafe(payload);
    var r := prefix + payload;
    var k := |payload| - |NightlyChannel|;
    assert r[|r| - |NightlyChannel|] == payload[k];
    assert r[|r| - |NightlyChannel|] != NightlyChannel[0];
    assert r[|r| - |NightlyChannel|..][0] == r[|r| - |NightlyChannel|];
  }

  /** As written, no link ever asks for the nightly channel. */
  lemma HrefNeverNightly(base: string, sample: string)
    ensures !EndsWith(Href(base, sample), NightlyChannel)
  {
    var code := BuildCode(sample);
    ChannelAlwaysEmpty(sample);
    assert Href(base, sample) == (base + CodeParam) + Encode(code);
    PayloadNotNightly(base + CodeParam, Encode(code));
  }

  /** The channel suffix with the feature test its author meant. */
  function ChannelIntended(code: string): string {
    if FeatureIntended(code) then NightlyChannel else ""
  }

  /** The link target with the intended feature test: it ends with
      `&version=nightly` exactly when some line of the code is a
      `#![feature(...)]` attribute, and between `?code=` and that suffix lies
      the encoding of the code, which decodes back to it. */
  function HrefIntended(base: string, sample: string): (r: string)
    ensures StartsWith(r, base + CodeParam)
    ensures FeatureIntended(BuildCode(sample)) <==> EndsWith(r, NightlyChannel)
    ensures var n := |ChannelIntended(BuildCode(sample))|;
            && |r| - n >= |base| + |CodeParam|
            && r[|base| + |CodeParam|..|r| - n] == Encode(BuildCode(sample))
            && Decode(r[|base| + |CodeParam|..|r| - n]) == Ok(BuildCode(sample))
  {
    var code := BuildCode(sample);
    var payload := Encode(code);
    var channel := ChannelIntended(code);
    DecodeEncode(code);
    ThreeParts(base + CodeParam, payload, channel);
    assert !FeatureIntended(code) ==> !EndsWith(base + CodeParam + payload + channel, NightlyChannel) by {
      if !FeatureIntended(code) {
        assert base + CodeParam + payload + channel == (base + CodeParam) + payload;
        PayloadNotNightly(base + CodeParam, payload);
      }
    }
    base + CodeParam + payload + channel
  }

  /** Each of three concatenated strings can be cut back out. */
  lemma ThreeParts(a: string, b: string, c: string)
    ensures (a + b + c)[..|a|] == a
    ensures (a + b + c)[|a|..|a + b + c| - |c|] == b
    ensures (a + b + c)[|a + b + c| - |c|..] == c
  {
  }

  lemma FeatureLineUnwrapped(pre: string, blank: string, attr: string, post: string)
    requires |pre| == 0 || IsLineTerminator(pre[|pre| - 1])
    requires AllWhiteSpace(blank)
    requires NoLineTerminator(attr)
    requires HasMain(pre + blank + FeatureOpen + attr + FeatureClose + post)
    ensures FeatureIntended(BuildCode(pre + blank + FeatureOpen + attr + FeatureClose + post))
  {
    var sample := pre + blank + FeatureOpen + attr + FeatureClose + post;
    assert BuildCode(sample) == Directive + sample;
    var front := Directive + pre;
    assert front[|front| - 1] == (if |pre| == 0 then Directive[|Directive| - 1] else pre[|pre| - 1]);
    assert Directive + sample == front + blank + FeatureOpen + attr + FeatureClose + post;
    IntendedFindsFeatureLine(front, blank, attr, post);
  }

  /** The built code around one line of a sample that gets wrapped: the line
      starts after a line terminator and four spaces. */
  lemma WrappedLine(pre: string, line: string, post: string)
    requires |pre| == 0 || IsLineTerminator(pre[|pre| - 1])
    requires NoLineTerminator(line)
    requires !HasMain(pre + line + post)
    ensures var front := Directive + Header + IndentLead(pre);
            && IsLineTerminator(front[|front| - 1])
            && BuildCode(pre + line + post) == front + Indentation + line + (IndentRest(post) + Footer)
  {
    var lead := IndentLead(pre);
    var front := Directive + Header + lead;
    assert front[|front| - 1] == (if |lead| == 0 then Header[|Header| - 1] else lead[|lead| - 1]);
    IndentedLine(pre, line, post);
    assert BuildCode(pre + line + post) == Directive + (Header + Indent(pre + line + post) + Footer);
    WrappedRegroup(Directive, Header, lead, Indentation, line, IndentRest(post), Footer);
  }

  /** Regrouping of the pieces of `WrappedLine`. */
  lemma WrappedRegroup(d: string, h: string, lead: string, ind: string, line: string,
                       ip: string, f: string)
    ensures d + (h + (lead + ind + line + ip) + f) == (d + h + lead) + ind + line + (ip + f)
  {
  }

  /** Regrouping of the feature line of `FeatureLineWrapped`. */
  lemma LineRegroup(front: string, ind: string, blank: string, attr: string, tail: string)
    ensures front + ind + (blank + FeatureOpen + attr + FeatureClose) + tail
         == front + (ind + blank) + FeatureOpen + attr + FeatureClose + tail
  {
  }

  lemma FeatureLineWrapped(pre: string, blank: string, attr: string, post: string)
    requires |pre| == 0 || IsLineTerminator(pre[|pre| - 1])
    requires AllWhiteSpace(blank) && NoLineTerminator(blank)
    requires NoLineTerminator(attr)
    requires !HasMain(pre + blank + FeatureOpen + attr + FeatureClose + post)
    ensures FeatureIntended(BuildCode(pre + blank + FeatureOpen + attr + FeatureClose + post))
  {
    var line := blank + FeatureOpen + attr + FeatureClose;
    assert NoLineTerminator(FeatureOpen) && NoLineTerminator(FeatureClose);
    NoLineTerminatorConcat(blank, FeatureOpen);
    NoLineTerminatorConcat(blank + FeatureOpen, attr);
    NoLineTerminatorConcat(blank + FeatureOpen + attr, FeatureClose);
    assert pre + blank + FeatureOpen + attr + FeatureClose + post == pre + line + post;
    WrappedLine(pre, line, post);
    var front := Directive + Header + IndentLead(pre);
    var tail := IndentRest(post) + Footer;
    LineRegroup(front, Indentation, blank, attr, tail);
    IndentationIsBlank();
    AllWhiteSpaceConcat(Indentation, blank);
    IntendedFindsFeatureLine(front, Indentation + blank, attr, tail);
  }

  /** With the intended test, a sample holding a `#![feature(...)]` line
      (after optional blanks on that line) asks for the nightly channel,
      whether or not the sample gets wrapped in `fn main`. */
  lemma FeatureLineSelectsNightly(base: string, pre: string, blank: string, attr: string, post: string)
    requires |pre| == 0 || IsLineTerminator(pre[|pre| - 1])
    requires AllWhiteSpace(blank) && NoLineTerminator(blank)
    requires NoLineTerminator(attr)
    ensures EndsWith(HrefIntended(base, pre + blank + FeatureOpen + attr + FeatureClose + post), NightlyChannel)
  {
    var sample := pre + blank + FeatureOpen + attr + FeatureClose + post;
    if HasMain(sample) {
      FeatureLineUnwrapped(pre, blank, attr, post);
    } else {
      FeatureLineWrapped(pre, blank, attr, post);
    }
  }

  /** A single line that does not start with `fn main` has no `fn main` line. */
  lemma NoMainInSingleLine(s: string)
    requires NoLineTerminator(s)
    requires !StartsWith(s, "fn main")
    ensures !HasMain(s)
  {
    assert !MainAt(s, 0);
    forall i | 0 < i <= |s| ensures !MainAt(s, i) {
      assert !IsLineTerminator(s[i - 1]);
    }
  }

  /** The sample `#![feature(box_syntax)]`: the intended test asks for the
      nightly channel, the test as written does not. */
  lemma BoxSyntaxExample(base: string)
    ensures EndsWith(HrefIntended(base, "#![feature(box_syntax)]"), NightlyChannel)
    ensures !EndsWith(Href(base, "#![feature(box_syntax)]"), NightlyChannel)
  {
    var attr := "box_syntax";
    var sample := "#![feature(box_syntax)]";
    assert NoLineTerminator(attr);
    assert sample == "" + "" + FeatureOpen + attr + FeatureClose + "";
    FeatureLineSelectsNightly(base, "", "", attr, "");
    HrefNeverNightly(base, sample);
  }

  /** A sample without `fn main`: `fn foo() {}`. */
  lemma WrapExample()
    ensures BuildCode("fn foo() {}") == "#![allow(dead_code)]\nfn main() {\n    fn foo() {}\n}"
  {
    var s := "fn foo() {}";
    assert NoLineTerminator(s);
    assert s[..7][3] == 'f';
    NoMainInSingleLine(s);
    IndentRestSingleLine(s);
    assert BuildCode(s) == Directive + (Header + (Indentation + s) + Footer);
    WrapExampleText();
  }

  lemma WrapExampleText()
    ensures Directive + (Header + (Indentation + "fn foo() {}") + Footer)
         == "#![allow(dead_code)]\nfn main() {\n    fn foo() {}\n}"
  {
  }
}
