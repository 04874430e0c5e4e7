/**
 The sample text of a hovered code element: the text of every child node,
 each followed by a newline, trimmed as a whole.
 */
module Sample {
  import opened Chars
  import opened Text

  /** Total number of characters in `texts`. */
  function TotalLength(texts: seq<string>): nat {
    if |texts| == 0 then 0 else TotalLength(texts[..|texts| - 1]) + |texts[|texts| - 1]|
  }

  /** The child texts, each followed by `"\n"`, in child order. */
  function JoinChildren(texts: seq<string>): (r: string)
    ensures |r| == TotalLength(texts) + |texts|
    ensures |texts| > 0 ==> r[|r| - 1] == '\n'
  {
    if |texts| == 0 then ""
    else JoinChildren(texts[..|texts| - 1]) + texts[|texts| - 1] + "\n"
  }

  /** Joining two runs of children is joining each and concatenating. */
  lemma {:induction false} JoinChildrenConcat(a: seq<string>, b: seq<string>)
    ensures JoinChildren(a + b) == JoinChildren(a) + JoinChildren(b)
  {
    if |b| == 0 {
      assert a + b == a;
    } else {
      var b' := b[..|b| - 1];
      var last := b[|b| - 1];
      assert (a + b)[..|a + b| - 1] == a + b';
      assert (a + b)[|a + b| - 1] == last;
      assert JoinChildren(a + b) == JoinChildren(a + b') + last + "\n";
      JoinChildrenConcat(a, b');
      var ja, jb := JoinChildren(a), JoinChildren(b');
      assert ja + jb + last + "\n" == ja + (jb + last + "\n");
    }
  }

  /** Every child's text appears whole, followed by a newline, after the
      joined texts of the children before it. */
  lemma ChildTextInPlace(texts: seq<string>, i: nat)
    requires i < |texts|
    ensures JoinChildren(texts)
         == JoinChildren(texts[..i]) + texts[i] + "\n" + JoinChildren(texts[i + 1..])
  {
    var pre := texts[..i + 1];
    assert texts == pre + texts[i + 1..];
    JoinChildrenConcat(pre, texts[i + 1..]);
    assert pre[..|pre| - 1] == texts[..i];
    assert pre[|pre| - 1] == texts[i];
    assert JoinChildren(pre) == JoinChildren(texts[..i]) + texts[i] + "\n";
  }

  /** The accumulation loop of the hover handler: `code += text + "\n"` for
      every child in order. */
  method CollectText(texts: seq<string>) returns (code: string)
    ensures code == JoinChildren(texts)
  {
    code := "";
    var i := 0;
    while i < |texts|
      invariant 0 <= i <= |texts|
      invariant code == JoinChildren(texts[..i])
    {
      assert texts[..i + 1][..i] == texts[..i];
      code := code + texts[i] + "\n";
      i := i + 1;
    }
    assert texts[..|texts|] == texts;
  }

  /** The sample text: the joined child texts, trimmed. */
  function SampleText(texts: seq<string>): (r: string)
    ensures |r| == 0 || (!IsWhiteSpace(r[0]) && !IsWhiteSpace(r[|r| - 1]))
    ensures |r| == 0 || r[|r| - 1] != '\n'
    ensures WhiteSpaceAround(JoinChildren(texts), r)
  {
    Trim(JoinChildren(texts))
  }

  /** A single text child that has nothing to trim is the sample text itself. */
  lemma SingleChildSample(t: string)
    requires |t| == 0 || (!IsWhiteSpace(t[0]) && !IsWhiteSpace(t[|t| - 1]))
    ensures SampleText([t]) == t
  {
    var j := JoinChildren([t]);
    assert [t][..0] == [];
    assert j == t + "\n";
    assert WhiteSpaceAround(j, t) by {
      assert j[0..|t|] == t && j[..0] == "" && j[|t|..] == "\n";
      assert AllWhiteSpace("\n");
    }
    TrimUnique(j, t);
  }
}
