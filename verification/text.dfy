/**
 String helpers shared by the pipeline: `String.prototype.trim` and the
 division of a string into the lines that the multiline anchor `^` sees.
 */
module Text {
  import opened Chars

  /** Number of whitespace characters at the front of `s`. */
  function LeadingSpace(s: string): (n: nat)
    ensures n <= |s|
    ensures AllWhiteSpace(s[..n])
    ensures n == |s| || !IsWhiteSpace(s[n])
  {
    if |s| == 0 || !IsWhiteSpace(s[0]) then 0
    else
      var m := LeadingSpace(s[1..]);
      assert s[..m + 1] == [s[0]] + s[1..][..m];
      m + 1
  }

  /** Number of whitespace characters at the back of `s`. */
  function TrailingSpace(s: string): (n: nat)
    ensures n <= |s|
    ensures AllWhiteSpace(s[|s| - n..])
    ensures n == |s| || !IsWhiteSpace(s[|s| - n - 1])
  {
    if |s| == 0 || !IsWhiteSpace(s[|s| - 1]) then 0
    else
      var p := s[..|s| - 1];
      var m := TrailingSpace(p);
      assert AllWhiteSpace(s[|s| - (m + 1)..]) by {
        var tail := s[|s| - (m + 1)..];
        forall k | 0 <= k < |tail| ensures IsWhiteSpace(tail[k]) {
          if k < m { assert tail[k] == p[|p| - m..][k]; }
        }
      }
      m + 1
  }

  /** `r` is `s` with some whitespace removed from each end. */
  predicate WhiteSpaceAround(s: string, r: string) {
    exists i | 0 <= i <= |s| - |r| ::
      && s[i..i + |r|] == r
      && AllWhiteSpace(s[..i])
      && AllWhiteSpace(s[i + |r|..])
  }

  /** `String.prototype.trim`: the longest infix of `s` that neither starts
      nor ends with whitespace, obtained by removing whitespace from both ends. */
  function Trim(s: string): (r: string)
    ensures |r| <= |s|
    ensures |r| == 0 || (!IsWhiteSpace(r[0]) && !IsWhiteSpace(r[|r| - 1]))
    ensures WhiteSpaceAround(s, r)
  {
    var i := LeadingSpace(s);
    var t := s[i..];
    var j := TrailingSpace(t);
    var r := t[..|t| - j];
    TrimCut(s, i, t, j, r);
    r
  }

  /** Cutting `i` leading and `j` trailing whitespace characters of `s`. */
  lemma TrimCut(s: string, i: nat, t: string, j: nat, r: string)
    requires i <= |s| && AllWhiteSpace(s[..i]) && (i == |s| || !IsWhiteSpace(s[i]))
    requires t == s[i..]
    requires j <= |t| && AllWhiteSpace(t[|t| - j..]) && (j == |t| || !IsWhiteSpace(t[|t| - j - 1]))
    requires r == t[..|t| - j]
    ensures |r| == 0 || (!IsWhiteSpace(r[0]) && !IsWhiteSpace(r[|r| - 1]))
    ensures WhiteSpaceAround(s, r)
  {
    SliceOfSlice(s, i, |r|);
    assert |r| > 0 ==> r[0] == t[0] == s[i] && r[|r| - 1] == t[|t| - j - 1];
    assert WhiteSpaceAround(s, r) by {
      assert 0 <= i <= |s| - |r| && s[i..i + |r|] == r;
      assert AllWhiteSpace(s[..i]) && AllWhiteSpace(s[i + |r|..]);
    }
  }

  lemma SliceOfSlice(s: string, i: nat, n: nat)
    requires i + n <= |s|
    ensures s[i..][..n] == s[i..i + n]
    ensures s[i..][n..] == s[i + n..]
  {
  }

  /** The contract of `Trim` determines its result: the only infix of `s`
      that has no whitespace at either end and only whitespace around it. */
  lemma TrimUnique(s: string, r: string)
    requires |r| == 0 || (!IsWhiteSpace(r[0]) && !IsWhiteSpace(r[|r| - 1]))
    requires WhiteSpaceAround(s, r)
    ensures Trim(s) == r
  {
    var t := Trim(s);
    var i := AroundAt(s, r);
    var i' := AroundAt(s, t);
    assert (|r| == 0) == (|t| == 0) by {
      assert |r| == 0 ==> forall k | 0 <= k < |s| :: IsWhiteSpace(s[k]);
      assert |t| == 0 ==> forall k | 0 <= k < |s| :: IsWhiteSpace(s[k]);
      assert |r| > 0 ==> !IsWhiteSpace(s[i]);
      assert |t| > 0 ==> !IsWhiteSpace(s[i']);
    }
    if |r| > 0 {
      assert i == i' by {
        assert !IsWhiteSpace(s[i]) && !IsWhiteSpace(s[i']);
      }
      assert |r| == |t| by {
        assert !IsWhiteSpace(s[i + |r| - 1]) && !IsWhiteSpace(s[i + |t| - 1]);
      }
      assert r == s[i..i + |r|] == t;
    }
  }

  /** The position of `r` in `s`, with what lies around it spelled out. */
  lemma AroundAt(s: string, r: string) returns (i: nat)
    requires WhiteSpaceAround(s, r)
    ensures i + |r| <= |s| && s[i..i + |r|] == r
    ensures forall k | 0 <= k < |r| :: s[i + k] == r[k]
    ensures forall k | 0 <= k < i :: IsWhiteSpace(s[k])
    ensures forall k | i + |r| <= k < |s| :: IsWhiteSpace(s[k])
  {
    i :| 0 <= i <= |s| - |r| && s[i..i + |r|] == r
         && AllWhiteSpace(s[..i]) && AllWhiteSpace(s[i + |r|..]);
    forall k | 0 <= k < i ensures IsWhiteSpace(s[k]) {
      assert s[k] == s[..i][k];
    }
    forall k | i + |r| <= k < |s| ensures IsWhiteSpace(s[k]) {
      assert s[k] == s[i + |r|..][k - i - |r|];
    }
    forall k | 0 <= k < |r| ensures s[i + k] == r[k] {
      assert s[i + k] == s[i..i + |r|][k];
    }
  }

  /** A string with nothing to trim is left unchanged. */
  lemma TrimNothing(s: string)
    requires |s| == 0 || (!IsWhiteSpace(s[0]) && !IsWhiteSpace(s[|s| - 1]))
    ensures Trim(s) == s
  {
    assert s[0..|s|] == s && s[..0] == "" && s[|s|..] == "";
    TrimUnique(s, s);
  }

  /** Trimming twice is trimming once. */
  lemma TrimIdempotent(s: string)
    ensures Trim(Trim(s)) == Trim(s)
  {
    TrimNothing(Trim(s));
  }

  /** A string made only of whitespace trims to the empty string. */
  lemma TrimAllWhiteSpace(s: string)
    requires AllWhiteSpace(s)
    ensures Trim(s) == ""
  {
    assert s[0..0] == "" && s[..0] == "" && s[0..] == s;
    TrimUnique(s, "");
  }

  /** The lines of `s` as the multiline anchor `^` sees them: `s` cut at every
      line terminator, the terminators dropped. There is always one more line
      than there are terminators, so the empty string has one empty line. */
  function Lines(s: string): (r: seq<string>)
    ensures |r| >= 1
  {
    if |s| == 0 then [""]
    else if IsLineTerminator(s[0]) then [""] + Lines(s[1..])
    else
      var rest := Lines(s[1..]);
      [[s[0]] + rest[0]] + rest[1..]
  }

  /** Number of line terminators in `s`. */
  function CountTerminators(s: string): (n: nat)
    ensures n <= |s|
  {
    if |s| == 0 then 0
    else (if IsLineTerminator(s[0]) then 1 else 0) + CountTerminators(s[1..])
  }

  /** A string has exactly one line more than it has line terminators. */
  lemma {:induction false} LinesCount(s: string)
    ensures |Lines(s)| == CountTerminators(s) + 1
  {
    if |s| > 0 {
      LinesCount(s[1..]);
    }
  }

  /** No line of `s` holds a line terminator. */
  lemma {:induction false} LinesHaveNoTerminator(s: string)
    ensures forall k | 0 <= k < |Lines(s)| :: NoLineTerminator(Lines(s)[k])
  {
    if |s| > 0 {
      LinesHaveNoTerminator(s[1..]);
      var rest := Lines(s[1..]);
      if !IsLineTerminator(s[0]) {
        var first := [s[0]] + rest[0];
        assert NoLineTerminator(first) by {
          forall k | 0 <= k < |first| ensures !IsLineTerminator(first[k]) {
            if k > 0 { assert first[k] == rest[0][k - 1]; }
          }
        }
      }
    }
  }

  /** A string without line terminators is a single line. */
  lemma {:induction false} LinesSingle(p: string)
    requires NoLineTerminator(p)
    ensures Lines(p) == [p]
  {
    if |p| > 0 {
      LinesSingle(p[1..]);
      assert [p[0]] + p[1..] == p;
    }
  }

  /** Text without a line terminator in front of `x` joins the first line of `x`. */
  lemma LinesAfterLinePart(p: string, x: string)
    requires NoLineTerminator(p)
    ensures Lines(p + x) == [p + Lines(x)[0]] + Lines(x)[1..]
  {
    LinesSingle(p);
    LinesConcat(p, x);
    assert [p][..0] == [];
  }

  /** Joins two line lists where a string boundary falls inside a line:
      the last line of `lx` and the first line of `ly` become one. */
  function Fuse(lx: seq<string>, ly: seq<string>): (r: seq<string>)
    requires |lx| >= 1 && |ly| >= 1
    ensures |r| == |lx| + |ly| - 1
  {
    lx[..|lx| - 1] + [lx[|lx| - 1] + ly[0]] + ly[1..]
  }

  /** One step of `Lines`, stated for a string built by prepending `c`. */
  lemma LinesCons(c: char, s: string)
    ensures IsLineTerminator(c) ==> Lines([c] + s) == [""] + Lines(s)
    ensures !IsLineTerminator(c) ==>
              Lines([c] + s) == [[c] + Lines(s)[0]] + Lines(s)[1..]
  {
    assert ([c] + s)[1..] == s;
  }

  lemma FuseAfterEmptyLine(l1: seq<string>, ly: seq<string>)
    requires |l1| >= 1 && |ly| >= 1
    ensures Fuse([""] + l1, ly) == [""] + Fuse(l1, ly)
  {
    assert ([""] + l1)[..|l1|] == [""] + l1[..|l1| - 1];
  }

  lemma FuseAfterChar(c: char, l1: seq<string>, ly: seq<string>)
    requires |l1| >= 1 && |ly| >= 1
    ensures var f := Fuse(l1, ly);
            Fuse([[c] + l1[0]] + l1[1..], ly) == [[c] + f[0]] + f[1..]
  {
    var f := Fuse(l1, ly);
    var lx := [[c] + l1[0]] + l1[1..];
    if |l1| == 1 {
      assert lx == [[c] + l1[0]];
      assert f == [l1[0] + ly[0]] + ly[1..];
      assert f[1..] == ly[1..];
      assert [c] + f[0] == ([c] + l1[0]) + ly[0];
      assert Fuse(lx, ly) == [([c] + l1[0]) + ly[0]] + ly[1..];
    } else {
      assert lx[..|lx| - 1] == [[c] + l1[0]] + l1[1..|l1| - 1];
      assert f[0] == l1[0];
      assert f[1..] == l1[1..|l1| - 1] + [l1[|l1| - 1] + ly[0]] + ly[1..];
    }
  }

  /** Lines of a concatenation: the last line of `x` and the first line of `y`
      fuse; all other lines are kept. */
  lemma {:induction false} LinesConcat(x: string, y: string)
    ensures Lines(x + y) == Fuse(Lines(x), Lines(y))
  {
    if |x| == 0 {
      assert x + y == y;
      var ly := Lines(y);
      assert "" + ly[0] == ly[0];
      assert [ly[0]] + ly[1..] == ly;
    } else {
      var c, x' := x[0], x[1..];
      assert x == [c] + x';
      assert x + y == [c] + (x' + y);
      LinesConcat(x', y);
      LinesCons(c, x');
      LinesCons(c, x' + y);
      if IsLineTerminator(c) {
        FuseAfterEmptyLine(Lines(x'), Lines(y));
      } else {
        FuseAfterChar(c, Lines(x'), Lines(y));
      }
    }
  }

  /** A line followed by a newline in front of `x` adds exactly that line. */
  lemma LinesPrependLine(p: string, x: string)
    requires NoLineTerminator(p)
    ensures Lines(p + "\n" + x) == [p] + Lines(x)
  {
    LinesSingle(p);
    LinesCons('\n', x);
    assert "\n" + x == ['\n'] + x;
    LinesConcat(p, "\n" + x);
    assert p + "\n" + x == p + ("\n" + x);
    assert p + "" == p;
  }
}
