/**
 encodeURIComponent and its inverse decodeURIComponent, as defined by
 sections 15.1.3.4 and 15.1.3.2 of ECMA-262 5.1 (the Encode and Decode
 operations of section 15.1.3): every character outside `uriUnreserved` is
 written as the UTF-8 octets of its code point, each octet as `%XY` with two
 upper-case hexadecimal digits. The unreserved set passed to Encode is
 `uriUnreserved`; the reserved set passed to Decode is empty.

 Characters are Unicode scalar values, so the URIError that Encode raises for
 a lone surrogate cannot arise.
 */
module Uri {
  import opened Chars
  import opened Results

  type Octet = x: int | 0 <= x < 256

  const HexDigits: string := "0123456789ABCDEF"

  function HexDigit(n: int): (c: char)
    requires 0 <= n < 16
    ensures IsUpperHexDigit(c)
  {
    HexDigits[n]
  }

  /** The value of a hexadecimal digit of either case. */
  function HexValue(c: char): (n: int)
    requires IsHexDigit(c)
    ensures 0 <= n < 16
  {
    if '0' <= c <= '9' then c as int - '0' as int
    else if 'A' <= c <= 'F' then c as int - 'A' as int + 10
    else c as int - 'a' as int + 10
  }

  lemma HexValueOfDigit(n: int)
    requires 0 <= n < 16
    ensures IsHexDigit(HexDigit(n)) && HexValue(HexDigit(n)) == n
  {
  }

  /** An octet written as `%XY`. */
  function PercentOctet(b: Octet): (r: string)
    ensures |r| == 3 && r[0] == '%' && IsUpperHexDigit(r[1]) && IsUpperHexDigit(r[2])
  {
    ['%', HexDigit(b / 16), HexDigit(b % 16)]
  }

  /** The UTF-8 transformation of a code point (table 21 of section 15.1.3). */
  function Utf8(cp: int): (r: seq<Octet>)
    requires 0 <= cp <= 0x10FFFF
    ensures 1 <= |r| <= 4
  {
    if cp < 0x80 then [cp]
    else if cp < 0x800 then [0xC0 + cp / 64, 0x80 + cp % 64]
    else if cp < 0x10000 then
      [0xE0 + cp / 64 / 64, 0x80 + cp / 64 % 64, 0x80 + cp % 64]
    else
      [0xF0 + cp / 64 / 64 / 64, 0x80 + cp / 64 / 64 % 64, 0x80 + cp / 64 % 64, 0x80 + cp % 64]
  }

  function PercentOctets(bs: seq<Octet>): (r: string)
    ensures |r| == 3 * |bs|
  {
    if |bs| == 0 then "" else PercentOctet(bs[0]) + PercentOctets(bs[1..])
  }

  /** The Encode step for one character. */
  function EncodeChar(c: char): string {
    if IsUriUnreserved(c) then [c] else PercentOctets(Utf8(c as int))
  }

  /** The shape of an encodeURIComponent result: a run of unreserved
      characters and `%XY` triples with upper-case hexadecimal digits. */
  predicate IsEncodedPayload(e: string)
    decreases |e|
  {
    if |e| == 0 then true
    else if IsUriUnreserved(e[0]) then IsEncodedPayload(e[1..])
    else
      && |e| >= 3 && e[0] == '%' && IsUpperHexDigit(e[1]) && IsUpperHexDigit(e[2])
      && IsEncodedPayload(e[3..])
  }

  lemma {:induction false} PayloadConcat(a: string, b: string)
    requires IsEncodedPayload(a) && IsEncodedPayload(b)
    ensures IsEncodedPayload(a + b)
    decreases |a|
  {
    if |a| == 0 {
      assert a + b == b;
    } else if IsUriUnreserved(a[0]) {
      PayloadConcat(a[1..], b);
      DropFromConcat(a, b, 1);
    } else {
      PayloadConcat(a[3..], b);
      DropFromConcat(a, b, 3);
    }
  }

  lemma DropFromConcat(a: string, b: string, n: nat)
    requires n <= |a|
    ensures forall m | 0 <= m < n :: (a + b)[m] == a[m]
    ensures (a + b)[n..] == a[n..] + b
  {
  }

  lemma {:induction false} PercentOctetsPayload(bs: seq<Octet>)
    ensures IsEncodedPayload(PercentOctets(bs))
  {
    if |bs| > 0 {
      PercentOctetsPayload(bs[1..]);
      var p := PercentOctet(bs[0]);
      assert p[3..] == "";
      PayloadConcat(p, PercentOctets(bs[1..]));
    }
  }

  /** `encodeURIComponent(s)`. */
  function Encode(s: string): (r: string)
    ensures IsEncodedPayload(r)
    ensures |r| >= |s|
  {
    if |s| == 0 then ""
    else
      var head := EncodeChar(s[0]);
      assert IsEncodedPayload(head) by {
        if IsUriUnreserved(s[0]) { assert head[1..] == ""; }
        else { PercentOctetsPayload(Utf8(s[0] as int)); }
      }
      PayloadConcat(head, Encode(s[1..]));
      head + Encode(s[1..])
  }

  lemma {:induction false} EncodeConcat(a: string, b: string)
    ensures Encode(a + b) == Encode(a) + Encode(b)
  {
    if |a| == 0 {
      assert a + b == b;
    } else {
      assert (a + b)[0] == a[0];
      assert (a + b)[1..] == a[1..] + b;
      EncodeConcat(a[1..], b);
    }
  }

  /** The Encode loop of section 15.1.3 over the characters of `s`. */
  method EncodeURIComponent(s: string) returns (r: string)
    ensures r == Encode(s)
  {
    r := "";
    var k := 0;
    while k < |s|
      invariant 0 <= k <= |s|
      invariant r == Encode(s[..k])
    {
      EncodeConcat(s[..k], [s[k]]);
      assert s[..k + 1] == s[..k] + [s[k]];
      assert Encode([s[k]]) == EncodeChar(s[k]) by {
        assert [s[k]][1..] == "";
      }
      r := r + EncodeChar(s[k]);
      k := k + 1;
    }
    assert s[..|s|] == s;
  }

  /** Every character of an encoded payload is unreserved, `%` or an
      upper-case hexadecimal digit. */
  lemma {:induction false} PayloadCharacters(e: string)
    requires IsEncodedPayload(e)
    ensures forall k | 0 <= k < |e| :: IsUriUnreserved(e[k]) || e[k] == '%' || IsUpperHexDigit(e[k])
    decreases |e|
  {
    if |e| > 0 {
      var n := if IsUriUnreserved(e[0]) then 1 else 3;
      PayloadCharacters(e[n..]);
      forall k | n <= k < |e|
        ensures IsUriUnreserved(e[k]) || e[k] == '%' || IsUpperHexDigit(e[k])
      {
        assert e[k] == e[n..][k - n];
      }
    }
  }

  /** An encoded payload can sit in a query string: it holds none of the
      characters that delimit or end a query parameter. */
  lemma PayloadIsQuerySafe(e: string)
    requires IsEncodedPayload(e)
    ensures forall k | 0 <= k < |e| :: e[k] !in {'&', '=', '#', '?', ' ', '+'}
  {
    PayloadCharacters(e);
  }

  /** A string of unreserved characters is its own encoding. */
  lemma {:induction false} EncodeUnreserved(s: string)
    requires forall k | 0 <= k < |s| :: IsUriUnreserved(s[k])
    ensures Encode(s) == s
  {
    if |s| > 0 {
      EncodeUnreserved(s[1..]);
      assert [s[0]] + s[1..] == s;
    }
  }

  // Decoding

  /** The octet written as `%XY` at position `k` of `s`, if there is one. */
  function ReadOctet(s: string, k: nat): (r: Option<Octet>)
  {
    if k + 3 <= |s| && s[k] == '%' && IsHexDigit(s[k + 1]) && IsHexDigit(s[k + 2])
    then Some(HexValue(s[k + 1]) * 16 + HexValue(s[k + 2]))
    else None
  }

  /** The number of octets announced by a leading octet: the `n` of the Decode
      operation, with 0 for the values it rejects (n = 1 or n > 4). */
  function SequenceLength(b: Octet): (n: nat)
    ensures n <= 4
  {
    if b < 0x80 then 1
    else if b < 0xC0 then 0
    else if b < 0xE0 then 2
    else if b < 0xF0 then 3
    else if b < 0xF8 then 4
    else 0
  }

  predicate IsContinuation(b: Octet) {
    0x80 <= b < 0xC0
  }

  /** `count` continuation octets, written as `%XY` from position `k` on. */
  function ReadContinuations(s: string, k: nat, count: nat): (r: Option<seq<Octet>>)
    ensures r.Some? ==> |r.value| == count
    ensures r.Some? ==> forall m | 0 <= m < count :: IsContinuation(r.value[m])
    decreases count
  {
    if count == 0 then Some([])
    else
      match ReadOctet(s, k)
      case None => None
      case Some(b) =>
        if !IsContinuation(b) then None
        else
          match ReadContinuations(s, k + 3, count - 1)
          case None => None
          case Some(rest) => Some([b] + rest)
  }

  /** True iff `v` is a Unicode scalar value (a code point that is not a surrogate). */
  predicate IsScalarValue(v: int) {
    (0 <= v < 0xD800) || (0xE000 <= v <= 0x10FFFF)
  }

  /** The code point of a multi-octet UTF-8 sequence, or None if the octets
      are not a valid (shortest, non-surrogate, in range) encoding. */
  function Utf8Decode(lead: Octet, cont: seq<Octet>): (r: Option<char>)
    requires 2 <= SequenceLength(lead) && |cont| == SequenceLength(lead) - 1
    requires forall m | 0 <= m < |cont| :: IsContinuation(cont[m])
  {
    var n := SequenceLength(lead);
    var bits: seq<int> := seq(|cont|, m requires 0 <= m < |cont| => cont[m] as int - 0x80);
    var v: int :=
      if n == 2 then (lead as int - 0xC0) * 64 + bits[0]
      else if n == 3 then ((lead as int - 0xE0) * 64 + bits[0]) * 64 + bits[1]
      else (((lead as int - 0xF0) * 64 + bits[0]) * 64 + bits[1]) * 64 + bits[2];
    var least := if n == 2 then 0x80 else if n == 3 then 0x800 else 0x10000;
    if least <= v && IsScalarValue(v) then Some(v as char) else None
  }

  /** One escape `%XY…` at the front of `s`: the character it denotes and the
      number of characters it spans. */
  function DecodeEscape(s: string): (r: Option<(char, nat)>)
    ensures r.Some? ==> 3 <= r.value.1 <= |s|
  {
    match ReadOctet(s, 0)
    case None => None
    case Some(b) =>
      var n := SequenceLength(b);
      if n == 0 then None
      else if n == 1 then Some((b as char, 3))
      else
        match ReadContinuations(s, 3, n - 1)
        case None => None
        case Some(cont) =>
          assert 3 * n <= |s| by { ContinuationsFit(s, 3, n - 1); }
          match Utf8Decode(b, cont)
          case None => None
          case Some(c) => Some((c, 3 * n))
  }

  lemma {:induction false} ContinuationsFit(s: string, k: nat, count: nat)
    requires k <= |s|
    requires ReadContinuations(s, k, count).Some?
    ensures k + 3 * count <= |s|
    decreases count
  {
    if count > 0 {
      assert ReadOctet(s, k).Some?;
      assert ReadContinuations(s, k + 3, count - 1).Some?;
      ContinuationsFit(s, k + 3, count - 1);
    }
  }

  /** `decodeURIComponent(s)`: URIError for a malformed escape or an invalid
      UTF-8 sequence. */
  function Decode(s: string): (r: Result<string>)
    decreases |s|
  {
    if |s| == 0 then Ok("")
    else if s[0] != '%' then
      match Decode(s[1..])
      case Err(e) => Err(e)
      case Ok(t) => Ok([s[0]] + t)
    else
      match DecodeEscape(s)
      case None => Err(UriError)
      case Some((c, n)) =>
        match Decode(s[n..])
        case Err(e) => Err(e)
        case Ok(t) => Ok([c] + t)
  }

  /** Prepending a decoded character to a decoding result. */
  function Prepend(c: char, r: Result<string>): Result<string> {
    match r
    case Err(e) => Err(e)
    case Ok(t) => Ok([c] + t)
  }

  lemma ReadPercentOctet(s: string, k: nat, b: Octet)
    requires k + 3 <= |s| && s[k..k + 3] == PercentOctet(b)
    ensures ReadOctet(s, k) == Some(b)
  {
    assert s[k] == '%';
    assert s[k + 1] == HexDigit(b / 16) && s[k + 2] == HexDigit(b % 16);
    HexValueOfDigit(b / 16);
    HexValueOfDigit(b % 16);
  }

  lemma {:induction false} PercentOctetsAt(bs: seq<Octet>, m: nat)
    requires m < |bs|
    ensures PercentOctets(bs)[3 * m..3 * m + 3] == PercentOctet(bs[m])
  {
    if m > 0 {
      PercentOctetsAt(bs[1..], m - 1);
      assert PercentOctets(bs)[3..] == PercentOctets(bs[1..]);
    }
  }

  lemma {:induction false} ReadPercentContinuations(s: string, bs: seq<Octet>, from: nat)
    requires 1 <= from <= |bs|
    requires forall m | from <= m < |bs| :: IsContinuation(bs[m])
    requires forall m | from <= m < |bs| :: ReadOctet(s, 3 * m) == Some(bs[m])
    ensures ReadContinuations(s, 3 * from, |bs| - from) == Some(bs[from..])
    decreases |bs| - from
  {
    if from < |bs| {
      ReadPercentContinuations(s, bs, from + 1);
      assert ReadOctet(s, 3 * from) == Some(bs[from]);
      assert bs[from..] == [bs[from]] + bs[from + 1..];
    }
  }

  /** Every `%XY` triple of `PercentOctets(bs)` reads back as its octet. */
  lemma ReadPercentOctets(s: string, bs: seq<Octet>)
    requires 3 * |bs| <= |s| && s[..3 * |bs|] == PercentOctets(bs)
    ensures forall m | 0 <= m < |bs| :: ReadOctet(s, 3 * m) == Some(bs[m])
  {
    forall m | 0 <= m < |bs| ensures ReadOctet(s, 3 * m) == Some(bs[m]) {
      ReadPercentOctetIn(s, bs, m);
    }
  }

  lemma ReadPercentOctetIn(s: string, bs: seq<Octet>, m: nat)
    requires m < |bs| && 3 * |bs| <= |s| && s[..3 * |bs|] == PercentOctets(bs)
    ensures ReadOctet(s, 3 * m) == Some(bs[m])
  {
    PercentOctetsAt(bs, m);
    ReadOctetInPrefix(s, PercentOctets(bs), 3 * m, bs[m]);
  }

  lemma ReadOctetInPrefix(s: string, e: string, k: nat, b: Octet)
    requires k + 3 <= |e| <= |s| && s[..|e|] == e && e[k..k + 3] == PercentOctet(b)
    ensures ReadOctet(s, k) == Some(b)
  {
    SliceInPrefix(s, |e|, k, k + 3);
    ReadPercentOctet(s, k, b);
  }

  lemma SliceInPrefix(s: string, n: nat, i: nat, j: nat)
    requires i <= j <= n <= |s|
    ensures s[i..j] == s[..n][i..j]
  {
  }

  /** The arithmetic identities behind the UTF-8 round trip. */
  lemma Utf8Decodes(cp: int)
    requires IsScalarValue(cp) && cp >= 0x80
    ensures var bs := Utf8(cp);
            && SequenceLength(bs[0]) == |bs|
            && (forall m | 1 <= m < |bs| :: IsContinuation(bs[m]))
            && Utf8Decode(bs[0], bs[1..]) == Some(cp as char)
  {
    var q1 := cp / 64;
    var q2 := q1 / 64;
    var q3 := q2 / 64;
    assert cp == q1 * 64 + cp % 64;
    assert q1 == q2 * 64 + q1 % 64;
    assert q2 == q3 * 64 + q2 % 64;
  }

  /** The escapes written for one reserved character decode back to it. */
  lemma DecodeEscapeOfChar(c: char, rest: string)
    requires !IsUriUnreserved(c)
    ensures var e := PercentOctets(Utf8(c as int));
            DecodeEscape(e + rest) == Some((c, |e|))
  {
    var bs := Utf8(c as int);
    var e := PercentOctets(bs);
    var s := e + rest;
    assert s[..3 * |bs|] == e;
    PercentOctetsAt(bs, 0);
    assert s[0..3] == e[0..3];
    ReadPercentOctet(s, 0, bs[0]);
    if c as int < 0x80 {
      assert bs == [c as int];
    } else {
      Utf8Decodes(c as int);
      ReadPercentOctets(s, bs);
      ReadPercentContinuations(s, bs, 1);
      ContinuationsFit(s, 3, |bs| - 1);
    }
  }

  /** Decoding the encoding of one character, followed by anything. */
  lemma DecodeEncodedChar(c: char, rest: string)
    ensures Decode(EncodeChar(c) + rest) == Prepend(c, Decode(rest))
  {
    var s := EncodeChar(c) + rest;
    if IsUriUnreserved(c) {
      assert s[0] == c && s[1..] == rest;
    } else {
      var e := PercentOctets(Utf8(c as int));
      DecodeEscapeOfChar(c, rest);
      assert s[0] == '%';
      assert s[|e|..] == rest;
    }
  }

  /** decodeURIComponent undoes encodeURIComponent. */
  lemma {:induction false} DecodeEncode(s: string)
    ensures Decode(Encode(s)) == Ok(s)
  {
    if |s| > 0 {
      DecodeEncode(s[1..]);
      DecodeEncodedChar(s[0], Encode(s[1..]));
      assert [s[0]] + s[1..] == s;
    }
  }

  /** encodeURIComponent is injective: different code yields different payloads. */
  lemma EncodeInjective(s: string, t: string)
    requires Encode(s) == Encode(t)
    ensures s == t
  {
    DecodeEncode(s);
    DecodeEncode(t);
  }
}
