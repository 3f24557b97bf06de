/**
  The standard Base64 encoding of section 4 of RFC 4648, as produced by
  `Buffer.prototype.toString("base64")`: the 64-character alphabet
  `A-Z a-z 0-9 + /`, `=` padding to a multiple of four characters, and no
  line breaks. The decoder is the strict inverse: it accepts only what the
  encoder can produce, so the two form a bijection.
*/
module Base64 {
  import opened Common

  /** A 6-bit group, the value carried by one alphabet character. */
  type Sextet = x: int | 0 <= x < 64

  const Pad: char := '='

  /** Membership in the 64-character alphabet of RFC 4648, Table 1. */
  predicate IsAlphabetChar(c: char) {
    || ('A' <= c <= 'Z')
    || ('a' <= c <= 'z')
    || ('0' <= c <= '9')
    || c == '+'
    || c == '/'
  }

  /** The character that RFC 4648, Table 1 assigns to value `v`. */
  function CharOf(v: Sextet): (c: char)
    ensures IsAlphabetChar(c) && c != Pad
  {
    if v < 26 then ('A' as int + v) as char
    else if v < 52 then ('a' as int + (v - 26)) as char
    else if v < 62 then ('0' as int + (v - 52)) as char
    else if v == 62 then '+'
    else '/'
  }

  /** The value of an alphabet character; `None` for anything outside the alphabet. */
  function ValueOf(c: char): (r: Option<Sextet>)
    ensures r.Some? <==> IsAlphabetChar(c)
    ensures r.Some? ==> CharOf(r.value) == c
  {
    if 'A' <= c <= 'Z' then Some(c as int - 'A' as int)
    else if 'a' <= c <= 'z' then Some(c as int - 'a' as int + 26)
    else if '0' <= c <= '9' then Some(c as int - '0' as int + 52)
    else if c == '+' then Some(62)
    else if c == '/' then Some(63)
    else None
  }

  /** Distinct values get distinct characters: `ValueOf` undoes `CharOf`. */
  lemma ValueOfCharOf(v: Sextet)
    ensures ValueOf(CharOf(v)) == Some(v)
  {
  }

  /** Number of `=` characters that close the encoding of `n` octets. */
  function PadCount(n: nat): nat {
    (3 - n % 3) % 3
  }

  /** Three octets become four characters (RFC 4648, section 4). */
  function EncodeGroup(b0: byte, b1: byte, b2: byte): seq<char> {
    [CharOf(b0 / 4), CharOf((b0 % 4) * 16 + b1 / 16), CharOf((b1 % 16) * 4 + b2 / 64), CharOf(b2 % 64)]
  }

  /** A final quantum of one octet: two characters and `==`. */
  function EncodeFinal1(b0: byte): seq<char> {
    [CharOf(b0 / 4), CharOf((b0 % 4) * 16), Pad, Pad]
  }

  /** A final quantum of two octets: three characters and `=`. */
  function EncodeFinal2(b0: byte, b1: byte): seq<char> {
    [CharOf(b0 / 4), CharOf((b0 % 4) * 16 + b1 / 16), CharOf((b1 % 16) * 4), Pad]
  }

  /** Base64 text of `data`: four characters for every started group of three octets. */
  function Encode(data: seq<byte>): (s: string)
    ensures |s| == 4 * ((|data| + 2) / 3)
    decreases |data|
  {
    if |data| == 0 then []
    else if |data| == 1 then EncodeFinal1(data[0])
    else if |data| == 2 then EncodeFinal2(data[0], data[1])
    else EncodeGroup(data[0], data[1], data[2]) + Encode(data[3..])
  }

  /**
    The shape of an encoding of n octets: every character is from the
    alphabet or is `=`, and `=` occurs exactly in the last PadCount(n)
    positions.
  */
  predicate WellPadded(s: string, n: nat) {
    && (forall i :: 0 <= i < |s| ==> IsAlphabetChar(s[i]) || s[i] == Pad)
    && (forall i :: 0 <= i < |s| ==> (s[i] == Pad <==> |s| - PadCount(n) <= i))
  }

  /** Every encoding is well padded, so it has no line break anywhere. */
  lemma {:induction false} EncodeShape(data: seq<byte>)
    ensures WellPadded(Encode(data), |data|)
    decreases |data|
  {
    if |data| == 1 {
      Final1Shape(data[0]);
    } else if |data| == 2 {
      Final2Shape(data[0], data[1]);
    } else if |data| >= 3 {
      EncodeShape(data[3..]);
      EncodeUnfoldGroup(data);
      ShapeOfPrefixedGroup(EncodeGroup(data[0], data[1], data[2]), Encode(data[3..]), |data| - 3);
    }
  }

  lemma Final1Shape(b0: byte)
    ensures WellPadded(EncodeFinal1(b0), 1)
  {
  }

  lemma Final2Shape(b0: byte, b1: byte)
    ensures WellPadded(EncodeFinal2(b0, b1), 2)
  {
  }

  /** A full group in front of an encoding keeps the padding at the end. */
  lemma ShapeOfPrefixedGroup(g: string, t: string, n: nat)
    requires |g| == 4 && forall i :: 0 <= i < 4 ==> IsAlphabetChar(g[i]) && g[i] != Pad
    requires |t| == 4 * ((n + 2) / 3)
    requires WellPadded(t, n)
    ensures |g + t| == 4 * ((n + 3 + 2) / 3)
    ensures WellPadded(g + t, n + 3)
  {
    assert PadCount(n + 3) == PadCount(n);
    forall i | 0 <= i < |g + t|
      ensures (g + t)[i] == Pad <==> |g + t| - PadCount(n + 3) <= i
    {
      if i >= 4 {
        assert (g + t)[i] == t[i - 4];
      }
    }
  }

  /** Four alphabet characters without padding decode to three octets. */
  function DecodeGroup(q: string): (r: Option<seq<byte>>)
    requires |q| == 4
    ensures r.Some? ==> |r.value| == 3
  {
    var v0, v1, v2, v3 := ValueOf(q[0]), ValueOf(q[1]), ValueOf(q[2]), ValueOf(q[3]);
    if v0.None? || v1.None? || v2.None? || v3.None? then None
    else
      var a, b, c, d := v0.value, v1.value, v2.value, v3.value;
      Some([a * 4 + b / 16, (b % 16) * 16 + c / 4, (c % 4) * 64 + d])
  }

  /**
    The last quantum may carry one or two `=`; the bits beyond the last
    octet must be zero, as the encoder leaves them, so that the decoding
    is canonical.
  */
  function DecodeFinal(q: string): (r: Option<seq<byte>>)
    requires |q| == 4
    ensures r.Some? ==> 1 <= |r.value| <= 3
  {
    if q[3] != Pad then DecodeGroup(q)
    else if q[2] == Pad then
      var v0, v1 := ValueOf(q[0]), ValueOf(q[1]);
      if v0.None? || v1.None? || v1.value % 16 != 0 then None
      else Some([v0.value * 4 + v1.value / 16])
    else
      var v0, v1, v2 := ValueOf(q[0]), ValueOf(q[1]), ValueOf(q[2]);
      if v0.None? || v1.None? || v2.None? || v2.value % 4 != 0 then None
      else Some([v0.value * 4 + v1.value / 16, (v1.value % 16) * 16 + v2.value / 4])
  }

  /** Strict decoder: accepts exactly the texts `Encode` produces. */
  function Decode(s: string): (r: Option<seq<byte>>)
    decreases |s|
  {
    if |s| == 0 then Some([])
    else if |s| < 4 then None
    else if |s| == 4 then DecodeFinal(s)
    else
      match DecodeGroup(s[..4])
      case None => None
      case Some(head) =>
        match Decode(s[4..])
        case None => None
        case Some(tail) => Some(head + tail)
  }

  /** Regrouping four sextets cut from three octets gives the octets back. */
  lemma GroupArith(b0: int, b1: int, b2: int, v1: int, v2: int)
    requires 0 <= b0 < 256 && 0 <= b1 < 256 && 0 <= b2 < 256
    requires v1 == (b0 % 4) * 16 + b1 / 16 && v2 == (b1 % 16) * 4 + b2 / 64
    ensures (b0 / 4) * 4 + v1 / 16 == b0
    ensures (v1 % 16) * 16 + v2 / 4 == b1
    ensures (v2 % 4) * 64 + b2 % 64 == b2
  {
    assert v1 / 16 == b0 % 4 && v1 % 16 == b1 / 16;
    assert v2 / 4 == b1 % 16 && v2 % 4 == b2 / 64;
  }

  lemma GroupRoundTrip(b0: byte, b1: byte, b2: byte)
    ensures DecodeGroup(EncodeGroup(b0, b1, b2)) == Some([b0, b1, b2])
  {
    var v1 := (b0 % 4) * 16 + b1 / 16;
    var v2 := (b1 % 16) * 4 + b2 / 64;
    ValueOfCharOf(b0 / 4);
    ValueOfCharOf(v1);
    ValueOfCharOf(v2);
    ValueOfCharOf(b2 % 64);
    GroupArith(b0, b1, b2, v1, v2);
  }

  lemma Final1RoundTrip(b0: byte)
    ensures DecodeFinal(EncodeFinal1(b0)) == Some([b0])
  {
    var v1 := (b0 % 4) * 16;
    ValueOfCharOf(b0 / 4);
    ValueOfCharOf(v1);
    assert v1 / 16 == b0 % 4 && v1 % 16 == 0;
  }

  lemma Final2RoundTrip(b0: byte, b1: byte)
    ensures DecodeFinal(EncodeFinal2(b0, b1)) == Some([b0, b1])
  {
    var v1 := (b0 % 4) * 16 + b1 / 16;
    var v2 := (b1 % 16) * 4;
    ValueOfCharOf(b0 / 4);
    ValueOfCharOf(v1);
    ValueOfCharOf(v2);
    assert v1 / 16 == b0 % 4 && v1 % 16 == b1 / 16;
    assert v2 / 4 == b1 % 16 && v2 % 4 == 0;
  }

  /** Decoding a full group followed by more text. */
  lemma DecodeAfterGroup(g: string, t: string)
    requires |g| == 4 && g[3] != Pad && DecodeGroup(g).Some? && Decode(t).Some?
    ensures Decode(g + t) == Some(DecodeGroup(g).value + Decode(t).value)
  {
    var s := g + t;
    if |t| == 0 {
      assert s == g;
      assert DecodeGroup(g).value + [] == DecodeGroup(g).value;
    } else {
      assert s[..4] == g;
      assert s[4..] == t;
    }
  }

  lemma EncodeUnfoldGroup(data: seq<byte>)
    requires |data| >= 3
    ensures Encode(data) == EncodeGroup(data[0], data[1], data[2]) + Encode(data[3..])
  {
  }

  lemma SplitAfterThree(data: seq<byte>)
    requires |data| >= 3
    ensures [data[0], data[1], data[2]] + data[3..] == data
  {
  }

  lemma DecodeEncodeStep(data: seq<byte>)
    requires |data| >= 3 && Decode(Encode(data[3..])) == Some(data[3..])
    ensures Decode(Encode(data)) == Some(data)
  {
    var g, t := EncodeGroup(data[0], data[1], data[2]), Encode(data[3..]);
    EncodeUnfoldGroup(data);
    GroupRoundTrip(data[0], data[1], data[2]);
    DecodeAfterGroup(g, t);
    SplitAfterThree(data);
  }

  /** Decoding the encoding gives back the octets: RFC 4648 Base64 loses nothing. */
  lemma {:induction false} DecodeEncode(data: seq<byte>)
    ensures Decode(Encode(data)) == Some(data)
    decreases |data|
  {
    if |data| == 0 {
    } else if |data| == 1 {
      var q := EncodeFinal1(data[0]);
      assert Encode(data) == q;
      assert Decode(q) == DecodeFinal(q);
      Final1RoundTrip(data[0]);
      assert [data[0]] == data;
    } else if |data| == 2 {
      var q := EncodeFinal2(data[0], data[1]);
      assert Encode(data) == q;
      assert Decode(q) == DecodeFinal(q);
      Final2RoundTrip(data[0], data[1]);
      assert [data[0], data[1]] == data;
    } else {
      DecodeEncode(data[3..]);
      DecodeEncodeStep(data);
    }
  }

  /** Regrouping four sextets into three octets and back is the identity. */
  lemma RegroupSextets(a: Sextet, b: Sextet, c: Sextet, e: Sextet, b0: int, b1: int, b2: int)
    requires b0 == a * 4 + b / 16 && b1 == (b % 16) * 16 + c / 4 && b2 == (c % 4) * 64 + e
    ensures b0 / 4 == a && (b0 % 4) * 16 + b1 / 16 == b
    ensures (b1 % 16) * 4 + b2 / 64 == c && b2 % 64 == e
  {
    assert b0 / 4 == a && b0 % 4 == b / 16;
    assert b1 / 16 == b % 16 && b1 % 16 == c / 4;
    assert b2 / 64 == c % 4 && b2 % 64 == e;
  }

  lemma RegroupFinal1(a: Sextet, b: Sextet, b0: int)
    requires b % 16 == 0 && b0 == a * 4 + b / 16
    ensures b0 / 4 == a && (b0 % 4) * 16 == b
  {
  }

  lemma RegroupFinal2(a: Sextet, b: Sextet, c: Sextet, b0: int, b1: int)
    requires c % 4 == 0 && b0 == a * 4 + b / 16 && b1 == (b % 16) * 16 + c / 4
    ensures b0 / 4 == a && (b0 % 4) * 16 + b1 / 16 == b && (b1 % 16) * 4 == c
  {
    assert b0 / 4 == a && b0 % 4 == b / 16;
    assert b1 / 16 == b % 16 && b1 % 16 == c / 4;
  }

  /** Characters with a value are the ones `CharOf` gives for that value. */
  lemma CharsOfValues(q: string, n: nat)
    requires n <= |q| && forall k :: 0 <= k < n ==> ValueOf(q[k]).Some?
    ensures forall k :: 0 <= k < n ==> CharOf(ValueOf(q[k]).value) == q[k]
  {
  }

  lemma GroupInverse(q: string)
    requires |q| == 4 && DecodeGroup(q).Some?
    ensures var d := DecodeGroup(q).value; EncodeGroup(d[0], d[1], d[2]) == q
  {
    var a, b, c, e := ValueOf(q[0]).value, ValueOf(q[1]).value, ValueOf(q[2]).value, ValueOf(q[3]).value;
    CharsOfValues(q, 4);
    var d := DecodeGroup(q).value;
    RegroupSextets(a, b, c, e, d[0], d[1], d[2]);
    assert EncodeGroup(d[0], d[1], d[2]) == [CharOf(a), CharOf(b), CharOf(c), CharOf(e)];
    assert [q[0], q[1], q[2], q[3]] == q;
  }

  lemma Final1Inverse(q: string)
    requires |q| == 4 && q[3] == Pad && q[2] == Pad && DecodeFinal(q).Some?
    ensures var d := DecodeFinal(q).value; |d| == 1 && EncodeFinal1(d[0]) == q
  {
    var a, b := ValueOf(q[0]).value, ValueOf(q[1]).value;
    CharsOfValues(q, 2);
    var d := DecodeFinal(q).value;
    RegroupFinal1(a, b, d[0]);
    assert EncodeFinal1(d[0]) == [CharOf(a), CharOf(b), Pad, Pad];
    assert [q[0], q[1], q[2], q[3]] == q;
  }

  lemma Final2Inverse(q: string)
    requires |q| == 4 && q[3] == Pad && q[2] != Pad && DecodeFinal(q).Some?
    ensures var d := DecodeFinal(q).value; |d| == 2 && EncodeFinal2(d[0], d[1]) == q
  {
    var a, b, c := ValueOf(q[0]).value, ValueOf(q[1]).value, ValueOf(q[2]).value;
    CharsOfValues(q, 3);
    var d := DecodeFinal(q).value;
    RegroupFinal2(a, b, c, d[0], d[1]);
    assert EncodeFinal2(d[0], d[1]) == [CharOf(a), CharOf(b), CharOf(c), Pad];
    assert [q[0], q[1], q[2], q[3]] == q;
  }

  /** Whatever the strict decoder accepts is exactly the encoding of its result. */
  lemma FinalInverse(q: string)
    requires |q| == 4 && DecodeFinal(q).Some?
    ensures Encode(DecodeFinal(q).value) == q
  {
    var d := DecodeFinal(q).value;
    if q[3] != Pad {
      GroupInverse(q);
      EncodeUnfoldGroup(d);
      assert d[3..] == [];
    } else if q[2] == Pad {
      Final1Inverse(q);
    } else {
      Final2Inverse(q);
    }
  }

  lemma SplitAfterGroup(head: seq<byte>, tail: seq<byte>)
    requires |head| == 3
    ensures (head + tail)[3..] == tail
    ensures (head + tail)[0] == head[0] && (head + tail)[1] == head[1] && (head + tail)[2] == head[2]
  {
  }

  /**
    Every text the decoder accepts is the encoding of what it decodes to:
    together with `DecodeEncode`, `Encode` and `Decode` are inverse bijections.
  */
  lemma {:induction false} EncodeDecode(s: string)
    requires Decode(s).Some?
    ensures Encode(Decode(s).value) == s
    decreases |s|
  {
    if |s| == 0 {
    } else if |s| == 4 {
      FinalInverse(s);
    } else {
      var q, rest := s[..4], s[4..];
      var head, tail := DecodeGroup(q).value, Decode(rest).value;
      EncodeDecode(rest);
      GroupInverse(q);
      SplitAfterGroup(head, tail);
      EncodeUnfoldGroup(head + tail);
      assert s == q + rest;
    }
  }

  /** Different octet strings never share a Base64 text. */
  lemma EncodeInjective(a: seq<byte>, b: seq<byte>)
    requires Encode(a) == Encode(b)
    ensures a == b
  {
    DecodeEncode(a);
    DecodeEncode(b);
  }
}
