/**
 * The base64 encoding of section 4 of RFC 4648 (alphabet A-Z a-z 0-9 + /,
 * padded with '=' to a multiple of four characters), as produced by
 * `Buffer.toString('base64')`, and a strict decoder for it.
 */
module Base64 {
  import opened Wrappers

  type Byte = x: int | 0 <= x < 256
  type Sextet = x: int | 0 <= x < 64

  /** The character for a 6-bit value (the table of section 4 of RFC 4648). */
  function CharOf(v: Sextet): (c: char)
    ensures c != '='
  {
    if v < 26 then (65 + v) as char
    else if v < 52 then (97 + v - 26) as char
    else if v < 62 then (48 + v - 52) as char
    else if v == 62 then '+'
    else '/'
  }

  /** The 6-bit value of an alphabet character; `None` for any other character, '=' included. */
  function ValueOf(c: char): (r: Option<Sextet>)
    ensures r.Some? ==> CharOf(r.value) == c
  {
    if 'A' <= c <= 'Z' then Some(c as int - 65)
    else if 'a' <= c <= 'z' then Some(c as int - 97 + 26)
    else if '0' <= c <= '9' then Some(c as int - 48 + 52)
    else if c == '+' then Some(62)
    else if c == '/' then Some(63)
    else None
  }

  lemma ValueOfCharOf(v: Sextet)
    ensures ValueOf(CharOf(v)) == Some(v)
  {
  }

  /** Three bytes as four characters. */
  function EncodeGroup(a: Byte, b: Byte, c: Byte): string {
    [CharOf(a / 4), CharOf(a % 4 * 16 + b / 16), CharOf(b % 16 * 4 + c / 64), CharOf(c % 64)]
  }

  /** The final one or two bytes, padded with '='. */
  function EncodeTail(bs: seq<Byte>): string
    requires 1 <= |bs| <= 2
  {
    if |bs| == 1 then [CharOf(bs[0] / 4), CharOf(bs[0] % 4 * 16), '=', '=']
    else [CharOf(bs[0] / 4), CharOf(bs[0] % 4 * 16 + bs[1] / 16), CharOf(bs[1] % 16 * 4), '=']
  }

  function Encode(bs: seq<Byte>): (r: string)
    ensures |r| == (|bs| + 2) / 3 * 4
    decreases |bs|
  {
    if |bs| == 0 then ""
    else if |bs| < 3 then EncodeTail(bs)
    else EncodeGroup(bs[0], bs[1], bs[2]) + Encode(bs[3..])
  }

  /**
   * Four characters without padding as three bytes. Only the last group may be
   * padded, and there the bits that the padding discards must be zero
   * (the canonical encoding of section 3.5 of RFC 4648).
   */
  function DecodeGroup(q: string): (r: Option<seq<Byte>>)
    requires |q| == 4
  {
    match (ValueOf(q[0]), ValueOf(q[1]), ValueOf(q[2]), ValueOf(q[3]))
    case (Some(v0), Some(v1), Some(v2), Some(v3)) =>
      Some([v0 as int * 4 + v1 as int / 16, v1 as int % 16 * 16 + v2 as int / 4, v2 as int % 4 * 64 + v3])
    case _ => None
  }

  function DecodeLast(q: string): (r: Option<seq<Byte>>)
    requires |q| == 4
  {
    if q[2] == '=' && q[3] == '=' then
      match (ValueOf(q[0]), ValueOf(q[1]))
      case (Some(v0), Some(v1)) =>
        if v1 as int % 16 == 0 then Some([v0 as int * 4 + v1 as int / 16]) else None
      case _ => None
    else if q[3] == '=' then
      match (ValueOf(q[0]), ValueOf(q[1]), ValueOf(q[2]))
      case (Some(v0), Some(v1), Some(v2)) =>
        if v2 as int % 4 == 0 then Some([v0 as int * 4 + v1 as int / 16, v1 as int % 16 * 16 + v2 as int / 4]) else None
      case _ => None
    else DecodeGroup(q)
  }

  function Decode(s: string): (r: Option<seq<Byte>>)
    decreases |s|
  {
    if |s| == 0 then Some([])
    else if |s| < 4 then None
    else if |s| == 4 then DecodeLast(s)
    else match (DecodeGroup(s[..4]), Decode(s[4..]))
      case (Some(g), Some(rest)) => Some(g + rest)
      case _ => None
  }

  /** Decoding an encoding gives the bytes back. */
  lemma {:induction false} DecodeEncode(bs: seq<Byte>)
    ensures Decode(Encode(bs)) == Some(bs)
    decreases |bs|
  {
    if 1 <= |bs| < 3 {
      DecodeEncodeTail(bs);
    } else if |bs| == 3 {
      DecodeEncodeGroup(bs[0], bs[1], bs[2]);
      assert Encode(bs) == EncodeGroup(bs[0], bs[1], bs[2]) + Encode(bs[3..]);
      assert bs == [bs[0], bs[1], bs[2]];
    } else if |bs| > 3 {
      DecodeEncode(bs[3..]);
      DecodeEncodeStep(bs);
    }
  }

  /** One full group in front of an encoding that decodes. */
  lemma {:induction false} DecodeEncodeStep(bs: seq<Byte>)
    requires |bs| > 3 && Decode(Encode(bs[3..])) == Some(bs[3..])
    ensures Decode(Encode(bs)) == Some(bs)
  {
    var g := EncodeGroup(bs[0], bs[1], bs[2]);
    DecodeEncodeGroup(bs[0], bs[1], bs[2]);
    var s := Encode(bs);
    assert s == g + Encode(bs[3..]);
    assert s[..4] == g && s[4..] == Encode(bs[3..]);
    assert Decode(s) == Some([bs[0], bs[1], bs[2]] + bs[3..]);
    assert bs == [bs[0], bs[1], bs[2]] + bs[3..];
  }

  lemma DecodeEncodeGroup(a: Byte, b: Byte, c: Byte)
    ensures DecodeGroup(EncodeGroup(a, b, c)) == Some([a, b, c])
    ensures DecodeLast(EncodeGroup(a, b, c)) == Some([a, b, c])
  {
    var v0, v1, v2, v3 := a / 4, a % 4 * 16 + b / 16, b % 16 * 4 + c / 64, c % 64;
    ValueOfCharOf(v0);
    ValueOfCharOf(v1);
    ValueOfCharOf(v2);
    ValueOfCharOf(v3);
    Split16(a % 4, b / 16);
    Split4(b % 16, c / 64);
    assert v0 * 4 + v1 / 16 == a;
    assert v1 % 16 * 16 + v2 / 4 == b;
    assert v2 % 4 * 64 + v3 == c;
    var g := EncodeGroup(a, b, c);
    assert ValueOf(g[0]) == Some(v0) && ValueOf(g[1]) == Some(v1);
    assert ValueOf(g[2]) == Some(v2) && ValueOf(g[3]) == Some(v3);
  }

  /** Dividing by 16 separates a value placed above a digit below 16. */
  lemma Split16(hi: int, lo: int)
    requires 0 <= lo < 16
    ensures (hi * 16 + lo) / 16 == hi && (hi * 16 + lo) % 16 == lo
  {
  }

  /** Dividing by 4 separates a value placed above a digit below 4. */
  lemma Split4(hi: int, lo: int)
    requires 0 <= lo < 4
    ensures (hi * 4 + lo) / 4 == hi && (hi * 4 + lo) % 4 == lo
  {
  }

  /** Dividing by 64 separates a value placed above a digit below 64. */
  lemma Split64(hi: int, lo: int)
    requires 0 <= lo < 64
    ensures (hi * 64 + lo) / 64 == hi && (hi * 64 + lo) % 64 == lo
  {
  }

  lemma DecodeEncodeTail(bs: seq<Byte>)
    requires 1 <= |bs| <= 2
    ensures Decode(EncodeTail(bs)) == Some(bs)
  {
    var q := EncodeTail(bs);
    var a := bs[0];
    ValueOfCharOf(a / 4);
    if |bs| == 1 {
      ValueOfCharOf(a % 4 * 16);
      Split16(a % 4, 0);
      assert ValueOf(q[0]) == Some(a / 4) && ValueOf(q[1]) == Some(a % 4 * 16);
      assert DecodeLast(q) == Some([a]);
      assert bs == [a];
    } else {
      var b := bs[1];
      var v1, v2 := a % 4 * 16 + b / 16, b % 16 * 4;
      ValueOfCharOf(v1);
      ValueOfCharOf(v2);
      Split16(a % 4, b / 16);
      Split4(b % 16, 0);
      assert ValueOf(q[1]) == Some(v1) && ValueOf(q[2]) == Some(v2);
      assert DecodeLast(q) == Some([a, b]);
      assert bs == [a, b];
    }
  }

  /** Every string the decoder accepts is the encoding of what it decodes to. */
  lemma {:induction false} EncodeDecode(s: string)
    requires Decode(s).Some?
    ensures Encode(Decode(s).value) == s
    decreases |s|
  {
    if |s| == 4 {
      EncodeDecodeLast(s);
    } else if |s| > 4 {
      var g := DecodeGroup(s[..4]).value;
      EncodeDecode(s[4..]);
      EncodeDecodeGroup(s[..4]);
      var rest := Decode(s[4..]).value;
      assert Decode(s).value == g + rest;
      assert (g + rest)[3..] == rest;
      assert s == s[..4] + s[4..];
    }
  }

  lemma EncodeDecodeGroup(q: string)
    requires |q| == 4 && DecodeGroup(q).Some?
    ensures |DecodeGroup(q).value| == 3
    ensures EncodeGroup(DecodeGroup(q).value[0], DecodeGroup(q).value[1], DecodeGroup(q).value[2]) == q
  {
    var v0, v1, v2, v3 := ValueOf(q[0]).value, ValueOf(q[1]).value, ValueOf(q[2]).value, ValueOf(q[3]).value;
    GroupDigits(v0, v1, v2, v3);
  }

  /** The four sextets of three bytes are recovered from the bytes they decode to. */
  lemma GroupDigits(v0: Sextet, v1: Sextet, v2: Sextet, v3: Sextet)
    ensures var a, b, c := v0 * 4 + v1 / 16, v1 % 16 * 16 + v2 / 4, v2 % 4 * 64 + v3;
      a / 4 == v0 && a % 4 * 16 + b / 16 == v1 && b % 16 * 4 + c / 64 == v2 && c % 64 == v3
  {
    Split4(v0, v1 / 16);
    Split16(v1 % 16, v2 / 4);
    Split64(v2 % 4, v3);
  }

  lemma EncodeDecodeLast(q: string)
    requires |q| == 4 && DecodeLast(q).Some?
    ensures Encode(DecodeLast(q).value) == q
  {
    if q[2] == '=' && q[3] == '=' {
      EncodeDecodeOne(q);
    } else if q[3] == '=' {
      EncodeDecodeTwo(q);
    } else {
      EncodeDecodeGroup(q);
      var d := DecodeGroup(q).value;
      assert Encode(d) == EncodeGroup(d[0], d[1], d[2]) + Encode(d[3..]);
    }
  }

  lemma EncodeDecodeOne(q: string)
    requires |q| == 4 && q[2] == '=' && q[3] == '=' && DecodeLast(q).Some?
    ensures Encode(DecodeLast(q).value) == q
  {
    var v0, v1 := ValueOf(q[0]).value, ValueOf(q[1]).value;
    var a := v0 as int * 4 + v1 as int / 16;
    assert a / 4 == v0 && a % 4 * 16 == v1;
  }

  lemma EncodeDecodeTwo(q: string)
    requires |q| == 4 && q[3] == '=' && q[2] != '=' && DecodeLast(q).Some?
    ensures Encode(DecodeLast(q).value) == q
  {
    var v0, v1, v2 := ValueOf(q[0]).value, ValueOf(q[1]).value, ValueOf(q[2]).value;
    var a, b := v0 as int * 4 + v1 as int / 16, v1 as int % 16 * 16 + v2 as int / 4;
    assert a / 4 == v0 && a % 4 * 16 + b / 16 == v1 && b % 16 * 4 == v2;
  }
}
