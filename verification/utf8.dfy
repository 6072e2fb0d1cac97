/**
  UTF-8 (RFC 3629): the byte encoding `Buffer.from(text, "utf8")` applies to
  the credentials before they are Base64-encoded. A decoder is given as the
  partner of the encoder.
 */
module Utf8 {
  import opened Wrappers

  type byte = x: int | 0 <= x < 256

  /** A continuation byte `10xxxxxx` carrying the six bits `v`. */
  function Cont(v: int): byte
    requires 0 <= v < 64
  {
    0x80 + v
  }

  /** The one to four bytes that encode one code point. */
  function EncodeChar(c: char): (r: seq<byte>)
    ensures 1 <= |r| <= 4
    ensures |r| == 1 <==> c as int < 0x80
    ensures r[0] < 0x80 || 0xC0 <= r[0] <= 0xF4
  {
    var n := c as int;
    if n < 0x80 then [n]
    else if n < 0x800 then [0xC0 + n / 64, Cont(n % 64)]
    else if n < 0x1_0000 then [0xE0 + n / 4096, Cont(n / 64 % 64), Cont(n % 64)]
    else [0xF0 + n / 262144, Cont(n / 4096 % 64), Cont(n / 64 % 64), Cont(n % 64)]
  }

  function Encode(s: string): (r: seq<byte>)
    ensures |r| >= |s|
  {
    if s == [] then [] else EncodeChar(s[0]) + Encode(s[1..])
  }

  /** Encoding distributes over concatenation. */
  lemma {:induction false} EncodeConcat(a: string, b: string)
    ensures Encode(a + b) == Encode(a) + Encode(b)
    decreases |a|
  {
    if a == [] {
      assert a + b == b;
    } else {
      assert (a + b)[1..] == a[1..] + b;
      EncodeConcat(a[1..], b);
    }
  }

  /** Text made of ASCII characters encodes to one byte per character, each its code. */
  lemma {:induction false} EncodeAscii(s: string)
    requires forall i :: 0 <= i < |s| ==> s[i] as int < 0x80
    ensures |Encode(s)| == |s|
    ensures forall i :: 0 <= i < |s| ==> Encode(s)[i] == s[i] as int
  {
    if s != [] {
      EncodeAscii(s[1..]);
    }
  }

  predicate IsCont(b: byte) {
    0x80 <= b < 0xC0
  }

  /** The character with code `v`, when `v` is a Unicode scalar value. */
  function ToChar(v: int): Option<char> {
    if 0 <= v < 0xD800 || 0xE000 <= v < 0x11_0000 then Some(v as char) else None
  }

  /** Reads one code point from the front of `bs`: the character and the number of bytes it took. */
  function DecodeChar(bs: seq<byte>): (r: Option<(char, nat)>)
    requires |bs| > 0
    ensures r.Some? ==> 1 <= r.value.1 <= |bs|
  {
    var b0 := bs[0] as int;
    if b0 < 0x80 then Some((b0 as char, 1))
    else if 0xC0 <= b0 < 0xE0 && |bs| >= 2 && IsCont(bs[1]) then
      match ToChar((b0 - 0xC0) * 64 + (bs[1] as int - 0x80))
      case Some(c) => Some((c, 2))
      case None => None
    else if 0xE0 <= b0 < 0xF0 && |bs| >= 3 && IsCont(bs[1]) && IsCont(bs[2]) then
      match ToChar((b0 - 0xE0) * 4096 + (bs[1] as int - 0x80) * 64 + (bs[2] as int - 0x80))
      case Some(c) => Some((c, 3))
      case None => None
    else if 0xF0 <= b0 < 0xF8 && |bs| >= 4 && IsCont(bs[1]) && IsCont(bs[2]) && IsCont(bs[3]) then
      match ToChar((b0 - 0xF0) * 262144 + (bs[1] as int - 0x80) * 4096 + (bs[2] as int - 0x80) * 64 + (bs[3] as int - 0x80))
      case Some(c) => Some((c, 4))
      case None => None
    else None
  }

  /** Decodes a whole byte string; `None` when it is not well-formed. */
  function Decode(bs: seq<byte>): Option<string>
    decreases |bs|
  {
    if bs == [] then Some([])
    else match DecodeChar(bs)
      case None => None
      case Some((c, k)) =>
        match Decode(bs[k..])
        case None => None
        case Some(rest) => Some([c] + rest)
  }

  lemma DecodeEncodeChar2(c: char, rest: seq<byte>)
    requires 0x80 <= c as int < 0x800
    ensures DecodeChar(EncodeChar(c) + rest) == Some((c, 2))
  {
    var n := c as int;
    assert (n / 64) * 64 + n % 64 == n;
  }

  lemma DecodeEncodeChar3(c: char, rest: seq<byte>)
    requires 0x800 <= c as int < 0x1_0000
    ensures DecodeChar(EncodeChar(c) + rest) == Some((c, 3))
  {
    var n := c as int;
    var q := n / 64;
    assert q * 64 + n % 64 == n;
    assert (q / 64) * 64 + q % 64 == q;
    assert n / 4096 == q / 64;
  }

  lemma DecodeEncodeChar4(c: char, rest: seq<byte>)
    requires 0x1_0000 <= c as int
    ensures DecodeChar(EncodeChar(c) + rest) == Some((c, 4))
  {
    var n := c as int;
    var q := n / 64;
    var q2 := q / 64;
    assert q * 64 + n % 64 == n;
    assert q2 * 64 + q % 64 == q;
    assert (q2 / 64) * 64 + q2 % 64 == q2;
    assert n / 4096 == q2;
    assert n / 262144 == q2 / 64;
  }

  /** The decoder reads back exactly the character the encoder wrote, whatever follows. */
  lemma DecodeEncodeChar(c: char, rest: seq<byte>)
    ensures DecodeChar(EncodeChar(c) + rest) == Some((c, |EncodeChar(c)|))
  {
    var n := c as int;
    if n < 0x80 {
    } else if n < 0x800 {
      DecodeEncodeChar2(c, rest);
    } else if n < 0x1_0000 {
      DecodeEncodeChar3(c, rest);
    } else {
      DecodeEncodeChar4(c, rest);
    }
  }

  /** Decoding inverts encoding. */
  lemma {:induction false} DecodeEncode(s: string)
    ensures Decode(Encode(s)) == Some(s)
  {
    if s != [] {
      var e := EncodeChar(s[0]);
      DecodeEncodeChar(s[0], Encode(s[1..]));
      assert (e + Encode(s[1..]))[|e|..] == Encode(s[1..]);
      DecodeEncode(s[1..]);
      assert [s[0]] + s[1..] == s;
    }
  }
}
