/**
  Base64 in the standard alphabet with `=` padding (section 4 of RFC 4648):
  what Node's `Buffer.toString("base64")` produces. Every three bytes become
  four characters; a final group of one or two bytes is padded to four.
 */
module Base64 {
  import opened Wrappers
  import opened Utf8

  type sextet = x: int | 0 <= x < 64

  /**
    The alphabet of section 4 of RFC 4648: `A`-`Z` for 0-25, `a`-`z` for
    26-51, `0`-`9` for 52-61, then `+` and `/`.
   */
  function CharOf(v: sextet): (c: char)
    ensures c != '='
  {
    if v < 26 then ('A' as int + v) as char
    else if v < 52 then ('a' as int + (v - 26)) as char
    else if v < 62 then ('0' as int + (v - 52)) as char
    else if v == 62 then '+'
    else '/'
  }

  /** The value of an alphabet character; `None` for any other character (including `=`). */
  function ValueOf(c: char): Option<sextet> {
    if 'A' <= c <= 'Z' then Some(c as int - 'A' as int)
    else if 'a' <= c <= 'z' then Some(c as int - 'a' as int + 26)
    else if '0' <= c <= '9' then Some(c as int - '0' as int + 52)
    else if c == '+' then Some(62)
    else if c == '/' then Some(63)
    else None
  }

  /** `ValueOf` reads back what `CharOf` writes. */
  lemma ValueOfCharOf(v: sextet)
    ensures ValueOf(CharOf(v)) == Some(v)
  {
  }

  predicate IsBase64Char(c: char) {
    ValueOf(c).Some? || c == '='
  }

  /** Three bytes as four characters. */
  function EncodeGroup(b0: byte, b1: byte, b2: byte): string {
    [CharOf(b0 / 4), CharOf(b0 % 4 * 16 + b1 / 16), CharOf(b1 % 16 * 4 + b2 / 64), CharOf(b2 % 64)]
  }

  /** The final one or two bytes, padded to four characters. */
  function EncodeTail(b: seq<byte>): string
    requires 1 <= |b| <= 2
  {
    if |b| == 1 then [CharOf(b[0] / 4), CharOf(b[0] % 4 * 16), '=', '=']
    else [CharOf(b[0] / 4), CharOf(b[0] % 4 * 16 + b[1] / 16), CharOf(b[1] % 16 * 4), '=']
  }

  function Encode(b: seq<byte>): (r: string)
    ensures |r| == (|b| + 2) / 3 * 4
    decreases |b|
  {
    if |b| == 0 then ""
    else if |b| <= 2 then EncodeTail(b)
    else EncodeGroup(b[0], b[1], b[2]) + Encode(b[3..])
  }

  /** The output uses only the alphabet and the pad character. */
  lemma {:induction false} EncodeAlphabet(b: seq<byte>)
    ensures forall i :: 0 <= i < |Encode(b)| ==> IsBase64Char(Encode(b)[i])
    decreases |b|
  {
    if |b| > 2 {
      EncodeAlphabet(b[3..]);
      var g, rest := EncodeGroup(b[0], b[1], b[2]), Encode(b[3..]);
      EncodeFirstGroup(b);
      assert forall i :: 0 <= i < 4 ==> IsBase64Char(g[i]);
      AllBase64Concat(g, rest);
    }
  }

  lemma AllBase64Concat(a: string, b: string)
    requires forall i :: 0 <= i < |a| ==> IsBase64Char(a[i])
    requires forall i :: 0 <= i < |b| ==> IsBase64Char(b[i])
    ensures forall i :: 0 <= i < |a + b| ==> IsBase64Char((a + b)[i])
  {
  }

  /** The bytes three sextets or four sextets stand for. */
  function Bytes(v0: sextet, v1: sextet, v2: sextet, v3: sextet): seq<byte> {
    [v0 * 4 + v1 / 16, v1 % 16 * 16 + v2 / 4, v2 % 4 * 64 + v3]
  }

  /** Four alphabet characters as three bytes. */
  function DecodeGroup(c0: char, c1: char, c2: char, c3: char): Option<seq<byte>> {
    var v0, v1, v2, v3 := ValueOf(c0), ValueOf(c1), ValueOf(c2), ValueOf(c3);
    if v0.Some? && v1.Some? && v2.Some? && v3.Some? then Some(Bytes(v0.value, v1.value, v2.value, v3.value))
    else None
  }

  /**
    The final group, which may end in one or two `=`. The bits a padded
    group does not use must be zero (section 3.5 of RFC 4648), so every
    byte string has exactly one accepted encoding.
   */
  function DecodeLast(c0: char, c1: char, c2: char, c3: char): Option<seq<byte>> {
    var v0, v1, v2 := ValueOf(c0), ValueOf(c1), ValueOf(c2);
    if c2 == '=' && c3 == '=' then
      if v0.Some? && v1.Some? && v1.value % 16 == 0 then Some(Bytes(v0.value, v1.value, 0, 0)[..1]) else None
    else if c3 == '=' then
      if v0.Some? && v1.Some? && v2.Some? && v2.value % 4 == 0 then Some(Bytes(v0.value, v1.value, v2.value, 0)[..2])
      else None
    else DecodeGroup(c0, c1, c2, c3)
  }

  /** Decodes padded Base64; `None` when the text is not a multiple of four alphabet characters. */
  function Decode(s: string): Option<seq<byte>>
    decreases |s|
  {
    if |s| == 0 then Some([])
    else if |s| < 4 then None
    else if |s| == 4 then DecodeLast(s[0], s[1], s[2], s[3])
    else
      var g, rest := DecodeGroup(s[0], s[1], s[2], s[3]), Decode(s[4..]);
      if g.Some? && rest.Some? then Some(g.value + rest.value) else None
  }

  lemma DecodeEncodeGroup(b0: byte, b1: byte, b2: byte)
    ensures var e := EncodeGroup(b0, b1, b2);
      DecodeGroup(e[0], e[1], e[2], e[3]) == Some([b0, b1, b2])
  {
    ValueOfCharOf(b0 / 4);
    ValueOfCharOf(b0 % 4 * 16 + b1 / 16);
    ValueOfCharOf(b1 % 16 * 4 + b2 / 64);
    ValueOfCharOf(b2 % 64);
    assert (b0 % 4 * 16 + b1 / 16) / 16 == b0 % 4;
    assert (b0 % 4 * 16 + b1 / 16) % 16 == b1 / 16;
    assert (b1 % 16 * 4 + b2 / 64) / 4 == b1 % 16;
    assert (b1 % 16 * 4 + b2 / 64) % 4 == b2 / 64;
  }

  lemma DecodeEncodeOne(b0: byte)
    ensures var e := EncodeTail([b0]); DecodeLast(e[0], e[1], e[2], e[3]) == Some([b0])
  {
    var v0, v1 := b0 / 4, b0 % 4 * 16;
    assert EncodeTail([b0]) == [CharOf(v0), CharOf(v1), '=', '='];
    ValueOfCharOf(v0);
    ValueOfCharOf(v1);
    assert v1 / 16 == b0 % 4 && v1 % 16 == 0;
    assert Bytes(v0, v1, 0, 0)[..1] == [b0];
  }

  lemma DecodeEncodeTwo(b0: byte, b1: byte)
    ensures var e := EncodeTail([b0, b1]); DecodeLast(e[0], e[1], e[2], e[3]) == Some([b0, b1])
  {
    var v0, v1, v2 := b0 / 4, b0 % 4 * 16 + b1 / 16, b1 % 16 * 4;
    assert EncodeTail([b0, b1]) == [CharOf(v0), CharOf(v1), CharOf(v2), '='];
    ValueOfCharOf(v0);
    ValueOfCharOf(v1);
    ValueOfCharOf(v2);
    assert v1 / 16 == b0 % 4 && v1 % 16 == b1 / 16;
    assert v2 / 4 == b1 % 16 && v2 % 4 == 0;
    assert Bytes(v0, v1, v2, 0)[..2] == [b0, b1];
  }

  /** A last group whose unused bits are set is refused: "QR==" would otherwise read as "QQ==" does. */
  lemma PadBitsRejected()
    ensures Decode("QR==") == None && Decode("QQ==") == Some([65])
  {
    ValueOfCharOf(16);
    ValueOfCharOf(17);
    assert CharOf(16) == 'Q' && CharOf(17) == 'R';
    assert Encode([65]) == "QQ==" by {
      assert EncodeTail([65]) == [CharOf(16), CharOf(16), '=', '='];
    }
    DecodeEncode([65]);
  }

  /** Decoding inverts encoding. */
  lemma {:induction false} DecodeEncode(b: seq<byte>)
    ensures Decode(Encode(b)) == Some(b)
    decreases |b|
  {
    if 1 <= |b| <= 2 {
      DecodeEncodeTail(b);
    } else if |b| >= 3 {
      DecodeEncode(b[3..]);
      DecodeEncodeStep(b);
    }
  }

  /** One full group in front of a text that already round-trips. */
  lemma DecodeEncodeStep(b: seq<byte>)
    requires |b| >= 3 && Decode(Encode(b[3..])) == Some(b[3..])
    ensures Decode(Encode(b)) == Some(b)
  {
    var g := EncodeGroup(b[0], b[1], b[2]);
    EncodeFirstGroup(b);
    DecodeEncodeGroup(b[0], b[1], b[2]);
    DecodeCons(g, Encode(b[3..]), [b[0], b[1], b[2]], b[3..]);
    SplitThree(b);
  }

  lemma EncodeFirstGroup(b: seq<byte>)
    requires |b| >= 3
    ensures Encode(b) == EncodeGroup(b[0], b[1], b[2]) + Encode(b[3..])
  {
  }

  lemma SplitThree<T>(b: seq<T>)
    requires |b| >= 3
    ensures [b[0], b[1], b[2]] + b[3..] == b
  {
  }

  lemma DecodeEncodeTail(b: seq<byte>)
    requires 1 <= |b| <= 2
    ensures Decode(Encode(b)) == Some(b)
  {
    var e := Encode(b);
    assert e == EncodeTail(b) && |e| == 4;
    assert Decode(e) == DecodeLast(e[0], e[1], e[2], e[3]);
    if |b| == 1 {
      assert b == [b[0]];
      DecodeEncodeOne(b[0]);
    } else {
      assert b == [b[0], b[1]];
      DecodeEncodeTwo(b[0], b[1]);
    }
  }

  /** A leading group of four characters decodes on its own, the rest after it. */
  lemma DecodeCons(g: string, rest: string, x: seq<byte>, y: seq<byte>)
    requires |g| == 4 && g[3] != '=' && g[2] != '='
    requires DecodeGroup(g[0], g[1], g[2], g[3]) == Some(x) && Decode(rest) == Some(y)
    ensures Decode(g + rest) == Some(x + y)
  {
    var s := g + rest;
    assert s[0] == g[0] && s[1] == g[1] && s[2] == g[2] && s[3] == g[3];
    if rest == [] {
      assert s == g && y == [] && x + y == x;
    } else {
      assert s[4..] == rest;
    }
  }
  /** Encoding is injective: different byte strings never share a Base64 text. */
  lemma EncodeInjective(a: seq<byte>, b: seq<byte>)
    requires Encode(a) == Encode(b)
    ensures a == b
  {
    DecodeEncode(a);
    DecodeEncode(b);
  }
}
