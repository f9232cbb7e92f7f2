/** UTF-8, as `encodeURIComponent` encodes characters and as the URL
    standard's query parser decodes bytes: the encoder of section 3 of
    RFC 3629, and the WHATWG Encoding Standard's UTF-8 decoder, which turns
    every maximal invalid subpart into one U+FFFD. */
module Utf8 {
  import opened Wrappers

  /** A byte. */
  type Byte = b: int | 0 <= b < 256

  /** The character a decoder emits for an invalid byte sequence. */
  const Replacement: char := '\U{FFFD}'

  /** A continuation byte, `10xxxxxx`. */
  predicate IsCont(b: int) {
    0x80 <= b <= 0xBF
  }

  /** The one to four bytes of a character. */
  function EncodeChar(c: char): (r: seq<Byte>)
    ensures 1 <= |r| <= 4
    ensures |r| == 1 <==> c as int < 0x80
    ensures |r| == 1 ==> r[0] == c as int
    ensures |r| > 1 ==> r[0] >= 0xC2 && forall i :: 1 <= i < |r| ==> IsCont(r[i])
  {
    var cp := c as int;
    if cp < 0x80 then [cp]
    else if cp < 0x800 then [0xC0 + cp / 64, 0x80 + cp % 64]
    else if cp < 0x10000 then [0xE0 + cp / 4096, 0x80 + cp / 64 % 64, 0x80 + cp % 64]
    else [0xF0 + cp / 262144, 0x80 + cp / 4096 % 64, 0x80 + cp / 64 % 64, 0x80 + cp % 64]
  }

  /** The bytes of a text. */
  function Encode(s: string): (r: seq<Byte>)
    ensures |s| <= |r| <= 4 * |s|
  {
    if s == [] then [] else EncodeChar(s[0]) + Encode(s[1..])
  }

  lemma EncodeAppend(a: string, b: string)
    ensures Encode(a + b) == Encode(a) + Encode(b)
  {
    if a == [] {
      assert a + b == b;
    } else {
      assert (a + b)[1..] == a[1..] + b;
      EncodeAppend(a[1..], b);
    }
  }

  /** An ASCII text is its own byte sequence. */
  predicate Ascii(s: string) {
    forall i :: 0 <= i < |s| ==> s[i] as int < 0x80
  }

  lemma {:induction false} EncodeAscii(s: string)
    requires Ascii(s)
    ensures |Encode(s)| == |s| && forall i :: 0 <= i < |s| ==> Encode(s)[i] == s[i] as int
  {
    if s != [] {
      EncodeAscii(s[1..]);
    }
  }

  /** How a lead byte continues: the number of continuation bytes and the
      bounds of the first one; `None` for a byte that cannot lead. */
  function Lead(b: Byte): Option<(nat, int, int)> {
    if 0xC2 <= b <= 0xDF then Some((1, 0x80, 0xBF))
    else if b == 0xE0 then Some((2, 0xA0, 0xBF))
    else if 0xE1 <= b <= 0xEC || b == 0xEE || b == 0xEF then Some((2, 0x80, 0xBF))
    else if b == 0xED then Some((2, 0x80, 0x9F))
    else if b == 0xF0 then Some((3, 0x90, 0xBF))
    else if 0xF1 <= b <= 0xF3 then Some((3, 0x80, 0xBF))
    else if b == 0xF4 then Some((3, 0x80, 0x8F))
    else None
  }

  /** The character of a two-byte sequence. */
  function Value2(b0: Byte, b1: Byte): (r: char)
    requires 0xC2 <= b0 <= 0xDF && IsCont(b1)
    ensures 0x80 <= r as int < 0x800
  {
    ((b0 - 0xC0) * 64 + (b1 - 0x80)) as char
  }

  /** The character of a three-byte sequence, its second byte within the
      lead's bounds. */
  function Value3(b0: Byte, b1: Byte, b2: Byte): (r: char)
    requires Lead(b0).Some? && Lead(b0).value.0 == 2
    requires Lead(b0).value.1 <= b1 <= Lead(b0).value.2 && IsCont(b2)
    ensures 0x800 <= r as int < 0x10000
  {
    var cp := (b0 - 0xE0) * 4096 + (b1 - 0x80) * 64 + (b2 - 0x80);
    assert cp < 0xD800 || 0xE000 <= cp by {
      if b0 == 0xED {
        assert cp <= 0xD7FF;
      }
    }
    cp as char
  }

  /** The character of a four-byte sequence, its second byte within the
      lead's bounds. */
  function Value4(b0: Byte, b1: Byte, b2: Byte, b3: Byte): (r: char)
    requires Lead(b0).Some? && Lead(b0).value.0 == 3
    requires Lead(b0).value.1 <= b1 <= Lead(b0).value.2 && IsCont(b2) && IsCont(b3)
    ensures 0x10000 <= r as int
  {
    ((b0 - 0xF0) * 262144 + (b1 - 0x80) * 4096 + (b2 - 0x80) * 64 + (b3 - 0x80)) as char
  }

  /** One step of the decoder: the next character and how many bytes it
      consumed. A sequence cut short by a byte outside its bounds, or by the
      end of the input, yields U+FFFD and leaves the offending byte for the
      next step. */
  function DecodeStep(bs: seq<Byte>): (r: (char, nat))
    requires |bs| > 0
    ensures 1 <= r.1 <= |bs| && r.1 <= 4
    ensures bs[0] < 0x80 ==> r == (bs[0] as char, 1)
    ensures bs[0] >= 0x80 && Lead(bs[0]).None? ==> r == (Replacement, 1)
    ensures r.1 > 1 ==> Lead(bs[0]).Some? && r.1 <= Lead(bs[0]).value.0 + 1
  {
    var b0 := bs[0];
    if b0 < 0x80 then (b0 as char, 1)
    else match Lead(b0)
      case None => (Replacement, 1)
      case Some((need, lower, upper)) =>
        if |bs| < 2 || !(lower <= bs[1] <= upper) then (Replacement, 1)
        else if need == 1 then (Value2(b0, bs[1]), 2)
        else if |bs| < 3 || !IsCont(bs[2]) then (Replacement, 2)
        else if need == 2 then (Value3(b0, bs[1], bs[2]), 3)
        else if |bs| < 4 || !IsCont(bs[3]) then (Replacement, 3)
        else (Value4(b0, bs[1], bs[2], bs[3]), 4)
  }

  /** The decoded text of a byte sequence. */
  function Decode(bs: seq<Byte>): (r: string)
    ensures |r| <= |bs|
    decreases |bs|
  {
    if bs == [] then []
    else
      var step := DecodeStep(bs);
      [step.0] + Decode(bs[step.1..])
  }

  /** The decoder reads back exactly the character the encoder wrote,
      whatever follows it. */
  lemma DecodeStepEncoded(c: char, rest: seq<Byte>)
    ensures DecodeStep(EncodeChar(c) + rest) == (c, |EncodeChar(c)|)
  {
    var cp := c as int;
    var bs := EncodeChar(c) + rest;
    if cp < 0x80 {
    } else if cp < 0x800 {
      StepTwo(c, rest);
    } else if cp < 0x10000 {
      StepThree(c, rest);
    } else {
      StepFour(c, rest);
    }
  }

  lemma StepTwo(c: char, rest: seq<Byte>)
    requires 0x80 <= c as int < 0x800
    ensures DecodeStep(EncodeChar(c) + rest) == (c, 2)
  {
    var cp := c as int;
    var b0, b1 := 0xC0 + cp / 64, 0x80 + cp % 64;
    assert EncodeChar(c) == [b0, b1];
    assert cp == (b0 - 0xC0) * 64 + (b1 - 0x80);
  }

  lemma StepThree(c: char, rest: seq<Byte>)
    requires 0x800 <= c as int < 0x10000
    ensures DecodeStep(EncodeChar(c) + rest) == (c, 3)
  {
    var cp := c as int;
    var q, b2 := cp / 64, 0x80 + cp % 64;
    var b0, b1 := 0xE0 + q / 64, 0x80 + q % 64;
    assert q / 64 == cp / 4096;
    assert EncodeChar(c) == [b0, b1, b2];
    assert cp == (b0 - 0xE0) * 4096 + (b1 - 0x80) * 64 + (b2 - 0x80);
    assert b0 == 0xE0 ==> b1 >= 0xA0;
    assert b0 == 0xED ==> b1 <= 0x9F;
  }

  lemma StepFour(c: char, rest: seq<Byte>)
    requires 0x10000 <= c as int
    ensures DecodeStep(EncodeChar(c) + rest) == (c, 4)
  {
    var cp := c as int;
    var q, b3 := cp / 64, 0x80 + cp % 64;
    var q2, b2 := q / 64, 0x80 + q % 64;
    var b0, b1 := 0xF0 + q2 / 64, 0x80 + q2 % 64;
    assert q2 == cp / 4096 && q2 / 64 == cp / 262144;
    assert EncodeChar(c) == [b0, b1, b2, b3];
    assert cp == (b0 - 0xF0) * 262144 + (b1 - 0x80) * 4096 + (b2 - 0x80) * 64 + (b3 - 0x80);
    assert b0 == 0xF0 ==> b1 >= 0x90;
    assert b0 == 0xF4 ==> b1 <= 0x8F;
  }

  /** Decoding undoes encoding. */
  lemma {:induction false} DecodeEncode(s: string)
    ensures Decode(Encode(s)) == s
  {
    if s != [] {
      var e := EncodeChar(s[0]);
      DecodeStepEncoded(s[0], Encode(s[1..]));
      assert (e + Encode(s[1..]))[|e|..] == Encode(s[1..]);
      DecodeEncode(s[1..]);
    }
  }

  /** A non-ASCII byte on its own is never a character: it decodes to one
      U+FFFD. */
  lemma DecodeLoneByte(b: Byte)
    requires b >= 0x80
    ensures Decode([b]) == [Replacement]
  {
    assert [b][1..] == [];
  }

  /** A lead byte cut off by a byte outside its bounds gives U+FFFD for the
      lead alone; the other byte is read again. */
  lemma DecodeBrokenLead(b0: Byte, b1: Byte, rest: seq<Byte>)
    requires Lead(b0).Some? && !(Lead(b0).value.1 <= b1 <= Lead(b0).value.2)
    ensures Decode([b0, b1] + rest) == [Replacement] + Decode([b1] + rest)
  {
    assert ([b0, b1] + rest)[1..] == [b1] + rest;
  }
}
