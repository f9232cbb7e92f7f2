/** Percent-encoding as `encodeURIComponent` does it (section 2.1 of
    RFC 3986, with the marks ECMAScript leaves unescaped), and the
    `application/x-www-form-urlencoded` parser behind `searchParams.get`
    (section 5.1 of the WHATWG URL Standard). */
module Uri {
  import opened Wrappers
  import opened Text
  import opened Seqs
  import Utf8

  /** The characters `encodeURIComponent` leaves as they are. */
  predicate Unescaped(c: char) {
    || ('A' <= c <= 'Z') || ('a' <= c <= 'z') || ('0' <= c <= '9')
    || c == '-' || c == '_' || c == '.' || c == '!' || c == '~' || c == '*'
    || c == '\'' || c == '(' || c == ')'
  }

  /** An upper-case hexadecimal digit, as the encoder writes them. */
  predicate IsUpperHex(c: char) {
    ('0' <= c <= '9') || ('A' <= c <= 'F')
  }

  function HexDigit(n: int): (r: char)
    requires 0 <= n < 16
    ensures IsUpperHex(r)
  {
    if n < 10 then (48 + n) as char else (55 + n) as char
  }

  /** `%XX` for one byte. */
  function PercentByte(b: Utf8.Byte): (r: string)
    ensures |r| == 3 && r[0] == '%' && IsUpperHex(r[1]) && IsUpperHex(r[2])
  {
    ['%', HexDigit(b / 16), HexDigit(b % 16)]
  }

  /** `%XX` for each byte of a sequence. */
  function PercentBytes(bs: seq<Utf8.Byte>): (r: string)
    ensures |r| == 3 * |bs|
    ensures forall i :: 0 <= i < |r| ==> r[i] == '%' || IsUpperHex(r[i])
  {
    if bs == [] then []
    else
      var p, t := PercentByte(bs[0]), PercentBytes(bs[1..]);
      assert forall i :: 3 <= i < |p + t| ==> (p + t)[i] == t[i - 3];
      p + t
  }

  /** One character's encoding: itself, or `%XX` for each of its UTF-8
      bytes. */
  function EncodeChar(c: char): string {
    if Unescaped(c) then [c] else PercentBytes(Utf8.EncodeChar(c))
  }

  /** Text made only of unescaped characters and `%XX` triples with
      upper-case digits. */
  predicate Encoded(s: string)
    decreases |s|
  {
    || s == []
    || (Unescaped(s[0]) && Encoded(s[1..]))
    || (|s| >= 3 && s[0] == '%' && IsUpperHex(s[1]) && IsUpperHex(s[2]) && Encoded(s[3..]))
  }

  /** `encodeURIComponent`. Characters are Unicode scalar values here, so
      the lone-surrogate `URIError` cannot arise. */
  function EncodeComponent(s: string): (r: string)
    ensures Encoded(r)
    ensures |r| >= |s|
  {
    if s == [] then []
    else
      EncodedAppend(EncodeChar(s[0]), EncodeComponent(s[1..]));
      EncodeChar(s[0]) + EncodeComponent(s[1..])
  }

  lemma {:induction false} PercentBytesEncoded(bs: seq<Utf8.Byte>, rest: string)
    requires Encoded(rest)
    ensures Encoded(PercentBytes(bs) + rest)
  {
    if bs == [] {
      assert PercentBytes(bs) + rest == rest;
    } else {
      PercentBytesEncoded(bs[1..], rest);
      var p := PercentByte(bs[0]);
      var t := PercentBytes(bs[1..]) + rest;
      var u := p + t;
      assert PercentBytes(bs) + rest == u;
      assert u[3..] == t;
      assert u[0] == '%' && IsUpperHex(u[1]) && IsUpperHex(u[2]) by {
        assert u[0] == p[0] && u[1] == p[1] && u[2] == p[2];
      }
      assert Encoded(u);
    }
  }

  lemma EncodedAppend(e: string, rest: string)
    requires exists c :: e == EncodeChar(c)
    requires Encoded(rest)
    ensures Encoded(e + rest)
  {
    var c :| e == EncodeChar(c);
    if Unescaped(c) {
      assert (e + rest)[1..] == rest;
    } else {
      PercentBytesEncoded(Utf8.EncodeChar(c), rest);
    }
  }

  /** Encoded text holds nothing but unescaped characters, `%` and
      upper-case hex digits: no `&`, `=`, `#`, `+` or space. */
  lemma {:induction false} EncodedChars(s: string)
    requires Encoded(s)
    ensures forall i :: 0 <= i < |s| ==> Unescaped(s[i]) || s[i] == '%' || IsUpperHex(s[i])
    ensures '&' !in s && '=' !in s && '#' !in s && '+' !in s && ' ' !in s && '?' !in s
    decreases |s|
  {
    if s != [] {
      if Unescaped(s[0]) && Encoded(s[1..]) {
        EncodedChars(s[1..]);
      } else {
        EncodedChars(s[3..]);
      }
    }
  }

  /** An ASCII hexadecimal digit byte, in either case. */
  predicate IsHexByte(b: int) {
    (0x30 <= b <= 0x39) || (0x41 <= b <= 0x46) || (0x61 <= b <= 0x66)
  }

  function HexByteValue(b: int): (r: int)
    requires IsHexByte(b)
    ensures 0 <= r < 16
  {
    if b <= 0x39 then b - 0x30 else if b <= 0x46 then b - 0x37 else b - 0x57
  }

  /** Percent-decoding of a byte sequence: a `%` followed by two hex
      digits is the byte they spell, anything else, a stray `%` included,
      stays as it is. */
  function PercentDecode(bs: seq<Utf8.Byte>): (r: seq<Utf8.Byte>)
    ensures |r| <= |bs|
    ensures 0x25 !in bs ==> r == bs
  {
    if bs == [] then []
    else if bs[0] == 0x25 && |bs| >= 3 && IsHexByte(bs[1]) && IsHexByte(bs[2]) then
      [HexByteValue(bs[1]) * 16 + HexByteValue(bs[2])] + PercentDecode(bs[3..])
    else [bs[0]] + PercentDecode(bs[1..])
  }

  /** Every `+` read as a space. */
  function PlusToSpace(s: string): (r: string)
    ensures |r| == |s| && '+' !in r
    ensures forall i :: 0 <= i < |s| ==> r[i] == if s[i] == '+' then ' ' else s[i]
  {
    seq(|s|, i requires 0 <= i < |s| => if s[i] == '+' then ' ' else s[i])
  }

  /** A name or a value of the query: `+` as space, percent-decoded, then
      read as UTF-8. The parser works on the query's UTF-8 bytes; as the
      separators `&`, `=` and `+` are ASCII, and UTF-8 writes every other
      character without ASCII bytes, splitting the text first is the same. */
  function DecodeField(s: string): string {
    Utf8.Decode(PercentDecode(Utf8.Encode(PlusToSpace(s))))
  }

  /** One `name=value` piece, split at its first `=`; a piece without `=`
      is a name with an empty value. */
  function ParsePiece(piece: string): (r: (string, string)) {
    var i := FirstIndex(piece, '=');
    (DecodeField(piece[..i]), DecodeField(if i < |piece| then piece[i + 1..] else ""))
  }

  function PieceOf(piece: string): Option<(string, string)> {
    if piece == "" then None else Some(ParsePiece(piece))
  }

  /** The name-value list of a query: one pair per non-empty `&`-separated
      piece, in order. */
  function ParseQuery(q: string): (r: seq<(string, string)>)
    ensures forall p :: p in r <==> PieceIn(SplitOn(q, '&'), p)
  {
    var r := FilterMap(SplitOn(q, '&'), PieceOf);
    assert forall p :: p in r <==> PieceIn(SplitOn(q, '&'), p) by {
      forall p ensures p in r <==> PieceIn(SplitOn(q, '&'), p) {
        PieceOfIn(SplitOn(q, '&'), p);
      }
    }
    r
  }

  /** Some non-empty piece reads as the pair `p`. */
  predicate PieceIn(ps: seq<string>, p: (string, string)) {
    exists i :: 0 <= i < |ps| && ps[i] != "" && ParsePiece(ps[i]) == p
  }

  /** The pairs of a list of pieces are those of its non-empty pieces. */
  lemma PieceOfIn(ps: seq<string>, p: (string, string))
    ensures p in FilterMap(ps, PieceOf) <==> PieceIn(ps, p)
  {
    if p in FilterMap(ps, PieceOf) {
      var i :| 0 <= i < |ps| && PieceOf(ps[i]) == Some(p);
    }
    if PieceIn(ps, p) {
      var i :| 0 <= i < |ps| && ps[i] != "" && ParsePiece(ps[i]) == p;
      assert PieceOf(ps[i]) == Some(p);
    }
  }

  /** The pairs come in query order: the pairs of `a&b` are those of `a`
      followed by those of `b`. */
  lemma ParseQueryAppend(a: string, b: string)
    ensures ParseQuery(a + "&" + b) == ParseQuery(a) + ParseQuery(b)
  {
    SplitOnConcat(a, b, '&');
    FilterMapAppend(SplitOn(a, '&'), SplitOn(b, '&'), PieceOf);
  }

  /** A query without `&` is one piece: no pair when it is empty, and
      otherwise the one pair of its name and value. */
  lemma ParseQueryPiece(piece: string)
    requires '&' !in piece
    ensures ParseQuery(piece) == if piece == "" then [] else [ParsePiece(piece)]
  {
    SplitOnNone(piece, '&');
    FilterMapOne(piece, PieceOf);
  }

  /** `searchParams.get(name)`: the value of the first pair with that
      name, `None` for `null`. */
  function Get(q: string, name: string): (r: Option<string>)
    ensures r.None? <==> forall p :: p in ParseQuery(q) ==> p.0 != name
    ensures r.Some? ==> exists k :: 0 <= k < |ParseQuery(q)| && ParseQuery(q)[k] == (name, r.value)
                                    && forall j :: 0 <= j < k ==> ParseQuery(q)[j].0 != name
  {
    match Find(ParseQuery(q), (p: (string, string)) => p.0 == name)
    case None => None
    case Some(p) => Some(p.1)
  }

  /** A hex digit the encoder writes reads back as its value. */
  lemma HexRoundTrip(n: int)
    requires 0 <= n < 16
    ensures IsHexByte(HexDigit(n) as int) && HexByteValue(HexDigit(n) as int) == n
  {
  }

  /** `%XX` decodes to the byte it was written for. */
  lemma PercentDecodeByte(b: Utf8.Byte, rest: seq<Utf8.Byte>)
    ensures PercentDecode(Utf8.Encode(PercentByte(b)) + rest) == [b] + PercentDecode(rest)
  {
    var bs := Utf8.Encode(PercentByte(b)) + rest;
    PercentTriple(b, rest);
    HexRoundTrip(b / 16);
    HexRoundTrip(b % 16);
    PercentDecodeEscape(bs);
  }

  /** The bytes of `%XX` followed by more bytes. */
  lemma PercentTriple(b: Utf8.Byte, rest: seq<Utf8.Byte>)
    ensures var bs := Utf8.Encode(PercentByte(b)) + rest;
            && |bs| >= 3 && bs[0] == 0x25 && bs[1] == HexDigit(b / 16) as int && bs[2] == HexDigit(b % 16) as int
            && bs[3..] == rest
  {
    var p := PercentByte(b);
    Utf8.EncodeAscii(p);
    var bs := Utf8.Encode(p) + rest;
    assert bs[3..] == rest;
  }

  /** A `%` and two hex digits decode to the byte they spell. */
  lemma PercentDecodeEscape(bs: seq<Utf8.Byte>)
    requires |bs| >= 3 && bs[0] == 0x25 && IsHexByte(bs[1]) && IsHexByte(bs[2])
    ensures PercentDecode(bs) == [HexByteValue(bs[1]) * 16 + HexByteValue(bs[2])] + PercentDecode(bs[3..])
  {
  }

  /** A run of `%XX` triples decodes to the bytes it was written for. */
  lemma {:induction false} PercentDecodeBytes(bs: seq<Utf8.Byte>, rest: seq<Utf8.Byte>)
    ensures PercentDecode(Utf8.Encode(PercentBytes(bs)) + rest) == bs + PercentDecode(rest)
  {
    if bs == [] {
      assert Utf8.Encode(PercentBytes(bs)) + rest == rest;
    } else {
      var tail := Utf8.Encode(PercentBytes(bs[1..])) + rest;
      PercentBytesCons(bs, rest);
      PercentDecodeByte(bs[0], tail);
      PercentDecodeBytes(bs[1..], rest);
      ConsAssoc(bs, PercentDecode(rest));
    }
  }

  /** The bytes of `%XX` triples, first triple split off. */
  lemma PercentBytesCons(bs: seq<Utf8.Byte>, rest: seq<Utf8.Byte>)
    requires bs != []
    ensures Utf8.Encode(PercentBytes(bs)) + rest
            == Utf8.Encode(PercentByte(bs[0])) + (Utf8.Encode(PercentBytes(bs[1..])) + rest)
  {
    assert PercentBytes(bs) == PercentByte(bs[0]) + PercentBytes(bs[1..]);
    EncodeCons(PercentByte(bs[0]), PercentBytes(bs[1..]), rest);
  }

  lemma ConsAssoc(bs: seq<Utf8.Byte>, t: seq<Utf8.Byte>)
    requires bs != []
    ensures [bs[0]] + (bs[1..] + t) == bs + t
  {
    assert bs == [bs[0]] + bs[1..];
  }

  lemma EncodeCons(p: string, t: string, rest: seq<Utf8.Byte>)
    ensures Utf8.Encode(p + t) + rest == Utf8.Encode(p) + (Utf8.Encode(t) + rest)
  {
    Utf8.EncodeAppend(p, t);
  }

  /** One encoded character decodes to its UTF-8 bytes. */
  lemma PercentDecodeChar(c: char, rest: seq<Utf8.Byte>)
    ensures PercentDecode(Utf8.Encode(EncodeChar(c)) + rest) == Utf8.EncodeChar(c) + PercentDecode(rest)
  {
    if Unescaped(c) {
      assert Utf8.Encode([c]) == Utf8.EncodeChar(c);
      assert (Utf8.EncodeChar(c) + rest)[1..] == rest;
    } else {
      PercentDecodeBytes(Utf8.EncodeChar(c), rest);
    }
  }

  /** Percent-decoding an encoded text gives the text's UTF-8 bytes. */
  lemma {:induction false} PercentDecodeComponent(s: string)
    ensures PercentDecode(Utf8.Encode(EncodeComponent(s))) == Utf8.Encode(s)
  {
    if s != [] {
      var e := EncodeChar(s[0]);
      var t := EncodeComponent(s[1..]);
      Utf8.EncodeAppend(e, t);
      PercentDecodeChar(s[0], Utf8.Encode(t));
      PercentDecodeComponent(s[1..]);
    }
  }

  /** A field that was encoded decodes to the original text. */
  lemma DecodeFieldEncoded(s: string)
    ensures DecodeField(EncodeComponent(s)) == s
  {
    var e := EncodeComponent(s);
    EncodedChars(e);
    assert PlusToSpace(e) == e;
    PercentDecodeComponent(s);
    Utf8.DecodeEncode(s);
  }

  /** A parameter name that reads back as itself: ASCII, without the
      characters the parser treats specially. */
  predicate PlainName(k: string) {
    Utf8.Ascii(k) && '%' !in k && '+' !in k && '=' !in k && '&' !in k
  }

  /** Percent-decoding leaves ASCII text without `%` alone. */
  lemma {:induction false} PercentDecodePlain(s: string)
    requires Utf8.Ascii(s) && '%' !in s
    ensures PercentDecode(Utf8.Encode(s)) == Utf8.Encode(s)
  {
    if s != [] {
      var bs := Utf8.Encode(s);
      assert bs == [s[0] as int] + Utf8.Encode(s[1..]);
      assert bs[1..] == Utf8.Encode(s[1..]);
      PercentDecodePlain(s[1..]);
    }
  }

  lemma DecodeFieldPlain(k: string)
    requires PlainName(k)
    ensures DecodeField(k) == k
  {
    assert PlusToSpace(k) == k;
    PercentDecodePlain(k);
    Utf8.DecodeEncode(k);
  }

  /** A query of one `name=raw` piece is read back by `get` as the
      decoded `raw`. */
  lemma GetOne(name: string, raw: string)
    requires PlainName(name) && '&' !in raw
    ensures Get(name + "=" + raw, name) == Some(DecodeField(raw))
  {
    var q := name + "=" + raw;
    assert '&' !in q;
    SplitOnNone(q, '&');
    assert q[|name|] == '=';
    assert FirstIndex(q, '=') == |name|;
    assert q[..|name|] == name && q[|name| + 1..] == raw;
    DecodeFieldPlain(name);
    assert ParseQuery(q) == [(name, DecodeField(raw))];
  }

  /** The parameter written as `name=` and an encoded value is read back
      by `get` as the original value. */
  lemma GetEncoded(name: string, v: string)
    requires PlainName(name)
    ensures Get(name + "=" + EncodeComponent(v), name) == Some(v)
  {
    EncodedChars(EncodeComponent(v));
    GetOne(name, EncodeComponent(v));
    DecodeFieldEncoded(v);
  }

  /** The characters the URL parser percent-encodes in the query of a
      special (`http`, `https`, ...) URL. */
  predicate InSpecialQuerySet(c: char) {
    c as int < 0x21 || c as int > 0x7E || c == '"' || c == '#' || c == '<' || c == '>' || c == '\''
  }

  function EscapeQueryChar(c: char): (r: string)
    ensures forall i :: 0 <= i < |r| ==> !InSpecialQuerySet(r[i])
  {
    if InSpecialQuerySet(c) then PercentBytes(Utf8.EncodeChar(c)) else [c]
  }

  /** The query as the URL parser stores it, and as `img.src` reads it
      back: every character of the special-query set written as `%XX`. */
  function QueryEscape(q: string): (r: string)
    ensures forall i :: 0 <= i < |r| ==> !InSpecialQuerySet(r[i])
  {
    if q == [] then [] else EscapeQueryChar(q[0]) + QueryEscape(q[1..])
  }

  lemma {:induction false} QueryEscapeAppend(a: string, b: string)
    ensures QueryEscape(a + b) == QueryEscape(a) + QueryEscape(b)
  {
    if a == [] {
      assert a + b == b;
    } else {
      assert (a + b)[1..] == a[1..] + b;
      QueryEscapeAppend(a[1..], b);
    }
  }

  /** Text outside the special-query set is stored as it is. */
  lemma {:induction false} QueryEscapePlain(s: string)
    requires forall i :: 0 <= i < |s| ==> !InSpecialQuerySet(s[i])
    ensures QueryEscape(s) == s
  {
    if s != [] {
      QueryEscapePlain(s[1..]);
    }
  }

  /** A stored encoded character decodes to the character's UTF-8 bytes,
      `'` being the one character the parser writes as `%27`. */
  lemma PercentDecodeStoredChar(c: char, rest: seq<Utf8.Byte>)
    ensures PercentDecode(Utf8.Encode(QueryEscape(EncodeChar(c))) + rest) == Utf8.EncodeChar(c) + PercentDecode(rest)
  {
    if c == '\'' {
      assert EncodeChar(c) == [c];
      assert QueryEscape([c]) == PercentByte(0x27);
      PercentDecodeByte(0x27, rest);
    } else {
      EncodeCharChars(c);
      QueryEscapePlain(EncodeChar(c));
      PercentDecodeChar(c, rest);
    }
  }

  /** Apart from `'`, an encoded character holds nothing of the
      special-query set. */
  lemma EncodeCharChars(c: char)
    requires c != '\''
    ensures forall i :: 0 <= i < |EncodeChar(c)| ==> !InSpecialQuerySet(EncodeChar(c)[i])
  {
  }

  /** Percent-decoding the stored form of an encoded text gives the
      text's UTF-8 bytes. */
  lemma {:induction false} PercentDecodeStored(s: string)
    ensures PercentDecode(Utf8.Encode(QueryEscape(EncodeComponent(s)))) == Utf8.Encode(s)
  {
    if s != [] {
      var e := QueryEscape(EncodeChar(s[0]));
      var t := QueryEscape(EncodeComponent(s[1..]));
      QueryEscapeAppend(EncodeChar(s[0]), EncodeComponent(s[1..]));
      Utf8.EncodeAppend(e, t);
      PercentDecodeStoredChar(s[0], Utf8.Encode(t));
      PercentDecodeStored(s[1..]);
    }
  }

  /** The stored form of an encoded value still holds no `&`, `=` or
      `+`, and decodes to the value. */
  lemma DecodeFieldStored(v: string)
    ensures '&' !in QueryEscape(EncodeComponent(v)) && '+' !in QueryEscape(EncodeComponent(v))
    ensures DecodeField(QueryEscape(EncodeComponent(v))) == v
  {
    var e := EncodeComponent(v);
    var q := QueryEscape(e);
    EncodedChars(e);
    QueryEscapeChars(e);
    assert PlusToSpace(q) == q;
    PercentDecodeStored(v);
    Utf8.DecodeEncode(v);
  }

  /** Escaping adds only `%` and hex digits. */
  lemma {:induction false} QueryEscapeChars(s: string)
    requires '&' !in s && '=' !in s && '+' !in s
    ensures '&' !in QueryEscape(s) && '=' !in QueryEscape(s) && '+' !in QueryEscape(s)
  {
    if s != [] {
      QueryEscapeChars(s[1..]);
      var c := s[0];
      assert QueryEscape(s) == EscapeQueryChar(c) + QueryEscape(s[1..]);
    }
  }

  /** The stored `name=` piece with an encoded value is read back by `get`
      as the original value. */
  lemma GetStored(name: string, v: string)
    requires PlainName(name)
    requires forall i :: 0 <= i < |name| ==> !InSpecialQuerySet(name[i])
    ensures Get(QueryEscape(name + "=" + EncodeComponent(v)), name) == Some(v)
  {
    var e := EncodeComponent(v);
    QueryEscapeAppend(name + "=", e);
    QueryEscapePlain(name + "=");
    assert name + "=" + e == (name + "=") + e;
    DecodeFieldStored(v);
    GetOne(name, QueryEscape(e));
  }
}
