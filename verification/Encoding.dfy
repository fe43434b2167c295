/**
 The character encodings behind deltas: UTF-8 (RFC 3629) with Python's replacement of
 malformed input, and percent-encoding (section 2.1 of RFC 3986) as `urllib.parse.quote`
 and `unquote` do it.
 */
module Encoding {
  import opened Texts

  type Byte = b: int | 0 <= b < 256

  // ------------------------------------------------------------ UTF-8

  /** A lone surrogate cannot be encoded. */
  predicate Encodable(c: CodePoint) {
    !(0xD800 <= c <= 0xDFFF)
  }

  predicate AllEncodable(t: Text) {
    forall i | 0 <= i < |t| :: Encodable(t[i])
  }

  function EncodeChar(c: CodePoint): (bs: seq<Byte>)
    requires Encodable(c)
    ensures 1 <= |bs| <= 4
  {
    if c < 0x80 then [c]
    else if c < 0x800 then [0xC0 + c / 64, 0x80 + c % 64]
    else if c < 0x10000 then [0xE0 + c / 4096, 0x80 + c / 64 % 64, 0x80 + c % 64]
    else [0xF0 + c / 262144, 0x80 + c / 4096 % 64, 0x80 + c / 64 % 64, 0x80 + c % 64]
  }

  /** `str.encode("utf-8")` */
  function Encode(t: Text): seq<Byte>
    requires AllEncodable(t)
  {
    if t == [] then [] else EncodeChar(t[0]) + Encode(t[1..])
  }

  const REPLACEMENT: CodePoint := 0xFFFD

  /** Number of continuation bytes that a lead byte announces; -1 for no lead byte. */
  function Announced(b: Byte): int {
    if b < 0x80 then 0
    else if 0xC2 <= b <= 0xDF then 1
    else if 0xE0 <= b <= 0xEF then 2
    else if 0xF0 <= b <= 0xF4 then 3
    else -1
  }

  /** Whether byte b may follow as continuation number i of the given lead byte. */
  predicate Continues(lead: Byte, i: nat, b: Byte) {
    && 0x80 <= b <= 0xBF
    && (i == 1 && lead == 0xE0 ==> 0xA0 <= b)
    && (i == 1 && lead == 0xED ==> b <= 0x9F)
    && (i == 1 && lead == 0xF0 ==> 0x90 <= b)
    && (i == 1 && lead == 0xF4 ==> b <= 0x8F)
  }

  /** Length of the longest beginning that is a beginning of a well-formed sequence. */
  function GoodBytes(bs: seq<Byte>, i: nat): (n: nat)
    requires 1 <= i <= |bs|
    ensures i <= n <= |bs|
    decreases |bs| - i
  {
    if i <= Announced(bs[0]) && i < |bs| && Continues(bs[0], i, bs[i]) then GoodBytes(bs, i + 1) else i
  }

  function Code(bs: seq<Byte>): int
    requires 1 <= |bs| <= 4
  {
    var b0: int := bs[0];
    if |bs| == 1 then b0 else
    var b1: int := bs[1];
    if |bs| == 2 then (b0 - 0xC0) * 64 + (b1 - 0x80) else
    var b2: int := bs[2];
    if |bs| == 3 then (b0 - 0xE0) * 4096 + (b1 - 0x80) * 64 + (b2 - 0x80) else
    var b3: int := bs[3];
    (b0 - 0xF0) * 262144 + (b1 - 0x80) * 4096 + (b2 - 0x80) * 64 + (b3 - 0x80)
  }

  lemma CodeInRange(bs: seq<Byte>)
    requires bs != [] && GoodBytes(bs, 1) == Announced(bs[0]) + 1
    ensures GoodBytes(bs, 1) <= 4 && 0 <= Code(bs[..GoodBytes(bs, 1)]) <= 0x10FFFF
  {
    GoodBytesContinue(bs, 1);
    var n := GoodBytes(bs, 1);
    assert n > 1 ==> Continues(bs[0], 1, bs[1]);
    assert n > 2 ==> Continues(bs[0], 2, bs[2]);
    assert n > 3 ==> Continues(bs[0], 3, bs[3]);
  }

  /** The first character of a byte string and how many bytes it takes. */
  function DecodeChar(bs: seq<Byte>): (r: (CodePoint, nat))
    requires bs != []
    ensures 1 <= r.1 <= |bs|
  {
    var n := GoodBytes(bs, 1);
    if n != Announced(bs[0]) + 1 then (REPLACEMENT, n)
    else
      CodeInRange(bs);
      (Code(bs[..n]), n)
  }

  lemma {:induction false} GoodBytesContinue(bs: seq<Byte>, i: nat)
    requires 1 <= i <= |bs|
    ensures forall k | i <= k < GoodBytes(bs, i) :: Continues(bs[0], k, bs[k])
    decreases |bs| - i
  {
    if i < GoodBytes(bs, i) {
      GoodBytesContinue(bs, i + 1);
    }
  }

  /** `bytes.decode("utf-8", "replace")` */
  function Decode(bs: seq<Byte>): Text {
    if bs == [] then [] else
    var (c, n) := DecodeChar(bs);
    [c] + Decode(bs[n..])
  }

  /** A character's bytes are read back in full, whatever follows. */
  lemma EncodedIsGood(c: CodePoint, rest: seq<Byte>)
    requires Encodable(c)
    ensures var bs := EncodeChar(c) + rest; GoodBytes(bs, 1) == |EncodeChar(c)| == Announced(bs[0]) + 1
  {
    var e := EncodeChar(c);
    var bs := e + rest;
    EncodedContinues(c);
    hide EncodeChar, GoodBytes, Announced, Continues;
    forall i | 1 <= i < |e| ensures Continues(bs[0], i, bs[i]) {
      assert bs[i] == e[i];
    }
    AllGood(bs, |e|, 1);
  }

  lemma EncodedContinues(c: CodePoint)
    requires Encodable(c)
    ensures var e := EncodeChar(c); Announced(e[0]) == |e| - 1 && forall i | 1 <= i < |e| :: Continues(e[0], i, e[i])
  {
    var e := EncodeChar(c);
    if c < 0x80 {
      assert |e| == 1;
    } else if c < 0x800 {
      assert Continues(e[0], 1, e[1]);
    } else if c < 0x10000 {
      assert Continues(e[0], 1, e[1]) && Continues(e[0], 2, e[2]);
    } else {
      assert Continues(e[0], 1, e[1]) && Continues(e[0], 2, e[2]) && Continues(e[0], 3, e[3]);
    }
  }

  lemma {:induction false} AllGood(bs: seq<Byte>, n: nat, i: nat)
    requires 1 <= i <= n <= |bs| && Announced(bs[0]) == n - 1
    requires forall k | 1 <= k < n :: Continues(bs[0], k, bs[k])
    ensures GoodBytes(bs, i) == n
    decreases n - i
  {
    if i < n {
      AllGood(bs, n, i + 1);
    }
  }

  /** A number below 2^24 in base 64. */
  lemma Base64Digits(c: int)
    requires 0 <= c
    ensures c == c / 64 * 64 + c % 64
    ensures c == c / 4096 * 4096 + c / 64 % 64 * 64 + c % 64
    ensures c == c / 262144 * 262144 + c / 4096 % 64 * 4096 + c / 64 % 64 * 64 + c % 64
  {
    var q := c / 64;
    assert q / 64 == c / 4096;
    var r := c / 4096;
    assert r / 64 == c / 262144;
  }

  lemma CodeOfEncoded(c: CodePoint)
    requires Encodable(c)
    ensures Code(EncodeChar(c)) == c
  {
    Base64Digits(c);
    var e := EncodeChar(c);
    if c >= 0x10000 {
      CodeOfFour(e, c / 262144, c / 4096 % 64, c / 64 % 64, c % 64);
    } else if c >= 0x800 {
      CodeOfThree(e, c / 4096, c / 64 % 64, c % 64);
    }
  }

  lemma CodeOfFour(e: seq<Byte>, p: int, q: int, r: int, s: int)
    requires |e| == 4 && e[0] == 0xF0 + p && e[1] == 0x80 + q && e[2] == 0x80 + r && e[3] == 0x80 + s
    ensures Code(e) == p * 262144 + q * 4096 + r * 64 + s
  {
  }

  lemma CodeOfThree(e: seq<Byte>, q: int, r: int, s: int)
    requires |e| == 3 && e[0] == 0xE0 + q && e[1] == 0x80 + r && e[2] == 0x80 + s
    ensures Code(e) == q * 4096 + r * 64 + s
  {
  }

  lemma DecodeEncoded(c: CodePoint, rest: seq<Byte>)
    requires Encodable(c)
    ensures DecodeChar(EncodeChar(c) + rest) == (c, |EncodeChar(c)|)
  {
    EncodedIsGood(c, rest);
    CodeOfEncoded(c);
    assert (EncodeChar(c) + rest)[..|EncodeChar(c)|] == EncodeChar(c);
  }

  /** Decoding undoes encoding. */
  lemma {:induction false} DecodeEncode(t: Text)
    requires AllEncodable(t)
    ensures Decode(Encode(t)) == t
  {
    if t != [] {
      var rest := Encode(t[1..]);
      DecodeEncoded(t[0], rest);
      var bs := EncodeChar(t[0]) + rest;
      assert bs[|EncodeChar(t[0])|..] == rest;
      DecodeEncode(t[1..]);
    }
  }

  // ------------------------------------------------------------ percent-encoding

  const PERCENT: CodePoint := 37

  /** Bytes that stay as they are: unreserved characters and the listed safe ones. */
  predicate Safe(b: Byte) {
    || 48 <= b <= 57 || 65 <= b <= 90 || 97 <= b <= 122 || b == 95 || b == 46 || b == 45 || b == 126
    || b == 33 || b == 42 || b == 39 || b == 40 || b == 41 || b == 59 || b == 47 || b == 63 || b == 58 || b == 64
    || b == 38 || b == 61 || b == 43 || b == 36 || b == 44 || b == 35 || b == 32
  }

  function HexDigit(n: int): CodePoint
    requires 0 <= n < 16
  {
    if n < 10 then 48 + n else 55 + n
  }

  function QuoteByte(b: Byte): Text {
    if Safe(b) then [b] else [PERCENT, HexDigit(b / 16), HexDigit(b % 16)]
  }

  /** `urllib.parse.quote` on bytes */
  /** Letters, digits, the unreserved marks and the characters named as safe stay; any other byte is written in hex. */
  lemma QuotedByte(b: Byte)
    ensures var c := b as char;
      QuoteByte(b) ==
      if || 'a' <= c <= 'z' || 'A' <= c <= 'Z' || '0' <= c <= '9' || c in {'_', '.', '-', '~'}
         || c in {'!', '~', '*', '\'', '(', ')', ';', '/', '?', ':', '@', '&', '=', '+', '$', ',', '#', ' '} then [b]
      else ['%' as int, "0123456789ABCDEF"[b / 16] as int, "0123456789ABCDEF"[b % 16] as int]
  {
  }

  function Quote(bs: seq<Byte>): Text {
    if bs == [] then [] else QuoteByte(bs[0]) + Quote(bs[1..])
  }

  /** Value of a hexadecimal digit, in either case; -1 for any other character. */
  function HexValue(c: CodePoint): int {
    if 48 <= c <= 57 then c - 48 else if 65 <= c <= 70 then c - 55 else if 97 <= c <= 102 then c - 87 else -1
  }

  /** A percent sign and two hexadecimal digits at the front. */
  predicate Escaped(t: Text) {
    |t| >= 3 && t[0] == PERCENT && HexValue(t[1]) >= 0 && HexValue(t[2]) >= 0
  }

  predicate IsAscii(t: Text) {
    forall i | 0 <= i < |t| :: t[i] < 128
  }

  /** `unquote_to_bytes` on an ASCII string */
  function UnquoteBytes(t: Text): seq<Byte>
    requires IsAscii(t)
  {
    if t == [] then []
    else if Escaped(t) then [HexValue(t[1]) * 16 + HexValue(t[2])] + UnquoteBytes(t[3..])
    else [t[0]] + UnquoteBytes(t[1..])
  }

  /** Length of the longest beginning of ASCII characters. */
  function AsciiPrefix(t: Text): (n: nat)
    ensures n <= |t| && IsAscii(t[..n]) && (n < |t| ==> t[n] >= 128)
  {
    if t == [] || t[0] >= 128 then 0 else
    var n := AsciiPrefix(t[1..]);
    assert t[..n + 1] == [t[0]] + t[1..][..n];
    1 + n
  }

  /** `urllib.parse.unquote`: runs of ASCII are decoded, other characters stay. */
  function Unquote(t: Text): Text {
    if t == [] then []
    else if t[0] >= 128 then [t[0]] + Unquote(t[1..])
    else
      var n := AsciiPrefix(t);
      assert n > 0;
      Decode(UnquoteBytes(t[..n])) + Unquote(t[n..])
  }

  lemma HexRoundTrip(b: Byte)
    ensures HexValue(HexDigit(b / 16)) == b / 16 && HexValue(HexDigit(b % 16)) == b % 16
    ensures HexValue(HexDigit(b / 16)) * 16 + HexValue(HexDigit(b % 16)) == b
  {
  }

  lemma {:induction false} QuotePlain(bs: seq<Byte>)
    ensures IsAscii(Quote(bs)) && forall i | 0 <= i < |Quote(bs)| :: Quote(bs)[i] != 9
  {
    if bs != [] {
      QuotePlain(bs[1..]);
    }
  }

  lemma {:induction false} UnquoteQuote(bs: seq<Byte>)
    ensures IsAscii(Quote(bs)) && UnquoteBytes(Quote(bs)) == bs
  {
    QuotePlain(bs);
    if bs != [] {
      UnquoteQuote(bs[1..]);
      var q, rest := QuoteByte(bs[0]), Quote(bs[1..]);
      HexRoundTrip(bs[0]);
      if Safe(bs[0]) {
        assert (q + rest)[1..] == rest;
      } else {
        assert (q + rest)[3..] == rest;
      }
    }
  }

  /** Percent-encoding of encodable text is undone by unquoting. */
  lemma QuoteRoundTrip(t: Text)
    requires AllEncodable(t)
    ensures Unquote(Quote(Encode(t))) == t
  {
    var q := Quote(Encode(t));
    UnquoteQuote(Encode(t));
    DecodeEncode(t);
    if q == [] {
    } else {
      assert AsciiPrefix(q) == |q|;
      assert q[..|q|] == q && q[|q|..] == [];
      assert Unquote(q) == Decode(UnquoteBytes(q)) + [];
    }
  }
}
