/**
 * ECMAScript's encodeURIComponent: a string is taken to its UTF-8 bytes and
 * every byte outside the component's unreserved set is written as `%` and two
 * upper-case hexadecimal digits (percent-encoding, section 2.1 of RFC 3986).
 * The decoder is the one an application/x-www-form-urlencoded reader applies
 * to a name or a value (the WHATWG URL Standard's parser): `+` stands for a
 * space, `%HH` for the byte HH, and any other character for its own UTF-8
 * bytes.
 */
module PercentEncoding {
  import opened Wrappers
  import Utf8

  type byte = Utf8.byte

  /** The characters encodeURIComponent leaves alone: A-Z a-z 0-9 - _ . ! ~ * ' ( ) */
  predicate IsUnreserved(c: char) {
    || ('A' <= c <= 'Z') || ('a' <= c <= 'z') || ('0' <= c <= '9')
    || c == '-' || c == '_' || c == '.' || c == '!' || c == '~' || c == '*' || c == '\'' || c == '(' || c == ')'
  }

  /** A string that every encoder leaves as it is. */
  predicate AllUnreserved(s: string) {
    forall i :: 0 <= i < |s| ==> IsUnreserved(s[i])
  }

  function HexDigit(n: int): (c: char)
    requires 0 <= n < 16
  {
    "0123456789ABCDEF"[n]
  }

  function HexValue(c: char): (r: Option<int>)
    ensures r.Some? ==> 0 <= r.value < 16
  {
    if '0' <= c <= '9' then Some(c as int - '0' as int)
    else if 'A' <= c <= 'F' then Some(c as int - 'A' as int + 10)
    else if 'a' <= c <= 'f' then Some(c as int - 'a' as int + 10)
    else None
  }

  lemma HexValueOfDigit(n: int)
    requires 0 <= n < 16
    ensures HexValue(HexDigit(n)) == Some(n)
  {
  }

  /** One byte as encodeURIComponent writes it. */
  function EncodeByte(b: byte): (t: string)
    ensures |t| == 1 || |t| == 3
  {
    if b < 0x80 && IsUnreserved(b as char) then [b as char]
    else ['%', HexDigit(b / 16), HexDigit(b % 16)]
  }

  function EncodeBytes(bs: seq<byte>): (t: string)
    ensures |bs| <= |t| <= 3 * |bs|
  {
    if bs == [] then [] else EncodeByte(bs[0]) + EncodeBytes(bs[1..])
  }

  /** encodeURIComponent(s): never shorter than `s`, and made only of unreserved characters, `%` and hex digits. */
  function Encode(s: string): (t: string)
    ensures |t| >= |s|
    ensures forall i :: 0 <= i < |t| ==> IsEncodedChar(t[i])
  {
    EncodeBytesAlphabet(Utf8.Encode(s));
    EncodeBytes(Utf8.Encode(s))
  }

  /** The bytes a form reader takes a percent-encoded text to. */
  function DecodeBytes(t: string): seq<byte>
    decreases |t|
  {
    if t == [] then []
    else if t[0] == '%' && |t| >= 3 && HexValue(t[1]).Some? && HexValue(t[2]).Some? then
      [HexValue(t[1]).value * 16 + HexValue(t[2]).value] + DecodeBytes(t[3..])
    else if t[0] == '+' then [0x20] + DecodeBytes(t[1..])
    else Utf8.EncodeChar(t[0]) + DecodeBytes(t[1..])
  }

  /** A percent-encoded text read back as a string; None when its bytes are not UTF-8. */
  function Decode(t: string): Option<string>
  {
    Utf8.Decode(DecodeBytes(t))
  }

  /** The characters an encoded byte can consist of. */
  predicate IsEncodedChar(c: char) {
    IsUnreserved(c) || c == '%' || HexValue(c).Some?
  }

  lemma DecodeBytesEncodeByte(b: byte, rest: string)
    ensures DecodeBytes(EncodeByte(b) + rest) == [b] + DecodeBytes(rest)
  {
    var t := EncodeByte(b) + rest;
    if b < 0x80 && IsUnreserved(b as char) {
      assert t[0] == b as char && t[1..] == rest;
    } else {
      HexValueOfDigit(b / 16);
      HexValueOfDigit(b % 16);
      assert t[0] == '%' && t[1] == HexDigit(b / 16) && t[2] == HexDigit(b % 16) && t[3..] == rest;
    }
  }

  /** Percent-decoding inverts percent-encoding byte for byte. */
  lemma {:induction false} DecodeBytesEncodeBytes(bs: seq<byte>)
    ensures DecodeBytes(EncodeBytes(bs)) == bs
  {
    if bs != [] {
      DecodeBytesEncodeByte(bs[0], EncodeBytes(bs[1..]));
      DecodeBytesEncodeBytes(bs[1..]);
      assert [bs[0]] + bs[1..] == bs;
    }
  }

  /** Round trip: a form reader recovers every string encodeURIComponent was given. */
  lemma DecodeEncode(s: string)
    ensures Decode(Encode(s)) == Some(s)
  {
    DecodeBytesEncodeBytes(Utf8.Encode(s));
    Utf8.DecodeEncode(s);
  }

  lemma {:induction false} EncodeBytesAlphabet(bs: seq<byte>)
    ensures forall i :: 0 <= i < |EncodeBytes(bs)| ==> IsEncodedChar(EncodeBytes(bs)[i])
  {
    if bs != [] {
      EncodeBytesAlphabet(bs[1..]);
      var head := EncodeByte(bs[0]);
      forall i | 0 <= i < |head| ensures IsEncodedChar(head[i]) {
        if |head| == 3 {
          HexValueOfDigit(bs[0] / 16);
          HexValueOfDigit(bs[0] % 16);
        }
      }
    }
  }

  /**
   * A corollary of `Encode`'s alphabet: an encoded text never holds the form
   * separators `&` and `=`, nor `+`, so a form reader never splits inside it.
   */
  lemma EncodeAlphabet(s: string)
    ensures forall i :: 0 <= i < |Encode(s)| ==> Encode(s)[i] !in "&=+"
  {
  }

  /** A form reader reads `+` as a space: `a+b` decodes to `a b`. */
  lemma PlusReadsAsSpace()
    ensures Decode("a+b") == Some("a b")
  {
    assert DecodeBytes("b") == Utf8.Encode("b");
    assert DecodeBytes("+b") == Utf8.Encode(" b");
    assert DecodeBytes("a+b") == Utf8.Encode("a b");
    Utf8.DecodeEncode("a b");
  }

  /** A string of unreserved characters is its own encoding. */
  lemma {:induction false} EncodeUnreserved(s: string)
    requires AllUnreserved(s)
    ensures Encode(s) == s
  {
    if s != [] {
      EncodeUnreserved(s[1..]);
      assert Utf8.EncodeChar(s[0]) == [s[0] as int];
      calc {
        Encode(s);
        EncodeBytes([s[0] as int] + Utf8.Encode(s[1..]));
        { assert ([s[0] as int] + Utf8.Encode(s[1..]))[1..] == Utf8.Encode(s[1..]); }
        [s[0]] + Encode(s[1..]);
        s;
      }
    }
  }

  /** `@` is written `%40`, as in `test%40example.com`. */
  lemma EncodeAtSign()
    ensures Encode("@") == "%40"
    ensures Encode("u@x") == "u%40x"
  {
    assert Utf8.Encode("@") == [0x40];
    assert Utf8.Encode("u@x") == [0x75, 0x40, 0x78];
  }
}
