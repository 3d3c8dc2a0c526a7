/** The standard base64 encoding (section 4 of RFC 4648), which carries the consensus key in the amino document. */
module Base64 {
  import opened Basics

  function Alphabet(n: nat): char
    requires n < 64
  {
    if n < 26 then (n + 'A' as int) as char
    else if n < 52 then (n - 26 + 'a' as int) as char
    else if n < 62 then (n - 52 + '0' as int) as char
    else if n == 62 then '+'
    else '/'
  }

  /** The alphabet of table 1. */
  lemma AlphabetExactly(n: nat)
    requires n < 64
    ensures n < 26 ==> Alphabet(n) == "ABCDEFGHIJKLMNOPQRSTUVWXYZ"[n]
    ensures 26 <= n < 52 ==> Alphabet(n) == "abcdefghijklmnopqrstuvwxyz"[n - 26]
    ensures 52 <= n ==> Alphabet(n) == "0123456789+/"[n - 52]
  {
  }

  function Encode(b: Bytes): string {
    if |b| == 0 then ""
    else if |b| == 1 then [Alphabet(b[0] / 4), Alphabet(b[0] % 4 * 16), '=', '=']
    else if |b| == 2 then
      [Alphabet(b[0] / 4), Alphabet(b[0] % 4 * 16 + b[1] / 16), Alphabet(b[1] % 16 * 4), '=']
    else
      [ Alphabet(b[0] / 4), Alphabet(b[0] % 4 * 16 + b[1] / 16),
        Alphabet(b[1] % 16 * 4 + b[2] / 64), Alphabet(b[2] % 64) ] + Encode(b[3..])
  }

  /** The six bits a character of the alphabet stands for. */
  function SextetOf(c: char): (r: Option<nat>)
    ensures r.Some? ==> r.value < 64
  {
    if 'A' <= c <= 'Z' then Some(c as int - 'A' as int)
    else if 'a' <= c <= 'z' then Some(c as int - 'a' as int + 26)
    else if '0' <= c <= '9' then Some(c as int - '0' as int + 52)
    else if c == '+' then Some(62)
    else if c == '/' then Some(63)
    else None
  }

  /** Groups of four characters carry 24 bits; the last group is padded when it carries 8 or 16. */
  function Decode(s: string): Option<Bytes> {
    if s == "" then Some([])
    else if |s| < 4 then None
    else
      var w :- SextetOf(s[0]);
      var x :- SextetOf(s[1]);
      if s[2] == '=' then
        if |s| == 4 && s[3] == '=' then Some(OneByte(64 * w + x)) else None
      else
        var y :- SextetOf(s[2]);
        if s[3] == '=' then
          if |s| == 4 then Some(TwoBytes(4096 * w + 64 * x + y)) else None
        else
          var z :- SextetOf(s[3]);
          var rest :- Decode(s[4..]);
          Some(ThreeBytes(262144 * w + 4096 * x + 64 * y + z) + rest)
  }

  /** The eight heavier bits of twelve. */
  function OneByte(v: nat): Bytes
    requires v < 0x1000
  {
    [v / 16]
  }

  /** The sixteen heavier bits of eighteen. */
  function TwoBytes(v: nat): Bytes
    requires v < 0x4_0000
  {
    [v / 1024, v / 4 % 256]
  }

  function ThreeBytes(v: nat): Bytes
    requires v < 0x100_0000
  {
    [v / 65536, v / 256 % 256, v % 256]
  }

  lemma SextetBack(n: nat)
    requires n < 64
    ensures SextetOf(Alphabet(n)) == Some(n) && Alphabet(n) != '='
  {
  }

  lemma GroupBack(a: byte, b: byte, c: byte)
    ensures var v := 262144 * (a / 4) + 4096 * (a % 4 * 16 + b / 16) + 64 * (b % 16 * 4 + c / 64) + c % 64;
            v < 0x100_0000 && ThreeBytes(v) == [a, b, c]
  {
    assert 262144 * (a / 4) + 4096 * (a % 4 * 16) == 65536 * a;
    assert 4096 * (b / 16) + 64 * (b % 16 * 4) == 256 * b;
    assert 64 * (c / 64) + c % 64 == c;
    ThreeBytesBack(a, b, c);
  }

  lemma ThreeBytesBack(a: byte, b: byte, c: byte)
    ensures ThreeBytes(65536 * a + 256 * b + c) == [a, b, c]
  {
    var v := 65536 * a + 256 * b + c;
    assert v / 256 == 256 * a + b && v % 256 == c;
    assert v / 65536 == a;
  }

  lemma OneBack(a: byte)
    ensures OneByte(64 * (a / 4) + a % 4 * 16) == [a]
  {
    assert 64 * (a / 4) + a % 4 * 16 == 16 * a;
  }

  lemma PairBack(a: byte, b: byte)
    ensures TwoBytes(4096 * (a / 4) + 64 * (a % 4 * 16 + b / 16) + b % 16 * 4) == [a, b]
  {
    assert 4096 * (a / 4) + 64 * (a % 4 * 16) == 1024 * a;
    assert 64 * (b / 16) + b % 16 * 4 == 4 * b;
    assert (256 * a + b) / 256 == a && (256 * a + b) % 256 == b;
  }

  /** Decoding undoes encoding. */
  lemma {:induction false} DecodeEncoded(b: Bytes)
    ensures Decode(Encode(b)) == Some(b)
  {
    hide Alphabet, SextetOf, ThreeBytes;
    if |b| > 2 {
      DecodeEncoded(b[3..]);
      SextetBack(b[0] / 4);
      SextetBack(b[0] % 4 * 16 + b[1] / 16);
      SextetBack(b[1] % 16 * 4 + b[2] / 64);
      SextetBack(b[2] % 64);
      GroupBack(b[0], b[1], b[2]);
      assert Encode(b)[4..] == Encode(b[3..]);
      assert [b[0], b[1], b[2]] + b[3..] == b;
    } else if b != [] {
      PaddedBack(b);
    }
  }

  lemma PaddedBack(b: Bytes)
    requires 1 <= |b| <= 2
    ensures Decode(Encode(b)) == Some(b)
  {
    hide Alphabet, SextetOf, Decode;
    if |b| == 1 {
      assert b == [b[0]];
      LastByteBack(b[0], Encode(b));
    } else {
      assert b == [b[0], b[1]];
      LastPairBack(b[0], b[1], Encode(b));
    }
  }

  lemma LastByteBack(a: byte, s: string)
    requires s == [Alphabet(a / 4), Alphabet(a % 4 * 16), '=', '=']
    ensures Decode(s) == Some([a])
  {
    hide Alphabet, SextetOf, OneByte;
    SextetBack(a / 4);
    SextetBack(a % 4 * 16);
    OneBack(a);
  }

  lemma LastPairBack(a: byte, b: byte, s: string)
    requires s == [Alphabet(a / 4), Alphabet(a % 4 * 16 + b / 16), Alphabet(b % 16 * 4), '=']
    ensures Decode(s) == Some([a, b])
  {
    hide Alphabet, SextetOf, TwoBytes;
    SextetBack(a / 4);
    SextetBack(a % 4 * 16 + b / 16);
    SextetBack(b % 16 * 4);
    PairBack(a, b);
  }

  lemma EncodeInjective(x: Bytes, y: Bytes)
    requires Encode(x) == Encode(y)
    ensures x == y
  {
    DecodeEncoded(x);
    DecodeEncoded(y);
  }
}
