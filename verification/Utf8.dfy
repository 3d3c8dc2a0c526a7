/**
 The UTF-8 encoding of strings (section 3 of RFC 3629). A Go string is a byte sequence; a string
 decoded by encoding/json is valid UTF-8, so it is modelled by its sequence of scalar values.
 */
module Utf8 {
  import opened Basics

  function EncodeChar(c: char): (r: Bytes)
    ensures 1 <= |r| <= 4
  {
    var n := c as int;
    if n < 0x80 then [n]
    else if n < 0x800 then [0xC0 + n / 64, 0x80 + n % 64]
    else if n < 0x1_0000 then [0xE0 + n / 4096, 0x80 + n / 64 % 64, 0x80 + n % 64]
    else [0xF0 + n / 262144, 0x80 + n / 4096 % 64, 0x80 + n / 64 % 64, 0x80 + n % 64]
  }

  function ToUtf8(s: string): (r: Bytes)
    ensures |s| <= |r|
    ensures r == [] <==> s == ""
  {
    if s == "" then [] else EncodeChar(s[0]) + ToUtf8(s[1..])
  }

  predicate IsContinuation(b: byte) {
    0x80 <= b < 0xC0
  }

  /** The scalar value encoded by the first one to four bytes of `b`, and how many bytes it takes. */
  function DecodeChar(b: Bytes): (r: Option<(char, nat)>)
    requires b != []
    ensures r.Some? ==> 0 < r.value.1 <= |b|
  {
    if b[0] < 0x80 then
      Some((b[0] as char, 1))
    else if 0xC0 <= b[0] < 0xE0 && 1 < |b| && IsContinuation(b[1]) then
      FromScalar(AddSixBits(b[0] - 0xC0, b[1]), 0x80, 2)
    else if 0xE0 <= b[0] < 0xF0 && 2 < |b| && IsContinuation(b[1]) && IsContinuation(b[2]) then
      FromScalar(AddSixBits(AddSixBits(b[0] - 0xE0, b[1]), b[2]), 0x800, 3)
    else if 0xF0 <= b[0] < 0xF8 && 3 < |b| && IsContinuation(b[1]) && IsContinuation(b[2]) && IsContinuation(b[3]) then
      FromScalar(AddSixBits(AddSixBits(AddSixBits(b[0] - 0xF0, b[1]), b[2]), b[3]), 0x1_0000, 4)
    else
      None
  }

  /** Appends the six payload bits of a continuation byte. */
  function AddSixBits(high: nat, b: byte): nat
    requires IsContinuation(b)
  {
    high * 64 + (b as int - 0x80)
  }

  /** Rejects overlong forms, surrogates and values past the last scalar value. */
  function FromScalar(n: nat, least: nat, size: nat): (r: Option<(char, nat)>)
    ensures r.Some? ==> r.value.1 == size
  {
    if least <= n && (n < 0xD800 || 0xE000 <= n < 0x11_0000) then Some((n as char, size)) else None
  }

  function FromUtf8(b: Bytes): Option<string>
    decreases |b|
  {
    if b == [] then
      Some("")
    else
      var (c, n) :- DecodeChar(b);
      var s :- FromUtf8(b[n..]);
      Some([c] + s)
  }

  lemma DecodeEncodedChar(c: char, t: Bytes)
    ensures DecodeChar(EncodeChar(c) + t) == Some((c, |EncodeChar(c)|))
  {
    var n := c as int;
    var e := EncodeChar(c);
    assert forall i | 0 <= i < |e| :: (e + t)[i] == e[i];
    SixBits(n);
    SixBits(n / 64);
    SixBits(n / 4096);
    Divisions(n);
  }

  lemma SixBits(n: nat)
    ensures AddSixBits(n / 64, 0x80 + n % 64) == n
  {
  }

  lemma Divisions(n: nat)
    ensures n / 64 / 64 == n / 4096 && n / 4096 / 64 == n / 262144
  {
  }

  /** The table of section 3: how many bytes a scalar value takes, their fixed bits, and the weights of the others. */
  lemma EncodeCharExactly(c: char)
    ensures var n, b := c as int, EncodeChar(c);
            && (forall i | 1 <= i < |b| :: 0x80 <= b[i] < 0xC0)
            && (n <= 0x7F ==> b == [n])
            && (0x80 <= n <= 0x7FF ==> |b| == 2 && 0xC0 <= b[0] < 0xE0 && n == 64 * (b[0] as int - 0xC0) + (b[1] as int - 0x80))
            && (0x800 <= n <= 0xFFFF ==>
                  |b| == 3 && 0xE0 <= b[0] < 0xF0 && n == 4096 * (b[0] as int - 0xE0) + 64 * (b[1] as int - 0x80) + (b[2] as int - 0x80))
            && (0x1_0000 <= n ==>
                  && |b| == 4 && 0xF0 <= b[0] < 0xF8
                  && n == 262144 * (b[0] as int - 0xF0) + 4096 * (b[1] as int - 0x80) + 64 * (b[2] as int - 0x80) + (b[3] as int - 0x80))
  {
    Divisions(c as nat);
  }

  /** Decoding undoes encoding, so the encoding is injective. */
  lemma {:induction false} RoundTrip(s: string)
    ensures FromUtf8(ToUtf8(s)) == Some(s)
  {
    if s != "" {
      var rest := ToUtf8(s[1..]);
      DecodeEncodedChar(s[0], rest);
      assert (EncodeChar(s[0]) + rest)[|EncodeChar(s[0])|..] == rest;
      RoundTrip(s[1..]);
      assert [s[0]] + s[1..] == s;
    }
  }

  lemma Injective(s: string, t: string)
    requires ToUtf8(s) == ToUtf8(t)
    ensures s == t
  {
    RoundTrip(s);
    RoundTrip(t);
  }

  /** The order of Go strings: bytes compared from the left, a proper prefix first. */
  predicate BytesLess(a: Bytes, b: Bytes) {
    b != [] && (a == [] || a[0] < b[0] || (a[0] == b[0] && BytesLess(a[1..], b[1..])))
  }

  /** The same order on scalar values. */
  predicate Less(s: string, t: string) {
    t != "" && (s == "" || s[0] < t[0] || (s[0] == t[0] && Less(s[1..], t[1..])))
  }

  lemma {:induction false} CommonPrefix(p: Bytes, a: Bytes, b: Bytes)
    ensures BytesLess(p + a, p + b) == BytesLess(a, b)
  {
    if p == [] {
      assert p + a == a && p + b == b;
    } else {
      CommonPrefix(p[1..], a, b);
      assert (p + a)[1..] == p[1..] + a && (p + b)[1..] == p[1..] + b;
    }
  }

  lemma FirstDifference(a: Bytes, b: Bytes, i: nat)
    requires i < |a| && i < |b| && a[..i] == b[..i] && a[i] < b[i]
    ensures BytesLess(a, b) && !BytesLess(b, a)
  {
    CommonPrefix(a[..i], a[i..], b[i..]);
    CommonPrefix(a[..i], b[i..], a[i..]);
    assert a == a[..i] + a[i..] && b == a[..i] + b[i..];
  }

  lemma CharOrder(c: char, d: char, x: Bytes, y: Bytes)
    requires c < d
    ensures BytesLess(EncodeChar(c) + x, EncodeChar(d) + y) && !BytesLess(EncodeChar(d) + y, EncodeChar(c) + x)
  {
    var m, n := c as int, d as int;
    var a, b := EncodeChar(c) + x, EncodeChar(d) + y;
    if |EncodeChar(c)| != |EncodeChar(d)| || a[0] != b[0] {
      LeadingByte(c, d);
      FirstDifference(a, b, 0);
    } else if n < 0x800 {
      FirstDifference(a, b, 1);
    } else if n < 0x1_0000 {
      SameLead(m, n, 4096);
      FirstDifference(a, b, if a[1] != b[1] then 1 else 2);
    } else {
      SameLead(m, n, 262144);
      FirstDifference(a, b, if a[1] != b[1] then 1 else if a[2] != b[2] then 2 else 3);
    }
  }

  lemma LeadingByte(c: char, d: char)
    requires c < d
    ensures EncodeChar(c)[0] <= EncodeChar(d)[0]
    ensures |EncodeChar(c)| != |EncodeChar(d)| ==> EncodeChar(c)[0] < EncodeChar(d)[0]
  {
  }

  lemma SameLead(m: int, n: int, unit: int)
    requires 0 <= m < n && unit in {4096, 262144} && m / unit == n / unit
    ensures unit == 4096 ==> m / 64 % 64 < n / 64 % 64 || (m / 64 % 64 == n / 64 % 64 && m % 64 < n % 64)
    ensures unit == 262144 ==>
              || m / 4096 % 64 < n / 4096 % 64
              || (m / 4096 % 64 == n / 4096 % 64 && m / 64 % 64 < n / 64 % 64)
              || (m / 4096 % 64 == n / 4096 % 64 && m / 64 % 64 == n / 64 % 64 && m % 64 < n % 64)
  {
    Divisions(m);
    Divisions(n);
    LowDigit(m, n);
    LowDigit(m / 64, n / 64);
    LowDigit(m / 4096, n / 4096);
  }

  lemma LowDigit(m: nat, n: nat)
    requires m <= n
    ensures m / 64 <= n / 64
    ensures m / 64 == n / 64 ==> m % 64 <= n % 64 && (m < n ==> m % 64 < n % 64)
  {
  }

  /** UTF-8 keeps order: comparing encodings byte by byte is comparing scalar values. */
  lemma {:induction false} OrderPreserved(s: string, t: string)
    ensures BytesLess(ToUtf8(s), ToUtf8(t)) <==> Less(s, t)
  {
    if s == "" || t == "" {
    } else if s[0] == t[0] {
      CommonPrefix(EncodeChar(s[0]), ToUtf8(s[1..]), ToUtf8(t[1..]));
      OrderPreserved(s[1..], t[1..]);
    } else if s[0] < t[0] {
      CharOrder(s[0], t[0], ToUtf8(s[1..]), ToUtf8(t[1..]));
    } else {
      CharOrder(t[0], s[0], ToUtf8(t[1..]), ToUtf8(s[1..]));
    }
  }
}
