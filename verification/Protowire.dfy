/**
 The protobuf wire format (Protocol Buffers "Encoding" guide: base 128 varints, message structure,
 length-delimited records): the writer of gentxvalidate/protowire.go and the readers it is proved against.
 */
module Protowire {
  import opened Basics
  import opened Utf8

  // ---------------------------------------------------------------- varints

  const VARINT_MSB: int := 0x80

  /** byte(v) | 0x80 */
  function WithMsb(v: nat): byte {
    var low := v % 256;
    if low < VARINT_MSB then low + VARINT_MSB else low
  }

  /** The base-128 digits of `v`, least significant first, all but the last marked. */
  function Uvarint(v: nat): (r: Bytes)
    ensures r != []
  {
    if v < 128 then [v] else [128 + v % 128] + Uvarint(v / 128)
  }

  lemma Marked(v: nat)
    ensures WithMsb(v) == 128 + v % 128
  {
  }

  method AppendUvarint(b0: Bytes, v0: nat) returns (b: Bytes)
    ensures b == b0 + Uvarint(v0)
  {
    hide WithMsb;
    b := b0;
    var v: nat := v0;
    while v >= VARINT_MSB
      invariant b + Uvarint(v) == b0 + Uvarint(v0)
    {
      Marked(v);
      Assoc(b, [WithMsb(v)], Uvarint(v / 128));
      b := b + [WithMsb(v)];
      v := v / 128;  // v >>= 7
    }
    b := b + [v];
  }

  /** Reads one base-128 number of any size: its value and the number of bytes it takes. */
  function ReadVarint(b: Bytes): (r: Option<(nat, nat)>)
    ensures r.Some? ==> 0 < r.value.1 <= |b|
  {
    if b == [] then None
    else if b[0] < 128 then Some((b[0], 1))
    else
      var (v, n) :- ReadVarint(b[1..]);
      Some((b[0] as int - 128 + 128 * v, n + 1))
  }

  lemma {:induction false} ReadBack(v: nat, t: Bytes)
    ensures ReadVarint(Uvarint(v) + t) == Some((v, |Uvarint(v)|))
  {
    var b := Uvarint(v) + t;
    if v < 128 {
      assert b[0] == v;
    } else {
      assert b[1..] == Uvarint(v / 128) + t;
      ReadBack(v / 128, t);
    }
  }

  /** The number written in seven-bit groups, the first group lightest. */
  function GroupSum(b: Bytes): nat {
    if b == [] then 0 else GroupSum(b[..|b| - 1]) + b[|b| - 1] % 128 * Power128(|b| - 1)
  }

  function Power128(k: nat): nat {
    if k == 0 then 1 else 128 * Power128(k - 1)
  }

  /** Every byte but the last has its top bit set. */
  predicate IsGrouped(b: Bytes) {
    b != [] && b[|b| - 1] < 128 && forall i | 0 <= i < |b| - 1 :: b[i] >= 128
  }

  lemma {:induction false} GroupSumFromFirst(b: Bytes)
    requires b != []
    ensures GroupSum(b) == b[0] % 128 + 128 * GroupSum(b[1..])
  {
    if |b| == 1 {
      assert b[..0] == [] && b[1..] == [];
    } else {
      var n := |b| - 1;
      GroupSumFromFirst(b[..n]);
      assert b[1..][..n - 1] == b[..n][1..] && b[1..][n - 1] == b[n];
      Shift(b[n] % 128, Power128(n - 1));
    }
  }

  lemma Shift(d: nat, p: nat)
    ensures d * (128 * p) == 128 * (d * p)
  {
  }

  lemma GroupedFromFirst(g: Bytes)
    requires g != []
    ensures IsGrouped(g) <==> if g[0] < 128 then g == [g[0]] else IsGrouped(g[1..])
  {
    if |g| > 1 {
      assert g[1..][|g| - 2] == g[|g| - 1];
      assert forall k | 1 <= k < |g| :: g[k] == g[1..][k - 1];
    }
  }

  lemma {:induction false} ReadIsGrouped(b: Bytes)
    requires ReadVarint(b).Some?
    ensures var (v, n) := ReadVarint(b).value; IsGrouped(b[..n]) && v == GroupSum(b[..n])
  {
    hide IsGrouped, GroupSum;
    var n := ReadVarint(b).value.1;
    GroupedFromFirst(b[..n]);
    GroupSumFromFirst(b[..n]);
    if b[0] < 128 {
      assert b[..n] == [b[0]];
      assert b[..n][1..] == [];
      NoGroups();
    } else {
      ReadIsGrouped(b[1..]);
      assert b[..n][1..] == b[1..][..n - 1];
    }
  }

  lemma {:induction false} GroupedIsRead(b: Bytes, n: nat)
    requires n <= |b| && IsGrouped(b[..n])
    ensures ReadVarint(b).Some? && ReadVarint(b).value.1 == n
  {
    hide IsGrouped, GroupSum;
    NotGroupedEmpty();
    GroupedFromFirst(b[..n]);
    assert b[0] == b[..n][0];
    if b[0] >= 128 {
      assert b[..n][1..] == b[1..][..n - 1];
      GroupedIsRead(b[1..], n - 1);
    } else {
      assert |b[..n]| == |[b[0]]|;
    }
  }

  lemma NotGroupedEmpty()
    ensures !IsGrouped([])
  {
  }

  /** A varint is read exactly when it is a run of marked groups and one unmarked, and its value is their sum. */
  lemma VarintExactly(b: Bytes, v: nat, n: nat)
    ensures ReadVarint(b) == Some((v, n)) <==> n <= |b| && IsGrouped(b[..n]) && v == GroupSum(b[..n])
  {
    hide ReadVarint, IsGrouped, GroupSum;
    if ReadVarint(b).Some? {
      ReadIsGrouped(b);
    }
    if n <= |b| && IsGrouped(b[..n]) {
      GroupedIsRead(b, n);
    }
  }

  lemma NoGroups()
    ensures GroupSum([]) == 0
  {
  }

  /** No encoding of a number is shorter than the one written. */
  lemma {:induction false} Minimal(b: Bytes)
    requires ReadVarint(b).Some?
    ensures |Uvarint(ReadVarint(b).value.0)| <= ReadVarint(b).value.1
  {
    if b[0] >= 128 {
      Minimal(b[1..]);
      var high := ReadVarint(b[1..]).value.0;
      var v := ReadVarint(b).value.0;
      assert v / 128 == high;
    }
  }

  /** Equal concatenations start with the same number and go on with the same bytes. */
  lemma PrefixFree(v: nat, s: Bytes, w: nat, t: Bytes)
    requires Uvarint(v) + s == Uvarint(w) + t
    ensures v == w && s == t
  {
    ReadBack(v, s);
    ReadBack(w, t);
    assert s == (Uvarint(v) + s)[|Uvarint(v)|..];
    assert t == (Uvarint(w) + t)[|Uvarint(w)|..];
  }

  /** The values that fit in what is left of 64 bits once `i` groups of seven have been read. */
  function Limit(i: nat): (r: nat)
    requires i <= 9
    ensures 2 <= r
    decreases 9 - i
  {
    if i == 9 then 2 else 128 * Limit(i + 1)
  }

  /**
   Go's binary.Uvarint from byte `i` on: the value in units of 128^i and the number of bytes of
   the whole varint; the count is 0 when the input is too short and negative past 64 bits.
   */
  function GoUvarintAt(b: Bytes, i: nat): (r: (nat, int))
    requires i <= |b|
    ensures r.1 > 0 ==> i < r.1 <= |b|
    decreases |b| - i
  {
    if i == |b| then (0, 0)
    else if i >= 10 then (0, -1 - i)
    else if b[i] < 128 then
      if i == 9 && b[i] > 1 then (0, -1 - i) else (b[i], i + 1)
    else
      var (x, n) := GoUvarintAt(b, i + 1);
      if n <= 0 then (0, n) else (b[i] as int - 128 + 128 * x, n)
  }

  function GoUvarint(b: Bytes): (r: (nat, int))
    ensures r.1 > 0 ==> r.1 <= |b|
  {
    GoUvarintAt(b, 0)
  }

  /** A varint Go's reader accepts: at most ten bytes and below 2^64. */
  predicate Fits64(r: Option<(nat, nat)>) {
    r.Some? && r.value.1 <= 10 && r.value.0 < TWO_TO_THE_64
  }

  /** binary.Uvarint accepts exactly the varints of at most ten bytes and 64 bits, minimal or not. */
  lemma GoUvarintExact(b: Bytes)
    ensures GoUvarint(b).1 > 0 <==> Fits64(ReadVarint(b))
    ensures GoUvarint(b).1 > 0 ==> ReadVarint(b) == Some(GoUvarint(b))
  {
    assert Limit(0) == TWO_TO_THE_64 by {
      assert Limit(9) == 2 && Limit(8) == 256 && Limit(7) == 0x8000 && Limit(6) == 0x40_0000;
      assert Limit(5) == 0x2000_0000 && Limit(4) == 0x10_0000_0000 && Limit(3) == 0x800_0000_0000;
      assert Limit(2) == 0x4_0000_0000_0000 && Limit(1) == 0x200_0000_0000_0000;
    }
    assert b[0..] == b;
    GoUvarintExactAt(b, 0);
  }

  lemma {:induction false} GoUvarintExactAt(b: Bytes, i: nat)
    requires i <= |b| && i <= 10
    ensures i == 10 ==> GoUvarintAt(b, i).1 <= 0
    ensures i <= 9 ==>
              (GoUvarintAt(b, i).1 > 0 <==>
               && ReadVarint(b[i..]).Some?
               && i + ReadVarint(b[i..]).value.1 <= 10
               && ReadVarint(b[i..]).value.0 < Limit(i))
    ensures GoUvarintAt(b, i).1 > 0 ==>
              && ReadVarint(b[i..]).Some?
              && ReadVarint(b[i..]).value == (GoUvarintAt(b, i).0, GoUvarintAt(b, i).1 - i)
    decreases |b| - i
  {
    if i < |b| && i < 10 {
      assert b[i..][0] == b[i] && b[i..][1..] == b[i + 1..];
      GoUvarintExactAt(b, i + 1);
      if b[i] >= 128 && i < 9 && ReadVarint(b[i + 1..]).Some? {
        var high := ReadVarint(b[i + 1..]).value.0;
        assert high < Limit(i + 1) <==> b[i] as int - 128 + 128 * high < Limit(i);
      }
    }
  }

  /** A 64-bit number takes at most ten bytes, and Go's reader gives it back with its exact length. */
  lemma GoReadBack(v: uint64, t: Bytes)
    ensures |Uvarint(v)| <= 10
    ensures GoUvarint(Uvarint(v) + t) == (v, |Uvarint(v)|)
  {
    assert |Uvarint(v)| <= 10 by {
      var w := v / 128 / 128 / 128 / 128;
      assert w < 0x10_0000_0000;
      var z := w / 128 / 128 / 128 / 128;
      assert z < 0x100;
      assert |Uvarint(z / 128)| == 1;
      assert |Uvarint(z)| <= 2;
      FourGroups(v);
      FourGroups(w);
    }
    ReadBack(v, t);
    GoUvarintExact(Uvarint(v) + t);
  }

  lemma FourGroups(v: nat)
    ensures |Uvarint(v)| <= 4 + |Uvarint(v / 128 / 128 / 128 / 128)|
  {
    OneGroup(v);
    OneGroup(v / 128);
    OneGroup(v / 128 / 128);
    OneGroup(v / 128 / 128 / 128);
  }

  lemma OneGroup(v: nat)
    ensures |Uvarint(v)| <= 1 + |Uvarint(v / 128)|
  {
  }

  // ---------------------------------------------------------------- records

  const WIRE_VARINT: nat := 0
  const WIRE_BYTES: nat := 2

  /** One record: a field number with a varint or a length-delimited payload. */
  datatype Field =
    | Varint(num: nat, number: nat)
    | Len(num: nat, payload: Bytes)

  /** field<<3 | wire */
  function Tag(num: nat, wire: nat): nat {
    num * 8 + wire
  }

  function WriteField(f: Field): (r: Bytes)
    ensures r != []
  {
    match f
    case Varint(num, number) => Uvarint(Tag(num, WIRE_VARINT)) + Uvarint(number)
    case Len(num, payload) => Uvarint(Tag(num, WIRE_BYTES)) + Uvarint(|payload|) + payload
  }

  function WriteFields(fs: seq<Field>): Bytes {
    if fs == [] then [] else WriteField(fs[0]) + WriteFields(fs[1..])
  }

  method AppendTag(b0: Bytes, num: nat, wire: nat) returns (b: Bytes)
    ensures b == b0 + Uvarint(Tag(num, wire))
  {
    b := AppendUvarint(b0, Tag(num, wire));
  }

  method AppendVarintField(b0: Bytes, num: nat, v: nat) returns (b: Bytes)
    ensures b == b0 + WriteField(Varint(num, v))
  {
    b := AppendTag(b0, num, WIRE_VARINT);
    b := AppendUvarint(b, v);
    Assoc(b0, Uvarint(Tag(num, WIRE_VARINT)), Uvarint(v));
  }

  method AppendBytesField(b0: Bytes, num: nat, v: Bytes) returns (b: Bytes)
    ensures b == b0 + WriteField(Len(num, v))
  {
    b := AppendTag(b0, num, WIRE_BYTES);
    b := AppendUvarint(b, |v|);
    b := b + v;
    ghost var tag, size := Uvarint(Tag(num, WIRE_BYTES)), Uvarint(|v|);
    Assoc(b0, tag, size);
    Assoc(b0, tag + size, v);
  }

  method AppendStringField(b0: Bytes, num: nat, s: string) returns (b: Bytes)
    ensures b == b0 + WriteField(Len(num, ToUtf8(s)))
  {
    b := AppendTag(b0, num, WIRE_BYTES);
    b := AppendUvarint(b, |ToUtf8(s)|);
    b := b + ToUtf8(s);
    ghost var tag, size := Uvarint(Tag(num, WIRE_BYTES)), Uvarint(|ToUtf8(s)|);
    Assoc(b0, tag, size);
    Assoc(b0, tag + size, ToUtf8(s));
  }

  /** Reads the first record: its content and the bytes after it. */
  function ReadField(b: Bytes): (r: Option<(Field, Bytes)>)
    ensures r.Some? ==> |r.value.1| < |b|
  {
    var (tag, n) :- ReadVarint(b);
    var (v, m) :- ReadVarint(b[n..]);
    var rest := b[n + m..];
    if tag % 8 == WIRE_VARINT then
      Some((Varint(tag / 8, v), rest))
    else if tag % 8 == WIRE_BYTES && v <= |rest| then
      Some((Len(tag / 8, rest[..v]), rest[v..]))
    else
      None
  }

  /** Reads a whole message: the general form of the multisignature envelope reader. */
  function ReadFields(b: Bytes): Option<seq<Field>>
    decreases |b|
  {
    if b == [] then
      Some([])
    else
      var (f, rest) :- ReadField(b);
      var fs :- ReadFields(rest);
      Some([f] + fs)
  }

  /** A record is its tag (field number times eight, plus two for a payload), then its number, or a length and that many bytes. */
  lemma RecordLayout(f: Field)
    ensures ReadVarint(WriteField(f)).Some?
    ensures var (tag, n) := ReadVarint(WriteField(f)).value;
            && ReadVarint(WriteField(f)[n..]).Some?
            && var (v, m) := ReadVarint(WriteField(f)[n..]).value;
            && match f
               case Varint(num, number) => tag == 8 * num && v == number && |WriteField(f)| == n + m
               case Len(num, payload) => tag == 8 * num + 2 && v == |payload| && WriteField(f)[n + m..] == payload
  {
    hide ReadVarint, Uvarint;
    match f
    case Varint(num, number) =>
      Padded(WriteField(f));
      ReadHeaderBack(Tag(num, WIRE_VARINT), number, []);
    case Len(num, payload) =>
      ReadHeaderBack(Tag(num, WIRE_BYTES), |payload|, payload);
  }

  lemma Padded(b: Bytes)
    ensures b + [] == b
  {
  }

  lemma ReadFieldBack(f: Field, t: Bytes)
    ensures ReadField(WriteField(f) + t) == Some((f, t))
  {
    hide ReadVarint, Uvarint;
    match f
    case Varint(num, number) =>
      ReadHeaderBack(Tag(num, WIRE_VARINT), number, t);
    case Len(num, payload) =>
      var tag, size := Uvarint(Tag(num, WIRE_BYTES)), Uvarint(|payload|);
      Assoc(tag + size, payload, t);
      ReadHeaderBack(Tag(num, WIRE_BYTES), |payload|, payload + t);
      DropPrefix(payload, t);
      assert (payload + t)[..|payload|] == payload;
  }

  lemma ReadHeaderBack(tag: nat, v: nat, t: Bytes)
    ensures var b := Uvarint(tag) + Uvarint(v) + t;
            var n := |Uvarint(tag)|;
            && ReadVarint(b) == Some((tag, n))
            && ReadVarint(b[n..]) == Some((v, |Uvarint(v)|))
            && b[n + |Uvarint(v)|..] == t
  {
    Assoc(Uvarint(tag), Uvarint(v), t);
    ReadBack(tag, Uvarint(v) + t);
    DropPrefix(Uvarint(tag), Uvarint(v) + t);
    ReadBack(v, t);
    DropPrefix(Uvarint(tag) + Uvarint(v), t);
  }

  /** The writer is undone by the reader, so equal messages hold the same records in the same order. */
  lemma {:induction false} ReadFieldsBack(fs: seq<Field>)
    ensures ReadFields(WriteFields(fs)) == Some(fs)
  {
    if fs != [] {
      ReadFieldBack(fs[0], WriteFields(fs[1..]));
      ReadFieldsBack(fs[1..]);
      assert [fs[0]] + fs[1..] == fs;
    }
  }

  lemma {:induction false} WriteAppend(a: seq<Field>, b: seq<Field>)
    ensures WriteFields(a + b) == WriteFields(a) + WriteFields(b)
  {
    hide WriteField;
    if a == [] {
      assert a + b == b;
    } else {
      var first := WriteField(a[0]);
      assert (a + b)[0] == a[0] && (a + b)[1..] == a[1..] + b;
      assert WriteFields(a + b) == first + WriteFields(a[1..] + b);
      WriteAppend(a[1..], b);
      Assoc(first, WriteFields(a[1..]), WriteFields(b));
    }
  }

  /** Whatever the reader accepts, headers and payloads account for every byte of it. */
  lemma {:induction false} RewriteNoLonger(b: Bytes)
    requires ReadFields(b).Some?
    ensures |WriteFields(ReadFields(b).value)| <= |b|
    decreases |b|
  {
    hide ReadVarint, Uvarint;
    if b != [] {
      var (f, rest) := ReadField(b).value;
      RewriteNoLonger(rest);
      Minimal(b);
      Minimal(b[ReadVarint(b).value.1..]);
    }
  }
}
