/**
 LegacyAminoPubKey multisignatures (gentxvalidate/multisig.go): the compact bitarray, the MultiSignature
 envelope, the k-of-n decision and the address preimage. SHA-256 and the ECDSA check are parameters.
 */
module Multisig {
  import opened Basics
  import opened Protowire
  import opened Messages
  import opened Gentx

  // ---------------------------------------------------------------- compact bitarray

  function Pow2(k: nat): (r: nat)
    ensures r > 0
  {
    if k == 0 then 1 else 2 * Pow2(k - 1)
  }

  /** b & (1 << k) != 0 */
  predicate TestBit(b: byte, k: nat) {
    b / Pow2(k) % 2 == 1
  }

  /** Bit `i` of the array, most significant first in every byte. */
  predicate BitAt(elems: Bytes, i: nat)
    requires i / 8 < |elems|
  {
    TestBit(elems[i / 8], 7 - i % 8)
  }

  function BitCount(ms: MultisigSigner): int {
    if |ms.bitarrayElems| == 0 then 0
    else if ms.extraBitsStored == 0 then |ms.bitarrayElems| * 8
    else (|ms.bitarrayElems| - 1) * 8 + ms.extraBitsStored
  }

  /** The set positions below `n`, in increasing order. */
  function SetPositions(elems: Bytes, n: nat): seq<nat>
    requires n <= 8 * |elems|
  {
    if n == 0 then []
    else if BitAt(elems, n - 1) then SetPositions(elems, n - 1) + [n - 1]
    else SetPositions(elems, n - 1)
  }

  /** Bit `k` of a byte, the first weighing 128 and the last 1. */
  predicate IsSet(b: byte, k: nat) {
    match k
    case 0 => b / 128 % 2 == 1
    case 1 => b / 64 % 2 == 1
    case 2 => b / 32 % 2 == 1
    case 3 => b / 16 % 2 == 1
    case 4 => b / 8 % 2 == 1
    case 5 => b / 4 % 2 == 1
    case 6 => b / 2 % 2 == 1
    case _ => b % 2 == 1
  }

  /** The strictly increasing list of the positions below `n` whose bit is set. */
  ghost predicate ListsSetBits(elems: Bytes, n: nat, list: seq<nat>)
    requires n <= 8 * |elems|
  {
    && (forall j, k | 0 <= j < k < |list| :: list[j] < list[k])
    && (forall i: nat :: i in list <==> i < n && IsSet(elems[i / 8], i % 8))
  }

  /** No result stands for the run-time panic of an index out of range. */
  method SignerIndices(ms: MultisigSigner) returns (r: Option<seq<nat>>)
    ensures r.None? <==> |ms.members| > 8 * |ms.bitarrayElems|
    ensures r.Some? ==> r.value == SetPositions(ms.bitarrayElems, |ms.members|)
    ensures r.Some? ==> ListsSetBits(ms.bitarrayElems, |ms.members|, r.value)
  {
    hide TestBit, Pow2, ListsSetBits;
    var idx: seq<nat> := [];
    for i := 0 to |ms.members|
      invariant i <= 8 * |ms.bitarrayElems|
      invariant idx == SetPositions(ms.bitarrayElems, i)
    {
      if i / 8 >= |ms.bitarrayElems| {
        return None;
      }
      if TestBit(ms.bitarrayElems[i / 8], 7 - i % 8) {
        idx := idx + [i];
      }
    }
    SetPositionsExact(ms.bitarrayElems, |ms.members|);
    return Some(idx);
  }

  /** Exactly the set positions below `n`, each once and in increasing order, as many as there are set bits. */
  lemma SetPositionsExact(elems: Bytes, n: nat)
    requires n <= 8 * |elems|
    ensures ListsSetBits(elems, n, SetPositions(elems, n))
    ensures |SetPositions(elems, n)| == |set i: nat | i < n && BitAt(elems, i)|
  {
    hide BitAt, SetPositions;
    SetPositionsIncrease(elems, n);
    SetPositionsAreSet(elems, n);
    SetPositionsCount(elems, n);
    forall i: nat | i < n ensures BitAt(elems, i) <==> IsSet(elems[i / 8], i % 8) {
      BitWeight(elems, i);
    }
  }

  lemma BitWeight(elems: Bytes, i: nat)
    requires i / 8 < |elems|
    ensures BitAt(elems, i) <==> IsSet(elems[i / 8], i % 8)
  {
    Powers();
  }

  lemma Powers()
    ensures Pow2(0) == 1 && Pow2(1) == 2 && Pow2(2) == 4 && Pow2(3) == 8
    ensures Pow2(4) == 16 && Pow2(5) == 32 && Pow2(6) == 64 && Pow2(7) == 128
  {
    assert Pow2(3) == 8 && Pow2(4) == 16 && Pow2(5) == 32;
  }

  /** An ascending list of set positions is the only one, so it is the code's. */
  lemma {:induction false} OneList(elems: Bytes, n: nat, list: seq<nat>)
    requires n <= 8 * |elems| && ListsSetBits(elems, n, list)
    ensures list == SetPositions(elems, n)
  {
    SetPositionsExact(elems, n);
    SameLists(list, SetPositions(elems, n));
  }

  lemma {:induction false} SameLists(a: seq<nat>, b: seq<nat>)
    requires forall j, k | 0 <= j < k < |a| :: a[j] < a[k]
    requires forall j, k | 0 <= j < k < |b| :: b[j] < b[k]
    requires forall i: nat :: i in a <==> i in b
    ensures a == b
  {
    assert Members(a) == Members(b);
    NoMembers(a);
    NoMembers(b);
    if a != [] && b != [] {
      var x, y := |a| - 1, |b| - 1;
      assert a[x] in b && b[y] in a;
      var a', b' := a[..x], b[..y];
      forall i: nat ensures i in a' <==> i in b' {
        assert i in a <==> i in a' || i == a[x];
        assert i in b <==> i in b' || i == b[y];
      }
      SameLists(a', b');
    }
  }

  function Members(a: seq<nat>): set<nat> {
    set i | i in a
  }

  lemma NoMembers(a: seq<nat>)
    ensures a == [] <==> Members(a) == {}
  {
    if a != [] {
      assert a[0] in Members(a);
    }
  }

  lemma {:induction false} DistinctCount(list: seq<nat>)
    requires forall j, k | 0 <= j < k < |list| :: list[j] < list[k]
    ensures |Members(list)| == |list|
  {
    if list == [] {
      NoMembers(list);
    } else {
      var n := |list| - 1;
      var init := list[..n];
      DistinctCount(init);
      assert list == init + [list[n]];
      MembersSnoc(init, list[n]);
      assert list[n] !in init;
    }
  }

  lemma MembersSnoc(a: seq<nat>, i: nat)
    ensures Members(a + [i]) == Members(a) + {i}
  {
  }

  function Weight(present: bool, w: nat): nat {
    if present then w else 0
  }

  /** Packing the positions, first bit heaviest, gives every byte of the array back. */
  lemma PackedBack(elems: Bytes, q: nat)
    requires q < |elems|
    ensures var on := SetPositions(elems, 8 * |elems|);
            elems[q] == Weight(8 * q in on, 128) + Weight(8 * q + 1 in on, 64) + Weight(8 * q + 2 in on, 32)
                      + Weight(8 * q + 3 in on, 16) + Weight(8 * q + 4 in on, 8) + Weight(8 * q + 5 in on, 4)
                      + Weight(8 * q + 6 in on, 2) + Weight(8 * q + 7 in on, 1)
  {
    hide SetPositions, Weight, IsSet;
    ByteBits(elems[q]);
    HeavyBits(elems[q]);
    LightBits(elems[q]);
    PositionOf(elems, q, 0);
    PositionOf(elems, q, 1);
    PositionOf(elems, q, 2);
    PositionOf(elems, q, 3);
    PositionOf(elems, q, 4);
    PositionOf(elems, q, 5);
    PositionOf(elems, q, 6);
    PositionOf(elems, q, 7);
  }

  lemma HeavyBits(b: byte)
    ensures Weight(IsSet(b, 0), 128) == 128 * (b / 128 % 2) && Weight(IsSet(b, 1), 64) == 64 * (b / 64 % 2)
    ensures Weight(IsSet(b, 2), 32) == 32 * (b / 32 % 2) && Weight(IsSet(b, 3), 16) == 16 * (b / 16 % 2)
  {
  }

  lemma LightBits(b: byte)
    ensures Weight(IsSet(b, 4), 8) == 8 * (b / 8 % 2) && Weight(IsSet(b, 5), 4) == 4 * (b / 4 % 2)
    ensures Weight(IsSet(b, 6), 2) == 2 * (b / 2 % 2) && Weight(IsSet(b, 7), 1) == b % 2
  {
  }

  lemma PositionOf(elems: Bytes, q: nat, k: nat)
    requires q < |elems| && k < 8
    ensures 8 * q + k in SetPositions(elems, 8 * |elems|) <==> IsSet(elems[q], k)
  {
    hide SetPositions;
    SetPositionsExact(elems, 8 * |elems|);
    assert (8 * q + k) / 8 == q && (8 * q + k) % 8 == k;
  }

  lemma ByteBits(b: byte)
    ensures b == 128 * (b / 128 % 2) + 64 * (b / 64 % 2) + 32 * (b / 32 % 2) + 16 * (b / 16 % 2)
               + 8 * (b / 8 % 2) + 4 * (b / 4 % 2) + 2 * (b / 2 % 2) + b % 2
  {
    NextBits(b);
    NextBits(b / 16);
    Sixteenths(b);
  }

  lemma Sixteenths(b: byte)
    ensures b / 16 / 2 == b / 32 && b / 16 / 4 == b / 64 && b / 16 / 8 == b / 128 && b / 16 / 16 == 0
  {
  }

  lemma NextBits(b: nat)
    ensures b == 16 * (b / 16) + 8 * (b / 8 % 2) + 4 * (b / 4 % 2) + 2 * (b / 2 % 2) + b % 2
  {
    assert b / 2 / 2 == b / 4 && b / 4 / 2 == b / 8 && b / 8 / 2 == b / 16;
  }

  lemma {:induction false} SetPositionsIncrease(elems: Bytes, n: nat)
    requires n <= 8 * |elems|
    ensures forall j | 0 <= j < |SetPositions(elems, n)| :: SetPositions(elems, n)[j] < n
    ensures forall j, k | 0 <= j < k < |SetPositions(elems, n)| :: SetPositions(elems, n)[j] < SetPositions(elems, n)[k]
  {
    hide BitAt;
    if n > 0 {
      SetPositionsIncrease(elems, n - 1);
    }
  }

  lemma {:induction false} SetPositionsAreSet(elems: Bytes, n: nat)
    requires n <= 8 * |elems|
    ensures forall i: nat :: i in SetPositions(elems, n) <==> i < n && BitAt(elems, i)
  {
    hide BitAt;
    if n > 0 {
      SetPositionsAreSet(elems, n - 1);
    }
  }

  lemma {:induction false} SetPositionsCount(elems: Bytes, n: nat)
    requires n <= 8 * |elems|
    ensures |SetPositions(elems, n)| == |set i: nat | i < n && BitAt(elems, i)|
  {
    hide BitAt;
    var all := set i: nat | i < n && BitAt(elems, i);
    if n == 0 {
      assert all == {};
    } else {
      SetPositionsCount(elems, n - 1);
      var before := set i: nat | i < n - 1 && BitAt(elems, i);
      assert all == if BitAt(elems, n - 1) then before + {n - 1} else before;
    }
  }

  /** Bits at or past the member count, padding included, never matter. */
  lemma {:induction false} PaddingIgnored(elems: Bytes, elems': Bytes, n: nat)
    requires n <= 8 * |elems| && n <= 8 * |elems'|
    requires forall i: nat | i < n :: BitAt(elems, i) == BitAt(elems', i)
    ensures SetPositions(elems, n) == SetPositions(elems', n)
  {
    if n > 0 {
      PaddingIgnored(elems, elems', n - 1);
    }
  }

  /** Once the bit count agrees with the member count, reading stays in bounds exactly when at most eight extra bits are declared. */
  lemma InBoundsExactly(ms: MultisigSigner)
    requires ms.bitarrayElems != [] && BitCount(ms) == |ms.members|
    ensures |ms.members| <= 8 * |ms.bitarrayElems| <==> ms.extraBitsStored <= 8
  {
  }

  // ---------------------------------------------------------------- MultiSignature envelope

  const SIG_TAG: nat := Tag(1, WIRE_BYTES)

  /** The signatures of an envelope, or nothing when it is malformed. */
  function ParseRecords(b: Bytes): Option<seq<Bytes>>
    decreases |b|
  {
    if b == [] then
      Some([])
    else
      var (tag, n) := GoUvarint(b);
      if n <= 0 || tag != SIG_TAG then None
      else
        var (size, k) := GoUvarint(b[n..]);
        if k <= 0 then None
        else
          var rest := b[n..][k..];
          if size > |rest| then None
          else
            var sigs :- ParseRecords(rest[size..]);
            Some([rest[..size]] + sigs)
  }

  function ParseEnvelope(b: Bytes): Option<seq<Bytes>> {
    var sigs :- ParseRecords(b);
    if sigs == [] then None else Some(sigs)
  }

  method ParseMultiSignature(b0: Bytes) returns (r: Option<seq<Bytes>>)
    ensures r == ParseEnvelope(b0)
  {
    hide GoUvarint;
    var b := b0;
    var sigs: seq<Bytes> := [];
    assert ParseRecords(b0).Some? ==> [] + ParseRecords(b0).value == ParseRecords(b0).value;
    while |b| > 0
      invariant ParseRecords(b0) == match ParseRecords(b) case None => None case Some(more) => Some(sigs + more)
      decreases |b|
    {
      var (tag, n) := GoUvarint(b);
      if n <= 0 || tag != SIG_TAG {
        return None;
      }
      var b1 := b[n..];
      var (size, k) := GoUvarint(b1);
      if k <= 0 {
        return None;
      }
      var b2 := b1[k..];
      if size > |b2| {
        return None;
      }
      ghost var more := ParseRecords(b2[size..]);
      assert more.Some? ==> sigs + ([b2[..size]] + more.value) == (sigs + [b2[..size]]) + more.value;
      sigs := sigs + [b2[..size]];
      b := b2[size..];
    }
    assert sigs + [] == sigs;
    if |sigs| == 0 {
      return None;
    }
    return Some(sigs);
  }

  /** The records an envelope stands for. */
  function EnvelopeFields(sigs: seq<Bytes>): seq<Field> {
    if sigs == [] then [] else [Len(1, sigs[0])] + EnvelopeFields(sigs[1..])
  }

  /** A varint header that Go accepts, minimal or not. */
  ghost predicate IsHeader(h: Bytes, v: nat) {
    ReadVarint(h) == Some((v, |h|)) && Fits64(ReadVarint(h))
  }

  /** Headers and payloads account for every byte. */
  ghost predicate IsEnvelope(b: Bytes, sigs: seq<Bytes>)
    decreases |sigs|
  {
    if sigs == [] then
      b == []
    else
      exists tag, size, rest :: IsRecord(b, tag, size, sigs[0], rest) && IsEnvelope(rest, sigs[1..])
  }

  ghost predicate IsRecord(b: Bytes, tag: Bytes, size: Bytes, sig: Bytes, rest: Bytes) {
    b == tag + (size + (sig + rest)) && IsHeader(tag, 10) && IsHeader(size, |sig|)
  }

  lemma {:induction false} HeaderPrefix(h: Bytes, v: nat, t: Bytes)
    requires ReadVarint(h) == Some((v, |h|))
    ensures ReadVarint(h + t) == Some((v, |h|))
  {
    assert (h + t)[1..] == h[1..] + t;
    if h[0] >= 128 {
      HeaderPrefix(h[1..], ReadVarint(h[1..]).value.0, t);
    }
  }

  lemma {:induction false} HeaderAlone(b: Bytes)
    requires ReadVarint(b).Some?
    ensures var (v, n) := ReadVarint(b).value; ReadVarint(b[..n]) == Some((v, n))
  {
    if b[0] >= 128 {
      HeaderAlone(b[1..]);
      var n := ReadVarint(b).value.1;
      assert b[..n][1..] == b[1..][..n - 1];
    }
  }

  lemma GoHeader(b: Bytes)
    requires GoUvarint(b).1 > 0
    ensures IsHeader(b[..GoUvarint(b).1], GoUvarint(b).0)
  {
    GoUvarintExact(b);
    HeaderAlone(b);
  }

  lemma GoReadsHeader(h: Bytes, v: nat, t: Bytes)
    requires IsHeader(h, v)
    ensures GoUvarint(h + t) == (v, |h|)
  {
    HeaderPrefix(h, v, t);
    GoUvarintExact(h + t);
  }

  /** The parser accepts exactly the byte strings made of signature records, and returns their payloads. */
  lemma ParsesExactly(b: Bytes, sigs: seq<Bytes>)
    ensures ParseRecords(b) == Some(sigs) <==> IsEnvelope(b, sigs)
  {
    if ParseRecords(b) == Some(sigs) {
      ParsedIsEnvelope(b);
    }
    if IsEnvelope(b, sigs) {
      EnvelopeParses(b, sigs);
    }
  }

  lemma {:induction false} ParsedIsEnvelope(b: Bytes)
    requires ParseRecords(b).Some?
    ensures IsEnvelope(b, ParseRecords(b).value)
    decreases |b|
  {
    hide GoUvarint, IsHeader;
    if b != [] {
      var (tag, n) := GoUvarint(b);
      var (size, k) := GoUvarint(b[n..]);
      var after := b[n..][k..];
      GoHeader(b);
      GoHeader(b[n..]);
      ParsedIsEnvelope(after[size..]);
      Split(b, n);
      Split(b[n..], k);
      Split(after, size);
      var sigs, more := ParseRecords(b).value, ParseRecords(after[size..]).value;
      assert sigs == [after[..size]] + more;
      assert sigs[0] == after[..size] && sigs[1..] == more;
      assert IsRecord(b, b[..n], b[n..][..k], sigs[0], after[size..]);
      assert IsEnvelope(after[size..], sigs[1..]);
    }
  }

  lemma Split<T>(s: seq<T>, n: nat)
    requires n <= |s|
    ensures s == s[..n] + s[n..]
  {
  }

  lemma {:induction false} EnvelopeParses(b: Bytes, sigs: seq<Bytes>)
    requires IsEnvelope(b, sigs)
    ensures ParseRecords(b) == Some(sigs)
    decreases |sigs|
  {
    hide IsRecord, GoUvarint;
    if sigs != [] {
      hide ParseRecords;
      var tag, size, rest :| IsRecord(b, tag, size, sigs[0], rest) && IsEnvelope(rest, sigs[1..]);
      RecordParses(b, tag, size, sigs[0], rest);
      EnvelopeParses(rest, sigs[1..]);
      assert [sigs[0]] + sigs[1..] == sigs;
    }
  }

  lemma RecordParses(b: Bytes, tag: Bytes, size: Bytes, sig: Bytes, rest: Bytes)
    requires IsRecord(b, tag, size, sig, rest)
    ensures b != []
    ensures ParseRecords(b) == match ParseRecords(rest) case None => None case Some(sigs) => Some([sig] + sigs)
  {
    GoReadsHeader(tag, SIG_TAG, size + (sig + rest));
    DropPrefix(tag, size + (sig + rest));
    GoReadsHeader(size, |sig|, sig + rest);
    DropPrefix(size, sig + rest);
    DropPrefix(sig, rest);
    assert (sig + rest)[..|sig|] == sig;
  }

  /** The parser undoes the writer for every list of signatures a Go program can hold. */
  lemma {:induction false} EnvelopeRoundTrip(sigs: seq<Bytes>)
    requires forall i | 0 <= i < |sigs| :: |sigs[i]| < TWO_TO_THE_64
    ensures ParseRecords(WriteFields(EnvelopeFields(sigs))) == Some(sigs)
  {
    hide ParseRecords, WriteField, WriteFields, EnvelopeFields;
    if sigs == [] {
      NothingParses();
    } else {
      WriteEnvelopeStep(sigs);
      WrittenRecordParses(sigs[0], WriteFields(EnvelopeFields(sigs[1..])));
      EnvelopeRoundTrip(sigs[1..]);
      SplitFirst(sigs, 0);
    }
  }

  lemma NothingParses()
    ensures ParseRecords(WriteFields(EnvelopeFields([]))) == Some([])
  {
  }

  lemma WrittenRecordParses(sig: Bytes, rest: Bytes)
    requires |sig| < TWO_TO_THE_64
    ensures ParseRecords(WriteField(Len(1, sig)) + rest)
         == match ParseRecords(rest) case None => None case Some(sigs) => Some([sig] + sigs)
  {
    hide ParseRecords, IsRecord, WriteField, Uvarint;
    WrittenRecord(sig, rest);
    RecordParses(WriteField(Len(1, sig)) + rest, Uvarint(SIG_TAG), Uvarint(|sig|), sig, rest);
  }

  lemma WriteEnvelopeStep(sigs: seq<Bytes>)
    requires sigs != []
    ensures WriteFields(EnvelopeFields(sigs)) == WriteField(Len(1, sigs[0])) + WriteFields(EnvelopeFields(sigs[1..]))
  {
    hide WriteField;
    var fs := EnvelopeFields(sigs);
    assert fs[0] == Len(1, sigs[0]) && fs[1..] == EnvelopeFields(sigs[1..]);
  }

  lemma WrittenRecord(sig: Bytes, rest: Bytes)
    requires |sig| < TWO_TO_THE_64
    ensures IsRecord(WriteField(Len(1, sig)) + rest, Uvarint(SIG_TAG), Uvarint(|sig|), sig, rest)
  {
    hide IsHeader;
    WrittenHeader(SIG_TAG);
    WrittenHeader(|sig|);
    Assoc(Uvarint(SIG_TAG) + Uvarint(|sig|), sig, rest);
    Assoc(Uvarint(SIG_TAG), Uvarint(|sig|), sig + rest);
  }

  lemma WrittenHeader(v: uint64)
    ensures IsHeader(Uvarint(v), v)
  {
    ReadBack(v, []);
    GoReadBack(v, []);
    assert Uvarint(v) + [] == Uvarint(v);
  }

  /** What is parsed is what the general wire reader finds: only records of field 1. */
  lemma {:induction false} ParsedAsFields(b: Bytes)
    requires ParseRecords(b).Some?
    ensures ReadFields(b) == Some(EnvelopeFields(ParseRecords(b).value))
    decreases |b|
  {
    hide GoUvarint, ReadField;
    if b != [] {
      var (tag, n) := GoUvarint(b);
      var (size, k) := GoUvarint(b[n..]);
      var after := b[n..][k..];
      RecordAsField(b);
      ParsedAsFields(after[size..]);
      var sigs, more := ParseRecords(b).value, ParseRecords(after[size..]).value;
      assert sigs == [after[..size]] + more;
      assert sigs[0] == after[..size] && sigs[1..] == more;
    }
  }

  lemma RecordAsField(b: Bytes)
    requires b != [] && ParseRecords(b).Some?
    ensures var (tag, n) := GoUvarint(b);
            var (size, k) := GoUvarint(b[n..]);
            var after := b[n..][k..];
            ReadField(b) == Some((Len(1, after[..size]), after[size..]))
  {
    hide GoUvarint, ReadVarint;
    var (tag, n) := GoUvarint(b);
    var (size, k) := GoUvarint(b[n..]);
    GoUvarintExact(b);
    GoUvarintExact(b[n..]);
    assert b[n + k..] == b[n..][k..];
  }

  /** Writing the parsed signatures again takes no more bytes and parses to the same list. */
  lemma RewrittenEnvelope(b: Bytes)
    requires ParseEnvelope(b).Some?
    ensures var again := WriteFields(EnvelopeFields(ParseEnvelope(b).value));
            |again| <= |b| && ParseEnvelope(again) == ParseEnvelope(b)
  {
    var sigs := ParseRecords(b).value;
    ParsedAsFields(b);
    RewriteNoLonger(b);
    ParsedIsEnvelope(b);
    EnvelopeSizes(b, sigs);
    EnvelopeRoundTrip(sigs);
  }

  lemma {:induction false} EnvelopeSizes(b: Bytes, sigs: seq<Bytes>)
    requires IsEnvelope(b, sigs)
    ensures forall i | 0 <= i < |sigs| :: |sigs[i]| < TWO_TO_THE_64
    decreases |sigs|
  {
    if sigs != [] {
      var tag, size, rest :| IsRecord(b, tag, size, sigs[0], rest) && IsEnvelope(rest, sigs[1..]);
      EnvelopeSizes(rest, sigs[1..]);
    }
  }

  // ---------------------------------------------------------------- verification

  /** The outcome of checking one compact signature: an undecodable key is an error. */
  datatype Check = Valid | Invalid | Malformed

  type Verifier = (Bytes, Bytes, Bytes) -> Check

  /** Accept is (true, nil), Reject is (false, nil), Error is a returned error, Panic an index out of range. */
  datatype Verdict = Accept | Reject | Error | Panic

  predicate AllAmino(modes: seq<string>) {
    forall i | 0 <= i < |modes| :: modes[i] == SIGN_MODE_AMINO_JSON_NAME
  }

  /** Signature `j` is a compact signature of member `signers[j]`'s secp256k1 key over the sign bytes. */
  predicate Signed(ms: MultisigSigner, signers: seq<nat>, sigs: seq<Bytes>, signBytes: Bytes, verify: Verifier, j: nat)
    requires j < |signers| && j < |sigs| && signers[j] < |ms.members|
  {
    var member := ms.members[signers[j]];
    && member.pubKeyTypeURL == SECP256K1_PUB_KEY_TYPE_URL
    && |member.pubKey| == COMPRESSED_PUB_KEY_LEN
    && |sigs[j]| == COMPACT_SIG_LEN
    && verify(member.pubKey, sigs[j], signBytes) == Valid
  }

  /** The checks that precede the threshold: modes, bit count, bounds, envelope and counts. */
  ghost predicate WellShaped(ms: MultisigSigner, signature: Bytes) {
    && AllAmino(ms.modes)
    && BitCount(ms) == |ms.members| <= 8 * |ms.bitarrayElems|
    && ParseEnvelope(signature).Some?
    && |ParseEnvelope(signature).value| == |SetPositions(ms.bitarrayElems, |ms.members|)| == |ms.modes|
  }

  /** The first `count` signatures are good. */
  ghost predicate SignedUpTo(ms: MultisigSigner, signature: Bytes, signBytes: Bytes, verify: Verifier, count: nat)
    requires WellShaped(ms, signature) && count <= |ms.modes|
  {
    forall j: nat | j < count :: SignedAt(ms, signature, signBytes, verify, j)
  }

  ghost predicate SignedAt(ms: MultisigSigner, signature: Bytes, signBytes: Bytes, verify: Verifier, j: nat)
    requires WellShaped(ms, signature) && j < |ms.modes|
  {
    SetPositionBound(ms.bitarrayElems, |ms.members|, j);
    Signed(ms, SetPositions(ms.bitarrayElems, |ms.members|), ParseEnvelope(signature).value, signBytes, verify, j)
  }

  /** The code's condition for accepting. */
  ghost predicate Accepts(ms: MultisigSigner, signature: Bytes, signBytes: Bytes, verify: Verifier) {
    && WellShaped(ms, signature)
    && |ms.modes| >= ms.threshold
    && SignedUpTo(ms, signature, signBytes, verify, |ms.modes|)
  }

  /** It merely does not verify: too few signatures, or the first that is not good is a well-formed one that does not match. */
  ghost predicate Refuses(ms: MultisigSigner, signature: Bytes, signBytes: Bytes, verify: Verifier) {
    && WellShaped(ms, signature)
    && (|ms.modes| < ms.threshold || exists j: nat :: MismatchAt(ms, signature, signBytes, verify, j))
  }

  ghost predicate MismatchAt(ms: MultisigSigner, signature: Bytes, signBytes: Bytes, verify: Verifier, j: nat)
    requires WellShaped(ms, signature)
  {
    && j < |ms.modes|
    && SignedUpTo(ms, signature, signBytes, verify, j)
    && SetPositions(ms.bitarrayElems, |ms.members|)[j] < |ms.members|
    && var member, sig := ms.members[SetPositions(ms.bitarrayElems, |ms.members|)[j]], ParseEnvelope(signature).value[j];
    && member.pubKeyTypeURL == SECP256K1_PUB_KEY_TYPE_URL
    && |member.pubKey| == COMPRESSED_PUB_KEY_LEN
    && |sig| == COMPACT_SIG_LEN
    && verify(member.pubKey, sig, signBytes) == Invalid
  }

  /** It passes the mode and bit count checks and declares more than eight extra bits: the bit loop leaves the array. */
  predicate ReadsOutOfRange(ms: MultisigSigner) {
    && (forall i | 0 <= i < |ms.modes| :: ms.modes[i] == "SIGN_MODE_LEGACY_AMINO_JSON")
    && ms.bitarrayElems != []
    && |ms.members| == 8 * (|ms.bitarrayElems| - 1) + ms.extraBitsStored
    && ms.extraBitsStored > 8
  }

  /** A bitarray of `elems` with `extra` bits in its last byte, or none left over, stores `n` bits. */
  predicate StoresBits(elems: Bytes, extra: int, n: nat) {
    if elems == [] then n == 0
    else if extra == 0 then n == 8 * |elems|
    else extra <= 8 && n == 8 * (|elems| - 1) + extra
  }

  /** All modes amino, one bit stored per member, and one signature and one mode per set bit. */
  ghost predicate Presents(ms: MultisigSigner, signature: Bytes, signers: seq<nat>, sigs: seq<Bytes>) {
    && (forall i | 0 <= i < |ms.modes| :: ms.modes[i] == "SIGN_MODE_LEGACY_AMINO_JSON")
    && StoresBits(ms.bitarrayElems, ms.extraBitsStored, |ms.members|)
    && |ms.members| <= 8 * |ms.bitarrayElems|
    && ListsSetBits(ms.bitarrayElems, |ms.members|, signers)
    && IsEnvelope(signature, sigs) && sigs != []
    && |sigs| == |signers| == |ms.modes|
  }

  /** Checking signature `j` against the member selected for it has this outcome; the shapes are right. */
  ghost predicate CheckedAs(ms: MultisigSigner, signers: seq<nat>, sigs: seq<Bytes>, signBytes: Bytes,
                            verify: Verifier, j: nat, outcome: Check)
  {
    && j < |signers| && j < |sigs| && signers[j] < |ms.members|
    && ms.members[signers[j]].pubKeyTypeURL == "/cosmos.crypto.secp256k1.PubKey"
    && |ms.members[signers[j]].pubKey| == 33
    && |sigs[j]| == 64
    && verify(ms.members[signers[j]].pubKey, sigs[j], signBytes) == outcome
  }

  /** At least threshold signatures are presented and every one is valid for its member over the sign bytes. */
  ghost predicate MultiSignedBy(ms: MultisigSigner, signature: Bytes, signBytes: Bytes, verify: Verifier,
                                signers: seq<nat>, sigs: seq<Bytes>)
  {
    && Presents(ms, signature, signers, sigs)
    && |sigs| >= ms.threshold
    && forall j: nat | j < |sigs| :: CheckedAs(ms, signers, sigs, signBytes, verify, j, Valid)
  }

  ghost predicate IsMultiSigned(ms: MultisigSigner, signature: Bytes, signBytes: Bytes, verify: Verifier) {
    exists signers, sigs :: MultiSignedBy(ms, signature, signBytes, verify, signers, sigs)
  }

  /** Too few signatures are presented, or after valid ones comes a well-formed one that does not match. */
  ghost predicate RefusedBy(ms: MultisigSigner, signature: Bytes, signBytes: Bytes, verify: Verifier,
                            signers: seq<nat>, sigs: seq<Bytes>)
  {
    && Presents(ms, signature, signers, sigs)
    && (|sigs| < ms.threshold || exists j: nat :: FirstMismatch(ms, signers, sigs, signBytes, verify, j))
  }

  ghost predicate FirstMismatch(ms: MultisigSigner, signers: seq<nat>, sigs: seq<Bytes>, signBytes: Bytes,
                                verify: Verifier, j: nat)
  {
    && CheckedAs(ms, signers, sigs, signBytes, verify, j, Invalid)
    && forall i: nat | i < j :: CheckedAs(ms, signers, sigs, signBytes, verify, i, Valid)
  }

  ghost predicate IsRefused(ms: MultisigSigner, signature: Bytes, signBytes: Bytes, verify: Verifier) {
    exists signers, sigs :: RefusedBy(ms, signature, signBytes, verify, signers, sigs)
  }

  /** A multisignature presents one list of signers and one list of signatures: those the code works with. */
  lemma PresentedOnce(ms: MultisigSigner, signature: Bytes, signers: seq<nat>, sigs: seq<Bytes>)
    requires |ms.members| <= 8 * |ms.bitarrayElems|
    ensures Presents(ms, signature, signers, sigs) <==>
            && WellShaped(ms, signature)
            && signers == SetPositions(ms.bitarrayElems, |ms.members|)
            && ParseEnvelope(signature) == Some(sigs)
  {
    hide ListsSetBits, SetPositions, ParseRecords, IsEnvelope;
    SetPositionsExact(ms.bitarrayElems, |ms.members|);
    ParsesExactly(signature, sigs);
    if ListsSetBits(ms.bitarrayElems, |ms.members|, signers) {
      OneList(ms.bitarrayElems, |ms.members|, signers);
    }
  }

  lemma CheckedIsSigned(ms: MultisigSigner, signature: Bytes, signBytes: Bytes, verify: Verifier, j: nat)
    requires WellShaped(ms, signature) && j < |ms.modes|
    ensures var signers, sigs := SetPositions(ms.bitarrayElems, |ms.members|), ParseEnvelope(signature).value;
            && SignedAt(ms, signature, signBytes, verify, j) == CheckedAs(ms, signers, sigs, signBytes, verify, j, Valid)
            && MismatchAt(ms, signature, signBytes, verify, j) == FirstMismatch(ms, signers, sigs, signBytes, verify, j)
  {
    hide SetPositions, ParseEnvelope;
    SetPositionBound(ms.bitarrayElems, |ms.members|, j);
    forall i: nat | i < j ensures SetPositions(ms.bitarrayElems, |ms.members|)[i] < |ms.members| {
      SetPositionBound(ms.bitarrayElems, |ms.members|, i);
    }
    assert forall i: nat | i < j ::
        SignedAt(ms, signature, signBytes, verify, i)
        == CheckedAs(ms, SetPositions(ms.bitarrayElems, |ms.members|), ParseEnvelope(signature).value, signBytes, verify, i, Valid);
  }

  /** The code accepts what is signed. */
  lemma AcceptsExactly(ms: MultisigSigner, signature: Bytes, signBytes: Bytes, verify: Verifier)
    ensures Accepts(ms, signature, signBytes, verify) <==> IsMultiSigned(ms, signature, signBytes, verify)
  {
    hide WellShaped, Presents, SignedAt, CheckedAs, SetPositions, ParseEnvelope;
    if Accepts(ms, signature, signBytes, verify) {
      ShapeBounds(ms, signature);
      var signers, sigs := SetPositions(ms.bitarrayElems, |ms.members|), ParseEnvelope(signature).value;
      PresentedOnce(ms, signature, signers, sigs);
      forall j: nat | j < |sigs| ensures CheckedAs(ms, signers, sigs, signBytes, verify, j, Valid) {
        CheckedIsSigned(ms, signature, signBytes, verify, j);
      }
      assert MultiSignedBy(ms, signature, signBytes, verify, signers, sigs);
    }
    if IsMultiSigned(ms, signature, signBytes, verify) {
      var signers, sigs :| MultiSignedBy(ms, signature, signBytes, verify, signers, sigs);
      PresentedBounds(ms, signature, signers, sigs);
      PresentedOnce(ms, signature, signers, sigs);
      ShapeBounds(ms, signature);
      forall j: nat | j < |ms.modes| ensures SignedAt(ms, signature, signBytes, verify, j) {
        CheckedIsSigned(ms, signature, signBytes, verify, j);
      }
    }
  }

  lemma ShapeBounds(ms: MultisigSigner, signature: Bytes)
    requires WellShaped(ms, signature)
    ensures |ms.members| <= 8 * |ms.bitarrayElems| && ParseEnvelope(signature).Some?
    ensures |ParseEnvelope(signature).value| == |SetPositions(ms.bitarrayElems, |ms.members|)| == |ms.modes|
  {
  }

  lemma PresentedBounds(ms: MultisigSigner, signature: Bytes, signers: seq<nat>, sigs: seq<Bytes>)
    requires Presents(ms, signature, signers, sigs)
    ensures |ms.members| <= 8 * |ms.bitarrayElems| && |sigs| == |signers| == |ms.modes|
  {
  }

  /** The code refuses what is refused. */
  lemma RefusesExactly(ms: MultisigSigner, signature: Bytes, signBytes: Bytes, verify: Verifier)
    ensures Refuses(ms, signature, signBytes, verify) <==> IsRefused(ms, signature, signBytes, verify)
  {
    hide WellShaped, Presents, MismatchAt, FirstMismatch, SetPositions, ParseEnvelope;
    if Refuses(ms, signature, signBytes, verify) {
      ShapeBounds(ms, signature);
      var signers, sigs := SetPositions(ms.bitarrayElems, |ms.members|), ParseEnvelope(signature).value;
      PresentedOnce(ms, signature, signers, sigs);
      if |ms.modes| >= ms.threshold {
        var j: nat :| MismatchAt(ms, signature, signBytes, verify, j);
        MismatchBound(ms, signature, signBytes, verify, j);
        CheckedIsSigned(ms, signature, signBytes, verify, j);
      }
      assert RefusedBy(ms, signature, signBytes, verify, signers, sigs);
    }
    if IsRefused(ms, signature, signBytes, verify) {
      var signers, sigs :| RefusedBy(ms, signature, signBytes, verify, signers, sigs);
      PresentedBounds(ms, signature, signers, sigs);
      PresentedOnce(ms, signature, signers, sigs);
      if |ms.modes| >= ms.threshold {
        var j: nat :| FirstMismatch(ms, signers, sigs, signBytes, verify, j);
        FirstMismatchBound(ms, signers, sigs, signBytes, verify, j);
        CheckedIsSigned(ms, signature, signBytes, verify, j);
      }
    }
  }

  lemma MismatchBound(ms: MultisigSigner, signature: Bytes, signBytes: Bytes, verify: Verifier, j: nat)
    requires WellShaped(ms, signature) && MismatchAt(ms, signature, signBytes, verify, j)
    ensures j < |ms.modes|
  {
  }

  lemma FirstMismatchBound(ms: MultisigSigner, signers: seq<nat>, sigs: seq<Bytes>, signBytes: Bytes, verify: Verifier, j: nat)
    requires FirstMismatch(ms, signers, sigs, signBytes, verify, j)
    ensures j < |sigs|
  {
  }

  /** The bit count check alone does not keep reading in range: nine members over one byte with nine extra bits. */
  lemma BitCountCheckIsNotEnough() returns (ms: MultisigSigner)
    ensures 1 <= ms.threshold <= |ms.members| && ms.modes != []
    ensures |ms.members| > 8 * |ms.bitarrayElems|
    ensures ReadsOutOfRange(ms)
  {
    var member := MultisigMember(SECP256K1_PUB_KEY_TYPE_URL, seq(33, _ => 2));
    ms := MultisigSigner(1, seq(9, _ => member), [SIGN_MODE_AMINO_JSON_NAME], [0], 9);
  }

  lemma SetPositionBound(elems: Bytes, n: nat, j: nat)
    requires n <= 8 * |elems| && j < |SetPositions(elems, n)|
    ensures SetPositions(elems, n)[j] < n
  {
    SetPositionsExact(elems, n);
    assert SetPositions(elems, n)[j] in SetPositions(elems, n);
  }

  method VerifyAminoMultisig(ms: MultisigSigner, signature: Bytes, signBytes: Bytes, verify: Verifier)
    returns (r: Verdict)
    ensures r == Accept <==> IsMultiSigned(ms, signature, signBytes, verify)
    ensures r == Reject <==> IsRefused(ms, signature, signBytes, verify)
    ensures r == Panic <==> ReadsOutOfRange(ms)
  {
    hide SetPositions, BitAt, ParseEnvelope, ListsSetBits, IsMultiSigned, IsRefused;
    AcceptsExactly(ms, signature, signBytes, verify);
    RefusesExactly(ms, signature, signBytes, verify);
    for i := 0 to |ms.modes|
      invariant forall k | 0 <= k < i :: ms.modes[k] == SIGN_MODE_AMINO_JSON_NAME
    {
      if ms.modes[i] != SIGN_MODE_AMINO_JSON_NAME {
        return Error;
      }
    }
    var bits := BitCount(ms);
    if bits != |ms.members| {
      return Error;
    }
    if ms.bitarrayElems != [] {
      InBoundsExactly(ms);
    }
    var indices := SignerIndices(ms);
    if indices.None? {
      return Panic;
    }
    var signers := indices.value;
    var parsed := ParseMultiSignature(signature);
    if parsed.None? {
      return Error;
    }
    var sigs := parsed.value;
    if |sigs| != |signers| || |ms.modes| != |signers| {
      return Error;
    }
    if |sigs| < ms.threshold {
      return Reject;
    }
    SetPositionsExact(ms.bitarrayElems, |ms.members|);
    forall j | 0 <= j < |signers| ensures signers[j] < |ms.members| {
      SetPositionBound(ms.bitarrayElems, |ms.members|, j);
    }
    for j := 0 to |signers|
      invariant SignedUpTo(ms, signature, signBytes, verify, j)
    {
      var member := ms.members[signers[j]];
      ghost var good, mismatch := SignedAt(ms, signature, signBytes, verify, j), MismatchAt(ms, signature, signBytes, verify, j);
      assert good ==> SignedUpTo(ms, signature, signBytes, verify, j + 1);
      if !mismatch && !good {
        OnlyFirstMismatch(ms, signature, signBytes, verify, j);
      }
      if member.pubKeyTypeURL != SECP256K1_PUB_KEY_TYPE_URL {
        return Error;
      }
      if |member.pubKey| != COMPRESSED_PUB_KEY_LEN {
        return Error;
      }
      if |sigs[j]| != COMPACT_SIG_LEN {
        return Error;
      }
      var check := verify(member.pubKey, sigs[j], signBytes);
      if check == Malformed {
        return Error;
      }
      if check == Invalid {
        return Reject;
      }
    }
    OnlyFirstMismatch(ms, signature, signBytes, verify, |signers|);
    return Accept;
  }

  /** A mismatch can only be found at the first signature that is not good. */
  lemma OnlyFirstMismatch(ms: MultisigSigner, signature: Bytes, signBytes: Bytes, verify: Verifier, j: nat)
    requires WellShaped(ms, signature) && j <= |ms.modes|
    requires SignedUpTo(ms, signature, signBytes, verify, j)
    requires j < |ms.modes| ==> !SignedAt(ms, signature, signBytes, verify, j)
    ensures forall k: nat | MismatchAt(ms, signature, signBytes, verify, k) :: k == j
  {
    forall k: nat | MismatchAt(ms, signature, signBytes, verify, k) ensures k == j {
      var goodAtK := SignedAt(ms, signature, signBytes, verify, k);
      var goodAtJ := j < |ms.modes| && SignedAt(ms, signature, signBytes, verify, j);
    }
  }

  /** Member `i`'s bit is set and one of the envelope's signatures is valid for its secp256k1 key over the sign bytes. */
  ghost predicate MemberSigned(ms: MultisigSigner, signature: Bytes, signBytes: Bytes, verify: Verifier, i: nat) {
    && i < |ms.members| && i / 8 < |ms.bitarrayElems|
    && IsSet(ms.bitarrayElems[i / 8], i % 8)
    && ms.members[i].pubKeyTypeURL == "/cosmos.crypto.secp256k1.PubKey"
    && exists sigs, sig ::
         IsEnvelope(signature, sigs) && sig in sigs && verify(ms.members[i].pubKey, sig, signBytes) == Valid
  }

  /** An accepted multisignature carries valid signatures of at least threshold distinct members. */
  lemma ThresholdMembersSigned(ms: MultisigSigner, signature: Bytes, signBytes: Bytes, verify: Verifier)
    returns (who: set<nat>)
    requires IsMultiSigned(ms, signature, signBytes, verify)
    ensures |who| >= ms.threshold
    ensures forall i | i in who :: MemberSigned(ms, signature, signBytes, verify, i)
  {
    hide IsEnvelope;
    var signers, sigs :| MultiSignedBy(ms, signature, signBytes, verify, signers, sigs);
    DistinctCount(signers);
    who := Members(signers);
    forall i | i in who ensures MemberSigned(ms, signature, signBytes, verify, i) {
      var j: nat :| j < |signers| && signers[j] == i;
      assert CheckedAs(ms, signers, sigs, signBytes, verify, j, Valid);
      assert sigs[j] in sigs;
    }
  }

  // ---------------------------------------------------------------- address preimage

  const MULTISIG_AMINO_PREFIX: Bytes := [0x22, 0xC1, 0xF7, 0xE2]
  const SECP_AMINO_PREFIX: Bytes := [0xEB, 0x5A, 0xE9, 0x87]
  const ED25519_AMINO_PREFIX: Bytes := [0x16, 0x24, 0xDE, 0x64]
  const ACCOUNT_ADDR_LEN: nat := 20

  type Digest = d: Bytes | |d| == 32 witness seq(32, _ => 0)

  function AminoPrefix(typeURL: string): Option<Bytes> {
    if typeURL == SECP256K1_PUB_KEY_TYPE_URL then Some(SECP_AMINO_PREFIX)
    else if typeURL == ED25519_PUB_KEY_TYPE_URL then Some(ED25519_AMINO_PREFIX)
    else None
  }

  predicate HasAminoName(m: MultisigMember) {
    AminoPrefix(m.pubKeyTypeURL).Some?
  }

  function MemberEntry(m: MultisigMember): Bytes
    requires HasAminoName(m)
  {
    AminoPrefix(m.pubKeyTypeURL).value + Uvarint(|m.pubKey|) + m.pubKey
  }

  function MemberFields(members: seq<MultisigMember>): seq<Field>
    requires forall m | m in members :: HasAminoName(m)
  {
    seq(|members|, i requires 0 <= i < |members| => Len(2, MemberEntry(members[i])))
  }

  /** The bytes that are hashed. */
  function AddressPreimage(ms: MultisigSigner): Option<Bytes> {
    if forall m | m in ms.members :: HasAminoName(m) then
      Some(MULTISIG_AMINO_PREFIX + WriteFields([Varint(1, ms.threshold)] + MemberFields(ms.members)))
    else
      None
  }

  method MultisigAddressBytes(ms: MultisigSigner, sha256: Bytes -> Digest) returns (r: Option<Bytes>)
    ensures r.Some? <==> forall m | m in ms.members ::
              m.pubKeyTypeURL == "/cosmos.crypto.secp256k1.PubKey" || m.pubKeyTypeURL == "/cosmos.crypto.ed25519.PubKey"
    ensures r.Some? ==> exists b :: HoldsMembers(b, ms) && r.value == sha256(b)[..20]
    ensures r == match AddressPreimage(ms) case None => None case Some(b) => Some(sha256(b)[..ACCOUNT_ADDR_LEN])
  {
    hide WriteField, HoldsMembers;
    var b: Bytes := [] + MULTISIG_AMINO_PREFIX;
    ghost var fs := [Varint(1, ms.threshold)];
    b := AppendVarintField(b, 1, ms.threshold);
    WriteNext([], fs[0]);
    assert [] + fs == fs;
    for i := 0 to |ms.members|
      invariant forall k | 0 <= k < i :: HasAminoName(ms.members[k])
      invariant fs == [Varint(1, ms.threshold)] + MemberFields(ms.members[..i])
      invariant b == MULTISIG_AMINO_PREFIX + WriteFields(fs)
    {
      var m := ms.members[i];
      var prefix := AminoPrefix(m.pubKeyTypeURL);
      if prefix.None? {
        assert m in ms.members;
        return None;
      }
      var entry: Bytes := [] + prefix.value;
      entry := AppendUvarint(entry, |m.pubKey|);
      entry := entry + m.pubKey;
      assert [] + prefix.value == prefix.value;
      b := AppendBytesField(b, 2, entry);
      WriteNext(fs, Len(2, entry));
      Assoc(MULTISIG_AMINO_PREFIX, WriteFields(fs), WriteField(Len(2, entry)));
      fs := fs + [Len(2, entry)];
      assert ms.members[..i + 1] == ms.members[..i] + [m];
    }
    assert ms.members[..|ms.members|] == ms.members;
    PreimageReadsBack(ms);
    var sum := sha256(b);
    return Some(sum[..ACCOUNT_ADDR_LEN]);
  }

  lemma WriteNext(fs: seq<Field>, f: Field)
    ensures WriteFields(fs + [f]) == WriteFields(fs) + WriteField(f)
  {
    hide WriteField;
    WriteAppend(fs, [f]);
    assert [f][1..] == [];
    assert WriteField(f) + [] == WriteField(f);
  }

  lemma EntryDeterminesMember(m: MultisigMember, m': MultisigMember)
    requires HasAminoName(m) && HasAminoName(m') && MemberEntry(m) == MemberEntry(m')
    ensures m == m'
  {
    var p, p' := AminoPrefix(m.pubKeyTypeURL).value, AminoPrefix(m'.pubKeyTypeURL).value;
    var t, t' := Uvarint(|m.pubKey|) + m.pubKey, Uvarint(|m'.pubKey|) + m'.pubKey;
    Assoc(p, Uvarint(|m.pubKey|), m.pubKey);
    Assoc(p', Uvarint(|m'.pubKey|), m'.pubKey);
    assert p[0] == (p + t)[0] && p'[0] == (p' + t')[0];
    assert p == p';
    DropPrefix(p, t);
    DropPrefix(p', t');
    PrefixFree(|m.pubKey|, m.pubKey, |m'.pubKey|, m'.pubKey);
  }

  /** Equal preimages come from the same threshold and the same ordered member keys. */
  lemma PreimageInjective(ms: MultisigSigner, ms': MultisigSigner)
    requires AddressPreimage(ms).Some? && AddressPreimage(ms) == AddressPreimage(ms')
    ensures ms.threshold == ms'.threshold && ms.members == ms'.members
  {
    var fs := [Varint(1, ms.threshold)] + MemberFields(ms.members);
    var fs' := [Varint(1, ms'.threshold)] + MemberFields(ms'.members);
    DropPrefix(MULTISIG_AMINO_PREFIX, WriteFields(fs));
    DropPrefix(MULTISIG_AMINO_PREFIX, WriteFields(fs'));
    ReadFieldsBack(fs);
    ReadFieldsBack(fs');
    assert fs == fs';
    assert fs[0] == fs'[0];
    DropPrefix([Varint(1, ms.threshold)], MemberFields(ms.members));
    DropPrefix([Varint(1, ms'.threshold)], MemberFields(ms'.members));
    var es, es' := MemberFields(ms.members), MemberFields(ms'.members);
    forall i | 0 <= i < |ms.members| ensures ms.members[i] == ms'.members[i] {
      assert es[i] == es'[i];
      EntryDeterminesMember(ms.members[i], ms'.members[i]);
    }
  }

  /** A member key as it stands in the preimage: its type's four bytes, its length, its bytes. */
  ghost predicate DescribesMember(entry: Bytes, m: MultisigMember) {
    && |entry| >= 4
    && ( || (m.pubKeyTypeURL == "/cosmos.crypto.secp256k1.PubKey" && entry[..4] == [0xEB, 0x5A, 0xE9, 0x87])
         || (m.pubKeyTypeURL == "/cosmos.crypto.ed25519.PubKey" && entry[..4] == [0x16, 0x24, 0xDE, 0x64]) )
    && ReadVarint(entry[4..]).Some?
    && var (size, n) := ReadVarint(entry[4..]).value;
    && size == |m.pubKey|
    && entry[4..][n..] == m.pubKey
  }

  lemma EntryDescribes(m: MultisigMember)
    requires HasAminoName(m)
    ensures DescribesMember(MemberEntry(m), m)
  {
    var p, size := AminoPrefix(m.pubKeyTypeURL).value, Uvarint(|m.pubKey|);
    Assoc(p, size, m.pubKey);
    DropPrefix(p, size + m.pubKey);
    assert MemberEntry(m)[..4] == p;
    ReadBack(|m.pubKey|, m.pubKey);
    DropPrefix(size, m.pubKey);
  }

  /** The registered prefix, then the threshold in field 1 and the member keys, in order, in field 2. */
  ghost predicate HoldsMembers(b: Bytes, ms: MultisigSigner) {
    && [0x22, 0xC1, 0xF7, 0xE2] <= b
    && HasTags(b[4..], [0x08] + seq(|ms.members|, _ => 0x12))
    && GetNumber(Records(b[4..]), 1) == ms.threshold
    && var entries := GetRepeated(Records(b[4..]), 2);
    && |entries| == |ms.members|
    && forall i | 0 <= i < |entries| :: DescribesMember(entries[i], ms.members[i])
  }

  lemma PreimageReadsBack(ms: MultisigSigner)
    requires AddressPreimage(ms).Some?
    ensures HoldsMembers(AddressPreimage(ms).value, ms)
  {
    hide WriteFields, ReadFields, DescribesMember;
    var es := MemberFields(ms.members);
    var fs := [Varint(1, ms.threshold)] + es;
    DropPrefix(MULTISIG_AMINO_PREFIX, WriteFields(fs));
    ReadFieldsBack(fs);
    assert TagsOf(fs) == [0x08] + seq(|ms.members|, _ => 0x12);
    KeysReadBack(ms.threshold, ms.members);
    forall i | 0 <= i < |ms.members| ensures DescribesMember(MemberEntry(ms.members[i]), ms.members[i]) {
      EntryDescribes(ms.members[i]);
    }
  }

  lemma {:induction false} KeysReadBack(threshold: nat, members: seq<MultisigMember>)
    requires forall m | m in members :: HasAminoName(m)
    ensures var fs := [Varint(1, threshold)] + MemberFields(members);
            && GetNumber(fs, 1) == threshold
            && |GetRepeated(fs, 2)| == |members|
            && forall i | 0 <= i < |members| :: GetRepeated(fs, 2)[i] == MemberEntry(members[i])
  {
    hide MemberEntry;
    var fs := [Varint(1, threshold)] + MemberFields(members);
    if members != [] {
      var n := |members| - 1;
      KeysReadBack(threshold, members[..n]);
      assert fs[..|fs| - 1] == [Varint(1, threshold)] + MemberFields(members[..n]);
    }
  }
}
