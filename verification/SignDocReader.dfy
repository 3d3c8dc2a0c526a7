/**
 A wire reader for DIRECT sign bytes and the theorems it yields: the bytes determine every signed field,
 and every message of the document follows the proto3 emission rules.
 */
module SignDocReader {
  import opened Basics
  import opened Utf8
  import opened Protowire
  import opened Messages
  import opened Decimal
  import opened Gentx
  import opened SignDocTables

  // ---------------------------------------------------------------- reader

  function ReadText(fs: seq<Field>, n: nat): Option<string> {
    FromUtf8(GetBytes(fs, n))
  }

  function ReadNatural(fs: seq<Field>, n: nat): Option<nat> {
    var s :- ReadText(fs, n);
    if IsDigits(s) then Some(NatOf(s)) else None
  }

  function ReadAny(b: Bytes): Option<(string, Bytes)> {
    var fs :- ReadFields(b);
    var typeURL :- ReadText(fs, 1);
    Some((typeURL, GetBytes(fs, 2)))
  }

  /** A PubKey message inside an Any: its type and its key. */
  function ReadKey(b: Bytes): Option<(string, Bytes)> {
    var (typeURL, value) :- ReadAny(b);
    var fs :- ReadFields(value);
    Some((typeURL, GetBytes(fs, 1)))
  }

  function ReadCoin(b: Bytes): Option<Coin> {
    var fs :- ReadFields(b);
    var denom :- ReadText(fs, 1);
    var amount :- ReadText(fs, 2);
    Some(Coin(denom, amount))
  }

  function ReadCoins(payloads: seq<Bytes>): Option<seq<Coin>> {
    if payloads == [] then
      Some([])
    else
      var c :- ReadCoin(payloads[0]);
      var cs :- ReadCoins(payloads[1..]);
      Some([c] + cs)
  }

  function ReadRates(b: Bytes): Option<SignedRates> {
    var fs :- ReadFields(b);
    var rate :- ReadNatural(fs, 1);
    var maxRate :- ReadNatural(fs, 2);
    var maxChangeRate :- ReadNatural(fs, 3);
    Some(SignedRates(rate, maxRate, maxChangeRate))
  }

  function ReadDescription(b: Bytes): Option<Description> {
    var fs :- ReadFields(b);
    var moniker :- ReadText(fs, 1);
    var identity :- ReadText(fs, 2);
    var website :- ReadText(fs, 3);
    var securityContact :- ReadText(fs, 4);
    var details :- ReadText(fs, 5);
    Some(Description(moniker, identity, website, securityContact, details))
  }

  function ReadMsg(b: Bytes): Option<SignedMsg> {
    var fs :- ReadFields(b);
    var description :- ReadDescription(GetBytes(fs, 1));
    var commission :- ReadRates(GetBytes(fs, 2));
    var minSelfDelegation :- ReadText(fs, 3);
    var delegatorAddress :- ReadText(fs, 4);
    var validatorAddress :- ReadText(fs, 5);
    var (keyType, key) :- ReadKey(GetBytes(fs, 6));
    var value :- ReadCoin(GetBytes(fs, 7));
    Some(SignedMsg(description, commission, minSelfDelegation, delegatorAddress, validatorAddress, keyType, key, value))
  }

  function ReadSigner(b: Bytes): Option<SignedSigner> {
    var fs :- ReadFields(b);
    var (keyType, key) :- ReadKey(GetBytes(fs, 1));
    var modeInfo :- ReadFields(GetBytes(fs, 2));
    var single :- ReadFields(GetBytes(modeInfo, 1));
    Some(SignedSigner(keyType, key, GetNumber(single, 1), GetNumber(fs, 3)))
  }

  function ReadFee(b: Bytes): Option<SignedFee> {
    var fs :- ReadFields(b);
    var amount :- ReadCoins(GetRepeated(fs, 1));
    var payer :- ReadText(fs, 3);
    var granter :- ReadText(fs, 4);
    Some(SignedFee(amount, GetNumber(fs, 2), payer, granter))
  }

  function ReadSignDoc(b: Bytes): Option<SignedTx> {
    var doc :- ReadFields(b);
    var body :- ReadFields(GetBytes(doc, 1));
    var authInfo :- ReadFields(GetBytes(doc, 2));
    var (msgTypeURL, msgBytes) :- ReadAny(GetBytes(body, 1));
    var msg :- ReadMsg(msgBytes);
    var memo :- ReadText(body, 2);
    var signer :- ReadSigner(GetBytes(authInfo, 1));
    var fee :- ReadFee(GetBytes(authInfo, 2));
    var chainID :- ReadText(doc, 3);
    Some(SignedTx(msgTypeURL, msg, memo, GetNumber(body, 3), signer, fee, chainID, GetNumber(doc, 4)))
  }

  // ---------------------------------------------------------------- the reader undoes the encoders

  /** Slot `i` alone carries its field number. */
  ghost predicate OwnNumber(slots: seq<Slot>, i: nat)
    requires i < |slots|
  {
    forall j | 0 <= j < |slots| && j != i :: slots[j].field.num != slots[i].field.num
  }

  lemma TextReadsBack(slots: seq<Slot>, i: nat, s: string)
    requires i < |slots| && OwnNumber(slots, i)
    requires slots[i].field.Len? && slots[i].field.payload == ToUtf8(s)
    ensures ReadText(Emit(slots), slots[i].field.num) == Some(s)
  {
    SlotReadsBack(slots, i);
    RoundTrip(s);
  }

  lemma NaturalReadsBack(slots: seq<Slot>, i: nat, n: nat)
    requires i < |slots| && OwnNumber(slots, i)
    requires slots[i].field.Len? && slots[i].field.payload == ToUtf8(Numeral(n))
    ensures ReadNatural(Emit(slots), slots[i].field.num) == Some(n)
  {
    TextReadsBack(slots, i, Numeral(n));
    NumeralValue(n);
  }

  lemma AnyReadsBack(typeURL: string, value: Bytes)
    ensures ReadAny(AnyBytes(typeURL, value)) == Some((typeURL, value))
  {
    hide Emit, ToUtf8, FromUtf8, ReadFields, WriteFields, GetBytes;
    var m := AnySlots(typeURL, value);
    ReadFieldsBack(Emit(m));
    TextReadsBack(m, 0, typeURL);
    SlotReadsBack(m, 1);
  }

  lemma KeyReadsBack(typeURL: string, key: Bytes)
    ensures ReadKey(AnyBytes(typeURL, WriteMessage(KeySlots(key)))) == Some((typeURL, key))
  {
    hide Emit, ToUtf8, FromUtf8, ReadFields, WriteFields, GetBytes, ReadAny, AnyBytes;
    AnyReadsBack(typeURL, WriteMessage(KeySlots(key)));
    ReadFieldsBack(Emit(KeySlots(key)));
    SlotReadsBack(KeySlots(key), 0);
  }

  lemma CoinReadsBack(c: Coin)
    ensures ReadCoin(CoinBytes(c)) == Some(c)
  {
    hide Emit, ToUtf8, FromUtf8, ReadFields, WriteFields, GetBytes;
    var m := CoinSlots(c);
    ReadFieldsBack(Emit(m));
    TextReadsBack(m, 0, c.denom);
    TextReadsBack(m, 1, c.amount);
  }

  lemma {:induction false} CoinsReadBack(coins: seq<Coin>)
    ensures ReadCoins(CoinPayloads(coins)) == Some(coins)
  {
    hide ReadCoin, CoinBytes;
    if coins != [] {
      CoinReadsBack(coins[0]);
      CoinsReadBack(coins[1..]);
      assert CoinPayloads(coins)[1..] == CoinPayloads(coins[1..]);
      assert [coins[0]] + coins[1..] == coins;
    }
  }

  lemma RatesReadBack(c: SignedRates)
    ensures ReadRates(WriteMessage(RatesSlots(c))) == Some(c)
  {
    hide Emit, ToUtf8, ReadText, ReadNatural, Numeral, ReadFields, WriteFields;
    var m := RatesSlots(c);
    ReadFieldsBack(Emit(m));
    NaturalReadsBack(m, 0, c.rate);
    NaturalReadsBack(m, 1, c.maxRate);
    NaturalReadsBack(m, 2, c.maxChangeRate);
  }

  lemma DescriptionReadsBack(d: Description)
    ensures ReadDescription(WriteMessage(DescriptionSlots(d))) == Some(d)
  {
    hide Emit, ToUtf8, ReadText, ReadFields, WriteFields;
    var m := DescriptionSlots(d);
    ReadFieldsBack(Emit(m));
    TextReadsBack(m, 0, d.moniker);
    TextReadsBack(m, 1, d.identity);
    TextReadsBack(m, 2, d.website);
    TextReadsBack(m, 3, d.securityContact);
    TextReadsBack(m, 4, d.details);
  }

  lemma MsgReadsBack(msg: SignedMsg)
    ensures ReadMsg(WriteMessage(MsgSlots(msg))) == Some(msg)
  {
    hide Emit, ToUtf8, ReadText, ReadFields, WriteFields, GetBytes;
    hide ReadDescription, ReadRates, ReadKey, ReadCoin, DescriptionSlots, RatesSlots, KeySlots, AnyBytes, CoinBytes;
    var m := MsgSlots(msg);
    ReadFieldsBack(Emit(m));
    SlotReadsBack(m, 0);
    DescriptionReadsBack(msg.description);
    SlotReadsBack(m, 1);
    RatesReadBack(msg.commission);
    TextReadsBack(m, 2, msg.minSelfDelegation);
    TextReadsBack(m, 3, msg.delegatorAddress);
    TextReadsBack(m, 4, msg.validatorAddress);
    SlotReadsBack(m, 5);
    KeyReadsBack(msg.consensusPubKeyTypeURL, msg.consensusPubKey);
    SlotReadsBack(m, 6);
    CoinReadsBack(msg.value);
  }

  lemma SignerReadsBack(s: SignedSigner)
    ensures ReadSigner(WriteMessage(SignerSlots(s))) == Some(s)
  {
    hide Emit, ToUtf8, ReadFields, WriteFields, GetBytes, GetNumber, ReadKey, KeySlots, AnyBytes;
    var m := SignerSlots(s);
    ReadFieldsBack(Emit(m));
    SlotReadsBack(m, 0);
    KeyReadsBack(s.pubKeyTypeURL, s.pubKey);
    SlotReadsBack(m, 1);
    ReadFieldsBack(Emit(ModeInfoSlots(s.mode)));
    SlotReadsBack(ModeInfoSlots(s.mode), 0);
    ReadFieldsBack(Emit(SingleSlots(s.mode)));
    SlotReadsBack(SingleSlots(s.mode), 0);
    SlotReadsBack(m, 2);
  }

  lemma FeeReadsBack(f: SignedFee)
    ensures ReadFee(WriteMessage(FeeSlots(f))) == Some(f)
  {
    hide Emit, ToUtf8, ReadText, ReadFields, WriteFields, GetNumber, GetRepeated, ReadCoins, CoinPayloads;
    var m := FeeSlots(f);
    var n := |RepeatedSlots(1, CoinPayloads(f.amount))|;
    assert m[n] == Number(2, f.gasLimit) && m[n + 1] == Text(3, f.payer) && m[n + 2] == Text(4, f.granter);
    ReadFieldsBack(Emit(m));
    RepeatedReadsBack(1, CoinPayloads(f.amount), FeeTail(f));
    CoinsReadBack(f.amount);
    SlotReadsBack(m, n);
    TextReadsBack(m, n + 1, f.payer);
    TextReadsBack(m, n + 2, f.granter);
  }

  /** The reader recovers the whole signed document from its bytes. */
  lemma SignDocReadsBack(t: SignedTx)
    ensures ReadSignDoc(SignDocBytes(t)) == Some(t)
  {
    hide Emit, ToUtf8, ReadText, ReadFields, WriteFields, GetBytes, GetNumber, AnyBytes;
    hide ReadAny, ReadMsg, ReadSigner, ReadFee, MsgSlots, SignerSlots, FeeSlots;
    var m, body, authInfo := SignDocSlots(t), BodySlots(t.msgTypeURL, t.msg, t.memo, t.timeoutHeight), AuthInfoSlots(t.signer, t.fee);
    ReadFieldsBack(Emit(m));
    SlotReadsBack(m, 0);
    SlotReadsBack(m, 1);
    TextReadsBack(m, 2, t.chainID);
    SlotReadsBack(m, 3);
    ReadFieldsBack(Emit(body));
    SlotReadsBack(body, 0);
    TextReadsBack(body, 1, t.memo);
    SlotReadsBack(body, 2);
    AnyReadsBack(t.msgTypeURL, WriteMessage(MsgSlots(t.msg)));
    MsgReadsBack(t.msg);
    ReadFieldsBack(Emit(authInfo));
    SlotReadsBack(authInfo, 0);
    SlotReadsBack(authInfo, 1);
    SignerReadsBack(t.signer);
    FeeReadsBack(t.fee);
  }

  // ---------------------------------------------------------------- main theorems

  /** What two gentxs signed for a chain and account number have in common when their DIRECT sign bytes agree. */
  ghost predicate SameSignedFields(g: ParsedGentx, chainID: string, accountNumber: uint64,
                                   h: ParsedGentx, chainID': string, accountNumber': uint64)
    requires Encodable(g) && Encodable(h)
  {
    && chainID == chainID'
    && accountNumber == accountNumber'
    && g.memo == h.memo
    && g.timeoutHeight == h.timeoutHeight
    && g.signer.pubKeyTypeURL == h.signer.pubKeyTypeURL
    && g.signer.pubKey == h.signer.pubKey
    && g.signer.sequence == h.signer.sequence
    && g.fee == h.fee
    && g.msg.description == h.msg.description
    && RationalValue(g.msg.commission.rate) == RationalValue(h.msg.commission.rate)
    && RationalValue(g.msg.commission.maxRate) == RationalValue(h.msg.commission.maxRate)
    && RationalValue(g.msg.commission.maxChangeRate) == RationalValue(h.msg.commission.maxChangeRate)
    && g.msg.minSelfDelegation == h.msg.minSelfDelegation
    && g.msg.delegatorAddress == h.msg.delegatorAddress
    && g.msg.validatorAddress == h.msg.validatorAddress
    && g.msg.consensusPubKeyTypeURL == h.msg.consensusPubKeyTypeURL
    && g.msg.consensusPubKey == h.msg.consensusPubKey
    && g.msg.value == h.msg.value
  }

  /** DIRECT sign bytes agree exactly when every signed field does, the commission rates by value. */
  lemma DirectBytesDetermineFields(g: ParsedGentx, chainID: string, accountNumber: uint64,
                                   h: ParsedGentx, chainID': string, accountNumber': uint64)
    requires Encodable(g) && Encodable(h)
    ensures DirectWire(g, chainID, accountNumber).Some? && DirectWire(h, chainID', accountNumber').Some?
    ensures DirectWire(g, chainID, accountNumber) == DirectWire(h, chainID', accountNumber') <==>
            SameSignedFields(g, chainID, accountNumber, h, chainID', accountNumber')
  {
    hide SignDocBytes, ReadSignDoc, IsDecimalByCut, RationalValue, ScaledValue, ValidFee;
    var t, u := TxView(g, chainID, accountNumber), TxView(h, chainID', accountNumber');
    SignDocReadsBack(t);
    SignDocReadsBack(u);
    assert SignDocBytes(t) == SignDocBytes(u) <==> t == u;
    SameValue(g.msg.commission.rate, h.msg.commission.rate);
    SameValue(g.msg.commission.maxRate, h.msg.commission.maxRate);
    SameValue(g.msg.commission.maxChangeRate, h.msg.commission.maxChangeRate);
  }

  lemma SameValue(s: string, t: string)
    requires IsDecimalByCut(s) && IsDecimalByCut(t)
    ensures ScaledValue(s) == ScaledValue(t) <==> RationalValue(s) == RationalValue(t)
  {
    ScalingIsExact(s);
    ScalingIsExact(t);
    ScaleCancels(RationalValue(s), RationalValue(t));
  }

  lemma ScaleCancels(x: real, y: real)
    ensures x * DEC_ONE as real == y * DEC_ONE as real <==> x == y
  {
  }

  /** The messages of one document, each with the fields that must be present and those that may recur. */
  ghost predicate DocumentRules(t: SignedTx) {
    && MessageRules(SignDocBytes(t), {1, 2}, {})
    && MessageRules(WriteMessage(BodySlots(t.msgTypeURL, t.msg, t.memo, t.timeoutHeight)), {1}, {})
    && MessageRules(AnyBytes(t.msgTypeURL, WriteMessage(MsgSlots(t.msg))), {}, {})
    && MessageRules(WriteMessage(MsgSlots(t.msg)), {1, 2, 3, 6, 7}, {})
    && MessageRules(WriteMessage(DescriptionSlots(t.msg.description)), {}, {})
    && MessageRules(WriteMessage(RatesSlots(t.msg.commission)), {1, 2, 3}, {})
    && MessageRules(AnyBytes(t.msg.consensusPubKeyTypeURL, WriteMessage(KeySlots(t.msg.consensusPubKey))), {}, {})
    && MessageRules(WriteMessage(KeySlots(t.msg.consensusPubKey)), {1}, {})
    && MessageRules(CoinBytes(t.msg.value), {2}, {})
    && MessageRules(WriteMessage(AuthInfoSlots(t.signer, t.fee)), {1, 2}, {})
    && MessageRules(WriteMessage(SignerSlots(t.signer)), {1, 2}, {})
    && MessageRules(AnyBytes(t.signer.pubKeyTypeURL, WriteMessage(KeySlots(t.signer.pubKey))), {}, {})
    && MessageRules(WriteMessage(KeySlots(t.signer.pubKey)), {1}, {})
    && MessageRules(WriteMessage(ModeInfoSlots(t.signer.mode)), {1}, {})
    && MessageRules(WriteMessage(SingleSlots(t.signer.mode)), {1}, {})
    && MessageRules(WriteMessage(FeeSlots(t.fee)), {}, {1})
    && (forall c | c in t.fee.amount :: MessageRules(CoinBytes(c), {2}, {}))
  }

  /** Every message of the document is written in field order, defaults omitted, required fields exactly once. */
  lemma DocumentFollowsRules(t: SignedTx)
    ensures DocumentRules(t)
  {
    hide ToUtf8, WriteMessage, MessageRules, AnyBytes, CoinBytes;
    OuterRules(t);
    AnyRules(t.msgTypeURL, WriteMessage(MsgSlots(t.msg)));
    MsgRules(t.msg);
    DescriptionRules(t.msg.description);
    RatesRules(t.msg.commission);
    KeyRules(t.msg.consensusPubKey);
    KeyRules(t.signer.pubKey);
    AnyRules(t.msg.consensusPubKeyTypeURL, WriteMessage(KeySlots(t.msg.consensusPubKey)));
    SignerRules(t.signer);
    AnyRules(t.signer.pubKeyTypeURL, WriteMessage(KeySlots(t.signer.pubKey)));
    FeeRules(t.fee);
    CoinRules(t.msg.value);
    forall c | c in t.fee.amount ensures MessageRules(CoinBytes(c), {2}, {}) {
      CoinRules(c);
    }
  }

  lemma OuterRules(t: SignedTx)
    ensures MessageRules(SignDocBytes(t), {1, 2}, {})
    ensures MessageRules(WriteMessage(BodySlots(t.msgTypeURL, t.msg, t.memo, t.timeoutHeight)), {1}, {})
    ensures MessageRules(WriteMessage(AuthInfoSlots(t.signer, t.fee)), {1, 2}, {})
  {
    hide ToUtf8, WriteMessage, MessageRules, MsgSlots, SignerSlots, FeeSlots, AnyBytes, TableRules;
    var one, two := map[1 := 0], map[1 := 0, 2 := 1];
    assert one.Keys == {1} && two.Keys == {1, 2};
    TwoRequired(SignDocSlots(t));
    WrittenByRules(SignDocSlots(t), two, {});
    OneRequired(BodySlots(t.msgTypeURL, t.msg, t.memo, t.timeoutHeight));
    WrittenByRules(BodySlots(t.msgTypeURL, t.msg, t.memo, t.timeoutHeight), one, {});
    TwoRequired(AuthInfoSlots(t.signer, t.fee));
    WrittenByRules(AuthInfoSlots(t.signer, t.fee), two, {});
  }

  /** Tables whose first field alone is required. */
  lemma OneRequired(slots: seq<Slot>)
    requires slots != [] && slots[0].always && slots[0].field.num == 1
    requires forall i | 0 < i < |slots| :: slots[i - 1].field.num < slots[i].field.num && !slots[i].always
    ensures TableRules(slots, map[1 := 0], {})
  {
    Increasing(slots);
  }

  /** Tables whose first two fields alone are required. */
  lemma TwoRequired(slots: seq<Slot>)
    requires |slots| >= 2 && slots[0].always && slots[0].field.num == 1 && slots[1].always && slots[1].field.num == 2
    requires forall i | 1 < i < |slots| :: slots[i - 1].field.num < slots[i].field.num && !slots[i].always
    ensures TableRules(slots, map[1 := 0, 2 := 1], {})
  {
    Increasing(slots);
  }

  lemma MsgRules(m: SignedMsg)
    ensures MessageRules(WriteMessage(MsgSlots(m)), {1, 2, 3, 6, 7}, {})
  {
    hide ToUtf8, WriteMessage, MessageRules, Numeral;
    var slots, at := MsgSlots(m), map[1 := 0, 2 := 1, 3 := 2, 6 := 5, 7 := 6];
    assert at.Keys == {1, 2, 3, 6, 7};
    Increasing(slots);
    WrittenByRules(slots, at, {});
  }

  /** Neighbouring numbers suffice. */
  lemma {:induction false} Increasing(slots: seq<Slot>)
    requires forall i | 0 < i < |slots| :: slots[i - 1].field.num < slots[i].field.num
    ensures forall i, j | 0 <= i < j < |slots| :: slots[i].field.num < slots[j].field.num
  {
    if slots != [] {
      var k := |slots| - 1;
      Increasing(slots[..k]);
      forall i, j | 0 <= i < j < |slots| ensures slots[i].field.num < slots[j].field.num {
        assert slots[i] == slots[..k][i];
        assert j < k ==> slots[j] == slots[..k][j];
        assert j == k && i < k - 1 ==> slots[..k][i].field.num < slots[..k][k - 1].field.num;
      }
    }
  }

  lemma DescriptionRules(d: Description)
    ensures MessageRules(WriteMessage(DescriptionSlots(d)), {}, {})
  {
    hide ToUtf8, WriteMessage, MessageRules;
    NothingRequired(DescriptionSlots(d), {});
  }

  lemma RatesRules(c: SignedRates)
    ensures MessageRules(WriteMessage(RatesSlots(c)), {1, 2, 3}, {})
  {
    hide ToUtf8, WriteMessage, MessageRules, Numeral;
    assert map[1 := 0, 2 := 1, 3 := 2].Keys == {1, 2, 3};
    WrittenByRules(RatesSlots(c), map[1 := 0, 2 := 1, 3 := 2], {});
  }

  lemma KeyRules(key: Bytes)
    ensures MessageRules(WriteMessage(KeySlots(key)), {1}, {})
  {
    hide WriteMessage, MessageRules;
    assert map[1 := 0].Keys == {1};
    WrittenByRules(KeySlots(key), map[1 := 0], {});
  }

  lemma SignerRules(s: SignedSigner)
    ensures MessageRules(WriteMessage(SignerSlots(s)), {1, 2}, {})
    ensures MessageRules(WriteMessage(ModeInfoSlots(s.mode)), {1}, {})
    ensures MessageRules(WriteMessage(SingleSlots(s.mode)), {1}, {})
  {
    hide ToUtf8, WriteMessage, MessageRules;
    assert map[1 := 0, 2 := 1].Keys == {1, 2} && map[1 := 0].Keys == {1};
    WrittenByRules(SignerSlots(s), map[1 := 0, 2 := 1], {});
    WrittenByRules(ModeInfoSlots(s.mode), map[1 := 0], {});
    WrittenByRules(SingleSlots(s.mode), map[1 := 0], {});
  }

  lemma FeeRules(f: SignedFee)
    ensures MessageRules(WriteMessage(FeeSlots(f)), {}, {1})
  {
    hide ToUtf8, WriteMessage, MessageRules;
    NothingRequired(FeeSlots(f), {1});
  }

  lemma AnyRules(typeURL: string, value: Bytes)
    ensures MessageRules(AnyBytes(typeURL, value), {}, {})
  {
    hide ToUtf8, WriteMessage, MessageRules;
    NothingRequired(AnySlots(typeURL, value), {});
  }

  lemma CoinRules(c: Coin)
    ensures MessageRules(CoinBytes(c), {2}, {})
  {
    hide ToUtf8, WriteMessage, MessageRules;
    assert map[2 := 1].Keys == {2};
    WrittenByRules(CoinSlots(c), map[2 := 1], {});
  }

  lemma NothingRequired(slots: seq<Slot>, repeated: set<nat>)
    requires TableRules(slots, map[], repeated)
    ensures MessageRules(WriteMessage(slots), {}, repeated)
  {
    var none: map<nat, nat> := map[];
    assert none.Keys == {};
    WrittenByRules(slots, none, repeated);
  }
}
