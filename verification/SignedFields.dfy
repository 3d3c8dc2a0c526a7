/**
 Where every field of a gentx stands in its DIRECT sign bytes, record by record: the tags present, in order, and
 what a wire reader finds under each field number of the cosmos proto definitions. A tag is the field number times
 eight plus the wire type.
 */
module SignedFields {
  import opened Basics
  import opened Utf8
  import opened Protowire
  import opened Messages
  import opened Decimal
  import opened Gentx
  import opened SignDocTables

  // ---------------------------------------------------------------- what each message holds

  ghost predicate HoldsText(b: Bytes, n: nat, s: string) {
    Payload(b, n) == ToUtf8(s)
  }

  /** Any{ type_url=1, value=2 } around a key message with field 1. */
  ghost predicate HoldsKey(b: Bytes, typeURL: string, key: Bytes) {
    && HasTags(b, When(typeURL != "", 0x0A) + [0x12])
    && HoldsText(b, 1, typeURL)
    && HasTags(Payload(b, 2), [0x0A])
    && Payload(Payload(b, 2), 1) == key
  }

  /** Coin{ denom=1, amount=2 } */
  ghost predicate HoldsCoin(b: Bytes, c: Coin) {
    && HasTags(b, When(c.denom != "", 0x0A) + [0x12])
    && HoldsText(b, 1, c.denom)
    && HoldsText(b, 2, c.amount)
  }

  /** A digit string without leading zeros whose value is 10^18 times the decimal `s`. */
  ghost predicate HoldsRate(b: Bytes, n: nat, s: string) {
    && FromUtf8(Payload(b, n)).Some?
    && var text := FromUtf8(Payload(b, n)).value;
    && IsDigits(text) && (text == "0" || text[0] != '0')
    && IsDecimalByCut(s)
    && NatOf(text) as real == RationalValue(s) * 1_000_000_000_000_000_000.0
  }

  /** CommissionRates{ rate=1, max_rate=2, max_change_rate=3 } */
  ghost predicate HoldsRates(b: Bytes, c: CommissionRates) {
    && HasTags(b, [0x0A, 0x12, 0x1A])
    && HoldsRate(b, 1, c.rate)
    && HoldsRate(b, 2, c.maxRate)
    && HoldsRate(b, 3, c.maxChangeRate)
  }

  /** Description{ moniker=1, identity=2, website=3, security_contact=4, details=5 } */
  ghost predicate HoldsDescription(b: Bytes, d: Description) {
    && HasTags(b, When(d.moniker != "", 0x0A) + When(d.identity != "", 0x12) + When(d.website != "", 0x1A)
                  + When(d.securityContact != "", 0x22) + When(d.details != "", 0x2A))
    && HoldsText(b, 1, d.moniker)
    && HoldsText(b, 2, d.identity)
    && HoldsText(b, 3, d.website)
    && HoldsText(b, 4, d.securityContact)
    && HoldsText(b, 5, d.details)
  }

  /** MsgCreateValidator, fields 1 to 7. */
  ghost predicate HoldsMsg(b: Bytes, m: MsgCreateValidator) {
    && HasTags(b, [0x0A, 0x12, 0x1A] + When(m.delegatorAddress != "", 0x22) + When(m.validatorAddress != "", 0x2A)
                  + [0x32, 0x3A])
    && HoldsDescription(Payload(b, 1), m.description)
    && HoldsRates(Payload(b, 2), m.commission)
    && HoldsText(b, 3, m.minSelfDelegation)
    && HoldsText(b, 4, m.delegatorAddress)
    && HoldsText(b, 5, m.validatorAddress)
    && HoldsKey(Payload(b, 6), m.consensusPubKeyTypeURL, m.consensusPubKey)
    && HoldsCoin(Payload(b, 7), m.value)
  }

  /** TxBody{ messages=1, memo=2, timeout_height=3 } with the one message in an Any. */
  ghost predicate HoldsBody(b: Bytes, g: ParsedGentx) {
    && HasTags(b, [0x0A] + When(g.memo != "", 0x12) + When(g.timeoutHeight != 0, 0x18))
    && HasTags(Payload(b, 1), [0x0A, 0x12])
    && FromUtf8(Payload(Payload(b, 1), 1)) == Some("/cosmos.staking.v1beta1.MsgCreateValidator")
    && HoldsMsg(Payload(Payload(b, 1), 2), g.msg)
    && HoldsText(b, 2, g.memo)
    && GetNumber(Records(b), 3) == g.timeoutHeight
  }

  /** SignerInfo{ public_key=1, mode_info=2, sequence=3 } with ModeInfo{ single=1 } and Single{ mode=1 }. */
  ghost predicate HoldsSigner(b: Bytes, s: SignerInfo) {
    && HasTags(b, [0x0A, 0x12] + When(s.sequence != 0, 0x18))
    && HoldsKey(Payload(b, 1), s.pubKeyTypeURL, s.pubKey)
    && HasTags(Payload(b, 2), [0x0A])
    && HasTags(Payload(Payload(b, 2), 1), [0x08])
    && GetNumber(Records(Payload(Payload(b, 2), 1)), 1) == 1
    && GetNumber(Records(b), 3) == s.sequence
  }

  /** Fee{ amount=1 repeated, gas_limit=2, payer=3, granter=4 } */
  ghost predicate HoldsFee(b: Bytes, f: Fee) {
    && HasTags(b, seq(|f.amount|, _ => 0x0A) + When(f.gasLimit != 0, 0x10) + When(f.payer != "", 0x1A)
                  + When(f.granter != "", 0x22))
    && var coins := GetRepeated(Records(b), 1);
    && |coins| == |f.amount|
    && (forall i | 0 <= i < |coins| :: HoldsCoin(coins[i], f.amount[i]))
    && GetNumber(Records(b), 2) == f.gasLimit
    && HoldsText(b, 3, f.payer)
    && HoldsText(b, 4, f.granter)
  }

  /** AuthInfo{ signer_infos=1, fee=2 } */
  ghost predicate HoldsAuthInfo(b: Bytes, g: ParsedGentx) {
    && HasTags(b, [0x0A, 0x12])
    && HoldsSigner(Payload(b, 1), g.signer)
    && HoldsFee(Payload(b, 2), g.fee)
  }

  /** SignDoc{ body_bytes=1, auth_info_bytes=2, chain_id=3, account_number=4 } */
  ghost predicate HoldsGentx(b: Bytes, g: ParsedGentx, chainID: string, accountNumber: uint64) {
    && HasTags(b, [0x0A, 0x12] + When(chainID != "", 0x1A) + When(accountNumber != 0, 0x20))
    && HoldsBody(Payload(b, 1), g)
    && HoldsAuthInfo(Payload(b, 2), g)
    && HoldsText(b, 3, chainID)
    && GetNumber(Records(b), 4) == accountNumber
  }

  // ---------------------------------------------------------------- every message holds its fields

  lemma KeyHeld(typeURL: string, key: Bytes)
    ensures HoldsKey(AnyBytes(typeURL, WriteMessage(KeySlots(key))), typeURL, key)
  {
    hide WriteMessage, HasTags, Payload, ToUtf8;
    var inner := KeySlots(key);
    TableTags(inner);
    assert TagsUpTo(inner, 0) == [] && TagsUpTo(inner, 1) == [0x0A];
    SlotFound(inner, 0);
    KeyNotEmpty(key);
    AnyHeld(typeURL, WriteMessage(inner));
  }

  lemma KeyNotEmpty(key: Bytes)
    ensures WriteMessage(KeySlots(key)) != []
  {
    assert Written(KeySlots(key), 0) == [];
    WrittenAll(KeySlots(key));
  }

  lemma AnyHeld(typeURL: string, value: Bytes)
    ensures HasTags(AnyBytes(typeURL, value), When(typeURL != "", 0x0A) + When(value != [], 0x12))
    ensures HoldsText(AnyBytes(typeURL, value), 1, typeURL) && Payload(AnyBytes(typeURL, value), 2) == value
  {
    hide WriteMessage, HasTags, Payload, ToUtf8;
    var m := AnySlots(typeURL, value);
    TableTags(m);
    assert TagsUpTo(m, 1) == When(typeURL != "", 0x0A);
    SlotFound(m, 0);
    SlotFound(m, 1);
  }

  lemma CoinHeld(c: Coin)
    requires IsDigits(c.amount)
    ensures HoldsCoin(CoinBytes(c), c)
  {
    hide WriteMessage, HasTags, Payload, ToUtf8;
    var m := CoinSlots(c);
    TableTags(m);
    assert TagsUpTo(m, 1) == When(c.denom != "", 0x0A);
    SlotFound(m, 0);
    SlotFound(m, 1);
  }

  lemma RateHeld(b: Bytes, n: nat, s: string)
    requires IsDecimalByCut(s) && Payload(b, n) == ToUtf8(Numeral(ScaledValue(s)))
    ensures HoldsRate(b, n, s)
  {
    hide ScaledValue, RationalValue, IsDecimalByCut, Payload, ToUtf8, FromUtf8, Numeral, NatOf;
    var text := Numeral(ScaledValue(s));
    RoundTrip(text);
    NumeralValue(ScaledValue(s));
    NumeralUnique(text);
    ScalingIsExact(s);
  }

  lemma RatesHeld(c: CommissionRates)
    requires ValidRates(c)
    ensures HoldsRates(WriteMessage(RatesSlots(RatesView(c))), c)
  {
    hide WriteMessage, HasTags, Payload, ToUtf8, HoldsRate, IsDecimalByCut, ScaledValue, Numeral;
    var m := RatesSlots(RatesView(c));
    var b := WriteMessage(m);
    TableTags(m);
    assert TagsUpTo(m, 1) == [0x0A] && TagsUpTo(m, 2) == [0x0A, 0x12] && TagsUpTo(m, 3) == [0x0A, 0x12, 0x1A];
    SlotFound(m, 0);
    SlotFound(m, 1);
    SlotFound(m, 2);
    RateHeld(b, 1, c.rate);
    RateHeld(b, 2, c.maxRate);
    RateHeld(b, 3, c.maxChangeRate);
  }

  lemma DescriptionHeld(d: Description)
    ensures HoldsDescription(WriteMessage(DescriptionSlots(d)), d)
  {
    hide WriteMessage, HasTags, Payload, ToUtf8, When;
    var m := DescriptionSlots(d);
    DescriptionTags(d);
    SlotFound(m, 0);
    SlotFound(m, 1);
    SlotFound(m, 2);
    SlotFound(m, 3);
    SlotFound(m, 4);
  }

  lemma DescriptionTags(d: Description)
    ensures HasTags(WriteMessage(DescriptionSlots(d)),
                    When(d.moniker != "", 0x0A) + When(d.identity != "", 0x12) + When(d.website != "", 0x1A)
                    + When(d.securityContact != "", 0x22) + When(d.details != "", 0x2A))
  {
    hide WriteMessage, HasTags, ToUtf8, When;
    var m := DescriptionSlots(d);
    TableTags(m);
    assert TagsUpTo(m, 1) == When(d.moniker != "", 0x0A);
    assert TagsUpTo(m, 2) == TagsUpTo(m, 1) + When(d.identity != "", 0x12);
    assert TagsUpTo(m, 3) == TagsUpTo(m, 2) + When(d.website != "", 0x1A);
    assert TagsUpTo(m, 4) == TagsUpTo(m, 3) + When(d.securityContact != "", 0x22);
  }

  lemma MsgHeld(m: MsgCreateValidator)
    requires ValidMsg(m)
    ensures HoldsMsg(WriteMessage(MsgSlots(MsgView(m))), m)
  {
    hide WriteMessage, HasTags, Payload, ToUtf8, HoldsRates, HoldsDescription, HoldsKey, HoldsCoin;
    hide RatesSlots, DescriptionSlots, KeySlots, CoinBytes, AnyBytes, RatesView, ValidRates;
    var t := MsgSlots(MsgView(m));
    MsgTags(m);
    SlotFound(t, 0);
    SlotFound(t, 1);
    SlotFound(t, 2);
    SlotFound(t, 3);
    SlotFound(t, 4);
    SlotFound(t, 5);
    SlotFound(t, 6);
    DescriptionHeld(m.description);
    RatesHeld(m.commission);
    KeyHeld(m.consensusPubKeyTypeURL, m.consensusPubKey);
    CoinHeld(m.value);
  }

  lemma MsgTags(m: MsgCreateValidator)
    requires ValidMsg(m)
    ensures HasTags(WriteMessage(MsgSlots(MsgView(m))),
                    [0x0A, 0x12, 0x1A] + When(m.delegatorAddress != "", 0x22) + When(m.validatorAddress != "", 0x2A)
                    + [0x32, 0x3A])
  {
    hide WriteMessage, HasTags, ToUtf8, RatesSlots, DescriptionSlots, KeySlots, CoinBytes, AnyBytes, RatesView, ValidRates;
    var t := MsgSlots(MsgView(m));
    TableTags(t);
    assert TagsUpTo(t, 1) == [0x0A];
    assert TagsUpTo(t, 2) == [0x0A, 0x12];
    assert TagsUpTo(t, 3) == [0x0A, 0x12, 0x1A];
    assert TagsUpTo(t, 4) == TagsUpTo(t, 3) + When(m.delegatorAddress != "", 0x22);
    assert TagsUpTo(t, 5) == TagsUpTo(t, 4) + When(m.validatorAddress != "", 0x2A);
    assert TagsUpTo(t, 6) == TagsUpTo(t, 5) + [0x32];
    assert TagsUpTo(t, 7) == TagsUpTo(t, 6) + [0x3A];
    Assoc(TagsUpTo(t, 5), [0x32], [0x3A]);
    assert [0x32] + [0x3A] == [0x32, 0x3A];
  }

  lemma MsgNotEmpty(m: SignedMsg)
    ensures WriteMessage(MsgSlots(m)) != []
  {
    hide ToUtf8, GetBytes;
    var t := MsgSlots(m);
    assert TagsUpTo(t, 0) == [];
    assert TagsUpTo(t, 1) == [0x0A];
    TagsGrow(t, 1);
    TableTags(t);
    NothingHasNoTags();
  }

  lemma BodyHeld(g: ParsedGentx)
    requires ValidMsg(g.msg)
    ensures HoldsBody(WriteMessage(BodySlots(MSG_CREATE_VALIDATOR_TYPE_URL, MsgView(g.msg), g.memo, g.timeoutHeight)), g)
  {
    hide WriteMessage, HasTags, Payload, ToUtf8, FromUtf8, HoldsMsg, MsgSlots, AnyBytes, MsgView, ValidMsg;
    var msg := MsgView(g.msg);
    var m := BodySlots(MSG_CREATE_VALIDATOR_TYPE_URL, msg, g.memo, g.timeoutHeight);
    TableTags(m);
    assert TagsUpTo(m, 1) == [0x0A];
    assert TagsUpTo(m, 2) == TagsUpTo(m, 1) + When(g.memo != "", 0x12);
    assert TagsUpTo(m, 3) == TagsUpTo(m, 2) + When(g.timeoutHeight != 0, 0x18);
    assert [0x0A] + [0x12] == [0x0A, 0x12];
    SlotFound(m, 0);
    SlotFound(m, 1);
    SlotFound(m, 2);
    AnyHeld(MSG_CREATE_VALIDATOR_TYPE_URL, WriteMessage(MsgSlots(msg)));
    RoundTrip(MSG_CREATE_VALIDATOR_TYPE_URL);
    MsgNotEmpty(msg);
    MsgHeld(g.msg);
  }

  lemma SignerHeld(s: SignerInfo)
    ensures HoldsSigner(WriteMessage(SignerSlots(SignerView(s))), s)
  {
    hide WriteMessage, HasTags, Payload, ToUtf8, HoldsKey, KeySlots, AnyBytes, GetNumber, Records;
    var m, modeInfo, single := SignerSlots(SignerView(s)), ModeInfoSlots(SIGN_MODE_DIRECT), SingleSlots(SIGN_MODE_DIRECT);
    TableTags(m);
    assert TagsUpTo(m, 1) == [0x0A];
    assert TagsUpTo(m, 2) == [0x0A, 0x12];
    TableTags(modeInfo);
    assert TagsUpTo(modeInfo, 0) == [] && TagsUpTo(modeInfo, 1) == [0x0A];
    TableTags(single);
    assert TagsUpTo(single, 0) == [] && TagsUpTo(single, 1) == [0x08];
    SlotFound(m, 0);
    SlotFound(m, 1);
    SlotFound(m, 2);
    SlotFound(modeInfo, 0);
    SlotFound(single, 0);
    KeyHeld(s.pubKeyTypeURL, s.pubKey);
  }

  lemma {:induction false} CoinTags(f: Fee, k: nat)
    requires k <= |f.amount|
    ensures TagsUpTo(FeeSlots(FeeView(f)), k) == seq(k, _ => 0x0A)
  {
    hide CoinBytes;
    if k > 0 {
      CoinTags(f, k - 1);
    }
  }

  lemma FeeHeld(f: Fee)
    requires ValidFee(f)
    ensures HoldsFee(WriteMessage(FeeSlots(FeeView(f))), f)
  {
    hide WriteMessage, HasTags, Payload, ToUtf8, HoldsCoin, CoinBytes, GetNumber, GetRepeated, Records, IsDigits, Emit;
    var m, n := FeeSlots(FeeView(f)), |f.amount|;
    var b := WriteMessage(m);
    TableTags(m);
    CoinTags(f, n);
    assert m[n] == Number(2, f.gasLimit) && m[n + 1] == Text(3, f.payer) && m[n + 2] == Text(4, f.granter);
    assert TagsUpTo(m, n + 1) == TagsUpTo(m, n) + When(f.gasLimit != 0, 0x10);
    assert TagsUpTo(m, n + 2) == TagsUpTo(m, n + 1) + When(f.payer != "", 0x1A);
    SlotFound(m, n);
    SlotFound(m, n + 1);
    SlotFound(m, n + 2);
    RepeatedReadsBack(1, CoinPayloads(f.amount), FeeTail(FeeView(f)));
    forall i | 0 <= i < n ensures HoldsCoin(CoinBytes(f.amount[i]), f.amount[i]) {
      CoinHeld(f.amount[i]);
    }
  }

  lemma AuthInfoHeld(g: ParsedGentx)
    requires ValidFee(g.fee)
    ensures HoldsAuthInfo(WriteMessage(AuthInfoSlots(SignerView(g.signer), FeeView(g.fee))), g)
  {
    hide WriteMessage, HasTags, Payload, ToUtf8, HoldsSigner, HoldsFee, SignerSlots, FeeSlots, MsgView, ValidMsg, ValidFee;
    var m := AuthInfoSlots(SignerView(g.signer), FeeView(g.fee));
    TableTags(m);
    assert TagsUpTo(m, 1) == [0x0A];
    assert TagsUpTo(m, 2) == [0x0A, 0x12];
    SlotFound(m, 0);
    SlotFound(m, 1);
    SignerHeld(g.signer);
    FeeHeld(g.fee);
  }

  /** The sign bytes hold the gentx field by field. */
  lemma GentxHeld(g: ParsedGentx, chainID: string, accountNumber: uint64)
    requires Encodable(g)
    ensures HoldsGentx(SignDocBytes(TxView(g, chainID, accountNumber)), g, chainID, accountNumber)
  {
    hide WriteMessage, HasTags, Payload, ToUtf8, HoldsBody, HoldsAuthInfo, BodySlots, AuthInfoSlots, GetNumber, Records,
      MsgView, ValidMsg, ValidFee;
    var m := SignDocSlots(TxView(g, chainID, accountNumber));
    TableTags(m);
    assert TagsUpTo(m, 1) == [0x0A];
    assert TagsUpTo(m, 2) == [0x0A, 0x12];
    assert TagsUpTo(m, 3) == TagsUpTo(m, 2) + When(chainID != "", 0x1A);
    SlotFound(m, 0);
    SlotFound(m, 1);
    SlotFound(m, 2);
    SlotFound(m, 3);
    BodyHeld(g);
    AuthInfoHeld(g);
  }
}
