/** The SIGN_MODE_DIRECT sign bytes: the encoders of gentxvalidate/signdoc.go. */
module SignDoc {
  import opened Basics
  import opened Utf8
  import opened Protowire
  import opened Messages
  import opened Decimal
  import opened Gentx
  import opened SignDocTables
  import opened SignedFields

  /** intWire: a math.Int string is its own wire form. */
  method IntWire(s: string) returns (r: Option<Bytes>)
    ensures r == if IsDigits(s) then Some(ToUtf8(s)) else None
  {
    var ok := CheckDigits(s);
    r := if ok then Some(ToUtf8(s)) else None;
  }

  method EncodeAny(typeURL: string, value: Bytes) returns (b: Bytes)
    ensures b == AnyBytes(typeURL, value)
    ensures HasTags(b, When(typeURL != "", 0x0A) + When(value != [], 0x12))
    ensures HoldsText(b, 1, typeURL) && Payload(b, 2) == value
  {
    hide HasTags, Payload, ToUtf8, WriteField, WriteMessage;
    ghost var m := AnySlots(typeURL, value);
    b := [];
    if typeURL != "" {
      b := AppendStringField(b, 1, typeURL);
    }
    assert b == Written(m, 1);
    if |value| > 0 {
      b := AppendBytesField(b, 2, value);
    }
    assert b == Written(m, 2);
    WrittenAll(m);
    AnyHeld(typeURL, value);
  }

  method EncodeCoin(c: Coin) returns (r: Option<Bytes>)
    ensures r == if IsDigits(c.amount) then Some(CoinBytes(c)) else None
    ensures r.Some? ==> HoldsCoin(r.value, c)
  {
    hide HoldsCoin;
    ghost var m := CoinSlots(c);
    var amount :- IntWire(c.amount);
    var b: Bytes := [];
    if c.denom != "" {
      b := AppendStringField(b, 1, c.denom);
    }
    assert b == Written(m, 1);
    b := AppendBytesField(b, 2, amount);
    assert b == Written(m, 2);
    WrittenAll(m);
    CoinHeld(c);
    return Some(b);
  }

  method EncodeCommission(c: CommissionRates) returns (r: Option<Bytes>)
    ensures r == if ValidRates(c) then Some(WriteMessage(RatesSlots(RatesView(c)))) else None
    ensures r.Some? ==> HoldsRates(r.value, c)
  {
    hide HoldsRates;
    var rate :- LegacyDecWire(c.rate);
    var maxRate :- LegacyDecWire(c.maxRate);
    var maxChange :- LegacyDecWire(c.maxChangeRate);
    ghost var m := RatesSlots(RatesView(c));
    var b: Bytes := [];
    b := AppendBytesField(b, 1, ToUtf8(rate));
    assert b == Written(m, 1);
    b := AppendBytesField(b, 2, ToUtf8(maxRate));
    assert b == Written(m, 2);
    b := AppendBytesField(b, 3, ToUtf8(maxChange));
    assert b == Written(m, 3);
    WrittenAll(m);
    RatesHeld(c);
    return Some(b);
  }

  method EncodeDescription(d: Description) returns (b: Bytes)
    ensures b == WriteMessage(DescriptionSlots(d))
    ensures HoldsDescription(b, d)
  {
    hide WriteField, WriteMessage, ToUtf8, HoldsDescription;
    ghost var m := DescriptionSlots(d);
    b := [];
    if d.moniker != "" {
      b := AppendStringField(b, 1, d.moniker);
    }
    assert b == Written(m, 1);
    if d.identity != "" {
      b := AppendStringField(b, 2, d.identity);
    }
    assert b == Written(m, 2);
    if d.website != "" {
      b := AppendStringField(b, 3, d.website);
    }
    assert b == Written(m, 3);
    if d.securityContact != "" {
      b := AppendStringField(b, 4, d.securityContact);
    }
    assert b == Written(m, 4);
    if d.details != "" {
      b := AppendStringField(b, 5, d.details);
    }
    assert b == Written(m, 5);
    WrittenAll(m);
    DescriptionHeld(d);
  }

  /** PubKey{ key=1 }, Single{ mode=1 } and ModeInfo{ single=1 }: one field each. */
  lemma OneSlot(s: Slot)
    requires s.always
    ensures WriteMessage([s]) == [] + WriteField(s.field)
  {
    assert Written([s], 1) == Put([], s);
    WrittenAll([s]);
  }

  method EncodeMsgCreateValidator(m: MsgCreateValidator) returns (r: Option<Bytes>)
    ensures r == if ValidMsg(m) then Some(WriteMessage(MsgSlots(MsgView(m)))) else None
    ensures r.Some? ==> HoldsMsg(r.value, m)
  {
    hide WriteField, WriteMessage, ToUtf8, ValidRates, RatesView;
    hide HasTags, Payload, HoldsText, HoldsKey, HoldsCoin, HoldsRates, HoldsDescription, HoldsMsg;
    var desc := EncodeDescription(m.description);
    var comm :- EncodeCommission(m.commission);
    var minSelf :- IntWire(m.minSelfDelegation);
    var consKey := AppendBytesField([], 1, m.consensusPubKey);
    OneSlot(Always(1, m.consensusPubKey));
    var consAny := EncodeAny(m.consensusPubKeyTypeURL, consKey);
    var value :- EncodeCoin(m.value);

    ghost var slots := MsgSlots(MsgView(m));
    var b: Bytes := [];
    b := AppendBytesField(b, 1, desc);
    assert b == Written(slots, 1);
    b := AppendBytesField(b, 2, comm);
    assert b == Written(slots, 2);
    b := AppendBytesField(b, 3, minSelf);
    assert b == Written(slots, 3);
    if m.delegatorAddress != "" {
      b := AppendStringField(b, 4, m.delegatorAddress);
    }
    assert b == Written(slots, 4);
    if m.validatorAddress != "" {
      b := AppendStringField(b, 5, m.validatorAddress);
    }
    assert b == Written(slots, 5);
    b := AppendBytesField(b, 6, consAny);
    assert b == Written(slots, 6);
    b := AppendBytesField(b, 7, value);
    assert b == Written(slots, 7);
    WrittenAll(slots);
    MsgHeld(m);
    return Some(b);
  }

  method EncodeFee(f: Fee) returns (r: Option<Bytes>)
    ensures r == if ValidFee(f) then Some(WriteMessage(FeeSlots(FeeView(f)))) else None
    ensures r.Some? ==> HoldsFee(r.value, f)
  {
    hide WriteField, WriteMessage, ToUtf8, IsDigits, CoinBytes, HoldsCoin, HoldsFee;
    ghost var m := FeeSlots(FeeView(f));
    var b: Bytes := [];
    for i := 0 to |f.amount|
      invariant forall j | 0 <= j < i :: IsDigits(f.amount[j].amount)
      invariant b == Written(m, i)
    {
      var coin :- EncodeCoin(f.amount[i]);
      b := AppendBytesField(b, 1, coin);
    }
    ghost var n := |f.amount|;
    assert m[n..] == FeeTail(FeeView(f));
    if f.gasLimit != 0 {
      b := AppendVarintField(b, 2, f.gasLimit);
    }
    assert b == Written(m, n + 1);
    if f.payer != "" {
      b := AppendStringField(b, 3, f.payer);
    }
    assert b == Written(m, n + 2);
    if f.granter != "" {
      b := AppendStringField(b, 4, f.granter);
    }
    assert b == Written(m, n + 3);
    WrittenAll(m);
    FeeHeld(f);
    return Some(b);
  }

  method EncodeSignerInfo(s: SignerInfo) returns (b: Bytes)
    ensures b == WriteMessage(SignerSlots(SignerView(s)))
    ensures HoldsSigner(b, s)
  {
    hide HasTags, Payload, HoldsText, HoldsSigner;
    var pubKeyMsg := AppendBytesField([], 1, s.pubKey);
    OneSlot(Always(1, s.pubKey));
    var pubKeyAny := EncodeAny(s.pubKeyTypeURL, pubKeyMsg);
    var single := AppendVarintField([], 1, SIGN_MODE_DIRECT);
    OneSlot(Slot(Varint(1, SIGN_MODE_DIRECT), true));
    var modeInfo := AppendBytesField([], 1, single);
    OneSlot(Always(1, single));

    ghost var m := SignerSlots(SignerView(s));
    b := [];
    b := AppendBytesField(b, 1, pubKeyAny);
    assert b == Written(m, 1);
    b := AppendBytesField(b, 2, modeInfo);
    assert b == Written(m, 2);
    if s.sequence != 0 {
      b := AppendVarintField(b, 3, s.sequence);
    }
    assert b == Written(m, 3);
    WrittenAll(m);
    SignerHeld(s);
  }

  method EncodeTxBody(g: ParsedGentx) returns (r: Option<Bytes>)
    ensures r == if ValidMsg(g.msg)
                 then Some(WriteMessage(BodySlots(MSG_CREATE_VALIDATOR_TYPE_URL, MsgView(g.msg), g.memo, g.timeoutHeight)))
                 else None
    ensures r.Some? ==> HoldsBody(r.value, g)
  {
    hide WriteField, WriteMessage, ToUtf8, ValidRates, RatesView;
    hide HasTags, Payload, HoldsText, HoldsMsg, HoldsBody, ValidMsg, MsgView, MsgSlots, AnyBytes;
    var msgBytes :- EncodeMsgCreateValidator(g.msg);
    var msgAny := EncodeAny(MSG_CREATE_VALIDATOR_TYPE_URL, msgBytes);
    ghost var m := BodySlots(MSG_CREATE_VALIDATOR_TYPE_URL, MsgView(g.msg), g.memo, g.timeoutHeight);
    var b: Bytes := [];
    b := AppendBytesField(b, 1, msgAny);
    assert b == Written(m, 1);
    if g.memo != "" {
      b := AppendStringField(b, 2, g.memo);
    }
    assert b == Written(m, 2);
    if g.timeoutHeight != 0 {
      b := AppendVarintField(b, 3, g.timeoutHeight);
    }
    assert b == Written(m, 3);
    WrittenAll(m);
    BodyHeld(g);
    return Some(b);
  }

  method EncodeAuthInfo(g: ParsedGentx) returns (r: Option<Bytes>)
    ensures r == if ValidFee(g.fee)
                 then Some(WriteMessage(AuthInfoSlots(SignerView(g.signer), FeeView(g.fee))))
                 else None
    ensures r.Some? ==> HoldsAuthInfo(r.value, g)
  {
    hide WriteField, WriteMessage, ToUtf8, HoldsSigner, HoldsFee, HoldsAuthInfo, ValidFee, SignerSlots, FeeSlots;
    var si := EncodeSignerInfo(g.signer);
    var fee :- EncodeFee(g.fee);
    ghost var m := AuthInfoSlots(SignerView(g.signer), FeeView(g.fee));
    var b: Bytes := [];
    b := AppendBytesField(b, 1, si);
    assert b == Written(m, 1);
    b := AppendBytesField(b, 2, fee);
    assert b == Written(m, 2);
    WrittenAll(m);
    AuthInfoHeld(g);
    return Some(b);
  }

  method DirectSignBytes(g: ParsedGentx, chainID: string, accountNumber: uint64) returns (r: Option<Bytes>)
    ensures r.Some? <==>
            && g.signer.mode == "SIGN_MODE_DIRECT"
            && IsDecimal(g.msg.commission.rate)
            && IsDecimal(g.msg.commission.maxRate)
            && IsDecimal(g.msg.commission.maxChangeRate)
            && IsDigits(g.msg.minSelfDelegation)
            && IsDigits(g.msg.value.amount)
            && (forall i | 0 <= i < |g.fee.amount| :: IsDigits(g.fee.amount[i].amount))
    ensures r == DirectWire(g, chainID, accountNumber)
    ensures r.Some? ==> HoldsGentx(r.value, g, chainID, accountNumber)
  {
    hide WriteField, WriteMessage, ToUtf8, IsDecimalByCut, IsDecimal, RatesView;
    hide HoldsBody, HoldsAuthInfo, HoldsGentx, BodySlots, AuthInfoSlots;
    CutAcceptsDecimals(g.msg.commission.rate);
    CutAcceptsDecimals(g.msg.commission.maxRate);
    CutAcceptsDecimals(g.msg.commission.maxChangeRate);
    if g.signer.mode != SIGN_MODE_DIRECT_NAME {
      return None;
    }
    var bodyBytes :- EncodeTxBody(g);
    var authBytes :- EncodeAuthInfo(g);

    ghost var m := SignDocSlots(TxView(g, chainID, accountNumber));
    var b: Bytes := [];
    b := AppendBytesField(b, 1, bodyBytes);
    assert b == Written(m, 1);
    b := AppendBytesField(b, 2, authBytes);
    assert b == Written(m, 2);
    if chainID != "" {
      b := AppendStringField(b, 3, chainID);
    }
    assert b == Written(m, 3);
    if accountNumber != 0 {
      b := AppendVarintField(b, 4, accountNumber);
    }
    assert b == Written(m, 4);
    WrittenAll(m);
    GentxHeld(g, chainID, accountNumber);
    return Some(b);
  }
}
