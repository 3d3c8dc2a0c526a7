/**
 The document a SIGN_MODE_DIRECT signature covers and its messages as tables of slots, which specify the
 encoders of gentxvalidate/signdoc.go.
 */
module SignDocTables {
  import opened Basics
  import opened Utf8
  import opened Protowire
  import opened Messages
  import opened Decimal
  import opened Gentx

  const SIGN_MODE_DIRECT: nat := 1

  // ---------------------------------------------------------------- the signed document

  /** What a DIRECT signature covers: strings verbatim, the three rates by value. */
  datatype SignedTx = SignedTx(
    msgTypeURL: string,
    msg: SignedMsg,
    memo: string,
    timeoutHeight: nat,
    signer: SignedSigner,
    fee: SignedFee,
    chainID: string,
    accountNumber: nat)

  datatype SignedMsg = SignedMsg(
    description: Description,
    commission: SignedRates,
    minSelfDelegation: string,
    delegatorAddress: string,
    validatorAddress: string,
    consensusPubKeyTypeURL: string,
    consensusPubKey: Bytes,
    value: Coin)

  /** Rates in units of 10^-18. */
  datatype SignedRates = SignedRates(rate: nat, maxRate: nat, maxChangeRate: nat)

  datatype SignedSigner = SignedSigner(pubKeyTypeURL: string, pubKey: Bytes, mode: nat, sequence: nat)

  datatype SignedFee = SignedFee(amount: seq<Coin>, gasLimit: nat, payer: string, granter: string)

  predicate ValidRates(c: CommissionRates) {
    IsDecimalByCut(c.rate) && IsDecimalByCut(c.maxRate) && IsDecimalByCut(c.maxChangeRate)
  }

  predicate ValidMsg(m: MsgCreateValidator) {
    ValidRates(m.commission) && IsDigits(m.minSelfDelegation) && IsDigits(m.value.amount)
  }

  predicate ValidFee(f: Fee) {
    forall i | 0 <= i < |f.amount| :: IsDigits(f.amount[i].amount)
  }

  predicate Encodable(g: ParsedGentx) {
    g.signer.mode == SIGN_MODE_DIRECT_NAME && ValidMsg(g.msg) && ValidFee(g.fee)
  }

  function RatesView(c: CommissionRates): SignedRates
    requires ValidRates(c)
  {
    SignedRates(ScaledValue(c.rate), ScaledValue(c.maxRate), ScaledValue(c.maxChangeRate))
  }

  function MsgView(m: MsgCreateValidator): SignedMsg
    requires ValidMsg(m)
  {
    SignedMsg(m.description, RatesView(m.commission), m.minSelfDelegation, m.delegatorAddress,
              m.validatorAddress, m.consensusPubKeyTypeURL, m.consensusPubKey, m.value)
  }

  function SignerView(s: SignerInfo): SignedSigner {
    SignedSigner(s.pubKeyTypeURL, s.pubKey, SIGN_MODE_DIRECT, s.sequence)
  }

  function FeeView(f: Fee): SignedFee {
    SignedFee(f.amount, f.gasLimit, f.payer, f.granter)
  }

  function TxView(g: ParsedGentx, chainID: string, accountNumber: uint64): SignedTx
    requires Encodable(g)
  {
    SignedTx(MSG_CREATE_VALIDATOR_TYPE_URL, MsgView(g.msg), g.memo, g.timeoutHeight,
             SignerView(g.signer), FeeView(g.fee), chainID, accountNumber)
  }

  // ---------------------------------------------------------------- message tables

  function Text(num: nat, s: string): Slot { Slot(Len(num, ToUtf8(s)), false) }

  function Always(num: nat, payload: Bytes): Slot { Slot(Len(num, payload), true) }

  function AlwaysText(num: nat, s: string): Slot { Slot(Len(num, ToUtf8(s)), true) }

  function Number(num: nat, v: nat): Slot { Slot(Varint(num, v), false) }

  function AnySlots(typeURL: string, value: Bytes): seq<Slot> {
    [Text(1, typeURL), Slot(Len(2, value), false)]
  }

  function AnyBytes(typeURL: string, value: Bytes): Bytes {
    WriteMessage(AnySlots(typeURL, value))
  }

  function KeySlots(key: Bytes): seq<Slot> {
    [Always(1, key)]
  }

  function CoinSlots(c: Coin): seq<Slot> {
    [Text(1, c.denom), AlwaysText(2, c.amount)]
  }

  function CoinBytes(c: Coin): Bytes {
    WriteMessage(CoinSlots(c))
  }

  function RatesSlots(c: SignedRates): seq<Slot> {
    [AlwaysText(1, Numeral(c.rate)), AlwaysText(2, Numeral(c.maxRate)), AlwaysText(3, Numeral(c.maxChangeRate))]
  }

  function DescriptionSlots(d: Description): seq<Slot> {
    [Text(1, d.moniker), Text(2, d.identity), Text(3, d.website), Text(4, d.securityContact), Text(5, d.details)]
  }

  function MsgSlots(m: SignedMsg): seq<Slot> {
    [ Always(1, WriteMessage(DescriptionSlots(m.description))),
      Always(2, WriteMessage(RatesSlots(m.commission))),
      AlwaysText(3, m.minSelfDelegation),
      Text(4, m.delegatorAddress),
      Text(5, m.validatorAddress),
      Always(6, AnyBytes(m.consensusPubKeyTypeURL, WriteMessage(KeySlots(m.consensusPubKey)))),
      Always(7, CoinBytes(m.value)) ]
  }

  function BodySlots(msgTypeURL: string, msg: SignedMsg, memo: string, timeoutHeight: nat): seq<Slot> {
    [Always(1, AnyBytes(msgTypeURL, WriteMessage(MsgSlots(msg)))), Text(2, memo), Number(3, timeoutHeight)]
  }

  function SingleSlots(mode: nat): seq<Slot> {
    [Slot(Varint(1, mode), true)]
  }

  function ModeInfoSlots(mode: nat): seq<Slot> {
    [Always(1, WriteMessage(SingleSlots(mode)))]
  }

  function SignerSlots(s: SignedSigner): seq<Slot> {
    [ Always(1, AnyBytes(s.pubKeyTypeURL, WriteMessage(KeySlots(s.pubKey)))),
      Always(2, WriteMessage(ModeInfoSlots(s.mode))),
      Number(3, s.sequence) ]
  }

  function CoinPayloads(coins: seq<Coin>): seq<Bytes> {
    seq(|coins|, i requires 0 <= i < |coins| => CoinBytes(coins[i]))
  }

  function FeeTail(f: SignedFee): seq<Slot> {
    [Number(2, f.gasLimit), Text(3, f.payer), Text(4, f.granter)]
  }

  function FeeSlots(f: SignedFee): seq<Slot> {
    RepeatedSlots(1, CoinPayloads(f.amount)) + FeeTail(f)
  }

  function AuthInfoSlots(signer: SignedSigner, fee: SignedFee): seq<Slot> {
    [Always(1, WriteMessage(SignerSlots(signer))), Always(2, WriteMessage(FeeSlots(fee)))]
  }

  function SignDocSlots(t: SignedTx): seq<Slot> {
    [ Always(1, WriteMessage(BodySlots(t.msgTypeURL, t.msg, t.memo, t.timeoutHeight))),
      Always(2, WriteMessage(AuthInfoSlots(t.signer, t.fee))),
      Text(3, t.chainID),
      Number(4, t.accountNumber) ]
  }

  function SignDocBytes(t: SignedTx): Bytes {
    WriteMessage(SignDocSlots(t))
  }

  function DirectWire(g: ParsedGentx, chainID: string, accountNumber: uint64): Option<Bytes> {
    if Encodable(g) then Some(SignDocBytes(TxView(g, chainID, accountNumber))) else None
  }
}
