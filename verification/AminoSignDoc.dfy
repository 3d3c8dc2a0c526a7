/** The SIGN_MODE_LEGACY_AMINO_JSON sign bytes: the encoder of gentxvalidate/aminosigndoc.go. */
module AminoSignDoc {
  import opened Basics
  import opened Utf8
  import opened Decimal
  import opened Gentx
  import opened AminoDocument
  import opened AminoFields

  method AminoSignBytes(g: ParsedGentx, chainID: string, accountNumber: uint64) returns (r: Option<Bytes>)
    ensures r.Some? <==>
            g.signer.mode == "SIGN_MODE_LEGACY_AMINO_JSON" && g.msg.consensusPubKeyTypeURL == "/cosmos.crypto.ed25519.PubKey"
    ensures r.Some? ==> HoldsDocument(r.value, g, chainID, accountNumber)
    ensures r == AminoWire(g, chainID, accountNumber)
  {
    hide MarshalDoc, ToUtf8, Kept, Numeral, HoldsDocument;
    if g.signer.mode != SIGN_MODE_AMINO_JSON_NAME {
      return None;
    }
    if g.msg.consensusPubKeyTypeURL != ED25519_PUB_KEY_TYPE_URL {
      return None;
    }
    var msg := MsgDoc(AminoMsg(g.msg.commission, g.msg.delegatorAddress, g.msg.description, g.msg.minSelfDelegation,
                               g.msg.consensusPubKey, g.msg.validatorAddress, g.msg.value));
    var feeAmount: seq<Doc> := [];
    for i := 0 to |g.fee.amount|
      invariant feeAmount == CoinDocs(g.fee.amount[..i])
    {
      var c := g.fee.amount[i];
      feeAmount := feeAmount + [CoinDoc(c)];
    }
    assert g.fee.amount[..|g.fee.amount|] == g.fee.amount;
    var timeoutHeight := "";
    if g.timeoutHeight != 0 {
      timeoutHeight := Numeral(g.timeoutHeight);
    }
    var doc := Struct(Kept(SignDocFields(Numeral(accountNumber), chainID, FeeDoc(feeAmount, Numeral(g.fee.gasLimit)),
                                         g.memo, [msg], Numeral(g.signer.sequence), timeoutHeight)));
    DocumentHeld(g, chainID, accountNumber);
    return Some(ToUtf8(MarshalDoc(doc)));
  }
}
