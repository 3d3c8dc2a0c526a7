/** The decoded gentx: the fields of gentxvalidate/decode.go with their JSON strings kept verbatim. */
module Gentx {
  import opened Basics

  const SIGN_MODE_DIRECT_NAME: string := "SIGN_MODE_DIRECT"
  const SIGN_MODE_AMINO_JSON_NAME: string := "SIGN_MODE_LEGACY_AMINO_JSON"
  const MSG_CREATE_VALIDATOR_TYPE_URL: string := "/cosmos.staking.v1beta1.MsgCreateValidator"
  const SECP256K1_PUB_KEY_TYPE_URL: string := "/cosmos.crypto.secp256k1.PubKey"
  const ED25519_PUB_KEY_TYPE_URL: string := "/cosmos.crypto.ed25519.PubKey"
  const LEGACY_AMINO_PUB_KEY_TYPE_URL: string := "/cosmos.crypto.multisig.LegacyAminoPubKey"
  const COMPRESSED_PUB_KEY_LEN: nat := 33
  const COMPACT_SIG_LEN: nat := 64

  type uint32 = x: int | 0 <= x < 0x1_0000_0000

  datatype ParsedGentx = ParsedGentx(
    msg: MsgCreateValidator,
    memo: string,
    timeoutHeight: uint64,
    signer: SignerInfo,
    fee: Fee,
    signature: Bytes)

  datatype MsgCreateValidator = MsgCreateValidator(
    description: Description,
    commission: CommissionRates,
    minSelfDelegation: string,
    delegatorAddress: string,
    validatorAddress: string,
    consensusPubKeyTypeURL: string,
    consensusPubKey: Bytes,
    value: Coin)

  datatype Description = Description(
    moniker: string,
    identity: string,
    website: string,
    securityContact: string,
    details: string)

  datatype CommissionRates = CommissionRates(rate: string, maxRate: string, maxChangeRate: string)

  datatype Coin = Coin(denom: string, amount: string)

  datatype SignerInfo = SignerInfo(
    pubKeyTypeURL: string,
    pubKey: Bytes,
    mode: string,
    sequence: uint64,
    multisig: Option<MultisigSigner>)

  datatype MultisigSigner = MultisigSigner(
    threshold: uint32,
    members: seq<MultisigMember>,
    modes: seq<string>,
    bitarrayElems: Bytes,
    extraBitsStored: int)

  datatype MultisigMember = MultisigMember(pubKeyTypeURL: string, pubKey: Bytes)

  datatype Fee = Fee(amount: seq<Coin>, gasLimit: uint64, payer: string, granter: string)

  /** What the decoder guarantees of a signer: one key, or a multisignature with a threshold in range and a mode. */
  predicate AsDecoded(s: SignerInfo) {
    match s.multisig
    case None => s.pubKeyTypeURL != LEGACY_AMINO_PUB_KEY_TYPE_URL
    case Some(ms) =>
      && s.pubKeyTypeURL == LEGACY_AMINO_PUB_KEY_TYPE_URL
      && s.pubKey == []
      && 1 <= ms.threshold <= |ms.members|
      && ms.modes != []
      && s.mode == ms.modes[0]
  }
}
