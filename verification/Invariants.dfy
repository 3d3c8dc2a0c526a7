/**
 The gentx checks (gentxvalidate/invariants.go), signature verification per sign mode and the server's
 runner, over an already decoded gentx. Library cryptography and bech32 are fields of `Library`.
 */
module Invariants {
  import opened Basics
  import opened Utf8
  import opened Decimal
  import opened Gentx
  import opened Multisig
  import SignDoc
  import SignDocTables
  import AminoDocument
  import AminoFields
  import SignedFields
  import AminoSignDoc

  /** The launch's declared constraints; an empty string declares none. */
  datatype Params = Params(
    chainID: string,
    bondDenom: string,
    bech32Prefix: string,
    minSelfDelegation: string,
    minCommissionRate: string,
    maxCommissionRate: string,
    maxCommissionChangeRate: string,
    maxMonikerLen: int)

  const DEFAULT_MAX_MONIKER_LEN: int := 70
  const ED25519_PUB_KEY_SIZE: nat := 32
  const GENESIS_ACCOUNT_NUMBER: uint64 := 0

  datatype Invariant =
    | WellFormed
    | BondDenom
    | SelfDelegation
    | CommissionConsistency
    | CommissionChangeRate
    | CommissionBounds
    | Moniker
    | OperatorAddress
    | ConsensusPubKey
    | SignatureDirect
    | SignatureAminoJSON
    | SignatureUnsupportedMode

  datatype CheckResult = CheckResult(id: Invariant, ok: bool)

  /** Signature check, SHA-256, RIPEMD-160 of SHA-256, and decoding of a bech32 address under a prefix. */
  datatype Library = Library(
    verify: Verifier,
    sha256: Bytes -> Digest,
    hash160: Bytes -> Bytes,
    decodeAddress: (string, string) -> Option<Bytes>)

  // ---------------------------------------------------------------- light checks

  function CheckBondDenom(g: ParsedGentx, p: Params): CheckResult {
    CheckResult(BondDenom, p.bondDenom != "" && g.msg.value.denom == p.bondDenom)
  }

  function CheckSelfDelegation(g: ParsedGentx, p: Params): CheckResult {
    if p.minSelfDelegation == "" then
      CheckResult(SelfDelegation, true)
    else
      match SetString(p.minSelfDelegation)
      case None => CheckResult(SelfDelegation, false)
      case Some(floor) =>
        if floor < 0 then CheckResult(SelfDelegation, false)
        else
          match SetString(g.msg.value.amount)
          case None => CheckResult(SelfDelegation, false)
          case Some(amount) => CheckResult(SelfDelegation, amount >= 0 && amount >= floor)
  }

  function CheckCommissionConsistency(g: ParsedGentx): CheckResult {
    var rate, maxRate := DecValue(g.msg.commission.rate), DecValue(g.msg.commission.maxRate);
    if rate.None? || maxRate.None? then CheckResult(CommissionConsistency, false)
    else if rate.value > maxRate.value then CheckResult(CommissionConsistency, false)
    else if maxRate.value > DEC_ONE then CheckResult(CommissionConsistency, false)
    else CheckResult(CommissionConsistency, true)
  }

  function CheckCommissionChangeRate(g: ParsedGentx): CheckResult {
    var maxChange, maxRate := DecValue(g.msg.commission.maxChangeRate), DecValue(g.msg.commission.maxRate);
    if maxChange.None? || maxRate.None? then CheckResult(CommissionChangeRate, false)
    else CheckResult(CommissionChangeRate, maxChange.value <= maxRate.value)
  }

  function CheckCommissionBounds(g: ParsedGentx, p: Params): CheckResult {
    var rate := DecValue(g.msg.commission.rate);
    if rate.None? then
      CheckResult(CommissionBounds, false)
    else if p.minCommissionRate != "" && !(DecValue(p.minCommissionRate).Some? && rate.value >= DecValue(p.minCommissionRate).value) then
      CheckResult(CommissionBounds, false)
    else if p.maxCommissionRate != "" && !WithinCeiling(g.msg.commission, p.maxCommissionRate) then
      CheckResult(CommissionBounds, false)
    else if p.maxCommissionChangeRate != "" then
      var ceil, maxChange := DecValue(p.maxCommissionChangeRate), DecValue(g.msg.commission.maxChangeRate);
      CheckResult(CommissionBounds, ceil.Some? && maxChange.Some? && maxChange.value <= ceil.value)
    else
      CheckResult(CommissionBounds, true)
  }

  predicate WithinCeiling(c: CommissionRates, ceiling: string) {
    var ceil, rate, maxRate := DecValue(ceiling), DecValue(c.rate), DecValue(c.maxRate);
    ceil.Some? && rate.Some? && rate.value <= ceil.value && maxRate.Some? && maxRate.value <= ceil.value
  }

  /** unicode.IsControl */
  predicate IsControl(c: char) {
    c as int < 0x20 || 0x7F <= c as int < 0xA0
  }

  function CheckMoniker(g: ParsedGentx, p: Params): CheckResult {
    var m := g.msg.description.moniker;
    var limit := if p.maxMonikerLen <= 0 then DEFAULT_MAX_MONIKER_LEN else p.maxMonikerLen;
    CheckResult(Moniker, m != "" && |ToUtf8(m)| <= limit && forall i | 0 <= i < |m| :: !IsControl(m[i]))
  }

  /** The signing account's address. */
  function SignerAddress(s: SignerInfo, lib: Library): Option<Bytes> {
    if s.multisig.Some? then
      var preimage :- AddressPreimage(s.multisig.value);
      Some(lib.sha256(preimage)[..ACCOUNT_ADDR_LEN])
    else if s.pubKeyTypeURL != SECP256K1_PUB_KEY_TYPE_URL || |s.pubKey| != COMPRESSED_PUB_KEY_LEN then
      None
    else
      Some(lib.hash160(s.pubKey))
  }

  function CheckOperatorAddress(g: ParsedGentx, p: Params, lib: Library): CheckResult {
    var derived := SignerAddress(g.signer, lib);
    CheckResult(OperatorAddress,
                && p.bech32Prefix != ""
                && derived.Some?
                && lib.decodeAddress(g.msg.validatorAddress, p.bech32Prefix + "valoper") == derived
                && (g.msg.delegatorAddress != "" ==> lib.decodeAddress(g.msg.delegatorAddress, p.bech32Prefix) == derived))
  }

  predicate HasSuffix(s: string, suffix: string) {
    |suffix| <= |s| && s[|s| - |suffix|..] == suffix
  }

  function CheckConsensusPubKey(g: ParsedGentx): CheckResult {
    CheckResult(ConsensusPubKey,
                HasSuffix(g.msg.consensusPubKeyTypeURL, "ed25519.PubKey") && |g.msg.consensusPubKey| == ED25519_PUB_KEY_SIZE)
  }

  // ---------------------------------------------------------------- signatures

  predicate IsSingleSecpSigner(g: ParsedGentx) {
    && g.signer.pubKeyTypeURL == SECP256K1_PUB_KEY_TYPE_URL
    && |g.signer.pubKey| == COMPRESSED_PUB_KEY_LEN
    && |g.signature| == COMPACT_SIG_LEN
  }

  /** The single account key's signature over the given bytes is checked with this outcome. */
  predicate SingleOutcome(g: ParsedGentx, signBytes: Bytes, verify: Verifier, outcome: Check) {
    && g.signer.pubKeyTypeURL == "/cosmos.crypto.secp256k1.PubKey"
    && |g.signer.pubKey| == 33
    && |g.signature| == 64
    && verify(g.signer.pubKey, g.signature, signBytes) == outcome
  }

  predicate DirectOutcome(g: ParsedGentx, chainID: string, accountNumber: uint64, verify: Verifier, outcome: Check) {
    && SignDocTables.DirectWire(g, chainID, accountNumber).Some?
    && SingleOutcome(g, SignDocTables.DirectWire(g, chainID, accountNumber).value, verify, outcome)
  }

  ghost predicate AminoAccepted(g: ParsedGentx, chainID: string, accountNumber: uint64, verify: Verifier) {
    && AminoDocument.AminoWire(g, chainID, accountNumber).Some?
    && var signBytes := AminoDocument.AminoWire(g, chainID, accountNumber).value;
    && match g.signer.multisig
       case Some(ms) => IsMultiSigned(ms, g.signature, signBytes, verify)
       case None => SingleOutcome(g, signBytes, verify, Valid)
  }

  ghost predicate AminoRefused(g: ParsedGentx, chainID: string, accountNumber: uint64, verify: Verifier) {
    && AminoDocument.AminoWire(g, chainID, accountNumber).Some?
    && var signBytes := AminoDocument.AminoWire(g, chainID, accountNumber).value;
    && match g.signer.multisig
       case Some(ms) => IsRefused(ms, g.signature, signBytes, verify)
       case None => SingleOutcome(g, signBytes, verify, Invalid)
  }

  /** The amino verifier of this gentx reads past its bitarray. */
  predicate AminoPanics(g: ParsedGentx) {
    && g.signer.mode == "SIGN_MODE_LEGACY_AMINO_JSON"
    && g.msg.consensusPubKeyTypeURL == "/cosmos.crypto.ed25519.PubKey"
    && g.signer.multisig.Some? && ReadsOutOfRange(g.signer.multisig.value)
  }

  function VerdictOf(c: Check): Verdict {
    match c
    case Valid => Accept
    case Invalid => Reject
    case Malformed => Error
  }

  method VerifyDirect(g: ParsedGentx, chainID: string, accountNumber: uint64, verify: Verifier) returns (r: Verdict)
    ensures r == Accept <==> DirectOutcome(g, chainID, accountNumber, verify, Valid)
    ensures r == Reject <==> DirectOutcome(g, chainID, accountNumber, verify, Invalid)
    ensures r != Panic
  {
    hide SignedFields.HoldsGentx, SignDocTables.DirectWire;
    if !IsSingleSecpSigner(g) {
      return Error;
    }
    var signBytes := SignDoc.DirectSignBytes(g, chainID, accountNumber);
    if signBytes.None? {
      return Error;
    }
    return VerdictOf(verify(g.signer.pubKey, g.signature, signBytes.value));
  }

  method VerifyAminoJSON(g: ParsedGentx, chainID: string, accountNumber: uint64, verify: Verifier) returns (r: Verdict)
    ensures r == Accept <==> AminoAccepted(g, chainID, accountNumber, verify)
    ensures r == Reject <==> AminoRefused(g, chainID, accountNumber, verify)
    ensures r == Panic <==> AminoPanics(g)
  {
    hide IsMultiSigned, IsRefused, ReadsOutOfRange, AminoDocument.AminoText, AminoFields.HoldsDocument;
    var signBytes := AminoSignDoc.AminoSignBytes(g, chainID, accountNumber);
    if signBytes.None? {
      return Error;
    }
    if g.signer.multisig.Some? {
      r := VerifyAminoMultisig(g.signer.multisig.value, g.signature, signBytes.value, verify);
      return;
    }
    if !IsSingleSecpSigner(g) {
      return Error;
    }
    return VerdictOf(verify(g.signer.pubKey, g.signature, signBytes.value));
  }

  /** What the signature check reports when it returns. */
  ghost function CheckSignature(g: ParsedGentx, p: Params, lib: Library): CheckResult {
    if g.signer.mode == SIGN_MODE_DIRECT_NAME then
      CheckResult(SignatureDirect, p.chainID != "" && DirectOutcome(g, p.chainID, GENESIS_ACCOUNT_NUMBER, lib.verify, Valid))
    else if g.signer.mode == SIGN_MODE_AMINO_JSON_NAME then
      CheckResult(SignatureAminoJSON, p.chainID != "" && AminoAccepted(g, p.chainID, GENESIS_ACCOUNT_NUMBER, lib.verify))
    else
      CheckResult(SignatureUnsupportedMode, false)
  }

  /** Dispatch on the declared sign mode; no result stands for the run-time panic of the amino verifier. */
  method RunCheckSignature(g: ParsedGentx, p: Params, lib: Library) returns (r: Option<CheckResult>)
    ensures r.None? <==> p.chainID != "" && AminoPanics(g)
    ensures r.Some? ==> r.value == CheckSignature(g, p, lib)
  {
    hide AminoAccepted, AminoRefused, DirectOutcome, AminoPanics;
    if g.signer.mode != SIGN_MODE_DIRECT_NAME && g.signer.mode != SIGN_MODE_AMINO_JSON_NAME {
      PanicsOnlyInAmino(g);
      return Some(CheckResult(SignatureUnsupportedMode, false));
    }
    var direct := g.signer.mode == SIGN_MODE_DIRECT_NAME;
    var id := if direct then SignatureDirect else SignatureAminoJSON;
    if p.chainID == "" {
      return Some(CheckResult(id, false));
    }
    var verdict;
    if direct {
      PanicsOnlyInAmino(g);
      verdict := VerifyDirect(g, p.chainID, GENESIS_ACCOUNT_NUMBER, lib.verify);
    } else {
      verdict := VerifyAminoJSON(g, p.chainID, GENESIS_ACCOUNT_NUMBER, lib.verify);
    }
    if verdict == Panic {
      return None;
    }
    return Some(CheckResult(id, verdict == Accept));
  }

  lemma PanicsOnlyInAmino(g: ParsedGentx)
    ensures AminoPanics(g) ==> g.signer.mode == SIGN_MODE_AMINO_JSON_NAME
  {
  }

  /** A gentx the decoder can produce makes the signature check panic. */
  lemma DecodedGentxCanPanic() returns (g: ParsedGentx)
    ensures AsDecoded(g.signer) && AminoPanics(g)
  {
    var ms := BitCountCheckIsNotEnough();
    var msg := MsgCreateValidator(Description("", "", "", "", ""), CommissionRates("", "", ""), "", "", "",
                                  ED25519_PUB_KEY_TYPE_URL, [], Coin("", ""));
    var signer := SignerInfo(LEGACY_AMINO_PUB_KEY_TYPE_URL, [], SIGN_MODE_AMINO_JSON_NAME, 0, Some(ms));
    g := ParsedGentx(msg, "", 0, signer, Fee([], 0, "", ""), []);
  }
}
