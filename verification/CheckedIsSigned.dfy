/** What the checks accepted is what was signed: the policy holds of the values read from the sign bytes. */
module CheckedIsSigned {
  import opened Basics
  import opened Utf8
  import opened Decimal
  import opened Gentx
  import opened JsonText
  import opened CanonicalPrint
  import opened AminoDocument
  import opened AminoTheorems
  import opened Multisig
  import opened Invariants
  import opened Runner
  import SignDocTables
  import SignDocReader
  import SignedFields
  import AminoFields

  /** The launch's conditions on a bond and on rates in units of 10^-18; malformed constraints are never met. */
  ghost predicate Policy(p: Params, denom: string, amount: Option<int>, rate: nat, maxRate: nat, maxChangeRate: nat) {
    && p.bondDenom != "" && denom == p.bondDenom
    && (p.minSelfDelegation != "" ==>
          && SetString(p.minSelfDelegation).Some?
          && amount.Some?
          && 0 <= SetString(p.minSelfDelegation).value <= amount.value)
    && rate <= maxRate <= DEC_ONE
    && maxChangeRate <= maxRate
    && (p.minCommissionRate != "" ==> DecValue(p.minCommissionRate).Some? && DecValue(p.minCommissionRate).value <= rate)
    && (p.maxCommissionRate != "" ==> DecValue(p.maxCommissionRate).Some? && maxRate <= DecValue(p.maxCommissionRate).value)
    && (p.maxCommissionChangeRate != "" ==>
          DecValue(p.maxCommissionChangeRate).Some? && maxChangeRate <= DecValue(p.maxCommissionChangeRate).value)
  }

  predicate BondAndCommissionOK(g: ParsedGentx, p: Params) {
    && CheckBondDenom(g, p).ok
    && CheckSelfDelegation(g, p).ok
    && CheckCommissionConsistency(g).ok
    && CheckCommissionChangeRate(g).ok
    && CheckCommissionBounds(g, p).ok
  }

  /** The five checks decide the policy on the gentx's own strings. */
  lemma ChecksDecidePolicy(g: ParsedGentx, p: Params)
    ensures var c := g.msg.commission;
            BondAndCommissionOK(g, p) <==>
            && DecValue(c.rate).Some? && DecValue(c.maxRate).Some? && DecValue(c.maxChangeRate).Some?
            && Policy(p, g.msg.value.denom, SetString(g.msg.value.amount), DecValue(c.rate).value,
                      DecValue(c.maxRate).value, DecValue(c.maxChangeRate).value)
  {
    hide DecValue, SetString;
  }

  /** The policy on what a wire reader finds in DIRECT sign bytes. */
  ghost predicate SignedPolicy(p: Params, t: SignDocTables.SignedTx) {
    var c := t.msg.commission;
    Policy(p, t.msg.value.denom, SetString(t.msg.value.amount), c.rate, c.maxRate, c.maxChangeRate)
  }

  /** Over any gentx with DIRECT sign bytes, the checks accept exactly when the signed document meets the policy. */
  lemma DirectChecksDecideSignedPolicy(g: ParsedGentx, p: Params, chainID: string, accountNumber: uint64)
    requires SignDocTables.Encodable(g)
    ensures SignDocTables.DirectWire(g, chainID, accountNumber).Some?
    ensures var t := SignDocReader.ReadSignDoc(SignDocTables.DirectWire(g, chainID, accountNumber).value);
            && t.Some?
            && (BondAndCommissionOK(g, p) <==> SignedPolicy(p, t.value))
  {
    hide DecValue, SetString, Policy, BondAndCommissionOK, IsDecimalByCut, ScaledValue, SignDocReader.ReadSignDoc, SignDocTables.SignDocBytes;
    SignDocReader.SignDocReadsBack(SignDocTables.TxView(g, chainID, accountNumber));
    ChecksDecidePolicy(g, p);
    DecValueIsScaled(g.msg.commission.rate);
    DecValueIsScaled(g.msg.commission.maxRate);
    DecValueIsScaled(g.msg.commission.maxChangeRate);
  }

  /** A run that passes a DIRECT gentx has checked the very document whose bytes the account key signed. */
  lemma DirectCheckedIsSigned(g: ParsedGentx, p: Params, lib: Library)
    returns (signBytes: Bytes, t: SignDocTables.SignedTx)
    requires AllOK(RunAll(Some(g), p, lib)) && g.signer.mode == SIGN_MODE_DIRECT_NAME
    ensures lib.verify(t.signer.pubKey, g.signature, signBytes) == Valid
    ensures SignDocReader.ReadSignDoc(signBytes) == Some(t)
    ensures SignedPolicy(p, t)
    ensures t.chainID == p.chainID && t.chainID != "" && t.accountNumber == 0
    ensures t.signer.pubKeyTypeURL == SECP256K1_PUB_KEY_TYPE_URL && |t.signer.pubKey| == COMPRESSED_PUB_KEY_LEN
    ensures |t.msg.consensusPubKey| == ED25519_PUB_KEY_SIZE && t.msg.description.moniker != ""
    ensures lib.decodeAddress(t.msg.validatorAddress, p.bech32Prefix + "valoper") == SignerAddress(g.signer, lib)
    ensures AsDecoded(g.signer) ==>
              lib.decodeAddress(t.msg.validatorAddress, p.bech32Prefix + "valoper") == Some(lib.hash160(t.signer.pubKey))
  {
    hide SignedPolicy, SignDocReader.ReadSignDoc, SignDocTables.SignDocBytes, SignDocTables.Encodable;
    Passed(g, p, lib);
    signBytes := SignDocTables.DirectWire(g, p.chainID, GENESIS_ACCOUNT_NUMBER).value;
    t := SignDocTables.TxView(g, p.chainID, GENESIS_ACCOUNT_NUMBER);
    SignDocReader.SignDocReadsBack(t);
    DirectChecksDecideSignedPolicy(g, p, p.chainID, GENESIS_ACCOUNT_NUMBER);
  }

  lemma Passed(g: ParsedGentx, p: Params, lib: Library)
    requires AllOK(RunAll(Some(g), p, lib))
    ensures BondAndCommissionOK(g, p)
    ensures CheckMoniker(g, p).ok && CheckOperatorAddress(g, p, lib).ok && CheckConsensusPubKey(g).ok
    ensures CheckSignature(g, p, lib).ok
  {
    hide CheckBondDenom, CheckSelfDelegation, CheckCommissionConsistency, CheckCommissionChangeRate;
    hide CheckCommissionBounds, CheckMoniker, CheckOperatorAddress, CheckConsensusPubKey, CheckSignature;
    var light, rs := LightChecks(g, p, lib), RunAll(Some(g), p, lib);
    assert rs[1] == light[0] && rs[2] == light[1] && rs[3] == light[2] && rs[4] == light[3];
    assert rs[5] == light[4] && rs[6] == light[5] && rs[7] == light[6] && rs[8] == light[7];
    assert rs[9] == CheckSignature(g, p, lib);
  }

  // ---------------------------------------------------------------- amino

  /** The message inside a sign document. */
  function MessageOf(tree: Json): Json {
    var msgs := MemberOf(tree, "msgs");
    MemberOf(if msgs.Arr? && msgs.items != [] then msgs.items[0] else Null, "value")
  }

  /** The policy on the strings of a sign document. */
  ghost predicate DocumentPolicy(p: Params, tree: Json) {
    var commission, value := MemberOf(MessageOf(tree), "commission"), MemberOf(MessageOf(tree), "value");
    var rate, maxRate, maxChangeRate :=
      MemberOf(commission, "rate"), MemberOf(commission, "max_rate"), MemberOf(commission, "max_change_rate");
    var denom, amount := MemberOf(value, "denom"), MemberOf(value, "amount");
    && rate.Str? && maxRate.Str? && maxChangeRate.Str? && denom.Str? && amount.Str?
    && DecValue(rate.s).Some? && DecValue(maxRate.s).Some? && DecValue(maxChangeRate.s).Some?
    && Policy(p, denom.s, SetString(amount.s), DecValue(rate.s).value, DecValue(maxRate.s).value, DecValue(maxChangeRate.s).value)
  }

  /** The checks accept exactly when the policy holds of the strings in the amino sign document. */
  lemma AminoChecksDecideDocumentPolicy(g: ParsedGentx, p: Params, chainID: string, accountNumber: uint64)
    ensures BondAndCommissionOK(g, p) <==> DocumentPolicy(p, Tree(AminoDoc(AminoView(g, chainID, accountNumber))))
  {
    hide DecValue, SetString, Policy, BondAndCommissionOK, MemberOf, AminoDoc, Tree, Kept;
    ChecksDecidePolicy(g, p);
    DocumentDescribes(AminoView(g, chainID, accountNumber));
  }

  /**
   A sign document fit for the launch: made for its chain and the genesis account number, within its policy, and
   naming as operator the account whose key or keys the gentx is signed with.
   */
  ghost predicate MeetsLaunch(g: ParsedGentx, p: Params, lib: Library, tree: Json) {
    var operator := MemberOf(MessageOf(tree), "validator_address");
    && MemberOf(tree, "chain_id") == Str(p.chainID) && p.chainID != ""
    && MemberOf(tree, "account_number") == Str("0")
    && DocumentPolicy(p, tree)
    && operator.Str?
    && SignerAddress(g.signer, lib).Some?
    && lib.decodeAddress(operator.s, p.bech32Prefix + "valoper") == SignerAddress(g.signer, lib)
  }

  /**
   A run that passes an amino gentx has checked the document whose text was signed: by the account key, or by
   at least threshold distinct members of the account's multisignature.
   */
  lemma AminoCheckedIsSigned(g: ParsedGentx, p: Params, lib: Library, norm: Normaliser)
    returns (text: string, who: set<nat>)
    requires AllOK(RunAll(Some(g), p, lib)) && g.signer.mode == SIGN_MODE_AMINO_JSON_NAME
    ensures CanonicalText(norm, text) == Some(text)
    ensures Denote(norm, text).Some?
    ensures MeetsLaunch(g, p, lib, Denote(norm, text).value)
    ensures g.signer.multisig.None? ==> lib.verify(g.signer.pubKey, g.signature, ToUtf8(text)) == Valid
    ensures g.signer.multisig.Some? ==>
              && |who| >= g.signer.multisig.value.threshold
              && forall i | i in who :: MemberSigned(g.signer.multisig.value, g.signature, ToUtf8(text), lib.verify, i)
  {
    hide CanonicalText, Denote, IsMultiSigned, MeetsLaunch, AminoText, AminoDoc, MemberSigned, ToUtf8, Tree, RunAll, AllOK,
      BondAndCommissionOK, CheckMoniker, CheckOperatorAddress, CheckConsensusPubKey, CheckSignature;
    var t := AminoView(g, p.chainID, GENESIS_ACCOUNT_NUMBER);
    text := AminoText(t);
    who := {};
    AminoTextIsCanonical(norm, t);
    Passed(g, p, lib);
    PassedSignature(g, p, lib);
    PassedDocument(g, p, lib);
    if g.signer.multisig.Some? {
      who := ThresholdMembersSigned(g.signer.multisig.value, g.signature, ToUtf8(text), lib.verify);
    }
  }

  lemma PassedDocument(g: ParsedGentx, p: Params, lib: Library)
    requires p.chainID != "" && BondAndCommissionOK(g, p) && CheckOperatorAddress(g, p, lib).ok
    ensures MeetsLaunch(g, p, lib, Tree(AminoDoc(AminoView(g, p.chainID, GENESIS_ACCOUNT_NUMBER))))
  {
    hide DocumentPolicy, AminoAccepted, MemberOf, AminoDoc, BondAndCommissionOK, Tree, DescribesFee, DescribesCommission,
      DescribesValidator, DescribesCoin, SignerAddress;
    DocumentDescribes(AminoView(g, p.chainID, GENESIS_ACCOUNT_NUMBER));
    AminoChecksDecideDocumentPolicy(g, p, p.chainID, GENESIS_ACCOUNT_NUMBER);
  }

  lemma PassedSignature(g: ParsedGentx, p: Params, lib: Library)
    requires CheckSignature(g, p, lib).ok && g.signer.mode == SIGN_MODE_AMINO_JSON_NAME
    ensures p.chainID != ""
    ensures var signBytes := ToUtf8(AminoText(AminoView(g, p.chainID, GENESIS_ACCOUNT_NUMBER)));
            match g.signer.multisig
            case Some(ms) => IsMultiSigned(ms, g.signature, signBytes, lib.verify)
            case None => lib.verify(g.signer.pubKey, g.signature, signBytes) == Valid
  {
    hide AminoText, ToUtf8, IsMultiSigned;
  }

  // ---------------------------------------------------------------- either mode

  /** The account's key has signed bytes that hold the gentx and read back as a document within the launch's policy. */
  ghost predicate SignedAsDocument(g: ParsedGentx, p: Params, lib: Library, signBytes: Bytes) {
    && lib.verify(g.signer.pubKey, g.signature, signBytes) == Valid
    && SignedFields.HoldsGentx(signBytes, g, p.chainID, 0)
    && SignDocReader.ReadSignDoc(signBytes).Some?
    && SignedPolicy(p, SignDocReader.ReadSignDoc(signBytes).value)
  }

  /**
   The account's key, or at least threshold members of its multisignature, have signed a text that holds the gentx
   and is fit for the launch.
   */
  ghost predicate SignedAsText(g: ParsedGentx, p: Params, lib: Library, signBytes: Bytes, who: set<nat>) {
    && AminoFields.HoldsDocument(signBytes, g, p.chainID, 0)
    && MeetsLaunch(g, p, lib, ParseText(FromUtf8(signBytes).value).value)
    && match g.signer.multisig
       case None => lib.verify(g.signer.pubKey, g.signature, signBytes) == Valid
       case Some(ms) =>
         && |who| >= ms.threshold
         && forall i | i in who :: MemberSigned(ms, g.signature, signBytes, lib.verify, i)
  }

  /** Whatever sign mode it declares, a gentx that passes has had its very fields signed for this launch. */
  lemma PassedIsSigned(g: ParsedGentx, p: Params, lib: Library) returns (signBytes: Bytes, who: set<nat>)
    requires AllOK(RunAll(Some(g), p, lib))
    ensures p.chainID != ""
    ensures g.signer.mode == "SIGN_MODE_DIRECT" || g.signer.mode == "SIGN_MODE_LEGACY_AMINO_JSON"
    ensures g.signer.mode == "SIGN_MODE_DIRECT" ==> SignedAsDocument(g, p, lib, signBytes)
    ensures g.signer.mode == "SIGN_MODE_LEGACY_AMINO_JSON" ==> SignedAsText(g, p, lib, signBytes, who)
  {
    hide RunAll, AllOK, BondedEnough, AtMost, OperatedByAccount, DirectlySigned, AminoSigned, SignedAsDocument, SignedAsText;
    RunReports(g, p, lib);
    who := {};
    if g.signer.mode == "SIGN_MODE_DIRECT" {
      signBytes := PassedDirect(g, p, lib);
    } else {
      signBytes, who := PassedAmino(g, p, lib);
    }
    ChainIsSet(g, p, lib);
  }

  lemma ChainIsSet(g: ParsedGentx, p: Params, lib: Library)
    requires DirectlySigned(g, p, lib) || AminoSigned(g, p, lib)
    ensures p.chainID != ""
  {
  }

  lemma PassedDirect(g: ParsedGentx, p: Params, lib: Library) returns (signBytes: Bytes)
    requires AllOK(RunAll(Some(g), p, lib)) && g.signer.mode == "SIGN_MODE_DIRECT"
    ensures SignedAsDocument(g, p, lib, signBytes)
  {
    hide RunAll, AllOK, SignedPolicy, SignDocReader.ReadSignDoc, SignedFields.HoldsGentx, BondAndCommissionOK,
      SignDocTables.Encodable, SignDocTables.SignDocBytes, CheckMoniker, CheckOperatorAddress, CheckConsensusPubKey;
    Passed(g, p, lib);
    signBytes := SignDocTables.DirectWire(g, p.chainID, 0).value;
    SignedFields.GentxHeld(g, p.chainID, 0);
    DirectChecksDecideSignedPolicy(g, p, p.chainID, 0);
  }

  lemma PassedAmino(g: ParsedGentx, p: Params, lib: Library) returns (signBytes: Bytes, who: set<nat>)
    requires AllOK(RunAll(Some(g), p, lib)) && g.signer.mode == "SIGN_MODE_LEGACY_AMINO_JSON"
    ensures SignedAsText(g, p, lib, signBytes, who)
  {
    hide RunAll, AllOK, MeetsLaunch, AminoFields.HoldsGentx, MemberSigned, ToUtf8, FromUtf8, ParseText, Print, IsMultiSigned,
      AminoText, AminoDoc, Tree, BondAndCommissionOK, CheckMoniker, CheckOperatorAddress, CheckConsensusPubKey, CheckSignature;
    var t := AminoView(g, p.chainID, 0);
    Passed(g, p, lib);
    PassedSignature(g, p, lib);
    PassedDocument(g, p, lib);
    AminoFields.DocumentHeld(g, p.chainID, 0);
    TextParses(t);
    signBytes := ToUtf8(AminoText(t));
    who := {};
    if g.signer.multisig.Some? {
      who := ThresholdMembersSigned(g.signer.multisig.value, g.signature, signBytes, lib.verify);
    }
  }

  lemma TextParses(t: AminoTx)
    ensures FromUtf8(ToUtf8(AminoText(t))) == Some(AminoText(t))
    ensures ParseText(AminoText(t)) == Some(Tree(AminoDoc(t)))
  {
    hide AminoDoc, MarshalDoc, Tree, Ordered, ParseText, ToUtf8, FromUtf8;
    RoundTrip(AminoText(t));
    AminoDocOrdered(t);
    OrderedParses(AminoDoc(t));
  }
}
