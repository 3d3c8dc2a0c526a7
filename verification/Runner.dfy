/**
 The server's run (gentxvalidate/runner.go): what every invariant demands, and the runner proved to report exactly
 that, result by result.
 */
module Runner {
  import opened Basics
  import opened Utf8
  import opened Decimal
  import opened Gentx
  import opened Multisig
  import opened Invariants
  import SignDocTables
  import SignedFields
  import AminoDocument
  import AminoFields

  // ---------------------------------------------------------------- what every invariant demands

  /** The address of the signing account: of its one secp256k1 key, or of its multisignature. */
  ghost predicate IsAccount(s: SignerInfo, lib: Library, address: Bytes) {
    match s.multisig
    case None =>
      s.pubKeyTypeURL == "/cosmos.crypto.secp256k1.PubKey" && |s.pubKey| == 33 && address == lib.hash160(s.pubKey)
    case Some(ms) =>
      && AddressPreimage(ms).Some?
      && HoldsMembers(AddressPreimage(ms).value, ms)
      && address == lib.sha256(AddressPreimage(ms).value)[..20]
  }

  /** The account's one key has signed the DIRECT bytes of the gentx for the launch's chain and account number zero. */
  ghost predicate DirectlySigned(g: ParsedGentx, p: Params, lib: Library) {
    && p.chainID != ""
    && SignDocTables.DirectWire(g, p.chainID, 0).Some?
    && var signBytes := SignDocTables.DirectWire(g, p.chainID, 0).value;
    && SignedFields.HoldsGentx(signBytes, g, p.chainID, 0)
    && SingleOutcome(g, signBytes, lib.verify, Valid)
  }

  /** The account's key, or threshold members of its multisignature, have signed the amino document likewise. */
  ghost predicate AminoSigned(g: ParsedGentx, p: Params, lib: Library) {
    && p.chainID != ""
    && AminoDocument.AminoWire(g, p.chainID, 0).Some?
    && var signBytes := AminoDocument.AminoWire(g, p.chainID, 0).value;
    && AminoFields.HoldsDocument(signBytes, g, p.chainID, 0)
    && match g.signer.multisig
       case Some(ms) => IsMultiSigned(ms, g.signature, signBytes, lib.verify)
       case None => SingleOutcome(g, signBytes, lib.verify, Valid)
  }

  /** The self-bond is at least the launch's floor, if it declares one. */
  ghost predicate BondedEnough(g: ParsedGentx, p: Params) {
    p.minSelfDelegation != "" ==>
      exists floor, amount ::
        && IsInteger(p.minSelfDelegation, floor) && IsInteger(g.msg.value.amount, amount)
        && 0 <= floor <= amount
  }

  ghost predicate OperatedByAccount(g: ParsedGentx, p: Params, lib: Library) {
    && p.bech32Prefix != ""
    && exists address ::
         && IsAccount(g.signer, lib, address)
         && lib.decodeAddress(g.msg.validatorAddress, p.bech32Prefix + "valoper") == Some(address)
         && (g.msg.delegatorAddress != "" ==> lib.decodeAddress(g.msg.delegatorAddress, p.bech32Prefix) == Some(address))
  }

  /** What each invariant demands of a decoded gentx. */
  ghost predicate Meets(id: Invariant, g: ParsedGentx, p: Params, lib: Library) {
    var c := g.msg.commission;
    match id
    case WellFormed => true
    case BondDenom => p.bondDenom != "" && g.msg.value.denom == p.bondDenom
    case SelfDelegation => BondedEnough(g, p)
    case CommissionConsistency => AtMost(c.rate, c.maxRate) && ValueOf(c.maxRate) <= 1.0
    case CommissionChangeRate => AtMost(c.maxChangeRate, c.maxRate)
    case CommissionBounds =>
      && IsDecimal(c.rate)
      && (p.minCommissionRate != "" ==> AtMost(p.minCommissionRate, c.rate))
      && (p.maxCommissionRate != "" ==> AtMost(c.rate, p.maxCommissionRate) && AtMost(c.maxRate, p.maxCommissionRate))
      && (p.maxCommissionChangeRate != "" ==> AtMost(c.maxChangeRate, p.maxCommissionChangeRate))
    case Moniker =>
      var m := g.msg.description.moniker;
      && m != "" && |ToUtf8(m)| <= (if p.maxMonikerLen <= 0 then 70 else p.maxMonikerLen)
      && forall i | 0 <= i < |m| :: 0x20 <= m[i] as int < 0x7F || 0xA0 <= m[i] as int
    case OperatorAddress => OperatedByAccount(g, p, lib)
    case ConsensusPubKey =>
      && |g.msg.consensusPubKey| == 32
      && exists prefix :: g.msg.consensusPubKeyTypeURL == prefix + "ed25519.PubKey"
    case SignatureDirect => g.signer.mode == "SIGN_MODE_DIRECT" && DirectlySigned(g, p, lib)
    case SignatureAminoJSON => g.signer.mode == "SIGN_MODE_LEGACY_AMINO_JSON" && AminoSigned(g, p, lib)
    case SignatureUnsupportedMode => false
  }

  /** The invariant a declared sign mode reports under. */
  function SignatureInvariant(mode: string): Invariant {
    if mode == "SIGN_MODE_DIRECT" then SignatureDirect
    else if mode == "SIGN_MODE_LEGACY_AMINO_JSON" then SignatureAminoJSON
    else SignatureUnsupportedMode
  }

  /** One result per invariant in a fixed order, each passed exactly when the gentx meets it. */
  ghost predicate Reports(results: seq<CheckResult>, g: ParsedGentx, p: Params, lib: Library) {
    && |results| == 10
    && (forall i | 0 <= i < 10 ::
          results[i].id == [ WellFormed, BondDenom, SelfDelegation, CommissionConsistency, CommissionChangeRate,
                             CommissionBounds, Moniker, OperatorAddress, ConsensusPubKey,
                             SignatureInvariant(g.signer.mode) ][i])
    && (forall i | 0 <= i < 10 :: results[i].ok <==> Meets(results[i].id, g, p, lib))
  }

  /** A gentx that meets every invariant, its signature by one of the two supported modes. */
  ghost predicate Passes(g: ParsedGentx, p: Params, lib: Library) {
    && Meets(BondDenom, g, p, lib)
    && Meets(SelfDelegation, g, p, lib)
    && Meets(CommissionConsistency, g, p, lib)
    && Meets(CommissionChangeRate, g, p, lib)
    && Meets(CommissionBounds, g, p, lib)
    && Meets(Moniker, g, p, lib)
    && Meets(OperatorAddress, g, p, lib)
    && Meets(ConsensusPubKey, g, p, lib)
    && (Meets(SignatureDirect, g, p, lib) || Meets(SignatureAminoJSON, g, p, lib))
  }

  // ---------------------------------------------------------------- the checks decide what is demanded

  lemma SelfDelegationDecided(g: ParsedGentx, p: Params, lib: Library)
    ensures CheckSelfDelegation(g, p) == CheckResult(SelfDelegation, Meets(SelfDelegation, g, p, lib))
  {
    hide SetString, IsInteger;
    var floor, amount := SetString(p.minSelfDelegation), SetString(g.msg.value.amount);
    if floor.Some? {
      SetStringExactly(p.minSelfDelegation, floor.value);
    }
    if amount.Some? {
      SetStringExactly(g.msg.value.amount, amount.value);
    }
    if p.minSelfDelegation != "" && BondedEnough(g, p) {
      var m, n :| IsInteger(p.minSelfDelegation, m) && IsInteger(g.msg.value.amount, n) && 0 <= m <= n;
      SetStringExactly(p.minSelfDelegation, m);
      SetStringExactly(g.msg.value.amount, n);
    }
  }

  lemma CommissionDecided(g: ParsedGentx, p: Params, lib: Library)
    ensures CheckCommissionConsistency(g) == CheckResult(CommissionConsistency, Meets(CommissionConsistency, g, p, lib))
    ensures CheckCommissionChangeRate(g) == CheckResult(CommissionChangeRate, Meets(CommissionChangeRate, g, p, lib))
  {
    hide DecValue, ValueOf, AtMost, IsDecimal;
    var c := g.msg.commission;
    DecValuesInOrder(c.rate, c.maxRate);
    DecValuesInOrder(c.maxChangeRate, c.maxRate);
    if DecValue(c.maxRate).Some? {
      DecValueAtMostOne(c.maxRate);
    }
  }

  lemma BoundsDecided(g: ParsedGentx, p: Params, lib: Library)
    ensures CheckCommissionBounds(g, p) == CheckResult(CommissionBounds, Meets(CommissionBounds, g, p, lib))
  {
    hide DecValue, ValueOf, AtMost, IsDecimal;
    var c := g.msg.commission;
    DecValueExactly(c.rate);
    DecValuesInOrder(p.minCommissionRate, c.rate);
    DecValuesInOrder(c.rate, p.maxCommissionRate);
    DecValuesInOrder(c.maxRate, p.maxCommissionRate);
    DecValuesInOrder(c.maxChangeRate, p.maxCommissionChangeRate);
  }

  lemma MonikerDecided(g: ParsedGentx, p: Params, lib: Library)
    ensures CheckMoniker(g, p) == CheckResult(Moniker, Meets(Moniker, g, p, lib))
  {
    hide ToUtf8;
  }

  lemma AccountDecided(s: SignerInfo, lib: Library, address: Bytes)
    ensures IsAccount(s, lib, address) <==> SignerAddress(s, lib) == Some(address)
  {
    hide AddressPreimage, HoldsMembers;
    if s.multisig.Some? && AddressPreimage(s.multisig.value).Some? {
      PreimageReadsBack(s.multisig.value);
    }
  }

  lemma OperatorDecided(g: ParsedGentx, p: Params, lib: Library)
    ensures CheckOperatorAddress(g, p, lib) == CheckResult(OperatorAddress, Meets(OperatorAddress, g, p, lib))
  {
    hide SignerAddress, IsAccount;
    var derived := SignerAddress(g.signer, lib);
    if derived.Some? {
      AccountDecided(g.signer, lib, derived.value);
    }
    if OperatedByAccount(g, p, lib) {
      var address :|
        && IsAccount(g.signer, lib, address)
        && lib.decodeAddress(g.msg.validatorAddress, p.bech32Prefix + "valoper") == Some(address)
        && (g.msg.delegatorAddress != "" ==> lib.decodeAddress(g.msg.delegatorAddress, p.bech32Prefix) == Some(address));
      AccountDecided(g.signer, lib, address);
    }
  }

  lemma ConsensusKeyDecided(g: ParsedGentx, p: Params, lib: Library)
    ensures CheckConsensusPubKey(g) == CheckResult(ConsensusPubKey, Meets(ConsensusPubKey, g, p, lib))
  {
    var url, suffix := g.msg.consensusPubKeyTypeURL, "ed25519.PubKey";
    if HasSuffix(url, suffix) {
      assert url == url[..|url| - |suffix|] + suffix;
    }
    forall prefix | url == prefix + suffix ensures HasSuffix(url, suffix) {
      DropPrefix(prefix, suffix);
    }
  }

  lemma SignatureDecided(g: ParsedGentx, p: Params, lib: Library)
    ensures var id := SignatureInvariant(g.signer.mode); CheckSignature(g, p, lib) == CheckResult(id, Meets(id, g, p, lib))
  {
    hide SignedFields.HoldsGentx, AminoFields.HoldsDocument, IsMultiSigned, SignDocTables.Encodable, SignDocTables.SignDocBytes,
      SingleOutcome, AminoDocument.AminoText, ToUtf8;
    if SignDocTables.Encodable(g) {
      SignedFields.GentxHeld(g, p.chainID, 0);
    }
    AminoFields.DocumentHeld(g, p.chainID, 0);
  }

  /** What is reported is what is demanded. */
  lemma RunReports(g: ParsedGentx, p: Params, lib: Library)
    ensures Reports(RunAll(Some(g), p, lib), g, p, lib)
    ensures AllOK(RunAll(Some(g), p, lib)) <==> Passes(g, p, lib)
  {
    hide RunAll, Meets, SignatureInvariant;
    EachDecided(g, p, lib);
    OneModeMeets(g, p, lib);
    var rs := RunAll(Some(g), p, lib);
    assert AllOK(rs) <==>
        rs[0].ok && rs[1].ok && rs[2].ok && rs[3].ok && rs[4].ok && rs[5].ok && rs[6].ok && rs[7].ok && rs[8].ok && rs[9].ok;
  }

  lemma EachDecided(g: ParsedGentx, p: Params, lib: Library)
    ensures var rs, id := RunAll(Some(g), p, lib), SignatureInvariant(g.signer.mode);
            && |rs| == 10
            && rs[0] == CheckResult(WellFormed, true) && Meets(WellFormed, g, p, lib)
            && rs[1] == CheckResult(BondDenom, Meets(BondDenom, g, p, lib))
            && rs[2] == CheckResult(SelfDelegation, Meets(SelfDelegation, g, p, lib))
            && rs[3] == CheckResult(CommissionConsistency, Meets(CommissionConsistency, g, p, lib))
            && rs[4] == CheckResult(CommissionChangeRate, Meets(CommissionChangeRate, g, p, lib))
            && rs[5] == CheckResult(CommissionBounds, Meets(CommissionBounds, g, p, lib))
            && rs[6] == CheckResult(Moniker, Meets(Moniker, g, p, lib))
            && rs[7] == CheckResult(OperatorAddress, Meets(OperatorAddress, g, p, lib))
            && rs[8] == CheckResult(ConsensusPubKey, Meets(ConsensusPubKey, g, p, lib))
            && rs[9] == CheckResult(id, Meets(id, g, p, lib))
  {
    hide CheckBondDenom, CheckSelfDelegation, CheckCommissionConsistency, CheckCommissionChangeRate, CheckCommissionBounds,
      CheckMoniker, CheckOperatorAddress, CheckConsensusPubKey, CheckSignature, RunAll, Meets, SignatureInvariant;
    TenResults(g, p, lib);
    BondDenomDecided(g, p, lib);
    SelfDelegationDecided(g, p, lib);
    CommissionDecided(g, p, lib);
    BoundsDecided(g, p, lib);
    MonikerDecided(g, p, lib);
    OperatorDecided(g, p, lib);
    ConsensusKeyDecided(g, p, lib);
    SignatureDecided(g, p, lib);
  }

  lemma BondDenomDecided(g: ParsedGentx, p: Params, lib: Library)
    ensures CheckBondDenom(g, p) == CheckResult(BondDenom, Meets(BondDenom, g, p, lib)) && Meets(WellFormed, g, p, lib)
  {
  }

  /** Of the two signature invariants only the one of the declared mode can be met. */
  lemma OneModeMeets(g: ParsedGentx, p: Params, lib: Library)
    ensures Meets(SignatureDirect, g, p, lib) || Meets(SignatureAminoJSON, g, p, lib)
            <==> Meets(SignatureInvariant(g.signer.mode), g, p, lib)
  {
    hide DirectlySigned, AminoSigned;
  }

  lemma TenResults(g: ParsedGentx, p: Params, lib: Library)
    ensures var rs := RunAll(Some(g), p, lib);
            && |rs| == 10
            && rs[0] == CheckResult(WellFormed, true)
            && rs[1] == CheckBondDenom(g, p)
            && rs[2] == CheckSelfDelegation(g, p)
            && rs[3] == CheckCommissionConsistency(g)
            && rs[4] == CheckCommissionChangeRate(g)
            && rs[5] == CheckCommissionBounds(g, p)
            && rs[6] == CheckMoniker(g, p)
            && rs[7] == CheckOperatorAddress(g, p, lib)
            && rs[8] == CheckConsensusPubKey(g)
            && rs[9] == CheckSignature(g, p, lib)
  {
    hide CheckBondDenom, CheckSelfDelegation, CheckCommissionConsistency, CheckCommissionChangeRate, CheckCommissionBounds;
    hide CheckMoniker, CheckOperatorAddress, CheckConsensusPubKey, CheckSignature;
  }

  // ---------------------------------------------------------------- the runner

  function LightChecks(g: ParsedGentx, p: Params, lib: Library): seq<CheckResult> {
    [ CheckBondDenom(g, p),
      CheckSelfDelegation(g, p),
      CheckCommissionConsistency(g),
      CheckCommissionChangeRate(g),
      CheckCommissionBounds(g, p),
      CheckMoniker(g, p),
      CheckOperatorAddress(g, p, lib),
      CheckConsensusPubKey(g) ]
  }

  /** What RunAll reports on the decoder's outcome: a failure to decode is the only result. */
  ghost function RunAll(decoded: Option<ParsedGentx>, p: Params, lib: Library): seq<CheckResult> {
    match decoded
    case None => [CheckResult(WellFormed, false)]
    case Some(g) => [CheckResult(WellFormed, true)] + LightChecks(g, p, lib) + [CheckSignature(g, p, lib)]
  }

  predicate AllOK(results: seq<CheckResult>) {
    forall i | 0 <= i < |results| :: results[i].ok
  }

  /**
   The run reports what every invariant demands, on every input except, under a set chain-id, the gentxs whose
   multisignature makes the verifier panic; it passes exactly the gentxs that meet them all.
   */
  method RunChecks(decoded: Option<ParsedGentx>, p: Params, lib: Library) returns (results: Option<seq<CheckResult>>)
    ensures results.None? <==> decoded.Some? && p.chainID != "" && AminoPanics(decoded.value)
    ensures results.Some? && decoded.None? ==> results.value == [CheckResult(WellFormed, false)]
    ensures results.Some? && decoded.Some? ==> Reports(results.value, decoded.value, p, lib)
    ensures results.Some? ==> (AllOK(results.value) <==> decoded.Some? && Passes(decoded.value, p, lib))
    ensures results.Some? ==> results.value == RunAll(decoded, p, lib)
  {
    hide AminoPanics, CheckSignature, LightChecks, Reports, Passes;
    if decoded.None? {
      results := Some([CheckResult(WellFormed, false)]);
      assert !results.value[0].ok;
      return;
    }
    var g := decoded.value;
    var light := [CheckResult(WellFormed, true)] + LightChecks(g, p, lib);
    var signature :- RunCheckSignature(g, p, lib);
    RunReports(g, p, lib);
    return Some(light + [signature]);
  }
}
