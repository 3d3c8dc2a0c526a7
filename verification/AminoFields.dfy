/**
 Which members the amino sign document has and what each holds: the json names of the structs of
 gentxvalidate/aminosigndoc.go, an empty optional field being no member at all.
 */
module AminoFields {
  import opened Basics
  import opened Utf8
  import opened StringOrder
  import opened Decimal
  import opened Gentx
  import opened JsonText
  import opened CanonicalPrint
  import opened AminoDocument
  import opened AminoTheorems
  import Base64

  // ---------------------------------------------------------------- what each object holds

  /** An object with exactly these members. */
  ghost predicate HasNames(v: Json, names: set<string>) {
    v.Obj? && v.members.Keys == names
  }

  function When(present: bool, name: string): set<string> {
    if present then {name} else {}
  }

  function Field(v: Json, name: string): Json {
    if v.Obj? && name in v.members then v.members[name] else Null
  }

  ghost predicate HoldsText(v: Json, name: string, s: string) {
    Field(v, name) == Str(s)
  }

  /** A text holding the numeral of `n` without leading zeros. */
  ghost predicate HoldsNumber(v: Json, name: string, n: nat) {
    && Field(v, name).Str?
    && var s := Field(v, name).s;
    && IsDigits(s) && (s == "0" || s[0] != '0') && NatOf(s) == n
  }

  ghost predicate HoldsCoin(v: Json, c: Coin) {
    && HasNames(v, {"amount", "denom"})
    && HoldsText(v, "amount", c.amount)
    && HoldsText(v, "denom", c.denom)
  }

  ghost predicate HoldsFee(v: Json, amount: seq<Coin>, gas: nat) {
    && HasNames(v, {"amount", "gas"})
    && Field(v, "amount").Arr?
    && var coins := Field(v, "amount").items;
    && |coins| == |amount|
    && (forall i | 0 <= i < |coins| :: HoldsCoin(coins[i], amount[i]))
    && HoldsNumber(v, "gas", gas)
  }

  ghost predicate HoldsCommission(v: Json, c: CommissionRates) {
    && HasNames(v, {"max_change_rate", "max_rate", "rate"})
    && HoldsText(v, "max_change_rate", c.maxChangeRate)
    && HoldsText(v, "max_rate", c.maxRate)
    && HoldsText(v, "rate", c.rate)
  }

  ghost predicate HoldsDescription(v: Json, d: Description) {
    && HasNames(v, When(d.details != "", "details") + When(d.identity != "", "identity") + When(d.moniker != "", "moniker")
                   + When(d.securityContact != "", "security_contact") + When(d.website != "", "website"))
    && (d.details != "" ==> HoldsText(v, "details", d.details))
    && (d.identity != "" ==> HoldsText(v, "identity", d.identity))
    && (d.moniker != "" ==> HoldsText(v, "moniker", d.moniker))
    && (d.securityContact != "" ==> HoldsText(v, "security_contact", d.securityContact))
    && (d.website != "" ==> HoldsText(v, "website", d.website))
  }

  ghost predicate HoldsConsensusKey(v: Json, key: Bytes) {
    && HasNames(v, {"type", "value"})
    && HoldsText(v, "type", "tendermint/PubKeyEd25519")
    && Field(v, "value").Str?
    && Base64.Decode(Field(v, "value").s) == Some(key)
  }

  ghost predicate HoldsMsg(v: Json, m: MsgCreateValidator) {
    && HasNames(v, {"commission", "description", "min_self_delegation", "pubkey", "value"}
                   + When(m.delegatorAddress != "", "delegator_address") + When(m.validatorAddress != "", "validator_address"))
    && HoldsCommission(Field(v, "commission"), m.commission)
    && (m.delegatorAddress != "" ==> HoldsText(v, "delegator_address", m.delegatorAddress))
    && HoldsDescription(Field(v, "description"), m.description)
    && HoldsText(v, "min_self_delegation", m.minSelfDelegation)
    && HoldsConsensusKey(Field(v, "pubkey"), m.consensusPubKey)
    && (m.validatorAddress != "" ==> HoldsText(v, "validator_address", m.validatorAddress))
    && HoldsCoin(Field(v, "value"), m.value)
  }

  /** The StdSignDoc of a gentx. */
  ghost predicate HoldsGentx(v: Json, g: ParsedGentx, chainID: string, accountNumber: uint64) {
    && HasNames(v, {"account_number", "chain_id", "fee", "memo", "msgs", "sequence"}
                   + When(g.timeoutHeight != 0, "timeout_height"))
    && HoldsNumber(v, "account_number", accountNumber)
    && HoldsText(v, "chain_id", chainID)
    && HoldsFee(Field(v, "fee"), g.fee.amount, g.fee.gasLimit)
    && HoldsText(v, "memo", g.memo)
    && Field(v, "msgs").Arr? && |Field(v, "msgs").items| == 1
    && HasNames(Field(v, "msgs").items[0], {"type", "value"})
    && HoldsText(Field(v, "msgs").items[0], "type", "cosmos-sdk/MsgCreateValidator")
    && HoldsMsg(Field(Field(v, "msgs").items[0], "value"), g.msg)
    && HoldsNumber(v, "sequence", g.signer.sequence)
    && (g.timeoutHeight != 0 ==> HoldsNumber(v, "timeout_height", g.timeoutHeight))
  }

  /** The bytes are a canonical JSON text of the StdSignDoc. */
  ghost predicate HoldsDocument(b: Bytes, g: ParsedGentx, chainID: string, accountNumber: uint64) {
    && FromUtf8(b).Some?
    && ParseText(FromUtf8(b).value).Some?
    && HoldsGentx(ParseText(FromUtf8(b).value).value, g, chainID, accountNumber)
    && b == ToUtf8(Print(ParseText(FromUtf8(b).value).value))
  }

  // ---------------------------------------------------------------- names of a struct

  /** The names of the fields kept among the first `k`. */
  function NamesUpTo(fs: seq<Tagged>, k: nat): set<string>
    requires k <= |fs|
  {
    if k == 0 then {} else NamesUpTo(fs, k - 1) + When(IsKept(fs[k - 1]), fs[k - 1].name)
  }

  lemma {:induction false} NamedUpTo(fs: seq<Tagged>, k: nat, name: string)
    requires k <= |fs|
    ensures name in NamesUpTo(fs, k) <==> exists i :: 0 <= i < k && IsKept(fs[i]) && fs[i].name == name
  {
    hide IsKept;
    if k > 0 {
      NamedUpTo(fs, k - 1, name);
    }
  }

  /** A struct's object has the names of its kept fields. */
  lemma KeptNames(fs: seq<Tagged>)
    requires Ordered(Struct(Kept(fs)))
    ensures HasNames(Tree(Struct(Kept(fs))), NamesUpTo(fs, |fs|))
  {
    hide Kept, Tree, NamesUpTo, IsKept, Less;
    var kept := Kept(fs);
    StructMembers(kept);
    StructTree(kept);
    var names := Names(kept);
    forall name ensures name in Elements(names) <==> name in NamesUpTo(fs, |fs|) {
      KeptName(fs, name);
      InElements(name, names);
    }
  }

  lemma KeptName(fs: seq<Tagged>, name: string)
    ensures name in Names(Kept(fs)) <==> name in NamesUpTo(fs, |fs|)
  {
    hide Kept, NamesUpTo, IsKept;
    var kept := Kept(fs);
    NamedUpTo(fs, |fs|, name);
    if name in Names(kept) {
      var k :| 0 <= k < |kept| && Names(kept)[k] == name;
      var i := KeptOrigin(fs, k);
    }
    if name in NamesUpTo(fs, |fs|) {
      var i :| 0 <= i < |fs| && IsKept(fs[i]) && fs[i].name == name;
      var k := KeptIndex(fs, i);
      assert Names(kept)[k] == name;
    }
  }

  lemma PlainNames(fields: seq<(string, Doc)>)
    requires Ordered(Struct(fields))
    ensures HasNames(Tree(Struct(fields)), Elements(Names(fields)))
  {
    hide Tree, Less;
    StructMembers(fields);
    StructTree(fields);
  }

  // ---------------------------------------------------------------- every object holds its fields

  lemma TwoNames(a: string, x: Doc, b: string, y: Doc)
    requires Ordered(Struct([(a, x), (b, y)]))
    ensures HasNames(Tree(Struct([(a, x), (b, y)])), {a, b})
  {
    hide Tree, Ordered;
    PlainNames([(a, x), (b, y)]);
    assert Names([(a, x), (b, y)]) == [a, b];
    assert Elements([a, b]) == {a, b} by {
      assert [a, b][0] == a && [a, b][1] == b;
    }
  }

  lemma CoinHeld(c: Coin)
    ensures HoldsCoin(Tree(CoinDoc(c)), c)
  {
    hide Tree, Ordered, Less;
    CoinOrdered(c);
    TwoNames("amount", Text(c.amount), "denom", Text(c.denom));
    CoinDescribed(c);
  }

  lemma CommissionHeld(c: CommissionRates)
    ensures HoldsCommission(Tree(CommissionDoc(c)), c)
  {
    hide Tree, Ordered, Less;
    CommissionOrdered(c);
    var fields := CommissionDoc(c).fields;
    PlainNames(fields);
    var names := ["max_change_rate", "max_rate", "rate"];
    assert Names(fields) == names;
    assert Elements(names) == {"max_change_rate", "max_rate", "rate"} by {
      assert names[0] == "max_change_rate" && names[1] == "max_rate" && names[2] == "rate";
    }
    CommissionDescribed(c);
  }

  lemma DescriptionHeld(d: Description)
    ensures HoldsDescription(Tree(Struct(Kept(DescriptionFields(d)))), d)
  {
    hide Tree, Ordered, Less, Kept;
    var fs := DescriptionFields(d);
    DescriptionOrdered(d);
    KeptNames(fs);
    assert NamesUpTo(fs, 1) == When(d.details != "", "details");
    assert NamesUpTo(fs, 2) == NamesUpTo(fs, 1) + When(d.identity != "", "identity");
    assert NamesUpTo(fs, 3) == NamesUpTo(fs, 2) + When(d.moniker != "", "moniker");
    assert NamesUpTo(fs, 4) == NamesUpTo(fs, 3) + When(d.securityContact != "", "security_contact");
    DescriptionDescribed(d);
  }

  lemma ConsensusKeyHeld(key: Bytes)
    ensures HoldsConsensusKey(Tree(PubKeyDoc(key)), key)
  {
    hide Tree, Ordered, Less, Base64.Encode, Base64.Decode;
    PubKeyOrdered(key);
    TwoNames("type", Text(ED25519_AMINO_NAME), "value", Text(Base64.Encode(key)));
    PubKeyDescribed(key);
    Base64.DecodeEncoded(key);
  }

  lemma PubKeyOrdered(key: Bytes)
    ensures Ordered(PubKeyDoc(key))
  {
    hide Less, Base64.Encode;
    TypeBeforeValue();
    TwoAscending("type", Text(ED25519_AMINO_NAME), "value", Text(Base64.Encode(key)));
  }

  lemma NumberHeld(v: Json, name: string, n: nat)
    requires Field(v, name) == Str(Numeral(n))
    ensures HoldsNumber(v, name, n)
  {
    hide Numeral, NatOf;
    NumeralValue(n);
    NumeralUnique(Numeral(n));
  }

  lemma MsgHeld(g: ParsedGentx)
    ensures HoldsMsg(Tree(Struct(Kept(CreateValidatorFields(MsgOf(g))))), g.msg)
  {
    hide Tree, Ordered, Less, Kept, HoldsCommission, HoldsDescription, HoldsConsensusKey, HoldsCoin;
    hide CommissionDoc, DescriptionFields, PubKeyDoc, CoinDoc;
    var m := MsgOf(g);
    var fs := CreateValidatorFields(m);
    CreateValidatorOrdered(m);
    CreateValidatorNames(m);
    KeptNames(fs);
    assert NamesUpTo(fs, 1) == {"commission"};
    assert NamesUpTo(fs, 2) == NamesUpTo(fs, 1) + When(m.delegatorAddress != "", "delegator_address");
    assert NamesUpTo(fs, 3) == NamesUpTo(fs, 2) + {"description"};
    assert NamesUpTo(fs, 4) == NamesUpTo(fs, 3) + {"min_self_delegation"};
    assert NamesUpTo(fs, 5) == NamesUpTo(fs, 4) + {"pubkey"};
    assert NamesUpTo(fs, 6) == NamesUpTo(fs, 5) + When(m.validatorAddress != "", "validator_address");
    FieldReadsBack(fs, 0);
    TextFieldReadsBack(fs, 1, m.delegatorAddress);
    FieldReadsBack(fs, 2);
    TextFieldReadsBack(fs, 3, m.minSelfDelegation);
    FieldReadsBack(fs, 4);
    TextFieldReadsBack(fs, 5, m.validatorAddress);
    FieldReadsBack(fs, 6);
    CommissionHeld(m.commission);
    DescriptionHeld(m.description);
    ConsensusKeyHeld(m.consensusPubKey);
    CoinHeld(m.value);
  }

  lemma FeeHeld(coins: seq<Coin>, gas: nat)
    ensures HoldsFee(Tree(FeeDoc(CoinDocs(coins), Numeral(gas))), coins, gas)
  {
    hide Tree, Ordered, Less, Numeral, HoldsCoin, CoinDoc;
    var amount := List(CoinDocs(coins));
    FeeOrdered(coins, Numeral(gas));
    TwoNames("amount", amount, "gas", Text(Numeral(gas)));
    var fields := FeeDoc(CoinDocs(coins), Numeral(gas)).fields;
    StructReadsBack(fields, 0);
    StructReadsBack(fields, 1);
    TreeOfList(CoinDocs(coins));
    TreeOfText(Numeral(gas));
    forall i | 0 <= i < |coins| ensures HoldsCoin(Tree(CoinDocs(coins)[i]), coins[i]) {
      CoinHeld(coins[i]);
    }
    NumberHeld(Tree(FeeDoc(CoinDocs(coins), Numeral(gas))), "gas", gas);
  }

  lemma GentxHeld(g: ParsedGentx, chainID: string, accountNumber: uint64)
    ensures HoldsGentx(Tree(AminoDoc(AminoView(g, chainID, accountNumber))), g, chainID, accountNumber)
  {
    hide Tree, Ordered, Less, Kept, Numeral, HoldsFee, HoldsMsg, FeeDoc, CoinDocs, CreateValidatorFields, HoldsNumber, MsgDoc;
    var t := AminoView(g, chainID, accountNumber);
    var fs, tree := TxFields(t), Tree(AminoDoc(t));
    AminoDocOrdered(t);
    DocumentNames(g, chainID, accountNumber);
    TextFieldReadsBack(fs, 0, Numeral(t.accountNumber));
    TextFieldReadsBack(fs, 1, t.chainID);
    FieldReadsBack(fs, 2);
    FeeHeld(t.feeAmount, t.gas);
    TextFieldReadsBack(fs, 3, t.memo);
    FieldReadsBack(fs, 4);
    TreeOfList([MsgDoc(t.msg)]);
    EnvelopeHeld(g);
    TextFieldReadsBack(fs, 5, Numeral(t.sequence));
    TextFieldReadsBack(fs, 6, HeightText(t.timeoutHeight));
    NumberHeld(tree, "account_number", accountNumber);
    NumberHeld(tree, "sequence", g.signer.sequence);
    if g.timeoutHeight != 0 {
      NumberHeld(tree, "timeout_height", g.timeoutHeight);
    }
  }

  lemma DocumentNames(g: ParsedGentx, chainID: string, accountNumber: uint64)
    ensures HasNames(Tree(AminoDoc(AminoView(g, chainID, accountNumber))),
                     {"account_number", "chain_id", "fee", "memo", "msgs", "sequence"}
                     + When(g.timeoutHeight != 0, "timeout_height"))
  {
    hide Tree, Ordered, Less, Kept, Numeral, FeeDoc, CoinDocs, MsgDoc;
    var t := AminoView(g, chainID, accountNumber);
    var fs := TxFields(t);
    AminoDocOrdered(t);
    KeptNames(fs);
    assert NamesUpTo(fs, 1) == {"account_number"};
    assert NamesUpTo(fs, 2) == NamesUpTo(fs, 1) + {"chain_id"};
    assert NamesUpTo(fs, 3) == NamesUpTo(fs, 2) + {"fee"};
    assert NamesUpTo(fs, 4) == NamesUpTo(fs, 3) + {"memo"};
    assert NamesUpTo(fs, 5) == NamesUpTo(fs, 4) + {"msgs"};
    assert NamesUpTo(fs, 6) == NamesUpTo(fs, 5) + {"sequence"};
  }

  lemma EnvelopeHeld(g: ParsedGentx)
    ensures var msg := Tree(MsgDoc(MsgOf(g)));
            && HasNames(msg, {"type", "value"})
            && HoldsText(msg, "type", "cosmos-sdk/MsgCreateValidator")
            && HoldsMsg(Field(msg, "value"), g.msg)
  {
    hide Tree, Ordered, Less, Kept, HoldsMsg, CreateValidatorFields;
    var m := MsgOf(g);
    MsgOrdered(m);
    TwoNames("type", Text(MSG_CREATE_VALIDATOR_AMINO_NAME), "value", Struct(Kept(CreateValidatorFields(m))));
    StructReadsBack(MsgDoc(m).fields, 0);
    StructReadsBack(MsgDoc(m).fields, 1);
    TreeOfText(MSG_CREATE_VALIDATOR_AMINO_NAME);
    MsgHeld(g);
  }

  /** The sign bytes are the canonical text of an object that holds the gentx. */
  lemma DocumentHeld(g: ParsedGentx, chainID: string, accountNumber: uint64)
    ensures HoldsDocument(ToUtf8(AminoText(AminoView(g, chainID, accountNumber))), g, chainID, accountNumber)
  {
    hide Tree, Ordered, AminoDoc, HoldsGentx, ToUtf8, FromUtf8, ParseText, Print, MarshalDoc;
    var t := AminoView(g, chainID, accountNumber);
    AminoDocOrdered(t);
    RoundTrip(AminoText(t));
    OrderedPrintsCanonically(AminoDoc(t));
    OrderedParses(AminoDoc(t));
    GentxHeld(g, chainID, accountNumber);
  }
}
