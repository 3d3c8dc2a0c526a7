/** The amino sign bytes determine every field they cover, and nothing else. */
module AminoTheorems {
  import opened Basics
  import opened Utf8
  import opened StringOrder
  import opened Decimal
  import opened Gentx
  import opened JsonText
  import opened CanonicalPrint
  import opened AminoDocument
  import Base64

  /** A member of an object; an absent one reads as the empty string. */
  function MemberOf(tree: Json, name: string): Json {
    if tree.Obj? && name in tree.members then tree.members[name] else Str("")
  }

  lemma {:induction false} KeptIndex(fs: seq<Tagged>, i: nat) returns (k: nat)
    requires i < |fs| && IsKept(fs[i])
    ensures k < |Kept(fs)| && Kept(fs)[k] == (fs[i].name, fs[i].value)
  {
    if i == 0 {
      k := 0;
    } else {
      k := KeptIndex(fs[1..], i - 1);
      if IsKept(fs[0]) {
        k := k + 1;
      }
    }
  }

  lemma {:induction false} KeptOrigin(fs: seq<Tagged>, k: nat) returns (i: nat)
    requires k < |Kept(fs)|
    ensures i < |fs| && IsKept(fs[i]) && Kept(fs)[k] == (fs[i].name, fs[i].value)
  {
    if IsKept(fs[0]) && k == 0 {
      i := 0;
    } else {
      i := KeptOrigin(fs[1..], if IsKept(fs[0]) then k - 1 else k);
      i := i + 1;
    }
  }

  /** Every field of a struct reads back from its tree, the omitted ones included. */
  lemma FieldReadsBack(fs: seq<Tagged>, i: nat)
    requires i < |fs| && AscendingNames(fs) && Ordered(Struct(Kept(fs)))
    ensures MemberOf(Tree(Struct(Kept(fs))), fs[i].name) == Tree(fs[i].value)
  {
    hide Kept, Tree, Less, SortedKeys;
    var kept := Kept(fs);
    var tree := Tree(Struct(kept));
    StructTree(kept);
    StructMembers(kept);
    if IsKept(fs[i]) {
      var k := KeptIndex(fs, i);
    } else {
      EmptyTree();
      forall k | 0 <= k < |kept| ensures kept[k].0 != fs[i].name {
        var j := KeptOrigin(fs, k);
        LessTotal(fs[i].name, fs[i].name);
      }
      InElements(fs[i].name, Names(kept));
    }
  }

  lemma EmptyTree()
    ensures Tree(Text("")) == Str("")
  {
  }

  // ---------------------------------------------------------------- the document read back

  ghost predicate DescribesCoin(tree: Json, c: Coin) {
    MemberOf(tree, "amount") == Str(c.amount) && MemberOf(tree, "denom") == Str(c.denom)
  }

  ghost predicate DescribesCommission(tree: Json, c: CommissionRates) {
    && MemberOf(tree, "rate") == Str(c.rate)
    && MemberOf(tree, "max_rate") == Str(c.maxRate)
    && MemberOf(tree, "max_change_rate") == Str(c.maxChangeRate)
  }

  ghost predicate DescribesValidator(tree: Json, d: Description) {
    && MemberOf(tree, "moniker") == Str(d.moniker)
    && MemberOf(tree, "identity") == Str(d.identity)
    && MemberOf(tree, "website") == Str(d.website)
    && MemberOf(tree, "security_contact") == Str(d.securityContact)
    && MemberOf(tree, "details") == Str(d.details)
  }

  ghost predicate DescribesMsg(tree: Json, m: AminoMsg) {
    var value := MemberOf(tree, "value");
    && MemberOf(tree, "type") == Str(MSG_CREATE_VALIDATOR_AMINO_NAME)
    && DescribesCommission(MemberOf(value, "commission"), m.commission)
    && MemberOf(value, "delegator_address") == Str(m.delegatorAddress)
    && DescribesValidator(MemberOf(value, "description"), m.description)
    && MemberOf(value, "min_self_delegation") == Str(m.minSelfDelegation)
    && MemberOf(MemberOf(value, "pubkey"), "type") == Str(ED25519_AMINO_NAME)
    && MemberOf(MemberOf(value, "pubkey"), "value") == Str(Base64.Encode(m.consensusPubKey))
    && MemberOf(value, "validator_address") == Str(m.validatorAddress)
    && DescribesCoin(MemberOf(value, "value"), m.value)
  }

  ghost predicate DescribesFee(tree: Json, coins: seq<Coin>, gas: nat) {
    var amount := MemberOf(tree, "amount");
    && amount.Arr? && |amount.items| == |coins|
    && (forall i | 0 <= i < |coins| :: DescribesCoin(amount.items[i], coins[i]))
    && MemberOf(tree, "gas") == Str(Numeral(gas))
  }

  /** Every member of a StdSignDoc holds the field it is named after. */
  ghost predicate Describes(tree: Json, t: AminoTx) {
    var msgs := MemberOf(tree, "msgs");
    && MemberOf(tree, "account_number") == Str(Numeral(t.accountNumber))
    && MemberOf(tree, "chain_id") == Str(t.chainID)
    && DescribesFee(MemberOf(tree, "fee"), t.feeAmount, t.gas)
    && MemberOf(tree, "memo") == Str(t.memo)
    && msgs.Arr? && |msgs.items| == 1 && DescribesMsg(msgs.items[0], t.msg)
    && MemberOf(tree, "sequence") == Str(Numeral(t.sequence))
    && MemberOf(tree, "timeout_height") == Str(HeightText(t.timeoutHeight))
  }

  /** A plain struct's fields read back from its tree. */
  lemma StructReadsBack(fields: seq<(string, Doc)>, i: nat)
    requires i < |fields| && Ordered(Struct(fields))
    ensures MemberOf(Tree(Struct(fields)), fields[i].0) == Tree(fields[i].1)
  {
    hide Tree, Less;
    StructTree(fields);
    StructMembers(fields);
  }

  lemma TreeOfText(s: string)
    ensures Tree(Text(s)) == Str(s)
  {
  }

  lemma TreeOfList(docs: seq<Doc>)
    ensures Tree(List(docs)).Arr? && |Tree(List(docs)).items| == |docs|
    ensures forall i | 0 <= i < |docs| :: Tree(List(docs)).items[i] == Tree(docs[i])
  {
  }

  lemma TextFieldReadsBack(fs: seq<Tagged>, i: nat, s: string)
    requires i < |fs| && AscendingNames(fs) && Ordered(Struct(Kept(fs))) && fs[i].value == Text(s)
    ensures MemberOf(Tree(Struct(Kept(fs))), fs[i].name) == Str(s)
  {
    hide Tree, Ordered, Kept, Less, MemberOf;
    FieldReadsBack(fs, i);
    TreeOfText(s);
  }

  lemma CoinDescribed(c: Coin)
    ensures DescribesCoin(Tree(CoinDoc(c)), c)
  {
    hide Tree, Ordered, MemberOf;
    CoinOrdered(c);
    StructReadsBack(CoinDoc(c).fields, 0);
    StructReadsBack(CoinDoc(c).fields, 1);
    TreeOfText(c.amount);
    TreeOfText(c.denom);
  }

  lemma CommissionDescribed(c: CommissionRates)
    ensures DescribesCommission(Tree(CommissionDoc(c)), c)
  {
    hide Tree, Ordered, MemberOf;
    CommissionOrdered(c);
    StructReadsBack(CommissionDoc(c).fields, 0);
    StructReadsBack(CommissionDoc(c).fields, 1);
    StructReadsBack(CommissionDoc(c).fields, 2);
    TreeOfText(c.rate);
    TreeOfText(c.maxRate);
    TreeOfText(c.maxChangeRate);
  }

  lemma DescriptionDescribed(d: Description)
    ensures DescribesValidator(Tree(Struct(Kept(DescriptionFields(d)))), d)
  {
    hide Tree, Ordered, Kept, Less, MemberOf;
    DescriptionOrdered(d);
    var fs := DescriptionFields(d);
    TextFieldReadsBack(fs, 0, d.details);
    TextFieldReadsBack(fs, 1, d.identity);
    TextFieldReadsBack(fs, 2, d.moniker);
    TextFieldReadsBack(fs, 3, d.securityContact);
    TextFieldReadsBack(fs, 4, d.website);
  }

  lemma PubKeyDescribed(key: Bytes)
    ensures MemberOf(Tree(PubKeyDoc(key)), "type") == Str(ED25519_AMINO_NAME)
    ensures MemberOf(Tree(PubKeyDoc(key)), "value") == Str(Base64.Encode(key))
  {
    hide Tree, MemberOf, Less, Ascending, ED25519_AMINO_NAME, Base64.Encode;
    TypeBeforeValue();
    TwoAscending("type", Text(ED25519_AMINO_NAME), "value", Text(Base64.Encode(key)));
    StructReadsBack(PubKeyDoc(key).fields, 0);
    StructReadsBack(PubKeyDoc(key).fields, 1);
    TreeOfText(ED25519_AMINO_NAME);
    TreeOfText(Base64.Encode(key));
  }

  lemma TypeBeforeValue()
    ensures Less("type", "value")
  {
    LessAt("type", "value", 0);
  }

  lemma MsgDescribed(m: AminoMsg)
    ensures DescribesMsg(Tree(MsgDoc(m)), m)
  {
    hide Tree, Ordered, Kept, Less, MemberOf, DescribesCommission, DescribesValidator, DescribesCoin;
    hide CommissionDoc, DescriptionFields, PubKeyDoc, CoinDoc, MSG_CREATE_VALIDATOR_AMINO_NAME, Base64.Encode;
    MsgOrdered(m);
    StructReadsBack(MsgDoc(m).fields, 0);
    StructReadsBack(MsgDoc(m).fields, 1);
    TreeOfText(MSG_CREATE_VALIDATOR_AMINO_NAME);
    CreateValidatorOrdered(m);
    CreateValidatorNames(m);
    var fs := CreateValidatorFields(m);
    FieldReadsBack(fs, 0);
    TextFieldReadsBack(fs, 1, m.delegatorAddress);
    FieldReadsBack(fs, 2);
    TextFieldReadsBack(fs, 3, m.minSelfDelegation);
    FieldReadsBack(fs, 4);
    TextFieldReadsBack(fs, 5, m.validatorAddress);
    FieldReadsBack(fs, 6);
    CommissionDescribed(m.commission);
    DescriptionDescribed(m.description);
    PubKeyDescribed(m.consensusPubKey);
    CoinDescribed(m.value);
  }

  lemma FeeDescribed(coins: seq<Coin>, gas: nat)
    ensures DescribesFee(Tree(FeeDoc(CoinDocs(coins), Numeral(gas))), coins, gas)
  {
    hide Tree, Ordered, MemberOf, Numeral, DescribesCoin, CoinDoc;
    FeeOrdered(coins, Numeral(gas));
    var fields := FeeDoc(CoinDocs(coins), Numeral(gas)).fields;
    StructReadsBack(fields, 0);
    StructReadsBack(fields, 1);
    TreeOfList(CoinDocs(coins));
    TreeOfText(Numeral(gas));
    forall i | 0 <= i < |coins| ensures DescribesCoin(Tree(CoinDocs(coins)[i]), coins[i]) {
      CoinDescribed(coins[i]);
    }
  }

  /** The document holds every covered field under its own name. */
  lemma DocumentDescribes(t: AminoTx)
    ensures Describes(Tree(AminoDoc(t)), t)
  {
    hide Tree, Ordered, Kept, Less, MemberOf, Numeral, HeightText, FeeDoc, MsgDoc, CoinDocs, DescribesFee, DescribesMsg;
    AminoDocOrdered(t);
    var fs := TxFields(t);
    TextFieldReadsBack(fs, 0, Numeral(t.accountNumber));
    TextFieldReadsBack(fs, 1, t.chainID);
    FieldReadsBack(fs, 2);
    FeeDescribed(t.feeAmount, t.gas);
    TextFieldReadsBack(fs, 3, t.memo);
    FieldReadsBack(fs, 4);
    TreeOfList([MsgDoc(t.msg)]);
    MsgDescribed(t.msg);
    TextFieldReadsBack(fs, 5, Numeral(t.sequence));
    TextFieldReadsBack(fs, 6, HeightText(t.timeoutHeight));
  }

  /** The amino bytes decode to a JSON text that denotes a document describing the gentx. */
  lemma AminoBytesDescribe(norm: Normaliser, g: ParsedGentx, chainID: string, accountNumber: uint64)
    requires AminoEncodable(g)
    ensures AminoWire(g, chainID, accountNumber).Some?
    ensures var text := FromUtf8(AminoWire(g, chainID, accountNumber).value);
            && text.Some?
            && Denote(norm, text.value).Some?
            && Describes(Denote(norm, text.value).value, AminoView(g, chainID, accountNumber))
  {
    hide Describes, Denote, CanonicalText, AminoText, AminoDoc, ToUtf8, FromUtf8;
    var t := AminoView(g, chainID, accountNumber);
    RoundTrip(AminoText(t));
    AminoTextIsCanonical(norm, t);
    DocumentDescribes(t);
  }

  // ---------------------------------------------------------------- injectivity

  /** A tree describes at most one coin, commission, description, message and fee. */
  lemma OneMessage(tree: Json, m: AminoMsg, n: AminoMsg)
    requires DescribesMsg(tree, m) && DescribesMsg(tree, n)
    ensures m == n
  {
    hide MemberOf, Base64.Encode;
    Base64.EncodeInjective(m.consensusPubKey, n.consensusPubKey);
  }

  lemma OneFee(tree: Json, coins: seq<Coin>, gas: nat, coins': seq<Coin>, gas': nat)
    requires DescribesFee(tree, coins, gas) && DescribesFee(tree, coins', gas')
    ensures coins == coins' && gas == gas'
  {
    hide MemberOf, Numeral;
    NumeralInjective(gas, gas');
    var amount := MemberOf(tree, "amount");
    forall i | 0 <= i < |coins| ensures coins[i] == coins'[i] {
      assert DescribesCoin(amount.items[i], coins[i]) && DescribesCoin(amount.items[i], coins'[i]);
    }
  }

  lemma SameHeight(h: nat, h': nat)
    requires HeightText(h) == HeightText(h')
    ensures h == h'
  {
    if h != 0 && h' != 0 {
      NumeralInjective(h, h');
    }
  }

  /** A document describes at most one transaction. */
  lemma OneTx(tree: Json, t: AminoTx, u: AminoTx)
    requires Describes(tree, t) && Describes(tree, u)
    ensures t == u
  {
    hide MemberOf, Numeral, HeightText, DescribesFee, DescribesMsg;
    NumeralInjective(t.accountNumber, u.accountNumber);
    OneFee(MemberOf(tree, "fee"), t.feeAmount, t.gas, u.feeAmount, u.gas);
    OneMessage(MemberOf(tree, "msgs").items[0], t.msg, u.msg);
    NumeralInjective(t.sequence, u.sequence);
    SameHeight(t.timeoutHeight, u.timeoutHeight);
  }

  /** The fields the amino bytes cover; fee payer, fee granter and signer key are not among them. */
  ghost predicate SameCoveredFields(g: ParsedGentx, chainID: string, accountNumber: uint64,
                                    h: ParsedGentx, chainID': string, accountNumber': uint64) {
    && chainID == chainID'
    && accountNumber == accountNumber'
    && g.memo == h.memo
    && g.timeoutHeight == h.timeoutHeight
    && g.signer.sequence == h.signer.sequence
    && g.fee.amount == h.fee.amount
    && g.fee.gasLimit == h.fee.gasLimit
    && g.msg.description == h.msg.description
    && g.msg.commission == h.msg.commission
    && g.msg.minSelfDelegation == h.msg.minSelfDelegation
    && g.msg.delegatorAddress == h.msg.delegatorAddress
    && g.msg.validatorAddress == h.msg.validatorAddress
    && g.msg.consensusPubKey == h.msg.consensusPubKey
    && g.msg.value == h.msg.value
  }

  /** Amino sign bytes agree exactly when the covered fields do, commission strings verbatim. */
  lemma AminoBytesDetermineFields(g: ParsedGentx, chainID: string, accountNumber: uint64,
                                  h: ParsedGentx, chainID': string, accountNumber': uint64)
    requires AminoEncodable(g) && AminoEncodable(h)
    ensures AminoWire(g, chainID, accountNumber).Some? && AminoWire(h, chainID', accountNumber').Some?
    ensures AminoWire(g, chainID, accountNumber) == AminoWire(h, chainID', accountNumber') <==>
            SameCoveredFields(g, chainID, accountNumber, h, chainID', accountNumber')
  {
    hide AminoText, AminoDoc, ToUtf8, FromUtf8, Denote, Describes;
    var t, u := AminoView(g, chainID, accountNumber), AminoView(h, chainID', accountNumber');
    if AminoWire(g, chainID, accountNumber) == AminoWire(h, chainID', accountNumber') {
      var norm: Normaliser := (token: string) => None;
      AminoBytesDescribe(norm, g, chainID, accountNumber);
      AminoBytesDescribe(norm, h, chainID', accountNumber');
      OneTx(Denote(norm, FromUtf8(AminoWire(g, chainID, accountNumber).value).value).value, t, u);
    }
  }
}
