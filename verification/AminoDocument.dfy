/**
 The SIGN_MODE_LEGACY_AMINO_JSON sign document (gentxvalidate/aminosigndoc.go): structs printed in declaration
 order, proved to be the canonical text of the object they stand for.
 */
module AminoDocument {
  import opened Basics
  import opened Utf8
  import opened StringOrder
  import opened Decimal
  import opened Gentx
  import opened JsonText
  import opened CanonicalPrint
  import opened PrintParse
  import Base64

  // ---------------------------------------------------------------- struct printing

  /** What encoding/json is given: strings, lists, and structs with their fields in declaration order. */
  datatype Doc =
    | Text(s: string)
    | List(docs: seq<Doc>)
    | Struct(fields: seq<(string, Doc)>)

  /** json.Marshal: fields in the order given. */
  function MarshalDoc(doc: Doc): string {
    match doc
    case Text(s) => Quote(s)
    case List(docs) => Bracket('[', seq(|docs|, i requires 0 <= i < |docs| => MarshalDoc(docs[i])), ']')
    case Struct(fields) =>
      Bracket('{', seq(|fields|, i requires 0 <= i < |fields| => Entry(fields[i].0, MarshalDoc(fields[i].1))), '}')
  }

  /** A struct's fields as object members; the source text of a member plays no part. */
  function FieldMembers(fields: seq<(string, Doc)>): seq<Member> {
    seq(|fields|, i requires 0 <= i < |fields| =>
      assert fields decreases to fields[i];
      Member(fields[i].0, Tree(fields[i].1), ""))
  }

  /** The JSON value printed. */
  function Tree(doc: Doc): Json {
    match doc
    case Text(s) => Str(s)
    case List(docs) => Arr(seq(|docs|, i requires 0 <= i < |docs| => Tree(docs[i])))
    case Struct(fields) => Obj(ValueMap(FieldMembers(fields)))
  }

  function Names(fields: seq<(string, Doc)>): seq<string> {
    seq(|fields|, i requires 0 <= i < |fields| => fields[i].0)
  }

  /** Every struct declares its fields in alphabetical order. */
  predicate Ordered(doc: Doc) {
    match doc
    case Text(_) => true
    case List(docs) => forall i | 0 <= i < |docs| :: Ordered(docs[i])
    case Struct(fields) => Ascending(Names(fields)) && forall i | 0 <= i < |fields| :: Ordered(fields[i].1)
  }

  /** A struct's fields as members of its tree. */
  lemma StructMembers(fields: seq<(string, Doc)>)
    requires Ascending(Names(fields))
    ensures var m := Tree(Struct(fields)).members;
            && (forall i | 0 <= i < |fields| :: fields[i].0 in m && m[fields[i].0] == Tree(fields[i].1))
            && m.Keys == Elements(Names(fields))
            && SortedKeys(m.Keys) == Names(fields)
  {
    hide Tree, ValueMap, SortedKeys;
    var names := Names(fields);
    var ms := FieldMembers(fields);
    StructTree(fields);
    AscendingDistinct(names);
    forall i, j | 0 <= i < j < |ms| ensures ms[i].key != ms[j].key {
      assert names[i] != names[j];
    }
    ValueMapDistinct(ms);
    var m := Tree(Struct(fields)).members;
    forall i | 0 <= i < |fields| ensures fields[i].0 in m && m[fields[i].0] == Tree(fields[i].1) {
      assert ms[i].key == fields[i].0 && ms[i].value == Tree(fields[i].1);
    }
    forall k ensures k in m.Keys <==> k in Elements(names) {
      InElements(k, names);
      if k in m {
        var i :| 0 <= i < |ms| && ms[i].key == k;
        assert names[i] == k;
      }
      if k in names {
        var i :| 0 <= i < |names| && names[i] == k;
        assert ms[i].key == k;
      }
    }
    AscendingUnique(SortedKeys(m.Keys), names);
  }

  lemma StructTree(fields: seq<(string, Doc)>)
    ensures Tree(Struct(fields)) == Obj(ValueMap(FieldMembers(fields)))
  {
  }

  /** Printing an ordered document is printing its tree canonically. */
  lemma {:induction false} OrderedPrintsCanonically(doc: Doc)
    requires Ordered(doc)
    ensures MarshalDoc(doc) == Print(Tree(doc))
  {
    hide Bracket, Quote, SortedKeys, ValueMap, FieldMembers, Ascending;
    match doc
    case Text(_) =>
    case List(docs) =>
      forall i | 0 <= i < |docs| ensures MarshalDoc(docs[i]) == Print(Tree(docs[i])) {
        OrderedPrintsCanonically(docs[i]);
      }
      assert Texts(Tree(doc)) == seq(|docs|, i requires 0 <= i < |docs| => MarshalDoc(docs[i]));
    case Struct(fields) =>
      forall i | 0 <= i < |fields| ensures MarshalDoc(fields[i].1) == Print(Tree(fields[i].1)) {
        OrderedPrintsCanonically(fields[i].1);
      }
      StructMembers(fields);
      StructTexts(fields);
      assert Texts(Tree(doc)) == seq(|fields|, i requires 0 <= i < |fields| => Entry(fields[i].0, MarshalDoc(fields[i].1)));
  }

  lemma StructTexts(fields: seq<(string, Doc)>)
    requires Ascending(Names(fields))
    ensures |Texts(Tree(Struct(fields)))| == |fields|
    ensures forall i | 0 <= i < |fields| ::
              Texts(Tree(Struct(fields)))[i] == Entry(fields[i].0, Print(Tree(fields[i].1)))
  {
    hide ValueMap, SortedKeys, Print, Entry, Ascending;
    StructMembers(fields);
    StructTree(fields);
    var m := Tree(Struct(fields)).members;
    var texts := map k | k in m :: Print(m[k]);
    assert Texts(Tree(Struct(fields))) == Entries(Names(fields), texts);
  }

  /** A document holds no numbers, so nothing can be out of range and nothing is rewritten. */
  lemma {:induction false} TreesAreNormal(norm: Normaliser, doc: Doc)
    ensures Printable(Tree(doc)) && InRange(norm, Tree(doc)) && Normal(norm, Tree(doc)) == Tree(doc)
  {
    match doc
    case Text(_) =>
    case List(docs) =>
      forall i | 0 <= i < |docs|
        ensures Printable(Tree(docs[i])) && InRange(norm, Tree(docs[i])) && Normal(norm, Tree(docs[i])) == Tree(docs[i])
      {
        TreesAreNormal(norm, docs[i]);
      }
      assert Normal(norm, Tree(doc)).items == Tree(doc).items;
    case Struct(fields) =>
      forall i | 0 <= i < |fields|
        ensures var t := Tree(fields[i].1); Printable(t) && InRange(norm, t) && Normal(norm, t) == t
      {
        TreesAreNormal(norm, fields[i].1);
      }
      StructTree(fields);
      NormalFields(norm, FieldMembers(fields));
      assert Normal(norm, Tree(doc)).members == Tree(doc).members;
  }

  lemma {:induction false} NormalFields(norm: Normaliser, ms: seq<Member>)
    requires forall i | 0 <= i < |ms| ::
               Printable(ms[i].value) && InRange(norm, ms[i].value) && Normal(norm, ms[i].value) == ms[i].value
    ensures forall k | k in ValueMap(ms) ::
              var t := ValueMap(ms)[k]; Printable(t) && InRange(norm, t) && Normal(norm, t) == t
  {
    if ms != [] {
      NormalFields(norm, ms[..|ms| - 1]);
    }
  }

  /** An ordered document's text parses to its tree. */
  lemma OrderedParses(doc: Doc)
    requires Ordered(doc)
    ensures ParseText(MarshalDoc(doc)) == Some(Tree(doc))
    ensures TrimSpace(MarshalDoc(doc)) == MarshalDoc(doc)
  {
    hide Ordered, MarshalDoc, Tree, Print, ParseText, TrimSpace, Normal, InRange, Printable;
    OrderedPrintsCanonically(doc);
    TreesAreNormal(token => None, doc);
    PrintParses(Tree(doc));
  }

  /** It denotes its tree, and canonicalising it changes nothing. */
  lemma OrderedIsFixedPoint(norm: Normaliser, doc: Doc)
    requires Ordered(doc)
    ensures Denote(norm, MarshalDoc(doc)) == Some(Tree(doc))
    ensures CanonicalText(norm, MarshalDoc(doc)) == Some(MarshalDoc(doc))
  {
    hide Ordered, MarshalDoc, Tree, Print, ParseText, TrimSpace, Normal, InRange, Printable;
    OrderedPrintsCanonically(doc);
    TreesAreNormal(norm, doc);
    OrderedParses(doc);
  }

  // ---------------------------------------------------------------- the sign document

  const MSG_CREATE_VALIDATOR_AMINO_NAME: string := "cosmos-sdk/MsgCreateValidator"
  const ED25519_AMINO_NAME: string := "tendermint/PubKeyEd25519"

  /** A struct field with its json name; `omitempty` drops an empty string. */
  datatype Tagged = Tagged(name: string, value: Doc, omitEmpty: bool)

  predicate IsKept(f: Tagged) {
    !(f.omitEmpty && f.value == Text(""))
  }

  function Kept(fs: seq<Tagged>): seq<(string, Doc)> {
    if fs == [] then []
    else if IsKept(fs[0]) then [(fs[0].name, fs[0].value)] + Kept(fs[1..])
    else Kept(fs[1..])
  }

  /** Everything the amino document covers, strings verbatim. */
  datatype AminoTx = AminoTx(
    accountNumber: nat,
    chainID: string,
    feeAmount: seq<Coin>,
    gas: nat,
    memo: string,
    msg: AminoMsg,
    sequence: nat,
    timeoutHeight: nat)

  datatype AminoMsg = AminoMsg(
    commission: CommissionRates,
    delegatorAddress: string,
    description: Description,
    minSelfDelegation: string,
    consensusPubKey: Bytes,
    validatorAddress: string,
    value: Coin)

  function MsgOf(g: ParsedGentx): AminoMsg {
    AminoMsg(g.msg.commission, g.msg.delegatorAddress, g.msg.description, g.msg.minSelfDelegation,
             g.msg.consensusPubKey, g.msg.validatorAddress, g.msg.value)
  }

  function AminoView(g: ParsedGentx, chainID: string, accountNumber: uint64): AminoTx {
    AminoTx(accountNumber, chainID, g.fee.amount, g.fee.gasLimit, g.memo,
            MsgOf(g), g.signer.sequence, g.timeoutHeight)
  }

  function CoinDoc(c: Coin): Doc {
    Struct([("amount", Text(c.amount)), ("denom", Text(c.denom))])
  }

  function FeeDoc(amount: seq<Doc>, gas: string): Doc {
    Struct([("amount", List(amount)), ("gas", Text(gas))])
  }

  function CommissionDoc(c: CommissionRates): Doc {
    Struct([("max_change_rate", Text(c.maxChangeRate)), ("max_rate", Text(c.maxRate)), ("rate", Text(c.rate))])
  }

  function DescriptionFields(d: Description): seq<Tagged> {
    [ Tagged("details", Text(d.details), true),
      Tagged("identity", Text(d.identity), true),
      Tagged("moniker", Text(d.moniker), true),
      Tagged("security_contact", Text(d.securityContact), true),
      Tagged("website", Text(d.website), true) ]
  }

  function PubKeyDoc(key: Bytes): Doc {
    Struct([("type", Text(ED25519_AMINO_NAME)), ("value", Text(Base64.Encode(key)))])
  }

  function CreateValidatorFields(m: AminoMsg): seq<Tagged> {
    [ Tagged("commission", CommissionDoc(m.commission), false),
      Tagged("delegator_address", Text(m.delegatorAddress), true),
      Tagged("description", Struct(Kept(DescriptionFields(m.description))), false),
      Tagged("min_self_delegation", Text(m.minSelfDelegation), false),
      Tagged("pubkey", PubKeyDoc(m.consensusPubKey), false),
      Tagged("validator_address", Text(m.validatorAddress), true),
      Tagged("value", CoinDoc(m.value), false) ]
  }

  function MsgDoc(m: AminoMsg): Doc {
    Struct([("type", Text(MSG_CREATE_VALIDATOR_AMINO_NAME)), ("value", Struct(Kept(CreateValidatorFields(m))))])
  }

  /** strconv.FormatUint, with zero left empty to be omitted. */
  function HeightText(h: nat): string {
    if h == 0 then "" else Numeral(h)
  }

  function SignDocFields(accountNumber: string, chainID: string, fee: Doc, memo: string, msgs: seq<Doc>,
                         sequence: string, timeoutHeight: string): seq<Tagged> {
    [ Tagged("account_number", Text(accountNumber), false),
      Tagged("chain_id", Text(chainID), false),
      Tagged("fee", fee, false),
      Tagged("memo", Text(memo), false),
      Tagged("msgs", List(msgs), false),
      Tagged("sequence", Text(sequence), false),
      Tagged("timeout_height", Text(timeoutHeight), true) ]
  }

  function CoinDocs(coins: seq<Coin>): seq<Doc> {
    seq(|coins|, i requires 0 <= i < |coins| => CoinDoc(coins[i]))
  }

  function TxFields(t: AminoTx): seq<Tagged> {
    SignDocFields(Numeral(t.accountNumber), t.chainID, FeeDoc(CoinDocs(t.feeAmount), Numeral(t.gas)), t.memo,
                  [MsgDoc(t.msg)], Numeral(t.sequence), HeightText(t.timeoutHeight))
  }

  function AminoDoc(t: AminoTx): Doc {
    Struct(Kept(TxFields(t)))
  }

  predicate AminoEncodable(g: ParsedGentx) {
    g.signer.mode == SIGN_MODE_AMINO_JSON_NAME && g.msg.consensusPubKeyTypeURL == ED25519_PUB_KEY_TYPE_URL
  }

  function AminoText(t: AminoTx): string {
    MarshalDoc(AminoDoc(t))
  }

  function AminoWire(g: ParsedGentx, chainID: string, accountNumber: uint64): Option<Bytes> {
    if AminoEncodable(g) then Some(ToUtf8(AminoText(AminoView(g, chainID, accountNumber)))) else None
  }

  // ---------------------------------------------------------------- declaration order is sorted order

  predicate AscendingNames(fs: seq<Tagged>) {
    forall i, j | 0 <= i < j < |fs| :: Less(fs[i].name, fs[j].name)
  }

  /** Dropping empty fields keeps the order. */
  lemma {:induction false} KeptOrdered(fs: seq<Tagged>)
    requires AscendingNames(fs) && forall i | 0 <= i < |fs| :: Ordered(fs[i].value)
    ensures Ordered(Struct(Kept(fs)))
    ensures forall i | 0 <= i < |Kept(fs)| :: exists j :: 0 <= j < |fs| && fs[j].name == Kept(fs)[i].0
  {
    hide Less;
    if fs != [] {
      KeptOrdered(fs[1..]);
      var rest, kept := Kept(fs[1..]), Kept(fs);
      forall i | 0 <= i < |rest| ensures Less(fs[0].name, rest[i].0) && exists j :: 0 <= j < |fs| && fs[j].name == rest[i].0 {
        var j :| 0 <= j < |fs[1..]| && fs[1..][j].name == rest[i].0;
        assert fs[j + 1].name == rest[i].0;
      }
      if IsKept(fs[0]) {
        assert Names(kept) == [fs[0].name] + Names(rest);
        AscendingCons(fs[0].name, Names(rest));
        assert fs[0].name == kept[0].0;
      }
    }
  }

  /** Comparing two names by their first different character. */
  lemma {:induction false} LessAt(s: string, t: string, i: nat)
    requires i < |s| && i < |t| && s[..i] == t[..i] && s[i] < t[i]
    ensures Less(s, t)
  {
    if i > 0 {
      assert s[0] == s[..i][0] == t[0];
      assert s[1..][..i - 1] == s[..i][1..] && t[1..][..i - 1] == t[..i][1..];
      LessAt(s[1..], t[1..], i - 1);
    }
  }

  lemma CoinOrdered(c: Coin)
    ensures Ordered(CoinDoc(c))
  {
    hide Less;
    LessAt("amount", "denom", 0);
    TwoAscending("amount", Text(c.amount), "denom", Text(c.denom));
  }

  lemma TwoAscending(a: string, x: Doc, b: string, y: Doc)
    requires Less(a, b)
    ensures Ascending(Names([(a, x), (b, y)]))
  {
    assert Names([(a, x), (b, y)]) == [a, b];
  }

  lemma CommissionOrdered(c: CommissionRates)
    ensures Ordered(CommissionDoc(c))
  {
    hide Less;
    LessAt("max_change_rate", "max_rate", 4);
    LessAt("max_change_rate", "rate", 0);
    LessAt("max_rate", "rate", 0);
    var fields := CommissionDoc(c).fields;
    assert Names(fields) == ["max_change_rate", "max_rate", "rate"];
  }

  lemma DescriptionOrdered(d: Description)
    ensures Ordered(Struct(Kept(DescriptionFields(d))))
    ensures AscendingNames(DescriptionFields(d))
  {
    hide Less;
    LessAt("details", "identity", 0);
    LessAt("identity", "moniker", 0);
    LessAt("moniker", "security_contact", 0);
    LessAt("security_contact", "website", 0);
    NeighboursAscend(DescriptionFields(d));
    KeptOrdered(DescriptionFields(d));
  }

  lemma {:induction false} NeighboursAscend(fs: seq<Tagged>)
    requires forall i | 0 < i < |fs| :: Less(fs[i - 1].name, fs[i].name)
    ensures AscendingNames(fs)
  {
    hide Less;
    if fs != [] {
      var n := |fs| - 1;
      NeighboursAscend(fs[..n]);
      forall i, j | 0 <= i < j < |fs| ensures Less(fs[i].name, fs[j].name) {
        if j < n {
          assert fs[..n][i] == fs[i] && fs[..n][j] == fs[j];
        } else if i < n - 1 {
          assert fs[..n][i] == fs[i] && fs[..n][n - 1] == fs[n - 1];
          LessTransitive(fs[i].name, fs[n - 1].name, fs[n].name);
        }
      }
    }
  }

  lemma CreateValidatorNames(m: AminoMsg)
    ensures AscendingNames(CreateValidatorFields(m))
  {
    hide Less;
    FirstNamesAscend();
    LastNamesAscend();
    NeighboursAscend(CreateValidatorFields(m));
  }

  lemma FirstNamesAscend()
    ensures Less("commission", "delegator_address")
    ensures Less("delegator_address", "description")
    ensures Less("description", "min_self_delegation")
  {
    hide Less;
    LessAt("commission", "delegator_address", 0);
    LessAt("delegator_address", "description", 2);
    LessAt("description", "min_self_delegation", 0);
  }

  lemma LastNamesAscend()
    ensures Less("min_self_delegation", "pubkey")
    ensures Less("pubkey", "validator_address")
    ensures Less("validator_address", "value")
  {
    hide Less;
    LessAt("min_self_delegation", "pubkey", 0);
    LessAt("pubkey", "validator_address", 0);
    LessAt("validator_address", "value", 3);
  }

  lemma CreateValidatorOrdered(m: AminoMsg)
    ensures Ordered(Struct(Kept(CreateValidatorFields(m))))
  {
    hide Less, Kept;
    LessAt("type", "value", 0);
    CommissionOrdered(m.commission);
    DescriptionOrdered(m.description);
    TwoAscending("type", Text(ED25519_AMINO_NAME), "value", Text(Base64.Encode(m.consensusPubKey)));
    CoinOrdered(m.value);
    CreateValidatorNames(m);
    KeptOrdered(CreateValidatorFields(m));
  }

  lemma MsgOrdered(m: AminoMsg)
    ensures Ordered(MsgDoc(m))
  {
    hide Less;
    LessAt("type", "value", 0);
    CreateValidatorOrdered(m);
    TwoAscending("type", Text(MSG_CREATE_VALIDATOR_AMINO_NAME), "value", Struct(Kept(CreateValidatorFields(m))));
  }

  lemma FeeOrdered(coins: seq<Coin>, gas: string)
    ensures Ordered(FeeDoc(CoinDocs(coins), gas))
  {
    hide Less;
    LessAt("amount", "gas", 0);
    forall i | 0 <= i < |coins| ensures Ordered(CoinDocs(coins)[i]) {
      CoinOrdered(coins[i]);
    }
    TwoAscending("amount", List(CoinDocs(coins)), "gas", Text(gas));
  }

  lemma AminoDocOrdered(t: AminoTx)
    ensures Ordered(AminoDoc(t))
    ensures AscendingNames(TxFields(t))
  {
    hide Less, Kept, MsgDoc, FeeDoc;
    LessAt("account_number", "chain_id", 0);
    LessAt("chain_id", "fee", 0);
    LessAt("fee", "memo", 0);
    LessAt("memo", "msgs", 1);
    LessAt("msgs", "sequence", 0);
    LessAt("sequence", "timeout_height", 0);
    FeeOrdered(t.feeAmount, Numeral(t.gas));
    MsgOrdered(t.msg);
    var fs := TxFields(t);
    NeighboursAscend(fs);
    KeptOrdered(fs);
  }

  /** Canonicalising the amino sign document changes nothing: declaration order really is sorted order. */
  lemma AminoTextIsCanonical(norm: Normaliser, t: AminoTx)
    ensures CanonicalText(norm, AminoText(t)) == Some(AminoText(t))
    ensures Denote(norm, AminoText(t)) == Some(Tree(AminoDoc(t)))
  {
    hide CanonicalText, Denote, AminoDoc, MarshalDoc;
    AminoDocOrdered(t);
    OrderedIsFixedPoint(norm, AminoDoc(t));
  }
}
