/**
 Canonical JSON (canonicaljson/canonicaljson.go): the recursive canonicaliser over raw text and the signing
 form, proved to return the canonical text of the value a text denotes.
 */
module CanonicalJson {
  import opened Basics
  import opened StringOrder
  import opened JsonText
  import opened CanonicalPrint
  import opened CanonicalForm

  // ---------------------------------------------------------------- the code

  /** json.Unmarshal into a map from keys to raw texts. */
  function UnmarshalMap(raw: string): Option<map<string, string>> {
    var i := SkipSpace(raw, 0);
    if i < |raw| && raw[i] == '{' then
      var (items, j) :- ParseItems(raw, i, InObject);
      if SkipSpace(raw, j) == |raw| then Some(RawMap(items)) else None
    else if ParseText(raw) == Some(Null) then
      Some(map[])
    else
      None
  }

  /** json.Unmarshal into a list of raw texts. */
  function UnmarshalList(raw: string): Option<seq<string>> {
    var i := SkipSpace(raw, 0);
    if i < |raw| && raw[i] == '[' then
      var (items, j) :- ParseItems(raw, i, InArray);
      if SkipSpace(raw, j) == |raw| then Some(Raws(items)) else None
    else if ParseText(raw) == Some(Null) then
      Some([])
    else
      None
  }

  /** json.Marshal of a scalar. */
  function MarshalScalar(v: Json): string
    requires !v.Arr? && !v.Obj?
  {
    match v
    case Null => "null"
    case Bool(b) => if b then "true" else "false"
    case Num(token) => token
    case Str(s) => Quote(s)
  }

  /** What serialiseObject returns for raw members. */
  ghost function ObjectText(norm: Normaliser, m: map<string, string>): Option<string> {
    if forall k | k in m :: CanonicalText(norm, m[k]).Some? then
      Some(Bracket('{', Entries(SortedKeys(m.Keys), CanonicalTexts(norm, m)), '}'))
    else
      None
  }

  ghost function CanonicalTexts(norm: Normaliser, m: map<string, string>): map<string, string>
    requires forall k | k in m :: CanonicalText(norm, m[k]).Some?
  {
    map k | k in m :: CanonicalText(norm, m[k]).value
  }

  /** What serialiseArray returns for raw elements. */
  ghost function ArrayText(norm: Normaliser, raws: seq<string>): Option<string> {
    if forall i | 0 <= i < |raws| :: CanonicalText(norm, raws[i]).Some? then
      Some(Bracket('[', seq(|raws|, i requires 0 <= i < |raws| => CanonicalText(norm, raws[i]).value), ']'))
    else
      None
  }

  method CanonicaliseRaw(norm: Normaliser, raw0: string) returns (r: Option<string>)
    ensures r == CanonicalText(norm, raw0)
    ensures IsCanonical(norm, raw0, r)
    decreases |raw0|, 1
  {
    hide IsCanonical;
    CanonicalExactly(norm, raw0);
    var raw := TrimSpace(raw0);
    if |raw| == 0 {
      return None;
    }
    Trimmed(raw0);
    if raw[0] == '{' {
      var m := UnmarshalMap(raw);
      ObjectByMembers(norm, raw);
      if m.None? {
        return None;
      }
      r := SerialiseObject(norm, m.value, |raw|);
    } else if raw[0] == '[' {
      var arr := UnmarshalList(raw);
      ArrayByElements(norm, raw);
      if arr.None? {
        return None;
      }
      r := SerialiseArray(norm, arr.value, |raw|);
    } else {
      var scalar := Denote(norm, raw);
      ScalarDenoted(norm, raw);
      if scalar.None? {
        return None;
      }
      return Some(MarshalScalar(scalar.value));
    }
  }

  /** The keys of a map, collected in Go's unspecified iteration order and then sorted. */
  method CollectKeys(m: map<string, string>) returns (keys: seq<string>)
    ensures keys == SortedKeys(m.Keys)
  {
    keys := [];
    var left := m.Keys;
    while left != {}
      invariant left <= m.Keys && Elements(keys) == m.Keys - left && Distinct(keys)
      decreases left
    {
      var k :| k in left;
      InElements(k, keys);
      ElementsSnoc(keys, k);
      keys := keys + [k];
      left := left - {k};
    }
    SortSorts(keys);
    SameElements(SortStrings(keys), keys);
    keys := SortStrings(keys);
    AscendingUnique(keys, SortedKeys(m.Keys));
  }

  method SerialiseObject(norm: Normaliser, m: map<string, string>, ghost bound: nat) returns (r: Option<string>)
    requires forall k | k in m :: |m[k]| < bound
    ensures r == ObjectText(norm, m)
    decreases bound, 0
  {
    hide CanonicalText, IsCanonical, SortedKeys, Ascending, SortStrings, Quote, Join;
    var keys := CollectKeys(m);

    var buf := "{";
    ghost var texts := map k | k in m && CanonicalText(norm, m[k]).Some? :: CanonicalText(norm, m[k]).value;
    NothingJoined(buf);
    assert Entries(keys[..0], texts) == [];
    for i := 0 to |keys|
      invariant forall j | 0 <= j < i :: keys[j] in texts
      invariant buf == "{" + Join(Entries(keys[..i], texts))
    {
      var k := keys[i];
      ghost var before := Entries(keys[..i], texts);
      if i > 0 {
        buf := buf + ",";
      }
      buf := buf + Quote(k);
      buf := buf + ":";
      var valBytes := CanonicaliseRaw(norm, m[k]);
      if valBytes.None? {
        return None;
      }
      buf := buf + valBytes.value;
      assert Entries(keys[..i + 1], texts) == before + [Entry(k, valBytes.value)];
      EntryAppended("{", before, k, valBytes.value);
    }
    assert keys[..|keys|] == keys;
    buf := buf + "}";
    forall k | k in m ensures k in texts {
      InElements(k, keys);
      assert k in keys;
    }
    assert texts == CanonicalTexts(norm, m);
    Assoc("{", Join(Entries(keys, texts)), "}");
    return Some(buf);
  }

  method SerialiseArray(norm: Normaliser, arr: seq<string>, ghost bound: nat) returns (r: Option<string>)
    requires forall i | 0 <= i < |arr| :: |arr[i]| < bound
    ensures r == ArrayText(norm, arr)
    decreases bound, 0
  {
    hide CanonicalText, IsCanonical;
    var buf := "[";
    ghost var texts: seq<string> := [];
    for i := 0 to |arr|
      invariant forall j | 0 <= j < i :: CanonicalText(norm, arr[j]).Some?
      invariant texts == seq(i, j requires 0 <= j < i => CanonicalText(norm, arr[j]).value)
      invariant buf == "[" + Join(texts)
    {
      if i > 0 {
        buf := buf + ",";
      }
      var b := CanonicaliseRaw(norm, arr[i]);
      if b.None? {
        return None;
      }
      buf := buf + b.value;
      ElementAppended("[", texts, b.value);
      texts := texts + [b.value];
    }
    buf := buf + "]";
    Assoc("[", Join(texts), "]");
    return Some(buf);
  }

  /** Marshal, given what json.Marshal makes of its argument: a JSON text or an error. */
  method Marshal(norm: Normaliser, marshalled: Option<string>) returns (r: Option<string>)
    ensures r == match marshalled case None => None case Some(raw) => CanonicalText(norm, raw)
    ensures marshalled.Some? ==> IsCanonical(norm, marshalled.value, r)
  {
    var raw :- marshalled;
    r := CanonicaliseRaw(norm, raw);
  }

  // ---------------------------------------------------------------- signing form

  /** MarshalForSigning, given what json.Marshal makes of its argument. */
  method MarshalForSigning(norm: Normaliser, marshalled: Option<string>) returns (r: Option<string>)
    ensures r == match marshalled case None => None case Some(raw) => SigningText(norm, raw)
    ensures r.Some? <==>
            marshalled.Some? && ParseText(marshalled.value).Some? && Signable(norm, ParseText(marshalled.value).value)
    ensures r.Some? ==> RendersSigned(norm, ParseText(marshalled.value).value, r.value)
  {
    hide ParseText, RendersSigned, Signable, InRange, Normal, Print;
    var raw :- marshalled;
    SigningSucceeds(norm, raw);
    if SigningText(norm, raw).Some? {
      SigningTextExactly(norm, raw, SigningText(norm, raw).value);
    }
    var m := UnmarshalMap(raw);
    SignedRawMembers(norm, raw);
    if m.None? {
      return None;
    }
    var kept := m.value - {"signature"};
    kept := kept - {"pubkey_b64"};
    assert kept == m.value - STRIPPED;
    r := SerialiseObject(norm, kept, |raw|);
  }

  lemma SignedRawMembers(norm: Normaliser, raw: string)
    ensures UnmarshalMap(raw).None? <==> SignedMembers(raw).None?
    ensures UnmarshalMap(raw).Some? ==>
              var kept := UnmarshalMap(raw).value - STRIPPED;
              && (forall k | k in kept :: |kept[k]| < |raw|)
              && ObjectText(norm, kept) == SigningText(norm, raw)
  {
    hide ParseItems, ObjectText, CanonicalText, STRIPPED;
    var i := SkipSpace(raw, 0);
    if UnmarshalMap(raw).Some? {
      var raws, values := UnmarshalMap(raw).value, SignedMembers(raw).value;
      if i < |raw| && raw[i] == '{' {
        var ms := ParseItems(raw, i, InObject).value.0;
        ItemsStandAlone(raw, i, InObject);
        ObjectOfMembers(norm, ms, |raw|);
      }
      ObjectOfMaps(norm, raws - STRIPPED, values);
    }
  }

  // ---------------------------------------------------------------- the code computes the canonical text

  lemma NothingJoined(open: string)
    ensures open + Join([]) == open
  {
  }

  lemma ElementAppended(open: string, texts: seq<string>, x: string)
    ensures (if texts == [] then open + Join(texts) else open + Join(texts) + ",") + x == open + Join(texts + [x])
  {
    JoinSnoc(texts, x);
    if texts != [] {
      Assoc(open + Join(texts), ",", x);
      Assoc(open, Join(texts), "," + x);
    } else {
      assert open + "" == open;
    }
  }

  lemma EntryAppended(open: string, texts: seq<string>, k: string, x: string)
    ensures (if texts == [] then open + Join(texts) else open + Join(texts) + ",") + Quote(k) + ":" + x
         == open + Join(texts + [Entry(k, x)])
  {
    hide Quote;
    ElementAppended(open, texts, Entry(k, x));
    var b := if texts == [] then open + Join(texts) else open + Join(texts) + ",";
    Assoc(b + Quote(k), ":", x);
    Assoc(b, Quote(k), ":" + x);
  }

  lemma NotSpace(s: string)
    requires s != "" && !IsSpace(s[0]) && !IsSpace(s[|s| - 1])
    ensures TrimSpace(s) == s && SkipSpace(s, 0) == 0
  {
  }

  /** Values neither start nor end with a space. */
  lemma ValueEdges(s: string, i: nat)
    requires ParseValue(s, i).Some?
    ensures !IsSpace(s[i]) && !IsSpace(s[ParseValue(s, i).value.1 - 1])
  {
    hide ParseItems, ParseString, ParseScalar;
    if s[i] != '{' && s[i] != '[' && s[i] != '"' {
      ScalarEdges(s, i);
    }
  }

  lemma ScalarEdges(s: string, i: nat)
    requires i < |s| && ParseScalar(s, i).Some?
    ensures !IsSpace(s[i]) && !IsSpace(s[ParseScalar(s, i).value.1 - 1])
  {
    hide IsNumber;
    var j := ParseScalar(s, i).value.1;
    var token := s[i..j];
    assert token[0] == s[i] && token[j - i - 1] == s[j - 1];
    if !IsWord(s, i) {
      NumberHead(token);
      NumberChars(token);
    }
  }

  lemma NumberChars(t: string)
    requires IsNumber(t)
    ensures IsNumberChar(t[|t| - 1])
  {
  }

  /** The source text of a member is shorter than the whole, and denotes the member's value on its own. */
  ghost predicate StandsAlone(m: Member, bound: nat) {
    && |m.raw| < bound
    && TrimSpace(m.raw) == m.raw
    && ParseText(m.raw) == Some(m.value)
  }

  lemma ItemStandsAlone(s: string, i: nat, kind: Kind)
    requires i <= |s| && ParseItem(s, i, kind).Some? && (kind == InArray ==> i > 0)
    ensures StandsAlone(ParseItem(s, i, kind).value.0, |s|)
  {
    hide ParseValue, Agree;
    var d := SkipSpace(s, ParseKey(s, i, kind).value.1);
    var (v, e) := ParseValue(s, d).value;
    var raw := s[d..e];
    assert d > 0;
    ValueEdges(s, d);
    assert raw[0] == s[d] && raw[|raw| - 1] == s[e - 1];
    NotSpace(raw);
    AgreeSlice(s, d, e);
    ValueLocal(s, raw, d, -(d as int));
  }

  lemma AgreeSlice(s: string, d: nat, e: nat)
    requires d <= e <= |s|
    ensures Agree(s, s[d..e], d, e, -(d as int))
  {
  }

  lemma {:induction false} ListStandsAlone(s: string, i: nat, kind: Kind)
    requires 0 < i <= |s| && ParseList(s, i, kind).Some?
    ensures forall m | m in ParseList(s, i, kind).value.0 :: StandsAlone(m, |s|)
    decreases |s| - i
  {
    hide ParseList, ParseItem, StandsAlone;
    ListStep(s, i, kind);
    ItemStandsAlone(s, i, kind);
    var (m, e) := ParseItem(s, i, kind).value;
    var f := SkipSpace(s, e);
    if s[f] != Closer(kind) {
      ListStandsAlone(s, f + 1, kind);
    }
  }

  lemma ItemsStandAlone(s: string, i: nat, kind: Kind)
    requires i < |s| && ParseItems(s, i, kind).Some?
    ensures forall m | m in ParseItems(s, i, kind).value.0 :: StandsAlone(m, |s|)
  {
    hide ParseList, StandsAlone;
    var a := SkipSpace(s, i + 1);
    if !(a < |s| && s[a] == Closer(kind)) {
      ListStandsAlone(s, i + 1, kind);
    }
  }

  /** What the canonicaliser makes of a member's source text is the canonical text of its value. */
  lemma MemberText(norm: Normaliser, m: Member, bound: nat)
    requires StandsAlone(m, bound)
    ensures CanonicalText(norm, m.raw) == if InRange(norm, m.value) then Some(Print(Normal(norm, m.value))) else None
  {
  }

  /** A key of an object has the value of its last duplicate, and there are no other keys. */
  lemma LastDuplicateWins(ms: seq<Member>, k: string, v: Json)
    ensures k in ValueMap(ms) && ValueMap(ms)[k] == v <==>
            exists i :: 0 <= i < |ms| && ms[i].key == k && ms[i].value == v && forall j | i < j < |ms| :: ms[j].key != k
  {
    hide ValueMap, RawMap;
    MapsAlign(ms);
    if k in ValueMap(ms) && ValueMap(ms)[k] == v {
      var i := LastOf(ms, k);
      LatestCounts(ms, i);
    }
    if i :| 0 <= i < |ms| && ms[i].key == k && ms[i].value == v && forall j | i < j < |ms| :: ms[j].key != k {
      LatestCounts(ms, i);
    }
  }

  lemma {:induction false} LastOf(ms: seq<Member>, k: string) returns (i: nat)
    requires k in ValueMap(ms)
    ensures i < |ms| && ms[i].key == k && forall j | i < j < |ms| :: ms[j].key != k
  {
    var n := |ms| - 1;
    if ms[n].key == k {
      i := n;
    } else {
      i := LastOf(ms[..n], k);
    }
  }

  lemma {:induction false} LatestCounts(ms: seq<Member>, i: nat)
    requires i < |ms| && forall j | i < j < |ms| :: ms[j].key != ms[i].key
    ensures ms[i].key in ValueMap(ms) && ValueMap(ms)[ms[i].key] == ms[i].value
  {
    var n := |ms| - 1;
    if i < n {
      LatestCounts(ms[..n], i);
    }
  }

  /** The last source text of a key goes with its last value. */
  lemma {:induction false} MapsAlign(ms: seq<Member>)
    ensures ValueMap(ms).Keys == RawMap(ms).Keys
    ensures forall k | k in ValueMap(ms) :: exists i :: IsLatest(ms, i, k)
  {
    if ms != [] {
      var n := |ms| - 1;
      MapsAlign(ms[..n]);
      forall k | k in ValueMap(ms) ensures exists i :: IsLatest(ms, i, k) {
        if k == ms[n].key {
          assert IsLatest(ms, n, k);
        } else {
          var i :| IsLatest(ms[..n], i, k);
          assert IsLatest(ms, i, k);
        }
      }
    }
  }

  ghost predicate IsLatest(ms: seq<Member>, i: int, k: string) {
    && 0 <= i < |ms| && ms[i].key == k && k in ValueMap(ms) && k in RawMap(ms)
    && ValueMap(ms)[k] == ms[i].value && RawMap(ms)[k] == ms[i].raw
  }

  /** Raw members whose canonical texts are those of the values print as the object of the values. */
  ghost predicate SameMembers(norm: Normaliser, raws: map<string, string>, values: map<string, Json>) {
    && raws.Keys == values.Keys
    && forall k | k in raws ::
         CanonicalText(norm, raws[k]) == if InRange(norm, values[k]) then Some(Print(Normal(norm, values[k]))) else None
  }

  lemma ObjectOfMembers(norm: Normaliser, ms: seq<Member>, bound: nat)
    requires forall m | m in ms :: StandsAlone(m, bound)
    ensures forall k | k in RawMap(ms) :: |RawMap(ms)[k]| < bound
    ensures SameMembers(norm, RawMap(ms), ValueMap(ms))
  {
    hide CanonicalText, RawMap, ValueMap, Print, Normal;
    MapsAlign(ms);
    var raws, values := RawMap(ms), ValueMap(ms);
    forall k | k in raws
      ensures |raws[k]| < bound
      ensures CanonicalText(norm, raws[k])
           == if InRange(norm, values[k]) then Some(Print(Normal(norm, values[k]))) else None
    {
      var i :| IsLatest(ms, i, k);
      MemberText(norm, ms[i], bound);
    }
  }

  lemma ObjectOfMaps(norm: Normaliser, raws: map<string, string>, values: map<string, Json>)
    requires SameMembers(norm, raws, values)
    ensures ObjectText(norm, raws)
         == if InRange(norm, Obj(values)) then Some(Print(Normal(norm, Obj(values)))) else None
  {
    hide CanonicalText, Print, Normal, Entries, Bracket, SortedKeys, Ascending, Elements;
    if InRange(norm, Obj(values)) {
      PrintNormalObject(norm, values);
      assert PrintedMembers(norm, values) == CanonicalTexts(norm, raws);
    }
  }

  ghost function PrintedMembers(norm: Normaliser, values: map<string, Json>): map<string, string>
    requires InRange(norm, Obj(values))
  {
    map k | k in values :: Print(Normal(norm, values[k]))
  }

  lemma PrintNormalObject(norm: Normaliser, values: map<string, Json>)
    requires InRange(norm, Obj(values))
    ensures Print(Normal(norm, Obj(values)))
         == Bracket('{', Entries(SortedKeys(values.Keys), PrintedMembers(norm, values)), '}')
  {
    hide Entries, Bracket, SortedKeys, Ascending, Elements;
    var normal := map k | k in values :: Normal(norm, values[k]);
    assert Normal(norm, Obj(values)) == Obj(normal) && normal.Keys == values.Keys;
    var texts := map k | k in normal :: Print(normal[k]);
    assert texts == PrintedMembers(norm, values);
    assert Texts(Obj(normal)) == Entries(SortedKeys(values.Keys), texts);
  }

  lemma ArrayOfElements(norm: Normaliser, ms: seq<Member>, bound: nat)
    requires forall m | m in ms :: StandsAlone(m, bound)
    ensures forall i | 0 <= i < |ms| :: |Raws(ms)[i]| < bound
    ensures ArrayText(norm, Raws(ms))
         == if InRange(norm, Arr(Values(ms))) then Some(Print(Normal(norm, Arr(Values(ms))))) else None
  {
    hide CanonicalText;
    forall i | 0 <= i < |ms|
      ensures |ms[i].raw| < bound
      ensures CanonicalText(norm, ms[i].raw)
           == if InRange(norm, ms[i].value) then Some(Print(Normal(norm, ms[i].value))) else None
    {
      assert ms[i] in ms;
      MemberText(norm, ms[i], bound);
    }
    assert forall i | 0 <= i < |ms| :: Raws(ms)[i] == ms[i].raw && Values(ms)[i] == ms[i].value;
    if InRange(norm, Arr(Values(ms))) {
      var normal := seq(|ms|, i requires 0 <= i < |ms| => Normal(norm, Values(ms)[i]));
      assert Normal(norm, Arr(Values(ms))) == Arr(normal);
      var texts := seq(|ms|, i requires 0 <= i < |ms| => Print(normal[i]));
      assert texts == seq(|ms|, i requires 0 <= i < |ms| => CanonicalText(norm, Raws(ms)[i]).value);
      assert Print(Arr(normal)) == Bracket('[', texts, ']');
    }
  }

  lemma ObjectByMembers(norm: Normaliser, raw: string)
    requires TrimSpace(raw) == raw && raw != "" && raw[0] == '{'
    ensures UnmarshalMap(raw).None? ==> CanonicalText(norm, raw).None?
    ensures UnmarshalMap(raw).Some? ==>
              && (forall k | k in UnmarshalMap(raw).value :: |UnmarshalMap(raw).value[k]| < |raw|)
              && ObjectText(norm, UnmarshalMap(raw).value) == CanonicalText(norm, raw)
  {
    hide ParseItems, ObjectText;
    assert SkipSpace(raw, 0) == 0;
    if UnmarshalMap(raw).Some? {
      var ms := ParseItems(raw, 0, InObject).value.0;
      ItemsStandAlone(raw, 0, InObject);
      ObjectOfMembers(norm, ms, |raw|);
      ObjectOfMaps(norm, RawMap(ms), ValueMap(ms));
    }
  }

  lemma ArrayByElements(norm: Normaliser, raw: string)
    requires TrimSpace(raw) == raw && raw != "" && raw[0] == '['
    ensures UnmarshalList(raw).None? ==> CanonicalText(norm, raw).None?
    ensures UnmarshalList(raw).Some? ==>
              && (forall i | 0 <= i < |UnmarshalList(raw).value| :: |UnmarshalList(raw).value[i]| < |raw|)
              && ArrayText(norm, UnmarshalList(raw).value) == CanonicalText(norm, raw)
  {
    hide ParseItems, ArrayText;
    assert SkipSpace(raw, 0) == 0;
    if UnmarshalList(raw).Some? {
      var ms := ParseItems(raw, 0, InArray).value.0;
      ItemsStandAlone(raw, 0, InArray);
      ArrayOfElements(norm, ms, |raw|);
    }
  }

  lemma ScalarDenoted(norm: Normaliser, raw: string)
    requires TrimSpace(raw) == raw && raw != "" && raw[0] != '{' && raw[0] != '[' && !IsSpace(raw[0])
    ensures Denote(norm, raw).Some? ==>
              && !Denote(norm, raw).value.Arr? && !Denote(norm, raw).value.Obj?
              && CanonicalText(norm, raw) == Some(MarshalScalar(Denote(norm, raw).value))
  {
    assert SkipSpace(raw, 0) == 0;
  }
}
