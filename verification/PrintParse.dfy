/** A printed value parses back to itself, wherever it stands in a text. */
module PrintParse {
  import opened Basics
  import opened StringOrder
  import opened JsonText
  import opened CanonicalPrint
  import opened CanonicalJson

  /** `p` stands in `t` at `i`. */
  ghost predicate At(t: string, i: nat, p: string) {
    i + |p| <= |t| && t[i..i + |p|] == p
  }

  lemma AtSplit(t: string, i: nat, a: string, b: string)
    requires At(t, i, a + b)
    ensures At(t, i, a) && At(t, i + |a|, b)
  {
    assert t[i..i + |a|] == t[i..i + |a + b|][..|a|];
    assert t[i + |a|..i + |a| + |b|] == t[i..i + |a + b|][|a|..];
  }

  lemma AtFirst(t: string, i: nat, p: string)
    requires At(t, i, p) && p != ""
    ensures i < |t| && t[i] == p[0]
  {
    assert t[i] == t[i..i + |p|][0];
  }

  lemma AtHead(t: string, i: nat, p: string)
    requires At(t, i, p)
    ensures forall k | 0 <= k < |p| :: t[i + k] == p[k]
    ensures forall k | i <= k < i + |p| :: t[k] == p[k - i]
  {
    assert forall k | 0 <= k < |p| :: p[k] == t[i..i + |p|][k];
  }

  // ---------------------------------------------------------------- strings

  lemma UnitBack(c: char, t: string, i: nat)
    requires At(t, i, EscapeChar(c))
    ensures t[i] != '"' && ParseUnit(t, i) == Some((c, |EscapeChar(c)|))
  {
    AtHead(t, i, EscapeChar(c));
    var e := EscapeChar(c);
    assert t[i] == e[0];
    if |e| == 6 {
      assert t[i + 1] == e[1] && t[i + 2] == e[2] && t[i + 3] == e[3] && t[i + 4] == e[4] && t[i + 5] == e[5];
    } else if |e| == 2 {
      assert t[i + 1] == e[1];
    }
  }

  lemma {:induction false} StringBack(x: string, t: string, i: nat)
    requires At(t, i, EscapeAll(x) + "\"")
    ensures ParseString(t, i) == Some((x, i + |EscapeAll(x)| + 1))
    decreases |x|
  {
    hide ParseUnit, EscapeChar, At;
    if x == "" {
      assert EscapeAll("") + "\"" == "\"";
      AtFirst(t, i, "\"");
    } else {
      var e, rest := EscapeChar(x[0]), EscapeAll(x[1..]);
      Assoc(e, rest, "\"");
      AtSplit(t, i, e, rest + "\"");
      UnitBack(x[0], t, i);
      StringBack(x[1..], t, i + |e|);
      assert [x[0]] + x[1..] == x;
    }
  }

  lemma QuoteBack(x: string, t: string, i: nat)
    requires At(t, i, Quote(x))
    ensures t[i] == '"' && ParseString(t, i + 1) == Some((x, i + |Quote(x)|))
  {
    hide EscapeAll, ParseString, At;
    var rest := EscapeAll(x) + "\"";
    AtSplit(t, i, "\"", rest);
    AtFirst(t, i, "\"");
    StringBack(x, t, i + 1);
  }

  // ---------------------------------------------------------------- values

  /** Every number is a token of the grammar. */
  predicate Printable(v: Json) {
    match v
    case Num(token) => IsNumber(token)
    case Arr(items) => forall i | 0 <= i < |items| :: Printable(items[i])
    case Obj(members) => forall k | k in members :: Printable(members[k])
    case _ => true
  }

  lemma PrintHead(v: Json)
    requires Printable(v)
    ensures Print(v) != "" && !IsJsonSpace(Print(v)[0]) && Print(v)[0] != ']' && Print(v)[0] != '}'
  {
    hide Texts;
    if v.Num? {
      NumberHead(v.token);
    }
  }

  lemma NoSpaceHere(t: string, i: nat)
    requires i < |t| && !IsJsonSpace(t[i])
    ensures SkipSpace(t, i) == i
  {
  }

  ghost predicate IsContainer(v: Json) {
    v.Arr? || v.Obj?
  }

  ghost function KindOf(v: Json): Kind
    requires IsContainer(v)
  {
    if v.Obj? then InObject else InArray
  }

  /** The items the parser finds in a printed container. */
  ghost function ItemsOf(v: Json): (r: seq<Member>)
    requires IsContainer(v)
    ensures |r| == |Texts(v)|
  {
    match v
    case Arr(items) => seq(|items|, i requires 0 <= i < |items| => Member("", items[i], Print(items[i])))
    case Obj(members) =>
      var keys := SortedKeys(members.Keys);
      seq(|keys|, i requires 0 <= i < |keys| => Member(keys[i], members[keys[i]], Print(members[keys[i]])))
  }

  lemma {:induction false} ValueBack(v: Json, t: string, i: nat)
    requires Printable(v) && At(t, i, Print(v)) && Ends(t, i + |Print(v)|)
    ensures ParseValue(t, i) == Some((v, i + |Print(v)|))
    decreases v, 3
  {
    hide IsNumber, ParseItems, ParseString, Texts, Join, At, EscapeAll;
    PrintHead(v);
    match v
    case Null | Bool(_) =>
      LiteralBack(v, t, i);
    case Num(token) =>
      NumberBack(token, t, i);
    case Str(s) =>
      QuoteBack(s, t, i);
    case Arr(items) =>
      ContainerBack(v, t, i);
      ItemsOfArray(v);
    case Obj(members) =>
      ContainerBack(v, t, i);
      ItemsOfObject(v);
  }

  lemma LiteralBack(v: Json, t: string, i: nat)
    requires (v.Null? || v.Bool?) && At(t, i, Print(v))
    ensures ParseValue(t, i) == Some((v, i + |Print(v)|))
  {
    hide ParseItems, ParseString;
    AtFirst(t, i, Print(v));
    assert t[i] == Print(v)[0];
    LiteralHead(t, i);
    assert Literal(t, i, Print(v));
  }

  lemma NumberBack(token: string, t: string, i: nat)
    requires IsNumber(token) && At(t, i, token) && Ends(t, i + |token|)
    ensures ParseValue(t, i) == Some((Num(token), i + |token|))
  {
    hide ParseItems, ParseString;
    NumberHead(token);
    AtHead(t, i, token);
    assert t[i] == token[0];
    NotLiteral(t, i);
    NumberRun(t, i);
    var j, m := i + |token|, NumberEnd(t, i);
    assert m == j;
    assert t[i..j] == token;
  }

  lemma {:induction false} ContainerBack(v: Json, t: string, i: nat)
    requires IsContainer(v) && Printable(v) && At(t, i, Print(v))
    ensures t[i] == (if v.Obj? then '{' else '[')
    ensures ParseItems(t, i, KindOf(v)) == Some((ItemsOf(v), i + |Print(v)|))
    decreases v, 2
  {
    hide ParseList, Texts, Join, At, ItemsOf, SkipSpace, IsJsonSpace, Quote, Printable;
    var close := Closer(KindOf(v));
    var body := Join(Texts(v)) + [close];
    var open := if v.Obj? then ['{'] else ['['];
    assert Print(v) == open + body;
    AtFirst(t, i, Print(v));
    AtSplit(t, i, open, body);
    if Texts(v) == [] {
      JoinNothing();
      assert body == [close];
      AtFirst(t, i + 1, body);
      CloserIsNotSpace(KindOf(v));
      NoSpaceHere(t, i + 1);
    } else {
      ListBack(v, 0, t, i + 1);
      TextHead(v, 0);
      JoinHead(Texts(v), [close]);
      AtFirst(t, i + 1, body);
      NoSpaceHere(t, i + 1);
      assert ItemsOf(v)[0..] == ItemsOf(v);
    }
  }

  lemma CloserIsNotSpace(kind: Kind)
    ensures !IsJsonSpace(Closer(kind))
  {
  }

  lemma JoinNothing()
    ensures Join([]) == ""
  {
  }

  /** The text of an item starts with neither a space nor a closer. */
  lemma TextHead(v: Json, k: nat)
    requires IsContainer(v) && Printable(v) && k < |Texts(v)|
    ensures Texts(v)[k] != "" && !IsJsonSpace(Texts(v)[k][0]) && Texts(v)[k][0] != Closer(KindOf(v))
  {
    hide Print, EscapeAll, SortedKeys;
    if v.Arr? {
      PrintHead(v.items[k]);
    }
  }

  lemma JoinHead(texts: seq<string>, rest: string)
    requires texts != [] && texts[0] != ""
    ensures (Join(texts) + rest)[0] == texts[0][0]
  {
  }

  lemma {:induction false} ListBack(v: Json, k: nat, t: string, i: nat)
    requires IsContainer(v) && Printable(v) && k < |Texts(v)|
    requires At(t, i, Join(Texts(v)[k..]) + [Closer(KindOf(v))])
    ensures ParseList(t, i, KindOf(v)) == Some((ItemsOf(v)[k..], i + |Join(Texts(v)[k..])| + 1))
    decreases v, 1, |Texts(v)| - k
  {
    hide ParseList, ParseItem, Texts, ItemsOf, At, Join, Closer, Printable, Ends, KindOf;
    var kind := KindOf(v);
    var texts, items := Texts(v), ItemsOf(v);
    var close := [Closer(kind)];
    JoinUnfold(texts, k);
    SplitFirst(items, k);
    if k + 1 == |texts| {
      assert texts[k + 1..] == [] && items[k + 1..] == [];
      TextThen(t, i, texts[k], close, kind);
      ItemBack(v, k, t, i);
      LastListed(items[k], texts[k], t, i, kind);
    } else {
      assert texts[k + 1..] != [];
      var rest := Join(texts[k + 1..]) + close;
      Regroup(texts[k], Join(texts[k + 1..]), close);
      TextThen(t, i, texts[k], "," + rest, kind);
      ItemBack(v, k, t, i);
      AfterComma(t, i + |texts[k]|, rest);
      ListBack(v, k + 1, t, i + |texts[k]| + 1);
      OneMoreListed(items[k], texts[k], rest, t, i, kind);
    }
  }

  lemma Regroup(text: string, more: string, close: string)
    ensures (text + ("," + more)) + close == text + ("," + (more + close))
  {
    Assoc(text, "," + more, close);
    Assoc(",", more, close);
  }

  /** An item's text followed by a comma or a closer. */
  lemma TextThen(t: string, i: nat, text: string, rest: string, kind: Kind)
    requires At(t, i, text + rest) && rest != "" && (rest[0] == ',' || rest[0] == Closer(kind))
    ensures At(t, i, text) && Ends(t, i + |text|)
    ensures At(t, i + |text|, rest)
  {
    CloserIsOne(kind);
    AtSplit(t, i, text, rest);
    AfterItem(t, i + |text|, rest);
  }

  lemma AfterComma(t: string, e: nat, rest: string)
    requires At(t, e, "," + rest)
    ensures At(t, e + 1, rest)
  {
    AtSplit(t, e, ",", rest);
  }

  lemma LastListed(m: Member, text: string, t: string, i: nat, kind: Kind)
    requires i <= |t| && At(t, i, text + [Closer(kind)]) && ParseItem(t, i, kind) == Some((m, i + |text|))
    ensures ParseList(t, i, kind) == Some(([m], i + |text| + 1))
  {
    hide ParseItem, ParseList, At, SkipSpace, Closer;
    CloserIsOne(kind);
    AtSplit(t, i, text, [Closer(kind)]);
    AfterItem(t, i + |text|, [Closer(kind)]);
    ItemBounds(t, i, kind);
    ListStep(t, i, kind);
  }

  lemma OneMoreListed(m: Member, text: string, rest: string, t: string, i: nat, kind: Kind)
    requires i <= |t| && At(t, i, text + ("," + rest)) && ParseItem(t, i, kind) == Some((m, i + |text|))
    requires i + |text| < |t| && ParseList(t, i + |text| + 1, kind).Some?
    ensures var (ms, j) := ParseList(t, i + |text| + 1, kind).value;
            ParseList(t, i, kind) == Some(([m] + ms, j))
  {
    hide ParseItem, ParseList, At, SkipSpace, Closer;
    CloserIsOne(kind);
    AtSplit(t, i, text, "," + rest);
    AfterItem(t, i + |text|, "," + rest);
    ListStep(t, i, kind);
  }

  lemma ItemBounds(t: string, i: nat, kind: Kind)
    requires i <= |t| && ParseItem(t, i, kind).Some?
    ensures ParseItem(t, i, kind).value.1 <= |t|
  {
  }

  lemma CloserIsOne(kind: Kind)
    ensures Closer(kind) == '}' || Closer(kind) == ']'
  {
  }

  lemma JoinUnfold(texts: seq<string>, k: nat)
    requires k < |texts|
    ensures Join(texts[k..]) == if texts[k + 1..] == [] then texts[k] else texts[k] + ("," + Join(texts[k + 1..]))
  {
    assert texts[k..][1..] == texts[k + 1..];
  }

  /** A comma or a closer ends a number and is not a space. */
  lemma AfterItem(t: string, e: nat, rest: string)
    requires At(t, e, rest) && rest != "" && (rest[0] == ',' || rest[0] == '}' || rest[0] == ']')
    ensures e < |t| && t[e] == rest[0] && Ends(t, e) && SkipSpace(t, e) == e
  {
    AtFirst(t, e, rest);
  }

  lemma {:induction false} ItemBack(v: Json, k: nat, t: string, i: nat)
    requires IsContainer(v) && Printable(v) && k < |Texts(v)|
    requires At(t, i, Texts(v)[k]) && Ends(t, i + |Texts(v)[k]|)
    ensures ParseItem(t, i, KindOf(v)) == Some((ItemsOf(v)[k], i + |Texts(v)[k]|))
    decreases v, 0
  {
    hide ParseValue, Print, At, Quote, SortedKeys, SkipSpace, IsJsonSpace, ParseKey, Entry;
    if v.Arr? {
      ElementKey(t, i);
      var x := v.items[k];
      PrintHead(x);
      AtFirst(t, i, Print(x));
      NoSpaceHere(t, i);
      ValueBack(x, t, i);
      AtSlice(t, i, Print(x));
    } else {
      var key := SortedKeys(v.members.Keys)[k];
      MemberBack(key, v.members[key], t, i);
      ValueBack(v.members[key], t, i + |Quote(key)| + 1);
    }
  }

  lemma ElementKey(t: string, i: nat)
    requires i <= |t|
    ensures ParseKey(t, i, InArray) == Some(("", i))
  {
  }

  lemma AtSlice(t: string, i: nat, p: string)
    requires At(t, i, p)
    ensures i + |p| <= |t| && t[i..i + |p|] == p
  {
  }

  /** Key and colon of a printed member. */
  lemma MemberBack(key: string, x: Json, t: string, i: nat)
    requires Printable(x) && At(t, i, Entry(key, Print(x)))
    ensures var d := i + |Quote(key)| + 1;
            && |Entry(key, Print(x))| == |Quote(key)| + 1 + |Print(x)|
            && ParseKey(t, i, InObject) == Some((key, d))
            && d <= |t| && SkipSpace(t, d) == d
            && At(t, d, Print(x))
            && t[d..d + |Print(x)|] == Print(x)
  {
    hide ParseString, Print, Quote, At, SkipSpace, IsJsonSpace;
    assert !IsJsonSpace('"') && !IsJsonSpace(':') by {
      PunctuationIsNotSpace();
    }
    var q, p := Quote(key), Print(x);
    AtSplit(t, i, q, ":" + p);
    AtSplit(t, i + |q|, ":", p);
    AtFirst(t, i + |q|, ":");
    QuoteBack(key, t, i);
    NoSpaceHere(t, i);
    NoSpaceHere(t, i + |q|);
    PrintHead(x);
    AtFirst(t, i + |q| + 1, p);
    NoSpaceHere(t, i + |q| + 1);
  }

  lemma PunctuationIsNotSpace()
    ensures !IsJsonSpace('"') && !IsJsonSpace(':')
  {
  }

  lemma ItemsOfArray(v: Json)
    requires v.Arr?
    ensures Values(ItemsOf(v)) == v.items
  {
  }

  /** Distinct keys: the map of the items is the object itself. */
  lemma ItemsOfObject(v: Json)
    requires v.Obj?
    ensures ValueMap(ItemsOf(v)) == v.members
  {
    hide Print, SortedKeys, ValueMap, Texts;
    var keys, ms := SortedKeys(v.members.Keys), ItemsOf(v);
    AscendingDistinct(keys);
    ValueMapDistinct(ms);
    forall k | k in v.members ensures k in ValueMap(ms) && ValueMap(ms)[k] == v.members[k] {
      assert k in Elements(keys);
      var i :| 0 <= i < |keys| && keys[i] == k;
      assert ms[i].key == k;
    }
    forall k | k in ValueMap(ms) ensures k in v.members {
      var i :| 0 <= i < |ms| && ms[i].key == k;
    }
  }

  lemma AscendingDistinct(keys: seq<string>)
    requires Ascending(keys)
    ensures Distinct(keys)
  {
    forall i, j | 0 <= i < j < |keys| ensures keys[i] != keys[j] {
      LessTotal(keys[i], keys[j]);
    }
  }

  lemma ValueMapDistinct(ms: seq<Member>)
    requires forall i, j | 0 <= i < j < |ms| :: ms[i].key != ms[j].key
    ensures forall i | 0 <= i < |ms| :: ms[i].key in ValueMap(ms) && ValueMap(ms)[ms[i].key] == ms[i].value
    ensures forall k | k in ValueMap(ms) :: exists i :: 0 <= i < |ms| && ms[i].key == k
  {
    hide ValueMap, RawMap;
    forall i | 0 <= i < |ms| ensures ms[i].key in ValueMap(ms) && ValueMap(ms)[ms[i].key] == ms[i].value {
      LatestCounts(ms, i);
    }
    MapsAlign(ms);
    forall k | k in ValueMap(ms) ensures exists i :: 0 <= i < |ms| && ms[i].key == k {
      var i :| IsLatest(ms, i, k);
    }
  }

  /** Printing and parsing a value gives it back. */
  lemma PrintParses(v: Json)
    requires Printable(v)
    ensures ParseText(Print(v)) == Some(v)
    ensures TrimSpace(Print(v)) == Print(v)
  {
    hide ParseValue, Print, IsSpace, SkipSpace;
    var t := Print(v);
    PrintHead(v);
    NoSpaceHere(t, 0);
    ValueBack(v, t, 0);
    ValueEdges(t, 0);
    NotSpace(t);
    assert SkipSpace(t, |t|) == |t| by {
      EndOfText(t);
    }
  }

  lemma EndOfText(t: string)
    ensures SkipSpace(t, |t|) == |t|
  {
  }
}
