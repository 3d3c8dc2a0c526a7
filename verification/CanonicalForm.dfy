/**
 What a canonical text looks like, character by character, and when there is one: a relation between a value and
 its text that the canonicaliser's results are proved to meet and to be the only ones to meet.
 */
module CanonicalForm {
  import opened Basics
  import opened Utf8
  import opened StringOrder
  import opened JsonText
  import opened CanonicalPrint

  // ---------------------------------------------------------------- strings

  /** The escapes of json.Marshal: two characters where JSON has them, six for other controls, HTML and line separators. */
  predicate IsEscape(e: string, c: char) {
    var n := c as int;
    && (c == '"' ==> e == "\\\"")
    && (c == '\\' ==> e == "\\\\")
    && (n == 8 ==> e == "\\b")
    && (n == 9 ==> e == "\\t")
    && (n == 10 ==> e == "\\n")
    && (n == 12 ==> e == "\\f")
    && (n == 13 ==> e == "\\r")
    && (n < 32 && n !in {8, 9, 10, 12, 13} ==>
          e == "\\u00" + ["0123456789abcdef"[n / 16], "0123456789abcdef"[n % 16]])
    && (c == '<' ==> e == "\\u003c")
    && (c == '>' ==> e == "\\u003e")
    && (c == '&' ==> e == "\\u0026")
    && (n == 0x2028 ==> e == "\\u2028")
    && (n == 0x2029 ==> e == "\\u2029")
    && (n >= 32 && c !in {'"', '\\', '<', '>', '&'} && n != 0x2028 && n != 0x2029 ==> e == [c])
  }

  ghost predicate IsEscaped(body: string, s: string)
    decreases |s|
  {
    if s == "" then
      body == ""
    else
      exists e, rest :: body == e + rest && IsEscape(e, s[0]) && IsEscaped(rest, s[1..])
  }

  ghost predicate IsString(t: string, s: string) {
    exists body :: t == "\"" + (body + "\"") && IsEscaped(body, s)
  }

  lemma EscapeIs(e: string, c: char)
    ensures IsEscape(e, c) <==> e == EscapeChar(c)
  {
    HexDigitIs(c as nat % 16);
    if c < ' ' {
      HexDigitIs(c as nat / 16);
      assert "\\u00" + ["0123456789abcdef"[c as nat / 16], "0123456789abcdef"[c as nat % 16]]
          == ['\\', 'u', '0', '0', HexDigit(c as nat / 16), HexDigit(c as nat % 16)];
    }
  }

  lemma HexDigitIs(n: nat)
    requires n < 16
    ensures HexDigit(n) == "0123456789abcdef"[n]
  {
  }

  lemma {:induction false} EscapedIs(body: string, s: string)
    ensures IsEscaped(body, s) <==> body == EscapeAll(s)
    decreases |s|
  {
    hide IsEscape, EscapeChar;
    if s != "" {
      if IsEscaped(body, s) {
        var e, rest :| body == e + rest && IsEscape(e, s[0]) && IsEscaped(rest, s[1..]);
        EscapeIs(e, s[0]);
        EscapedIs(rest, s[1..]);
      }
      EscapeIs(EscapeChar(s[0]), s[0]);
      EscapedIs(EscapeAll(s[1..]), s[1..]);
    }
  }

  lemma StringIs(t: string, s: string)
    ensures IsString(t, s) <==> t == Quote(s)
  {
    hide IsEscaped, EscapeAll;
    if IsString(t, s) {
      var body :| t == "\"" + (body + "\"") && IsEscaped(body, s);
      EscapedIs(body, s);
    }
    EscapedIs(EscapeAll(s), s);
  }

  // ---------------------------------------------------------------- values

  /** Texts in a row, a comma between each two. */
  function Commas(parts: seq<string>): string {
    if |parts| == 0 then ""
    else if |parts| == 1 then parts[0]
    else Commas(parts[..|parts| - 1]) + ("," + parts[|parts| - 1])
  }

  /** The byte order of strings: the first difference decides, and a proper prefix comes first. */
  ghost predicate Precedes(a: Bytes, b: Bytes) {
    exists i :: PrecedesAt(a, b, i)
  }

  ghost predicate PrecedesAt(a: Bytes, b: Bytes, i: int) {
    0 <= i <= |a| && i < |b| && a[..i] == b[..i] && (i == |a| || a[i] < b[i])
  }

  function Named(names: seq<string>, texts: seq<string>): seq<string>
    requires |names| == |texts|
  {
    seq(|names|, i requires 0 <= i < |names| => names[i] + (":" + texts[i]))
  }

  /**
   `t` is the canonical text of `v`: no spaces, every member once in the order of the keys' bytes, and numbers as
   `norm` prints them.
   */
  ghost predicate Renders(norm: Normaliser, v: Json, t: string)
    decreases v, 1
  {
    match v
    case Null => t == "null"
    case Bool(b) => t == if b then "true" else "false"
    case Num(token) => norm(token) == Some(t)
    case Str(s) => IsString(t, s)
    case Arr(items) =>
      exists texts: seq<string> ::
        && |texts| == |items|
        && (forall i | 0 <= i < |items| :: Renders(norm, items[i], texts[i]))
        && t == "[" + (Commas(texts) + "]")
    case Obj(_) =>
      exists keys, names, texts :: RendersObject(norm, v, t, keys, names, texts)
  }

  /** The parts of an object's text: its keys in order, how they are written, and the texts of their values. */
  ghost predicate RendersObject(norm: Normaliser, v: Json, t: string, keys: seq<string>, names: seq<string>, texts: seq<string>)
    requires v.Obj?
    decreases v, 0
  {
    && |keys| == |names| == |texts|
    && (forall i, j | 0 <= i < j < |keys| :: Precedes(ToUtf8(keys[i]), ToUtf8(keys[j])))
    && (forall k :: k in keys <==> k in v.members)
    && (forall i | 0 <= i < |keys| :: IsString(names[i], keys[i]))
    && (forall i | 0 <= i < |keys| && keys[i] in v.members :: Renders(norm, v.members[keys[i]], texts[i]))
    && t == "{" + (Commas(Named(names, texts)) + "}")
  }

  lemma {:induction false} CommasIs(parts: seq<string>)
    ensures Commas(parts) == Join(parts)
  {
    if |parts| > 1 {
      var init, last := parts[..|parts| - 1], parts[|parts| - 1];
      CommasIs(init);
      assert parts == init + [last];
      JoinSnoc(init, last);
    }
  }

  lemma {:induction false} PrecedesIs(a: Bytes, b: Bytes)
    ensures BytesLess(a, b) <==> Precedes(a, b)
  {
    if BytesLess(a, b) {
      if a == [] || a[0] < b[0] {
        assert PrecedesAt(a, b, 0);
      } else {
        PrecedesIs(a[1..], b[1..]);
        var i :| PrecedesAt(a[1..], b[1..], i);
        assert a[..i + 1] == [a[0]] + a[1..][..i] && b[..i + 1] == [b[0]] + b[1..][..i];
        assert PrecedesAt(a, b, i + 1);
      }
    }
    if Precedes(a, b) {
      var i :| PrecedesAt(a, b, i);
      if i > 0 {
        assert a[0] == a[..i][0] && b[0] == b[..i][0];
        assert a[1..][..i - 1] == a[..i][1..] && b[1..][..i - 1] == b[..i][1..];
        assert PrecedesAt(a[1..], b[1..], i - 1);
        PrecedesIs(a[1..], b[1..]);
      }
    }
  }

  lemma AscendingIs(keys: seq<string>)
    ensures Ascending(keys) <==> forall i, j | 0 <= i < j < |keys| :: Precedes(ToUtf8(keys[i]), ToUtf8(keys[j]))
  {
    hide Less, BytesLess, Precedes, ToUtf8;
    forall i, j | 0 <= i < j < |keys| ensures Less(keys[i], keys[j]) <==> Precedes(ToUtf8(keys[i]), ToUtf8(keys[j])) {
      OrderPreserved(keys[i], keys[j]);
      PrecedesIs(ToUtf8(keys[i]), ToUtf8(keys[j]));
    }
  }

  /** The relation holds of exactly the printed normal value. */
  lemma {:induction false} RendersExactly(norm: Normaliser, v: Json, t: string)
    ensures Renders(norm, v, t) <==> InRange(norm, v) && t == Print(Normal(norm, v))
    decreases v, 2
  {
    match v
    case Null =>
    case Bool(_) =>
    case Num(_) =>
    case Str(s) =>
      StringIs(t, s);
    case Arr(items) =>
      ArrayRenders(norm, items, t);
    case Obj(members) =>
      ObjectRenders(norm, v, t);
  }

  lemma PrintArray(norm: Normaliser, items: seq<Json>, texts: seq<string>)
    requires InRange(norm, Arr(items)) && |texts| == |items|
    requires forall i | 0 <= i < |items| :: texts[i] == Print(Normal(norm, items[i]))
    ensures Print(Normal(norm, Arr(items))) == "[" + (Commas(texts) + "]")
  {
    hide Join, Commas;
    var normal := seq(|items|, i requires 0 <= i < |items| => Normal(norm, items[i]));
    assert Normal(norm, Arr(items)) == Arr(normal);
    assert Texts(Arr(normal)) == texts;
    CommasIs(texts);
  }

  lemma {:induction false} ArrayRenders(norm: Normaliser, items: seq<Json>, t: string)
    ensures Renders(norm, Arr(items), t) <==> InRange(norm, Arr(items)) && t == Print(Normal(norm, Arr(items)))
    decreases Arr(items), 0
  {
    hide Print, Normal, Commas;
    if Renders(norm, Arr(items), t) {
      var texts: seq<string> :|
        && |texts| == |items|
        && (forall i | 0 <= i < |items| :: Renders(norm, items[i], texts[i]))
        && t == "[" + (Commas(texts) + "]");
      forall i | 0 <= i < |items| ensures InRange(norm, items[i]) && texts[i] == Print(Normal(norm, items[i])) {
        RendersExactly(norm, items[i], texts[i]);
      }
      PrintArray(norm, items, texts);
    }
    if InRange(norm, Arr(items)) && t == Print(Normal(norm, Arr(items))) {
      var texts := seq(|items|, i requires 0 <= i < |items| => Print(Normal(norm, items[i])));
      forall i | 0 <= i < |items| ensures Renders(norm, items[i], texts[i]) {
        RendersExactly(norm, items[i], texts[i]);
      }
      PrintArray(norm, items, texts);
    }
  }

  lemma PrintObject(norm: Normaliser, members: map<string, Json>, keys: seq<string>, names: seq<string>, texts: seq<string>)
    requires InRange(norm, Obj(members)) && |keys| == |names| == |texts| && keys == SortedKeys(members.Keys)
    requires forall i | 0 <= i < |keys| ::
               keys[i] in members && names[i] == Quote(keys[i]) && texts[i] == Print(Normal(norm, members[keys[i]]))
    ensures Print(Normal(norm, Obj(members))) == "{" + (Commas(Named(names, texts)) + "}")
  {
    hide Join, Commas, SortedKeys, Quote;
    var normal := map k | k in members :: Normal(norm, members[k]);
    assert Normal(norm, Obj(members)) == Obj(normal) && normal.Keys == members.Keys;
    assert Texts(Obj(normal)) == Named(names, texts);
    CommasIs(Named(names, texts));
  }

  lemma {:induction false} ObjectRenders(norm: Normaliser, v: Json, t: string)
    requires v.Obj?
    ensures Renders(norm, v, t) <==> InRange(norm, v) && t == Print(Normal(norm, v))
    decreases v, 1
  {
    hide Print, Normal, RendersObject;
    if Renders(norm, v, t) {
      var keys, names, texts := ObjectParts(norm, v, t);
      RenderedObject(norm, v, t, keys, names, texts);
    }
    if InRange(norm, v) && t == Print(Normal(norm, v)) {
      PrintedObject(norm, v);
    }
  }

  lemma ObjectParts(norm: Normaliser, v: Json, t: string) returns (keys: seq<string>, names: seq<string>, texts: seq<string>)
    requires v.Obj? && Renders(norm, v, t)
    ensures RendersObject(norm, v, t, keys, names, texts)
  {
    keys, names, texts :| RendersObject(norm, v, t, keys, names, texts);
  }

  lemma {:induction false} RenderedObject(norm: Normaliser, v: Json, t: string, keys: seq<string>, names: seq<string>, texts: seq<string>)
    requires v.Obj? && RendersObject(norm, v, t, keys, names, texts)
    ensures InRange(norm, v) && t == Print(Normal(norm, v))
    decreases v, 0
  {
    hide Print, Normal, Renders, Commas, Named, IsString, Precedes, Quote, SortedKeys, ToUtf8;
    AscendingIs(keys);
    SameKeys(keys, v.members.Keys);
    forall i | 0 <= i < |keys|
      ensures keys[i] in v.members && InRange(norm, v.members[keys[i]])
      ensures names[i] == Quote(keys[i]) && texts[i] == Print(Normal(norm, v.members[keys[i]]))
    {
      assert keys[i] in keys;
      StringIs(names[i], keys[i]);
      RendersExactly(norm, v.members[keys[i]], texts[i]);
    }
    assert forall k | k in v.members :: k in keys;
    PrintObject(norm, v.members, keys, names, texts);
  }

  lemma {:induction false} PrintedObject(norm: Normaliser, v: Json)
    requires v.Obj? && InRange(norm, v)
    ensures Renders(norm, v, Print(Normal(norm, v)))
    decreases v, 0
  {
    hide Print, Normal, Commas, Named, IsString, Precedes, Quote, SortedKeys, ToUtf8, Ascending, Elements;
    var keys := SortedKeys(v.members.Keys);
    var names := seq(|keys|, i requires 0 <= i < |keys| => Quote(keys[i]));
    var texts := seq(|keys|, i requires 0 <= i < |keys| => Print(Normal(norm, v.members[keys[i]])));
    AscendingIs(keys);
    forall k ensures k in keys <==> k in v.members {
      InElements(k, keys);
    }
    forall i | 0 <= i < |keys| ensures IsString(names[i], keys[i]) && Renders(norm, v.members[keys[i]], texts[i]) {
      StringIs(names[i], keys[i]);
      RendersExactly(norm, v.members[keys[i]], texts[i]);
    }
    PrintObject(norm, v.members, keys, names, texts);
    assert RendersObject(norm, v, Print(Normal(norm, v)), keys, names, texts);
  }

  lemma SameKeys(keys: seq<string>, all: set<string>)
    requires Ascending(keys) && forall k :: k in keys <==> k in all
    ensures keys == SortedKeys(all)
  {
    hide SortedKeys;
    forall k ensures k in Elements(keys) <==> k in all {
      InElements(k, keys);
    }
    AscendingUnique(keys, SortedKeys(all));
  }

  // ---------------------------------------------------------------- when there is a text

  /** The number token stands somewhere in the value. */
  ghost predicate Occurs(token: string, v: Json) {
    match v
    case Num(t) => t == token
    case Arr(items) => exists i :: 0 <= i < |items| && Occurs(token, items[i])
    case Obj(members) => exists k :: k in members && Occurs(token, members[k])
    case _ => false
  }

  lemma {:induction false} InRangeExactly(norm: Normaliser, v: Json)
    ensures InRange(norm, v) <==> forall token | Occurs(token, v) :: norm(token).Some?
  {
    match v
    case Num(t) =>
      assert Occurs(t, v);
    case Arr(items) =>
      forall i | 0 <= i < |items|
        ensures InRange(norm, items[i]) <==> forall token | Occurs(token, items[i]) :: norm(token).Some?
      {
        InRangeExactly(norm, items[i]);
      }
      assert forall i, token | 0 <= i < |items| && Occurs(token, items[i]) :: Occurs(token, v);
    case Obj(members) =>
      forall k | k in members
        ensures InRange(norm, members[k]) <==> forall token | Occurs(token, members[k]) :: norm(token).Some?
      {
        InRangeExactly(norm, members[k]);
      }
      assert forall k, token | k in members && Occurs(token, members[k]) :: Occurs(token, v);
    case _ =>
  }

  /**
   There is a result exactly when the trimmed text parses and all its number tokens are in range, and the result
   renders the value parsed.
   */
  ghost predicate IsCanonical(norm: Normaliser, raw: string, r: Option<string>) {
    var v := ParseText(TrimSpace(raw));
    && (r.Some? <==> v.Some? && forall token | Occurs(token, v.value) :: norm(token).Some?)
    && (r.Some? ==> Renders(norm, v.value, r.value))
  }

  lemma CanonicalExactly(norm: Normaliser, raw: string)
    ensures IsCanonical(norm, raw, CanonicalText(norm, raw))
  {
    hide ParseText, TrimSpace, InRange, Occurs, Print, Normal, Renders;
    if ParseText(TrimSpace(raw)).Some? {
      var v := ParseText(TrimSpace(raw)).value;
      InRangeExactly(norm, v);
      if InRange(norm, v) {
        RendersExactly(norm, v, Print(Normal(norm, v)));
      }
    }
  }

  /** No other text is a result. */
  lemma CanonicalUnique(norm: Normaliser, raw: string, r: Option<string>)
    requires IsCanonical(norm, raw, r)
    ensures r == CanonicalText(norm, raw)
  {
    hide ParseText, TrimSpace, InRange, Occurs, Print, Normal, Renders;
    if ParseText(TrimSpace(raw)).Some? {
      var v := ParseText(TrimSpace(raw)).value;
      InRangeExactly(norm, v);
      if r.Some? {
        RendersExactly(norm, v, r.value);
      }
    }
  }

  /** An object's text without the two members that are not signed; null renders as {}. */
  ghost predicate RendersSigned(norm: Normaliser, v: Json, t: string) {
    match v
    case Obj(members) => Renders(norm, Obj(members - {"signature", "pubkey_b64"}), t)
    case Null => t == "{}"
    case _ => false
  }

  /** The signing text is the one text that renders the object without its two stripped members. */
  lemma SigningTextExactly(norm: Normaliser, raw: string, t: string)
    ensures SigningText(norm, raw) == Some(t) <==>
            ParseText(raw).Some? && RendersSigned(norm, ParseText(raw).value, t)
  {
    hide ParseText, InRange, Print, Normal, Renders;
    if ParseText(raw).Some? && ParseText(raw).value.Obj? {
      RendersExactly(norm, Obj(ParseText(raw).value.members - {"signature", "pubkey_b64"}), t);
    } else if ParseText(raw) == Some(Null) {
      PrintEmpty(norm);
    }
  }

  /** A signing text exists exactly for null and for objects whose kept members have numbers in range. */
  lemma SigningSucceeds(norm: Normaliser, raw: string)
    ensures SigningText(norm, raw).Some? <==> ParseText(raw).Some? && Signable(norm, ParseText(raw).value)
    ensures ParseText(raw) == Some(Null) ==> SigningText(norm, raw) == Some("{}")
  {
    hide ParseText, InRange, Print, Normal, Occurs;
    if ParseText(raw) == Some(Null) {
      PrintEmpty(norm);
    } else if ParseText(raw).Some? && ParseText(raw).value.Obj? {
      var members := ParseText(raw).value.members;
      var kept := members - {"signature", "pubkey_b64"};
      KeptInRange(norm, kept);
      assert forall k | k in members && k != "signature" && k != "pubkey_b64" :: k in kept && kept[k] == members[k];
    }
  }

  lemma KeptInRange(norm: Normaliser, kept: map<string, Json>)
    ensures InRange(norm, Obj(kept)) <==>
            forall k, token | k in kept && Occurs(token, kept[k]) :: norm(token).Some?
  {
    hide Occurs;
    forall k | k in kept ensures InRange(norm, kept[k]) <==> forall token | Occurs(token, kept[k]) :: norm(token).Some? {
      InRangeExactly(norm, kept[k]);
    }
  }

  ghost predicate Signable(norm: Normaliser, v: Json) {
    match v
    case Obj(members) =>
      forall k, token | k in members && k != "signature" && k != "pubkey_b64" && Occurs(token, members[k]) ::
        norm(token).Some?
    case Null => true
    case _ => false
  }

  lemma PrintEmpty(norm: Normaliser)
    ensures var none: map<string, Json> := map[]; InRange(norm, Obj(none)) && Print(Normal(norm, Obj(none))) == "{}"
  {
    var none: map<string, Json> := map[];
    assert Normal(norm, Obj(none)) == Obj(none);
    assert none.Keys == {};
    assert Texts(Obj(none)) == [];
  }
}
