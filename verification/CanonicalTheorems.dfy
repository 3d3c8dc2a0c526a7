/** The canonical text is a normal form: texts agree byte for byte exactly when the values they denote do. */
module CanonicalTheorems {
  import opened Basics
  import opened Utf8
  import opened StringOrder
  import opened JsonText
  import opened CanonicalPrint
  import opened PrintParse

  /** Normalising numbers yields a printable value that further normalising leaves alone. */
  lemma {:induction false} NormalIsNormal(norm: Normaliser, v: Json)
    requires GoodNormaliser(norm) && InRange(norm, v)
    ensures var n := Normal(norm, v); Printable(n) && InRange(norm, n) && Normal(norm, n) == n
  {
    match v
    case Num(token) =>
    case Arr(items) =>
      forall i | 0 <= i < |items|
        ensures var n := Normal(norm, items[i]); Printable(n) && InRange(norm, n) && Normal(norm, n) == n
      {
        NormalIsNormal(norm, items[i]);
      }
      var n := Normal(norm, v);
      assert Normal(norm, n).items == n.items;
    case Obj(members) =>
      forall k | k in members
        ensures var n := Normal(norm, members[k]); Printable(n) && InRange(norm, n) && Normal(norm, n) == n
      {
        NormalIsNormal(norm, members[k]);
      }
      var n := Normal(norm, v);
      assert Normal(norm, n).members == n.members;
    case _ =>
  }

  /** A printed normal value denotes itself. */
  lemma PrintDenotes(norm: Normaliser, v: Json)
    requires GoodNormaliser(norm) && InRange(norm, v)
    ensures Denote(norm, Print(Normal(norm, v))) == Some(Normal(norm, v))
    ensures TrimSpace(Print(Normal(norm, v))) == Print(Normal(norm, v))
  {
    hide GoodNormaliser, Print, ParseText, TrimSpace;
    NormalIsNormal(norm, v);
    PrintParses(Normal(norm, v));
  }

  /** The canonical text denotes the value of the text it was made from. */
  lemma CanonicalTextDenotes(norm: Normaliser, raw: string)
    requires GoodNormaliser(norm) && CanonicalText(norm, raw).Some?
    ensures Denote(norm, CanonicalText(norm, raw).value) == Denote(norm, TrimSpace(raw))
    ensures TrimSpace(CanonicalText(norm, raw).value) == CanonicalText(norm, raw).value
  {
    hide GoodNormaliser, Print, ParseText, TrimSpace, Normal, InRange;
    PrintDenotes(norm, ParseText(TrimSpace(raw)).value);
  }

  lemma SameBytes(s: string, t: string)
    ensures ToUtf8(s) == ToUtf8(t) <==> s == t
  {
    if ToUtf8(s) == ToUtf8(t) {
      Injective(s, t);
    }
  }

  /** Canonical bytes are equal exactly when the values are: spaces, escapes, key order and duplicates do not show. */
  lemma NormalForm(norm: Normaliser, a: string, b: string)
    requires GoodNormaliser(norm) && CanonicalText(norm, a).Some? && CanonicalText(norm, b).Some?
    ensures ToUtf8(CanonicalText(norm, a).value) == ToUtf8(CanonicalText(norm, b).value) <==>
            Denote(norm, TrimSpace(a)) == Denote(norm, TrimSpace(b))
  {
    hide GoodNormaliser, Print, Denote, TrimSpace, ToUtf8;
    SameBytes(CanonicalText(norm, a).value, CanonicalText(norm, b).value);
    CanonicalTextDenotes(norm, a);
    CanonicalTextDenotes(norm, b);
  }

  /** Canonicalising a canonical text changes nothing. */
  lemma Idempotent(norm: Normaliser, raw: string)
    requires GoodNormaliser(norm) && CanonicalText(norm, raw).Some?
    ensures CanonicalText(norm, CanonicalText(norm, raw).value) == CanonicalText(norm, raw)
  {
    hide GoodNormaliser, Print, Denote, TrimSpace;
    CanonicalTextDenotes(norm, raw);
  }

  /** The members two objects share up to the two stripped keys, compared by value. */
  ghost predicate SameSignedMembers(norm: Normaliser, m: map<string, Json>, n: map<string, Json>) {
    forall k | k != "signature" && k != "pubkey_b64" ::
      && (k in m <==> k in n)
      && (k in m ==> SameNormal(norm, m[k], n[k]))
  }

  ghost predicate SameNormal(norm: Normaliser, v: Json, w: Json) {
    InRange(norm, v) && InRange(norm, w) && Normal(norm, v) == Normal(norm, w)
  }

  /**
   The signing bytes of two objects are equal exactly when the objects agree on every member but "signature"
   and "pubkey_b64" of the outermost level; everything else, "nonce" and nested members included, is bound.
   */
  lemma SigningBindsTheRest(norm: Normaliser, a: string, b: string, m: map<string, Json>, n: map<string, Json>)
    requires GoodNormaliser(norm) && ParseText(a) == Some(Obj(m)) && ParseText(b) == Some(Obj(n))
    requires SigningText(norm, a).Some? && SigningText(norm, b).Some?
    ensures ToUtf8(SigningText(norm, a).value) == ToUtf8(SigningText(norm, b).value) <==>
            SameSignedMembers(norm, m, n)
    ensures ToUtf8(SigningText(norm, a).value) == ToUtf8(SigningText(norm, b).value) ==>
              && ("nonce" in m <==> "nonce" in n)
              && ("nonce" in m ==> SameNormal(norm, m["nonce"], n["nonce"]))
  {
    hide GoodNormaliser, Print, Denote, TrimSpace, ToUtf8;
    SameBytes(SigningText(norm, a).value, SigningText(norm, b).value);
    var m', n' := m - STRIPPED, n - STRIPPED;
    PrintDenotes(norm, Obj(m'));
    PrintDenotes(norm, Obj(n'));
    var x, y := Normal(norm, Obj(m')), Normal(norm, Obj(n'));
    assert SigningText(norm, a) == SigningText(norm, b) <==> x == y;
    NormalMembers(norm, m');
    NormalMembers(norm, n');
    if x == y {
      forall k | k != "signature" && k != "pubkey_b64"
        ensures (k in m <==> k in n) && (k in m ==> SameNormal(norm, m[k], n[k]))
      {
        assert k in m <==> k in x.members;
        assert k in n <==> k in y.members;
      }
    }
    if SameSignedMembers(norm, m, n) {
      forall k ensures k in x.members <==> k in y.members {
        assert k in x.members <==> k in m && k !in STRIPPED;
        assert k in y.members <==> k in n && k !in STRIPPED;
      }
      forall k | k in x.members ensures x.members[k] == y.members[k] {
        assert k in m && k !in STRIPPED && SameNormal(norm, m[k], n[k]);
      }
      assert x.members == y.members;
    }
  }

  lemma NormalMembers(norm: Normaliser, m: map<string, Json>)
    requires InRange(norm, Obj(m))
    ensures var x := Normal(norm, Obj(m));
            && x.Obj? && x.members.Keys == m.Keys
            && forall k | k in m :: InRange(norm, m[k]) && x.members[k] == Normal(norm, m[k])
  {
  }

  /** In an object's canonical text the keys stand in the order of their UTF-8 bytes and every member's text is canonical. */
  lemma CanonicalObjectLayout(v: Json)
    requires v.Obj? && Printable(v)
    ensures Print(v) != "" && ParseItems(Print(v), 0, InObject).Some?
    ensures var (items, end) := ParseItems(Print(v), 0, InObject).value;
            && end == |Print(v)| && |items| == |v.members|
            && (forall i, j | 0 <= i < j < |items| :: BytesLess(ToUtf8(items[i].key), ToUtf8(items[j].key)))
            && (forall i | 0 <= i < |items| :: items[i].raw == Print(items[i].value))
  {
    hide Print, ParseItems, Texts, SortedKeys, ToUtf8;
    PrintHead(v);
    ContainerBack(v, Print(v), 0);
    var items := ItemsOf(v);
    var keys := SortedKeys(v.members.Keys);
    assert |items| == |keys|;
    forall i, j | 0 <= i < j < |items| ensures BytesLess(ToUtf8(items[i].key), ToUtf8(items[j].key)) {
      OrderPreserved(keys[i], keys[j]);
    }
    EnumerationSize(keys);
  }

  lemma {:induction false} EnumerationSize(keys: seq<string>)
    requires Ascending(keys)
    ensures |keys| == |Elements(keys)|
  {
    hide Less;
    if keys != [] {
      EnumerationSize(keys[1..]);
      ElementsCons(keys);
      assert keys[0] in Elements(keys);
    }
  }
}
