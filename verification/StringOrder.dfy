/** sort.Strings and the uniqueness of sorted key lists. */
module StringOrder {
  import opened Utf8

  predicate Ascending(keys: seq<string>) {
    forall i, j | 0 <= i < j < |keys| :: Less(keys[i], keys[j])
  }

  predicate Distinct(keys: seq<string>) {
    forall i, j | 0 <= i < j < |keys| :: keys[i] != keys[j]
  }

  function Elements(keys: seq<string>): set<string> {
    set i | 0 <= i < |keys| :: keys[i]
  }

  lemma {:induction false} LessTotal(s: string, t: string)
    ensures !(Less(s, t) && Less(t, s)) && !Less(s, s)
    ensures s == t || Less(s, t) || Less(t, s)
  {
    if s != "" {
      LessTotal(s[1..], s[1..]);
      if t != "" {
        LessTotal(s[1..], t[1..]);
        assert s == [s[0]] + s[1..] && t == [t[0]] + t[1..];
      }
    }
  }

  lemma {:induction false} LessTransitive(s: string, t: string, u: string)
    requires Less(s, t) && Less(t, u)
    ensures Less(s, u)
  {
    if s != "" && s[0] == t[0] == u[0] {
      LessTransitive(s[1..], t[1..], u[1..]);
    }
  }

  /** One step of the sort: after every smaller key. */
  function Insert(k: string, keys: seq<string>): (r: seq<string>)
    ensures |r| == |keys| + 1
  {
    if keys == [] || !Less(keys[0], k) then [k] + keys else [keys[0]] + Insert(k, keys[1..])
  }

  /** sort.Strings; Go compares the UTF-8 bytes, which is the same order (Utf8.OrderPreserved). */
  function SortStrings(keys: seq<string>): seq<string> {
    if keys == [] then [] else Insert(keys[0], SortStrings(keys[1..]))
  }

  lemma {:induction false} InsertKeeps(k: string, keys: seq<string>)
    ensures multiset(Insert(k, keys)) == multiset(keys) + multiset{k}
  {
    hide Less;
    if keys != [] {
      assert keys == [keys[0]] + keys[1..];
      InsertKeeps(k, keys[1..]);
    }
  }

  lemma {:induction false} InsertSorts(k: string, keys: seq<string>)
    requires Ascending(keys) && k !in keys
    ensures Ascending(Insert(k, keys))
  {
    hide Less;
    if keys == [] {
    } else if Less(keys[0], k) {
      InsertSorts(k, keys[1..]);
      InsertedAbove(k, keys);
      AscendingCons(keys[0], Insert(k, keys[1..]));
    } else {
      LessTotal(k, keys[0]);
      forall i | 0 <= i < |keys| ensures Less(k, keys[i]) {
        if i > 0 {
          LessTransitive(k, keys[0], keys[i]);
        }
      }
      AscendingCons(k, keys);
    }
  }

  lemma InsertedAbove(k: string, keys: seq<string>)
    requires Ascending(keys) && keys != [] && Less(keys[0], k)
    ensures forall i | 0 <= i < |Insert(k, keys[1..])| :: Less(keys[0], Insert(k, keys[1..])[i])
  {
    hide Less, Insert;
    var rest := keys[1..];
    InsertKeeps(k, rest);
    forall i | 0 <= i < |Insert(k, rest)| ensures Less(keys[0], Insert(k, rest)[i]) {
      var x := Insert(k, rest)[i];
      assert x in multiset(Insert(k, rest));
      if x != k {
        assert x in rest;
        var j :| 0 <= j < |rest| && rest[j] == x;
        assert keys[j + 1] == x;
      }
    }
  }

  lemma AscendingCons(k: string, keys: seq<string>)
    requires Ascending(keys) && forall i | 0 <= i < |keys| :: Less(k, keys[i])
    ensures Ascending([k] + keys)
  {
  }

  /** Sorting distinct keys orders them strictly and keeps them all. */
  lemma {:induction false} SortSorts(keys: seq<string>)
    requires Distinct(keys)
    ensures Ascending(SortStrings(keys))
    ensures multiset(SortStrings(keys)) == multiset(keys)
  {
    if keys != [] {
      var rest := keys[1..];
      assert keys == [keys[0]] + rest;
      SortSorts(rest);
      assert keys[0] !in multiset(rest);
      InsertSorts(keys[0], SortStrings(rest));
      InsertKeeps(keys[0], SortStrings(rest));
    }
  }

  /** A set of keys has exactly one ascending enumeration, so no iteration order shows in a sorted list. */
  lemma {:induction false} AscendingUnique(a: seq<string>, b: seq<string>)
    requires Ascending(a) && Ascending(b) && Elements(a) == Elements(b)
    ensures a == b
  {
    NoElements(a);
    NoElements(b);
    if a != [] && b != [] {
      SameLeast(a, b);
      ElementsCons(a);
      ElementsCons(b);
      AscendingUnique(a[1..], b[1..]);
      assert a == [a[0]] + a[1..] && b == [b[0]] + b[1..];
    }
  }

  lemma NoElements(a: seq<string>)
    ensures a == [] <==> Elements(a) == {}
  {
    if a != [] {
      InElements(a[0], a);
    }
  }

  lemma InElements(k: string, a: seq<string>)
    ensures k in a <==> k in Elements(a)
  {
  }

  lemma ElementsCons(a: seq<string>)
    requires Ascending(a) && a != []
    ensures Elements(a[1..]) == Elements(a) - {a[0]}
  {
    LessTotal(a[0], a[0]);
    forall k | k in Elements(a) - {a[0]} ensures k in Elements(a[1..]) {
      var i :| 0 <= i < |a| && a[i] == k;
      assert a[1..][i - 1] == k;
    }
    forall k | k in Elements(a[1..]) ensures k in Elements(a) - {a[0]} {
      var i :| 0 <= i < |a[1..]| && a[1..][i] == k;
      assert a[i + 1] == k && Less(a[0], a[i + 1]);
    }
  }

  lemma SameLeast(a: seq<string>, b: seq<string>)
    requires Ascending(a) && Ascending(b) && Elements(a) == Elements(b) && a != [] && b != []
    ensures a[0] == b[0]
  {
    assert a[0] in Elements(b) && b[0] in Elements(a);
    LessTotal(a[0], b[0]);
    var i :| 0 <= i < |b| && b[i] == a[0];
    var j :| 0 <= j < |a| && a[j] == b[0];
  }

  /** The ascending enumeration of a set of keys. */
  ghost function SortedKeys(keys: set<string>): (r: seq<string>)
    ensures Ascending(r) && Elements(r) == keys
    ensures forall i | 0 <= i < |r| :: r[i] in keys
  {
    if keys == {} then
      []
    else
      var k :| k in keys;
      var rest := SortedKeys(keys - {k});
      InElements(k, rest);
      InsertSorts(k, rest);
      InsertKeeps(k, rest);
      InsertedElements(k, rest);
      Insert(k, rest)
  }

  lemma SameElements(a: seq<string>, b: seq<string>)
    requires multiset(a) == multiset(b)
    ensures Elements(a) == Elements(b)
  {
    forall k ensures k in Elements(a) <==> k in Elements(b) {
      assert k in Elements(a) <==> k in multiset(a);
      assert k in Elements(b) <==> k in multiset(b);
    }
  }

  lemma InsertedElements(k: string, keys: seq<string>)
    requires multiset(Insert(k, keys)) == multiset(keys) + multiset{k}
    ensures Elements(Insert(k, keys)) == Elements(keys) + {k}
  {
    SameElements(Insert(k, keys), keys + [k]);
    ElementsSnoc(keys, k);
  }

  lemma ElementsSnoc(keys: seq<string>, k: string)
    ensures Elements(keys + [k]) == Elements(keys) + {k}
  {
    var r := keys + [k];
    assert forall i | 0 <= i < |keys| :: r[i] == keys[i];
    assert r[|keys|] == k;
  }
}
