/**
 The grammar of RFC 8259 as a relation between positions of a text and values, written down section by section, and
 the proof that the parser accepts exactly the grammar. Go's choices where the RFC leaves them open are part of it:
 the last duplicate of a key wins and a lone surrogate becomes the replacement character.
 */
module JsonGrammar {
  import opened Basics
  import opened Decimal
  import opened JsonText

  // ---------------------------------------------------------------- white space (section 2)

  ghost predicate Blank(s: string, i: int, j: int) {
    0 <= i <= j <= |s| && forall k | i <= k < j :: s[k] == ' ' || s[k] == '\t' || s[k] == '\n' || s[k] == '\r'
  }

  lemma {:induction false} SkipsBlank(s: string, i: nat)
    requires i <= |s|
    ensures Blank(s, i, SkipSpace(s, i))
    decreases |s| - i
  {
    if i < |s| && IsJsonSpace(s[i]) {
      SkipsBlank(s, i + 1);
    }
  }

  lemma {:induction false} SkipsAllBlank(s: string, i: nat, j: nat)
    requires Blank(s, i, j) && (j == |s| || !IsJsonSpace(s[j]))
    ensures SkipSpace(s, i) == j
    decreases j - i
  {
    if i < j {
      SkipsAllBlank(s, i + 1, j);
    }
  }

  // ---------------------------------------------------------------- numbers (section 6)

  ghost predicate IsNumeral(t: string) {
    exists a, b, c :: NumeralParts(t, a, b, c)
  }

  /** An optional minus, an integer without leading zeros, an optional fraction, an optional exponent. */
  ghost predicate NumeralParts(t: string, a: int, b: int, c: int) {
    && 0 <= a <= b <= c <= |t|
    && (t[..a] == "" || t[..a] == "-")
    && IsDigits(t[a..b]) && (b == a + 1 || t[a] != '0')
    && (b == c || (t[b] == '.' && IsDigits(t[b + 1..c])))
    && (c == |t|
        || ((t[c] == 'e' || t[c] == 'E')
            && (IsDigits(t[c + 1..]) || (c + 1 < |t| && (t[c + 1] == '+' || t[c + 1] == '-') && IsDigits(t[c + 2..])))))
  }

  lemma {:induction false} DigitRun(s: string) returns (k: nat)
    ensures k <= |s| && SkipDigits(s) == s[k..] && AllDigits(s[..k])
    ensures k == |s| || !IsDigit(s[k])
    ensures s != "" && IsDigit(s[0]) ==> k > 0
  {
    hide IsDigit;
    if s != "" && IsDigit(s[0]) {
      var n := DigitRun(s[1..]);
      OneMoreDigit(s, n);
      k := n + 1;
    } else {
      k := 0;
    }
  }

  lemma OneMoreDigit(s: string, n: nat)
    requires n < |s| && IsDigit(s[0]) && AllDigits(s[1..][..n])
    ensures AllDigits(s[..n + 1]) && s[1..][n..] == s[n + 1..]
  {
    assert s[..n + 1] == [s[0]] + s[1..][..n];
  }

  lemma {:induction false} SkipsAllDigits(s: string, k: nat)
    requires k <= |s| && AllDigits(s[..k]) && (k == |s| || !IsDigit(s[k]))
    ensures SkipDigits(s) == s[k..]
  {
    if k > 0 {
      assert s[..k][0] == s[0] && s[1..][..k - 1] == s[..k][1..];
      SkipsAllDigits(s[1..], k - 1);
    }
  }

  lemma NumberExactly(t: string)
    ensures IsNumber(t) <==> IsNumeral(t)
  {
    if IsNumber(t) {
      NumberHasParts(t);
    }
    if IsNumeral(t) {
      var a, b, c :| NumeralParts(t, a, b, c);
      PartsAreNumber(t, a, b, c);
    }
  }

  lemma NumberHasParts(t: string)
    requires IsNumber(t)
    ensures IsNumeral(t)
  {
    hide SkipDigits, IsFraction;
    var a := if t[0] == '-' then 1 else 0;
    assert t[a..] == if t[0] == '-' then t[1..] else t;
    var b := IntegerParts(t, a);
    var c := FractionParts(t, b);
    assert t[..a] == "" || t[..a] == "-";
    assert NumeralParts(t, a, b, c);
  }

  lemma IntegerParts(t: string, a: nat) returns (b: nat)
    requires a < |t| && IsDigit(t[a])
    ensures a < b <= |t| && IsDigits(t[a..b]) && (b == a + 1 || t[a] != '0')
    ensures t[b..] == if t[a] == '0' then t[a..][1..] else SkipDigits(t[a..])
  {
    hide SkipDigits;
    if t[a] == '0' {
      b := a + 1;
    } else {
      var k := DigitRun(t[a..]);
      b := a + k;
      assert t[a..b] == t[a..][..k];
    }
  }

  lemma FractionParts(t: string, b: nat) returns (c: nat)
    requires b <= |t| && IsFraction(t[b..])
    ensures b <= c <= |t|
    ensures b == c || (t[b] == '.' && IsDigits(t[b + 1..c]))
    ensures c == |t|
        || ((t[c] == 'e' || t[c] == 'E')
            && (IsDigits(t[c + 1..]) || (c + 1 < |t| && (t[c + 1] == '+' || t[c + 1] == '-') && IsDigits(t[c + 2..]))))
  {
    hide SkipDigits;
    var f := t[b..];
    c := b;
    if f != "" && f[0] == '.' {
      var k := DigitRun(f[1..]);
      c := b + 1 + k;
      assert t[b + 1..c] == f[1..][..k];
      assert t[c..] == f[1..][k..];
      assert f[1..][0] == f[1];
    }
    assert IsExponent(t[c..]);
    ExponentParts(t, c);
  }

  lemma ExponentParts(t: string, c: nat)
    requires c <= |t| && IsExponent(t[c..])
    ensures c == |t|
        || ((t[c] == 'e' || t[c] == 'E')
            && (IsDigits(t[c + 1..]) || (c + 1 < |t| && (t[c + 1] == '+' || t[c + 1] == '-') && IsDigits(t[c + 2..]))))
  {
    hide SkipDigits;
    var e := t[c..];
    if c < |t| {
      var u := if |e| > 1 && (e[1] == '+' || e[1] == '-') then e[2..] else e[1..];
      var k := DigitRun(u);
      assert u[..k] == u;
      assert e[1..] == t[c + 1..];
      assert |e| > 1 ==> e[2..] == t[c + 2..];
    }
  }

  lemma Slices(t: string, a: int, b: int)
    requires 0 <= a <= b <= |t|
    ensures t[a..][..b - a] == t[a..b] && t[a..][b - a..] == t[b..]
  {
  }

  lemma PartsAreNumber(t: string, a: int, b: int, c: int)
    requires NumeralParts(t, a, b, c)
    ensures IsNumber(t)
  {
    hide SkipDigits;
    var u := t[a..];
    assert a == 0 || (a == 1 && t[0] == t[..a][0]);
    assert u[0] == t[a..b][0];
    assert u == if t[0] == '-' then t[1..] else t;
    var k := b - a;
    Slices(t, a, b);
    if u[0] != '0' {
      SkipsAllDigits(u, k);
    }
    PartsAreFraction(t, b, c);
    NumeralCharacters(t, a, b, c);
  }

  lemma PartsAreFraction(t: string, b: int, c: int)
    requires 0 <= b <= c <= |t|
    requires b == c || (t[b] == '.' && IsDigits(t[b + 1..c]))
    requires c == |t|
        || ((t[c] == 'e' || t[c] == 'E')
            && (IsDigits(t[c + 1..]) || (c + 1 < |t| && (t[c + 1] == '+' || t[c + 1] == '-') && IsDigits(t[c + 2..]))))
    ensures IsFraction(t[b..])
  {
    hide SkipDigits;
    var f, e := t[b..], t[c..];
    if b < c {
      assert f[1..][..c - b - 1] == t[b + 1..c];
      assert f[1] == t[b + 1..c][0];
      SkipsAllDigits(f[1..], c - b - 1);
      assert f[1..][c - b - 1..] == e;
    } else {
      assert f == e;
    }
    if c < |t| {
      assert e[1..] == t[c + 1..];
      if IsDigits(t[c + 1..]) {
        assert e[1] == t[c + 1..][0];
        SkipsAllDigits(e[1..], |e| - 1);
      } else {
        assert e[2..] == t[c + 2..];
        SkipsAllDigits(e[2..], |e| - 2);
      }
    }
  }

  lemma NumeralCharacters(t: string, a: int, b: int, c: int)
    requires NumeralParts(t, a, b, c)
    ensures forall i | 0 <= i < |t| :: IsNumberChar(t[i])
  {
    forall i | 0 <= i < |t| ensures IsNumberChar(t[i]) {
      if i < a {
        assert t[i] == t[..a][i];
      } else if i < b {
        assert t[i] == t[a..b][i - a];
      } else if b < i < c {
        assert t[i] == t[b + 1..c][i - b - 1];
      } else if i > c && IsDigits(t[c + 1..]) {
        assert t[i] == t[c + 1..][i - c - 1];
      } else if i > c + 1 {
        assert t[i] == t[c + 2..][i - c - 2];
      }
    }
  }

  // ---------------------------------------------------------------- strings (section 7)

  predicate IsHex(c: char, d: int) {
    0 <= d < 16 && (c == "0123456789abcdef"[d] || c == "0123456789ABCDEF"[d])
  }

  /** A \u escape of the code unit `u`. */
  ghost predicate EscapeAt(s: string, i: int, u: int) {
    && 0 <= i && i + 6 <= |s| && s[i] == '\\' && s[i + 1] == 'u'
    && exists a, b, c, d :: FourDigits(s, i, u, a, b, c, d)
  }

  ghost predicate FourDigits(s: string, i: int, u: int, a: int, b: int, c: int, d: int)
    requires 0 <= i && i + 6 <= |s|
  {
    && IsHex(s[i + 2], a) && IsHex(s[i + 3], b) && IsHex(s[i + 4], c) && IsHex(s[i + 5], d)
    && u == 4096 * a + 256 * b + 16 * c + d
  }

  ghost predicate LowAt(s: string, i: int) {
    exists u :: EscapeAt(s, i, u) && 0xDC00 <= u < 0xE000
  }

  /** The source of one character: itself, a short escape, a \u escape, or a pair of them for a character past U+FFFF. */
  ghost predicate UnitAt(s: string, i: int, j: int, c: char) {
    0 <= i < j <= |s| &&
    ( || (j == i + 1 && s[i] == c && c >= ' ' && c != '"' && c != '\\')
      || (j == i + 2 && s[i] == '\\' && ShortFor(s[i + 1], c))
      || (j == i + 6 && EscapeAt(s, i, c as int))
      || (j == i + 6 && c == '\U{FFFD}' && LoneAt(s, i))
      || (j == i + 12 && exists high, low :: PairAt(s, i, c, high, low)) )
  }

  ghost predicate PairAt(s: string, i: int, c: char, high: int, low: int) {
    && EscapeAt(s, i, high) && 0xD800 <= high < 0xDC00
    && EscapeAt(s, i + 6, low) && 0xDC00 <= low < 0xE000
    && c as int == 0x1_0000 + (high - 0xD800) * 0x400 + (low - 0xDC00)
  }

  predicate ShortFor(e: char, c: char) {
    || (e == '"' && c == '"') || (e == '\\' && c == '\\') || (e == '/' && c == '/')
    || (e == 'b' && c as int == 8) || (e == 'f' && c as int == 12) || (e == 'n' && c as int == 10)
    || (e == 'r' && c as int == 13) || (e == 't' && c as int == 9)
  }

  /** Half of a surrogate pair without the other half. */
  ghost predicate LoneAt(s: string, i: int) {
    exists u :: EscapeAt(s, i, u) && 0xD800 <= u < 0xE000 && (u < 0xDC00 ==> !LowAt(s, i + 6))
  }

  /** What follows the opening quote, up to and including the closing one. */
  ghost predicate StringAt(s: string, i: int, j: int, x: string)
    decreases |x|
  {
    if x == "" then
      0 <= i < |s| && s[i] == '"' && j == i + 1
    else
      exists k :: UnitAt(s, i, k, x[0]) && StringAt(s, k, j, x[1..])
  }

  lemma HexExactly(c: char, d: int)
    ensures IsHex(c, d) <==> d >= 0 && HexValue(c) == Some(d)
  {
  }

  lemma EscapeExactly(s: string, i: nat, u: int)
    ensures EscapeAt(s, i, u) <==>
            i + 6 <= |s| && s[i] == '\\' && s[i + 1] == 'u' && u >= 0 && Hex4(s, i + 2) == Some(u)
  {
    hide HexValue, IsHex, FourDigits;
    if EscapeAt(s, i, u) {
      var a, b, c, d :| FourDigits(s, i, u, a, b, c, d);
      DigitsAreHex(s, i, u, a, b, c, d);
    }
    if i + 6 <= |s| && s[i] == '\\' && s[i + 1] == 'u' && u >= 0 && Hex4(s, i + 2) == Some(u) {
      var a, b, c, d := HexIsDigits(s, i);
    }
  }

  lemma DigitsAreHex(s: string, i: nat, u: int, a: int, b: int, c: int, d: int)
    requires i + 6 <= |s| && FourDigits(s, i, u, a, b, c, d)
    ensures u >= 0 && Hex4(s, i + 2) == Some(u)
  {
    hide HexValue, IsHex;
    HexExactly(s[i + 2], a);
    HexExactly(s[i + 3], b);
    HexExactly(s[i + 4], c);
    HexExactly(s[i + 5], d);
    assert HexValue(s[i + 2]) == Some(a) && a < 16 by { HexRange(s[i + 2]); }
    assert HexValue(s[i + 3]) == Some(b) && b < 16 by { HexRange(s[i + 3]); }
    assert HexValue(s[i + 4]) == Some(c) && c < 16 by { HexRange(s[i + 4]); }
    assert HexValue(s[i + 5]) == Some(d) && d < 16 by { HexRange(s[i + 5]); }
  }

  lemma HexIsDigits(s: string, i: nat) returns (a: int, b: int, c: int, d: int)
    requires i + 6 <= |s| && Hex4(s, i + 2).Some?
    ensures FourDigits(s, i, Hex4(s, i + 2).value, a, b, c, d)
  {
    hide HexValue, IsHex;
    a, b, c, d := HexValue(s[i + 2]).value, HexValue(s[i + 3]).value, HexValue(s[i + 4]).value, HexValue(s[i + 5]).value;
    HexExactly(s[i + 2], a);
    HexExactly(s[i + 3], b);
    HexExactly(s[i + 4], c);
    HexExactly(s[i + 5], d);
  }

  lemma HexRange(c: char)
    ensures HexValue(c).Some? ==> HexValue(c).value < 16
  {
  }

  lemma LowExactly(s: string, i: nat)
    ensures LowAt(s, i) <==> LowSurrogate(s, i).Some?
    ensures forall u :: EscapeAt(s, i, u) && 0xDC00 <= u < 0xE000 <==> LowSurrogate(s, i) == Some(u)
  {
    hide Hex4, EscapeAt;
    forall u ensures EscapeAt(s, i, u) && 0xDC00 <= u < 0xE000 <==> u >= 0 && LowSurrogate(s, i) == Some(u) {
      EscapeExactly(s, i, u);
    }
    if LowSurrogate(s, i).Some? {
      assert EscapeAt(s, i, LowSurrogate(s, i).value);
    }
  }

  lemma UnitParses(s: string, i: nat, j: int, c: char)
    requires UnitAt(s, i, j, c)
    ensures s[i] != '"' && ParseUnit(s, i) == Some((c, j - i))
  {
    hide Hex4, LowSurrogate, EscapeAt, LowAt;
    forall u ensures EscapeAt(s, i, u) <==>
        i + 6 <= |s| && s[i] == '\\' && s[i + 1] == 'u' && u >= 0 && Hex4(s, i + 2) == Some(u)
    {
      EscapeExactly(s, i, u);
    }
    LowExactly(s, i + 6);
  }

  lemma UnitIsAt(s: string, i: nat)
    requires i < |s| && s[i] != '"' && ParseUnit(s, i).Some?
    ensures UnitAt(s, i, i + ParseUnit(s, i).value.1, ParseUnit(s, i).value.0)
  {
    hide Hex4, LowSurrogate, EscapeAt, LowAt;
    var (c, n) := ParseUnit(s, i).value;
    if s[i] == '\\' && s[i + 1] == 'u' {
      var u := Hex4(s, i + 2).value;
      EscapeExactly(s, i, u);
      LowExactly(s, i + 6);
      if n == 12 {
        assert PairAt(s, i, c, u, LowSurrogate(s, i + 6).value);
      } else if 0xD800 <= u < 0xE000 {
        assert LoneAt(s, i);
      }
    }
  }

  lemma {:induction false} StringParses(s: string, i: nat, j: int, x: string)
    requires StringAt(s, i, j, x)
    ensures j >= 0 && ParseString(s, i) == Some((x, j))
    decreases |x|
  {
    hide UnitAt, ParseUnit;
    if x != "" {
      var k :| UnitAt(s, i, k, x[0]) && StringAt(s, k, j, x[1..]);
      UnitBounds(s, i, k, x[0]);
      UnitParses(s, i, k, x[0]);
      StringParses(s, k, j, x[1..]);
      assert [x[0]] + x[1..] == x;
    }
  }

  lemma UnitBounds(s: string, i: int, j: int, c: char)
    requires UnitAt(s, i, j, c)
    ensures 0 <= i < j <= |s|
  {
  }

  lemma {:induction false} StringIsAt(s: string, i: nat)
    requires ParseString(s, i).Some?
    ensures StringAt(s, i, ParseString(s, i).value.1, ParseString(s, i).value.0)
    decreases |s| - i
  {
    hide UnitAt, ParseUnit;
    var (x, j) := ParseString(s, i).value;
    if s[i] != '"' {
      var (c, n) := ParseUnit(s, i).value;
      UnitIsAt(s, i);
      StringIsAt(s, i + n);
      assert x[0] == c && x[1..] == ParseString(s, i + n).value.0;
      assert UnitAt(s, i, i + n, x[0]) && StringAt(s, i + n, j, x[1..]);
    }
  }

  // ---------------------------------------------------------------- values, arrays and objects (sections 3 to 5)

  /** The text from `i` to `j` is a text of the value. */
  ghost predicate ValueAt(s: string, i: int, j: int, v: Json)
    decreases j - i, 1
  {
    0 <= i < j <= |s| &&
    match v
    case Null => s[i..j] == "null"
    case Bool(b) => s[i..j] == if b then "true" else "false"
    case Num(token) => s[i..j] == token && IsNumeral(token)
    case Str(x) => s[i] == '"' && StringAt(s, i + 1, j, x)
    case Arr(items) => s[i] == '[' && exists ms :: ItemsAt(s, i + 1, j, ms, InArray) && items == Values(ms)
    case Obj(members) => s[i] == '{' && exists ms :: ItemsAt(s, i + 1, j, ms, InObject) && members == ValueMap(ms)
  }

  /** What follows the opening bracket, up to and including the closing one. */
  ghost predicate ItemsAt(s: string, i: int, j: int, ms: seq<Member>, kind: Kind)
    decreases j - i, 5
  {
    && 0 <= i < j <= |s| && s[j - 1] == (if kind == InObject then '}' else ']')
    && if ms == [] then Blank(s, i, j - 1) else ListAt(s, i, j, ms, kind)
  }

  /** Items separated by commas. */
  ghost predicate ListAt(s: string, i: int, j: int, ms: seq<Member>, kind: Kind)
    requires ms != [] && 0 <= i < j <= |s|
    decreases j - i, 4
  {
    if |ms| == 1 then
      ItemAt(s, i, j - 1, ms[0], kind)
    else
      exists e :: i <= e < j - 1 && ItemAt(s, i, e, ms[0], kind) && s[e] == ',' && ListAt(s, e + 1, j, ms[1..], kind)
  }

  /** A member or an element between white space. */
  ghost predicate ItemAt(s: string, i: int, e: int, m: Member, kind: Kind)
    decreases e - i, 3
  {
    exists k, a, b :: i <= k <= a < b <= e && ItemParts(s, i, e, m, kind, k, a, b)
  }

  ghost predicate ItemParts(s: string, i: int, e: int, m: Member, kind: Kind, k: int, a: int, b: int)
    requires i <= k <= a < b <= e
    decreases b - a, 2
  {
    && KeyAt(s, i, k, m.key, kind) && Blank(s, k, a)
    && ValueAt(s, a, b, m.value) && m.raw == s[a..b]
    && Blank(s, b, e)
  }

  /** A quoted key and a colon between white space; nothing in an array. */
  ghost predicate KeyAt(s: string, i: int, k: int, key: string, kind: Kind) {
    if kind == InArray then
      key == "" && k == i && 0 <= i <= |s|
    else
      exists a, b :: KeyParts(s, i, k, key, a, b)
  }

  ghost predicate KeyParts(s: string, i: int, k: int, key: string, a: int, b: int) {
    && Blank(s, i, a) && a < |s| && s[a] == '"'
    && StringAt(s, a + 1, b, key)
    && 0 < k <= |s| && Blank(s, b, k - 1) && s[k - 1] == ':'
  }

  /** A whole text: one value between white space. */
  ghost predicate IsText(s: string, v: Json) {
    exists i, j :: TextParts(s, v, i, j)
  }

  ghost predicate TextParts(s: string, v: Json, i: int, j: int) {
    Blank(s, 0, i) && ValueAt(s, i, j, v) && Blank(s, j, |s|)
  }

  // ---------------------------------------------------------------- the parser accepts the grammar

  /** A value starts with a visible character, and only containers and strings with theirs. */
  lemma ValueStart(s: string, i: int, j: int, v: Json)
    requires ValueAt(s, i, j, v)
    ensures 0 <= i < j <= |s| && !IsJsonSpace(s[i]) && s[i] != '}' && s[i] != ']'
    ensures s[i] == '{' <==> v.Obj?
    ensures s[i] == '[' <==> v.Arr?
    ensures s[i] == '"' <==> v.Str?
  {
    hide ItemsAt, StringAt, ValueMap;
    if v.Null? || v.Bool? {
      assert s[i] == s[i..j][0];
    } else if v.Num? {
      NumberExactly(v.token);
      NumberHead(v.token);
      assert s[i] == s[i..j][0];
    }
  }

  lemma {:induction false} ValueParses(s: string, i: int, j: int, v: Json)
    requires ValueAt(s, i, j, v) && Ends(s, j)
    ensures ParseValue(s, i) == Some((v, j))
    decreases j - i, 1
  {
    hide ItemsAt, StringAt, ValueMap, ParseItems, ParseString, ParseScalar, IsNumeral, Ends;
    ValueStart(s, i, j, v);
    match v
    case Str(x) =>
      StringParses(s, i + 1, j, x);
    case Arr(items) =>
      var ms :| ItemsAt(s, i + 1, j, ms, InArray) && items == Values(ms);
      ItemsParse(s, i + 1, j, ms, InArray);
    case Obj(members) =>
      var ms :| ItemsAt(s, i + 1, j, ms, InObject) && members == ValueMap(ms);
      ItemsParse(s, i + 1, j, ms, InObject);
    case _ =>
      ScalarParses(s, i, j, v);
  }

  lemma ScalarParses(s: string, i: int, j: int, v: Json)
    requires ValueAt(s, i, j, v) && Ends(s, j) && (v.Null? || v.Bool? || v.Num?)
    ensures ParseScalar(s, i) == Some((v, j))
  {
    hide ItemsAt, StringAt, IsNumeral, ValueMap;
    if v.Num? {
      NumberExactly(v.token);
      NumberHead(v.token);
      assert s[i] == s[i..j][0];
      NotLiteral(s, i);
      NumberRun(s, i);
      assert forall k | i <= k < j :: s[k] == s[i..j][k - i];
      assert NumberEnd(s, i) == j;
    } else {
      assert s[i] == s[i..j][0];
      LiteralHead(s, i);
    }
  }

  lemma {:induction false} ItemsParse(s: string, i: int, j: int, ms: seq<Member>, kind: Kind)
    requires ItemsAt(s, i, j, ms, kind) && i > 0
    ensures ParseItems(s, i - 1, kind) == Some((ms, j))
    decreases j - i, 5
  {
    hide ListAt, ParseList, SkipSpace, Blank;
    CloserNotSpace(kind);
    if ms == [] {
      SkipsAllBlank(s, i, j - 1);
    } else {
      ListParses(s, i, j, ms, kind);
      ListStartsVisible(s, i, j, ms, kind);
    }
  }

  lemma CloserNotSpace(kind: Kind)
    ensures !IsJsonSpace(Closer(kind)) && Closer(kind) == (if kind == InObject then '}' else ']')
  {
  }

  /** A list does not start with a closer. */
  lemma ListStartsVisible(s: string, i: int, j: int, ms: seq<Member>, kind: Kind)
    requires ms != [] && 0 <= i < j <= |s| && ListAt(s, i, j, ms, kind)
    ensures SkipSpace(s, i) < |s| && s[SkipSpace(s, i)] != Closer(kind)
  {
    hide ItemAt, SkipSpace;
    if |ms| == 1 {
      ItemStartsVisible(s, i, j - 1, ms[0], kind);
    } else {
      var e :| i <= e < j - 1 && ItemAt(s, i, e, ms[0], kind) && s[e] == ',' && ListAt(s, e + 1, j, ms[1..], kind);
      ItemStartsVisible(s, i, e, ms[0], kind);
    }
  }

  lemma ItemStartsVisible(s: string, i: int, e: int, m: Member, kind: Kind)
    requires 0 <= i <= |s| && ItemAt(s, i, e, m, kind)
    ensures SkipSpace(s, i) < |s| && s[SkipSpace(s, i)] != Closer(kind)
  {
    hide ValueAt, Blank, SkipSpace, StringAt;
    var k, a, b :| i <= k <= a < b <= e && ItemParts(s, i, e, m, kind, k, a, b);
    if kind == InArray {
      ValueStart(s, a, b, m.value);
      SkipsAllBlank(s, i, a);
    } else {
      var q, r :| KeyParts(s, i, k, m.key, q, r);
      QuoteNotSpace();
      BlankBounds(s, i, q);
      SkipsAllBlank(s, i, q);
    }
  }

  lemma QuoteNotSpace()
    ensures !IsJsonSpace('"') && !IsJsonSpace(':') && !IsJsonSpace(',')
  {
  }

  lemma BlankBounds(s: string, i: int, j: int)
    requires Blank(s, i, j)
    ensures 0 <= i <= j <= |s|
  {
  }

  lemma {:induction false} ListParses(s: string, i: int, j: int, ms: seq<Member>, kind: Kind)
    requires ms != [] && 0 <= i < j <= |s| && s[j - 1] == Closer(kind) && ListAt(s, i, j, ms, kind)
    ensures ParseList(s, i, kind) == Some((ms, j))
    decreases j - i, 4
  {
    hide ItemAt, ParseItem, SkipSpace, ParseList;
    ListStep(s, i, kind);
    if |ms| == 1 {
      ItemParses(s, i, j - 1, ms[0], kind);
      assert ms == [ms[0]];
    } else {
      var e :| i <= e < j - 1 && ItemAt(s, i, e, ms[0], kind) && s[e] == ',' && ListAt(s, e + 1, j, ms[1..], kind);
      ItemParses(s, i, e, ms[0], kind);
      ListParses(s, e + 1, j, ms[1..], kind);
      CloserNotSpace(kind);
      assert ms == [ms[0]] + ms[1..];
    }
  }

  lemma {:induction false} ItemParses(s: string, i: int, e: int, m: Member, kind: Kind)
    requires ItemAt(s, i, e, m, kind) && 0 <= i <= e < |s| && (s[e] == ',' || s[e] == Closer(kind))
    ensures ParseItem(s, i, kind).Some? && ParseItem(s, i, kind).value.0 == m
    ensures SkipSpace(s, ParseItem(s, i, kind).value.1) == e
    decreases e - i, 3
  {
    hide ValueAt, KeyAt, ParseValue, ParseKey, SkipSpace, Blank;
    var k, a, b :| i <= k <= a < b <= e && ItemParts(s, i, e, m, kind, k, a, b);
    KeyParses(s, i, k, m.key, kind);
    ValueStart(s, a, b, m.value);
    SkipsAllBlank(s, k, a);
    BlankThenEnds(s, b, e, kind);
    ValueParses(s, a, b, m.value);
  }

  lemma BlankThenEnds(s: string, b: int, e: int, kind: Kind)
    requires Blank(s, b, e) && e < |s| && (s[e] == ',' || s[e] == Closer(kind))
    ensures Ends(s, b) && SkipSpace(s, b) == e
  {
    SkipsAllBlank(s, b, e);
  }

  lemma KeyParses(s: string, i: int, k: int, key: string, kind: Kind)
    requires KeyAt(s, i, k, key, kind) && 0 <= i <= |s|
    ensures 0 <= k && ParseKey(s, i, kind) == Some((key, k))
  {
    hide StringAt, ParseString, SkipSpace, Blank;
    if kind == InObject {
      var a, b :| KeyParts(s, i, k, key, a, b);
      BlankBounds(s, i, a);
      QuoteNotSpace();
      SkipsAllBlank(s, i, a);
      StringParses(s, a + 1, b, key);
      BlankBounds(s, b, k - 1);
      SkipsAllBlank(s, b, k - 1);
    }
  }

  // ---------------------------------------------------------------- what the parser accepts is in the grammar

  lemma {:induction false} ParsedValue(s: string, i: nat)
    requires ParseValue(s, i).Some?
    ensures ValueAt(s, i, ParseValue(s, i).value.1, ParseValue(s, i).value.0)
    decreases |s| - i, 1
  {
    hide ParseItems, ParseString, ParseScalar, ItemsAt, StringAt, IsNumeral, ValueMap;
    var (v, j) := ParseValue(s, i).value;
    if s[i] == '{' {
      ParsedItems(s, i, InObject);
    } else if s[i] == '[' {
      ParsedItems(s, i, InArray);
    } else if s[i] == '"' {
      StringIsAt(s, i + 1);
    } else {
      ParsedScalar(s, i);
    }
  }

  lemma ParsedScalar(s: string, i: nat)
    requires i < |s| && ParseScalar(s, i).Some?
    ensures ValueAt(s, i, ParseScalar(s, i).value.1, ParseScalar(s, i).value.0)
  {
    hide IsNumeral, IsNumber;
    var (v, j) := ParseScalar(s, i).value;
    if v.Num? {
      NumberExactly(v.token);
    }
  }

  lemma {:induction false} ParsedItems(s: string, i: nat, kind: Kind)
    requires i < |s| && ParseItems(s, i, kind).Some?
    ensures ItemsAt(s, i + 1, ParseItems(s, i, kind).value.1, ParseItems(s, i, kind).value.0, kind)
    decreases |s| - i, 0
  {
    hide ListAt, ParseList, SkipSpace, Blank;
    ItemsStep(s, i, kind);
    CloserNotSpace(kind);
    SkipsBlank(s, i + 1);
    var a := SkipSpace(s, i + 1);
    if !(a < |s| && s[a] == Closer(kind)) {
      ParsedList(s, i + 1, kind);
    }
  }

  lemma {:induction false} ParsedList(s: string, i: nat, kind: Kind)
    requires i <= |s| && ParseList(s, i, kind).Some?
    ensures var (ms, j) := ParseList(s, i, kind).value; ms != [] && ListAt(s, i, j, ms, kind)
    decreases |s| - i, 3
  {
    hide ItemAt, ParseItem, SkipSpace, ParseList;
    ListStep(s, i, kind);
    var (m, e) := ParseItem(s, i, kind).value;
    var f := SkipSpace(s, e);
    ParsedItem(s, i, kind);
    if s[f] != Closer(kind) {
      ParsedList(s, f + 1, kind);
      var ms := ParseList(s, i, kind).value.0;
      assert ms[1..] == ParseList(s, f + 1, kind).value.0;
    }
  }

  lemma {:induction false} ParsedItem(s: string, i: nat, kind: Kind)
    requires i <= |s| && ParseItem(s, i, kind).Some?
    ensures var (m, e) := ParseItem(s, i, kind).value; ItemAt(s, i, SkipSpace(s, e), m, kind)
    decreases |s| - i, 2
  {
    hide ValueAt, KeyAt, ParseValue, ParseKey, SkipSpace, Blank;
    var (m, e) := ParseItem(s, i, kind).value;
    var (key, k) := ParseKey(s, i, kind).value;
    var a := SkipSpace(s, k);
    ParsedKey(s, i, kind);
    SkipsBlank(s, k);
    ParsedValue(s, a);
    SkipsBlank(s, e);
    assert ItemParts(s, i, SkipSpace(s, e), m, kind, k, a, e);
  }

  lemma ParsedKey(s: string, i: nat, kind: Kind)
    requires i <= |s| && ParseKey(s, i, kind).Some?
    ensures KeyAt(s, i, ParseKey(s, i, kind).value.1, ParseKey(s, i, kind).value.0, kind)
  {
    hide StringAt, ParseString, SkipSpace, Blank;
    if kind == InObject {
      var a := SkipSpace(s, i);
      var (key, b) := ParseString(s, a + 1).value;
      SkipsBlank(s, i);
      StringIsAt(s, a + 1);
      SkipsBlank(s, b);
      assert KeyParts(s, i, SkipSpace(s, b) + 1, key, a, b);
    }
  }

  /** The parser gives a value for a text exactly when the grammar does, and then the same one. */
  lemma ParsesExactly(s: string, v: Json)
    ensures ParseText(s) == Some(v) <==> IsText(s, v)
  {
    hide ParseValue, ValueAt, Blank, SkipSpace;
    if IsText(s, v) {
      var i, j :| TextParts(s, v, i, j);
      TextParses(s, v, i, j);
    }
    if ParseText(s) == Some(v) {
      var i := SkipSpace(s, 0);
      var j := ParseValue(s, i).value.1;
      SkipsBlank(s, 0);
      ParsedValue(s, i);
      SkipsBlank(s, j);
      assert TextParts(s, v, i, j);
    }
  }

  lemma TextParses(s: string, v: Json, i: int, j: int)
    requires TextParts(s, v, i, j)
    ensures ParseText(s) == Some(v)
  {
    hide ParseValue, ValueAt, SkipSpace;
    ValueStart(s, i, j, v);
    SkipsAllBlank(s, 0, i);
    ValueParses(s, i, j, v);
    SkipsAllBlank(s, j, |s|);
  }
}
