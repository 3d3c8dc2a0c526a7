/**
 JSON texts (RFC 8259) as encoding/json reads them: values with objects as maps in which the last
 duplicate wins, and, for the raw decoding of the canonicaliser, the source text of every member.
 */
module JsonText {
  import opened Basics
  import opened Decimal

  datatype Json =
    | Null
    | Bool(b: bool)
    | Num(token: string)
    | Str(s: string)
    | Arr(items: seq<Json>)
    | Obj(members: map<string, Json>)

  /** An object member or, with an empty key, an array element, together with its source text. */
  datatype Member = Member(key: string, value: Json, raw: string)

  // ---------------------------------------------------------------- tokens

  predicate IsJsonSpace(c: char) {
    c == ' ' || c == '\t' || c == '\n' || c == '\r'
  }

  function SkipSpace(s: string, i: nat): (j: nat)
    requires i <= |s|
    ensures i <= j <= |s|
    decreases |s| - i
  {
    if i < |s| && IsJsonSpace(s[i]) then SkipSpace(s, i + 1) else i
  }

  lemma {:induction false} SpaceRun(s: string, i: nat)
    requires i <= |s|
    ensures forall k | i <= k < SkipSpace(s, i) :: IsJsonSpace(s[k])
    ensures SkipSpace(s, i) < |s| ==> !IsJsonSpace(s[SkipSpace(s, i)])
    decreases |s| - i
  {
    if i < |s| && IsJsonSpace(s[i]) {
      SpaceRun(s, i + 1);
    }
  }

  predicate IsNumberChar(c: char) {
    IsDigit(c) || c == '-' || c == '+' || c == '.' || c == 'e' || c == 'E'
  }

  /** The end of the longest run of number characters. */
  function NumberEnd(s: string, i: nat): (j: nat)
    requires i <= |s|
    ensures i <= j <= |s|
    decreases |s| - i
  {
    if i < |s| && IsNumberChar(s[i]) then NumberEnd(s, i + 1) else i
  }

  lemma {:induction false} NumberRun(s: string, i: nat)
    requires i <= |s|
    ensures forall k | i <= k < NumberEnd(s, i) :: IsNumberChar(s[k])
    ensures NumberEnd(s, i) < |s| ==> !IsNumberChar(s[NumberEnd(s, i)])
    decreases |s| - i
  {
    if i < |s| && IsNumberChar(s[i]) {
      NumberRun(s, i + 1);
    }
  }

  function SkipDigits(s: string): (r: string)
    ensures |r| <= |s|
  {
    if s != "" && IsDigit(s[0]) then SkipDigits(s[1..]) else s
  }

  /** Section 6 of RFC 8259: minus, integer, fraction, exponent. */
  predicate IsNumber(t: string) {
    && t != ""
    && (forall i | 0 <= i < |t| :: IsNumberChar(t[i]))
    && var u := if t[0] == '-' then t[1..] else t;
    && u != ""
    && IsDigit(u[0])
    && IsFraction(if u[0] == '0' then u[1..] else SkipDigits(u))
  }

  predicate IsFraction(t: string) {
    if t != "" && t[0] == '.' then
      |t| > 1 && IsDigit(t[1]) && IsExponent(SkipDigits(t[1..]))
    else
      IsExponent(t)
  }

  predicate IsExponent(t: string) {
    t == "" ||
    ( && (t[0] == 'e' || t[0] == 'E')
      && var u := if |t| > 1 && (t[1] == '+' || t[1] == '-') then t[2..] else t[1..];
      && u != ""
      && SkipDigits(u) == "" )
  }

  // ---------------------------------------------------------------- strings

  const REPLACEMENT: char := '\U{FFFD}'

  function HexValue(c: char): Option<nat> {
    if '0' <= c <= '9' then Some(c as nat - '0' as nat)
    else if 'a' <= c <= 'f' then Some(c as nat - 'a' as nat + 10)
    else if 'A' <= c <= 'F' then Some(c as nat - 'A' as nat + 10)
    else None
  }

  /** Four hexadecimal digits at `i`. */
  function Hex4(s: string, i: nat): (r: Option<nat>)
    ensures r.Some? ==> i + 4 <= |s| && r.value < 0x1_0000
  {
    if i + 4 > |s| then
      None
    else
      var a :- HexValue(s[i]);
      var b :- HexValue(s[i + 1]);
      var c :- HexValue(s[i + 2]);
      var d :- HexValue(s[i + 3]);
      if a < 16 && b < 16 && c < 16 && d < 16 then Some(a * 4096 + b * 256 + c * 16 + d) else None
  }

  /** The second half of a surrogate pair, escaped at `i`. */
  function LowSurrogate(s: string, i: nat): (r: Option<nat>)
    ensures r.Some? ==> i + 6 <= |s| && 0xDC00 <= r.value < 0xE000
  {
    if i + 2 <= |s| && s[i] == '\\' && s[i + 1] == 'u' then
      var low :- Hex4(s, i + 2);
      if 0xDC00 <= low < 0xE000 then Some(low) else None
    else
      None
  }

  /** A four-digit escape: a scalar value, a surrogate pair, or the replacement character for a lone surrogate. */
  function UnicodeEscape(s: string, i: nat): (r: Option<(char, nat)>)
    ensures r.Some? ==> 0 < r.value.1 && i + r.value.1 <= |s|
  {
    var unit :- Hex4(s, i + 2);
    if unit < 0xD800 || 0xE000 <= unit then
      Some((unit as char, 6))
    else if unit < 0xDC00 && LowSurrogate(s, i + 6).Some? then
      Some((((unit - 0xD800) * 1024 + (LowSurrogate(s, i + 6).value - 0xDC00) + 0x1_0000) as char, 12))
    else
      Some((REPLACEMENT, 6))
  }

  /** The character written at `i` inside a string literal, and the length of its source. */
  function ParseUnit(s: string, i: nat): (r: Option<(char, nat)>)
    requires i < |s|
    ensures r.Some? ==> 0 < r.value.1 && i + r.value.1 <= |s|
  {
    if s[i] == '\\' then
      if i + 1 >= |s| then None
      else if s[i + 1] == 'u' then UnicodeEscape(s, i)
      else
        var c :- ShortEscape(s[i + 1]);
        Some((c, 2))
    else if s[i] < ' ' then
      None
    else
      Some((s[i], 1))
  }

  function ShortEscape(c: char): Option<char> {
    match c
    case '"' => Some('"')
    case '\\' => Some('\\')
    case '/' => Some('/')
    case 'b' => Some(8 as char)
    case 'f' => Some(12 as char)
    case 'n' => Some('\n')
    case 'r' => Some('\r')
    case 't' => Some('\t')
    case _ => None
  }

  /** The rest of a string literal from `i` on: its value and the index after the closing quote. */
  function ParseString(s: string, i: nat): (r: Option<(string, nat)>)
    ensures r.Some? ==> i < r.value.1 <= |s| && s[r.value.1 - 1] == '"'
    decreases |s| - i
  {
    if i >= |s| then
      None
    else if s[i] == '"' then
      Some(("", i + 1))
    else
      var (c, n) :- ParseUnit(s, i);
      var (rest, j) :- ParseString(s, i + n);
      Some(([c] + rest, j))
  }

  // ---------------------------------------------------------------- values

  predicate Literal(s: string, i: nat, word: string) {
    i + |word| <= |s| && s[i..i + |word|] == word
  }

  /** Members of an object or elements of an array. */
  datatype Kind = InObject | InArray

  function Closer(kind: Kind): char {
    if kind == InObject then '}' else ']'
  }

  /** The value that starts at `i`, and the index after it. */
  function ParseValue(s: string, i: nat): (r: Option<(Json, nat)>)
    ensures r.Some? ==> i < r.value.1 <= |s|
    decreases |s| - i, 1
  {
    if i >= |s| then
      None
    else if s[i] == '{' then
      match ParseItems(s, i, InObject)
      case None => None
      case Some(items) => Some((Obj(ValueMap(items.0)), items.1))
    else if s[i] == '[' then
      match ParseItems(s, i, InArray)
      case None => None
      case Some(items) => Some((Arr(Values(items.0)), items.1))
    else if s[i] == '"' then
      match ParseString(s, i + 1)
      case None => None
      case Some(x) => Some((Str(x.0), x.1))
    else
      ParseScalar(s, i)
  }

  /** null, a boolean or a number. */
  function ParseScalar(s: string, i: nat): (r: Option<(Json, nat)>)
    requires i < |s|
    ensures r.Some? ==> i < r.value.1 <= |s|
  {
    if Literal(s, i, "null") then Some((Null, i + 4))
    else if Literal(s, i, "true") then Some((Bool(true), i + 4))
    else if Literal(s, i, "false") then Some((Bool(false), i + 5))
    else if IsNumber(s[i..NumberEnd(s, i)]) then Some((Num(s[i..NumberEnd(s, i)]), NumberEnd(s, i)))
    else None
  }

  /** What stands between the opening character at `i` and its closer. */
  function ParseItems(s: string, i: nat, kind: Kind): (r: Option<(seq<Member>, nat)>)
    requires i < |s|
    ensures r.Some? ==> i < r.value.1 <= |s| && s[r.value.1 - 1] == Closer(kind)
    decreases |s| - i, 0
  {
    var a := SkipSpace(s, i + 1);
    if a < |s| && s[a] == Closer(kind) then Some(([], a + 1)) else ParseList(s, i + 1, kind)
  }

  function ParseList(s: string, i: nat, kind: Kind): (r: Option<(seq<Member>, nat)>)
    requires i <= |s|
    ensures r.Some? ==> i < r.value.1 <= |s| && s[r.value.1 - 1] == Closer(kind)
    decreases |s| - i, 3
  {
    match ParseItem(s, i, kind)
    case None => None
    case Some(item) =>
      var f := SkipSpace(s, item.1);
      if f == |s| then None
      else if s[f] == Closer(kind) then Some(([item.0], f + 1))
      else if s[f] != ',' then None
      else
        match ParseList(s, f + 1, kind)
        case None => None
        case Some(more) => Some(([item.0] + more.0, more.1))
  }

  function ParseItem(s: string, i: nat, kind: Kind): (r: Option<(Member, nat)>)
    requires i <= |s|
    ensures r.Some? ==> i < r.value.1 <= |s|
    decreases |s| - i, 2
  {
    match ParseKey(s, i, kind)
    case None => None
    case Some(key) =>
      var d := SkipSpace(s, key.1);
      match ParseValue(s, d)
      case None => None
      case Some(v) => Some((Member(key.0, v.0, s[d..v.1]), v.1))
  }

  /** A member's key and colon; nothing for an array element. */
  function ParseKey(s: string, i: nat, kind: Kind): (r: Option<(string, nat)>)
    requires i <= |s|
    ensures r.Some? ==> i <= r.value.1 <= |s|
  {
    if kind == InArray then
      Some(("", i))
    else
      var a := SkipSpace(s, i);
      if a == |s| || s[a] != '"' then None
      else
        match ParseString(s, a + 1)
        case None => None
        case Some(key) =>
          var c := SkipSpace(s, key.1);
          if c == |s| || s[c] != ':' then None else Some((key.0, c + 1))
  }

  function Values(ms: seq<Member>): seq<Json> {
    seq(|ms|, i requires 0 <= i < |ms| => ms[i].value)
  }

  function Raws(ms: seq<Member>): seq<string> {
    seq(|ms|, i requires 0 <= i < |ms| => ms[i].raw)
  }

  /** Members in order, a later duplicate replacing an earlier one. */
  function ValueMap(ms: seq<Member>): map<string, Json> {
    if ms == [] then map[]
    else ValueMap(ms[..|ms| - 1])[ms[|ms| - 1].key := ms[|ms| - 1].value]
  }

  function RawMap(ms: seq<Member>): map<string, string> {
    if ms == [] then map[]
    else RawMap(ms[..|ms| - 1])[ms[|ms| - 1].key := ms[|ms| - 1].raw]
  }

  /** A whole text: one value between optional spaces. */
  function ParseText(s: string): Option<Json> {
    var (v, j) :- ParseValue(s, SkipSpace(s, 0));
    if SkipSpace(s, j) == |s| then Some(v) else None
  }

  // ---------------------------------------------------------------- locality

  /** `t` repeats at `i + d` what `s` has at `i` up to `j`. */
  ghost predicate Agree(s: string, t: string, i: nat, j: nat, d: int) {
    && i <= j <= |s|
    && 0 <= i + d && j + d <= |t|
    && forall k | i <= k < j :: s[k] == t[k + d]
  }

  lemma AgreeBounds(s: string, t: string, i: nat, j: nat, d: int)
    requires Agree(s, t, i, j, d)
    ensures i <= j <= |s| && 0 <= i + d && j + d <= |t|
  {
  }

  lemma AgreeWithin(s: string, t: string, i: nat, j: nat, d: int, a: nat, b: nat)
    requires Agree(s, t, i, j, d) && i <= a <= b <= j
    ensures Agree(s, t, a, b, d)
    ensures 0 <= a + d <= b + d <= |t| && b <= |s| && s[a..b] == t[a + d..b + d]
    ensures a < b ==> s[a] == t[a + d]
  {
  }

  /** A number at the end of a value cannot go on. */
  ghost predicate Ends(t: string, j: nat) {
    j <= |t| && (j < |t| ==> !IsNumberChar(t[j]))
  }

  lemma SpaceLocal(s: string, t: string, i: nat, j: nat, d: int)
    requires Agree(s, t, i, j, d) && SkipSpace(s, i) < j
    ensures SkipSpace(t, i + d) == SkipSpace(s, i) + d
  {
    var k, m := SkipSpace(s, i), SkipSpace(t, i + d);
    SpaceRun(s, i);
    SpaceRun(t, i + d);
    var atStop := if i <= m - d < |s| then s[m - d] else ' ';
  }

  lemma Hex4Local(s: string, t: string, i: nat, j: nat, d: int)
    requires Agree(s, t, i, j, d) && i + 4 <= j
    ensures Hex4(t, i + d) == Hex4(s, i)
  {
    assert s[i] == t[i + d] && s[i + 1] == t[i + 1 + d] && s[i + 2] == t[i + 2 + d] && s[i + 3] == t[i + 3 + d];
  }

  /** Lookahead for a low surrogate never passes the closing quote. */
  lemma LowSurrogateLocal(s: string, t: string, i: nat, j: nat, d: int)
    requires Agree(s, t, i, j, d) && i < j && s[j - 1] == '"'
    ensures LowSurrogate(t, i + d) == LowSurrogate(s, i)
  {
    hide Hex4;
    var n := j - 1;
    assert t[n + d] == '"' && j + d <= |t|;
    if n < i + 6 {
      QuoteStopsSurrogate(s, i, n);
      QuoteStopsSurrogate(t, i + d, n + d);
    } else {
      assert s[i] == t[i + d] && s[i + 1] == t[i + 1 + d];
      AgreeWithin(s, t, i, j, d, i + 2, j);
      Hex4Local(s, t, i + 2, j, d);
    }
  }

  lemma QuoteStopsSurrogate(s: string, i: nat, n: nat)
    requires i <= n < i + 6 && n < |s| && s[n] == '"'
    ensures LowSurrogate(s, i) == None
  {
  }

  lemma UnitLocal(s: string, t: string, i: nat, j: nat, d: int)
    requires i < j && Agree(s, t, i, j, d) && s[j - 1] == '"'
    requires ParseUnit(s, i).Some? && i + ParseUnit(s, i).value.1 < j
    ensures ParseUnit(t, i + d) == ParseUnit(s, i)
  {
    hide LowSurrogate, Hex4;
    assert s[i] == t[i + d] && s[i + 1] == t[i + 1 + d];
    if s[i] == '\\' && s[i + 1] == 'u' {
      Hex4Local(s, t, i + 2, j, d);
      LowSurrogateLocal(s, t, i + 6, j, d);
    }
  }

  lemma {:induction false} StringLocal(s: string, t: string, i: nat, d: int)
    requires ParseString(s, i).Some? && Agree(s, t, i, ParseString(s, i).value.1, d)
    ensures var (x, j) := ParseString(s, i).value; ParseString(t, i + d) == Some((x, j + d))
    decreases |s| - i
  {
    hide ParseUnit;
    assert s[i] == t[i + d];
    if s[i] != '"' {
      var n := ParseUnit(s, i).value.1;
      UnitLocal(s, t, i, ParseString(s, i).value.1, d);
      StringLocal(s, t, i + n, d);
    }
  }

  lemma NumberLocal(s: string, t: string, i: nat, d: int)
    requires i < |s| && Agree(s, t, i, NumberEnd(s, i), d) && Ends(t, NumberEnd(s, i) + d)
    ensures NumberEnd(t, i + d) == NumberEnd(s, i) + d
    ensures s[i..NumberEnd(s, i)] == t[i + d..NumberEnd(s, i) + d]
  {
    var j, m := NumberEnd(s, i), NumberEnd(t, i + d);
    NumberRun(s, i);
    NumberRun(t, i + d);
    var atStop := if i <= m - d < |s| then s[m - d] else ' ';
  }

  /** A value reads the same wherever its text stands. */
  lemma {:induction false} ValueLocal(s: string, t: string, i: nat, d: int)
    requires ParseValue(s, i).Some?
    requires Agree(s, t, i, ParseValue(s, i).value.1, d) && Ends(t, ParseValue(s, i).value.1 + d)
    ensures var (v, j) := ParseValue(s, i).value; ParseValue(t, i + d) == Some((v, j + d))
    decreases |s| - i, 1
  {
    hide ParseString, ParseItems, ParseScalar;
    assert s[i] == t[i + d];
    if s[i] == '{' {
      ItemsLocal(s, t, i, d, InObject);
    } else if s[i] == '[' {
      ItemsLocal(s, t, i, d, InArray);
    } else if s[i] == '"' {
      StringLocal(s, t, i + 1, d);
    } else {
      ScalarLocal(s, t, i, d);
    }
  }

  lemma ScalarLocal(s: string, t: string, i: nat, d: int)
    requires i < |s| && ParseScalar(s, i).Some?
    requires Agree(s, t, i, ParseScalar(s, i).value.1, d) && Ends(t, ParseScalar(s, i).value.1 + d)
    ensures var (v, j) := ParseScalar(s, i).value; ParseScalar(t, i + d) == Some((v, j + d))
  {
    hide IsNumber, Agree, Ends;
    var j := ParseScalar(s, i).value.1;
    AgreeBounds(s, t, i, j, d);
    AgreeWithin(s, t, i, j, d, i, j);
    if IsWord(s, i) {
      WordLocal(s, t, i, d);
    } else {
      NumberLocal(s, t, i, d);
      NumberHead(s[i..j]);
      NotLiteral(t, i + d);
    }
  }

  predicate IsWord(s: string, i: nat) {
    Literal(s, i, "null") || Literal(s, i, "true") || Literal(s, i, "false")
  }

  lemma WordLocal(s: string, t: string, i: nat, d: int)
    requires i < |s| && IsWord(s, i) && Agree(s, t, i, ParseScalar(s, i).value.1, d)
    ensures var (v, j) := ParseScalar(s, i).value; ParseScalar(t, i + d) == Some((v, j + d))
  {
    hide IsNumber, Agree;
    var j := ParseScalar(s, i).value.1;
    AgreeBounds(s, t, i, j, d);
    AgreeWithin(s, t, i, j, d, i, j);
    LiteralHead(s, i);
    LiteralHead(t, i + d);
  }

  lemma LiteralHead(s: string, i: nat)
    ensures Literal(s, i, "null") ==> s[i] == 'n'
    ensures Literal(s, i, "true") ==> s[i] == 't'
    ensures Literal(s, i, "false") ==> s[i] == 'f'
  {
    assert Literal(s, i, "null") ==> s[i] == s[i..i + 4][0];
    assert Literal(s, i, "true") ==> s[i] == s[i..i + 4][0];
    assert Literal(s, i, "false") ==> s[i] == s[i..i + 5][0];
  }

  lemma NotLiteral(s: string, i: nat)
    requires i < |s| && (s[i] == '-' || IsDigit(s[i]))
    ensures !Literal(s, i, "null") && !Literal(s, i, "true") && !Literal(s, i, "false")
  {
    LiteralHead(s, i);
  }

  lemma NumberHead(t: string)
    requires IsNumber(t)
    ensures t[0] == '-' || IsDigit(t[0])
  {
  }

  lemma {:induction false} ItemsLocal(s: string, t: string, i: nat, d: int, kind: Kind)
    requires i < |s| && ParseItems(s, i, kind).Some?
    requires Agree(s, t, i, ParseItems(s, i, kind).value.1, d)
    ensures var (ms, j) := ParseItems(s, i, kind).value; ParseItems(t, i + d, kind) == Some((ms, j + d))
    decreases |s| - i, 0
  {
    hide ParseList, ParseItems, ParseItem, ParseValue, Agree, SkipSpace, Closer, IsNumber;
    var j := ParseItems(s, i, kind).value.1;
    var a := SkipSpace(s, i + 1);
    ItemsStep(s, i, kind);
    AgreeBounds(s, t, i, j, d);
    AgreeWithin(s, t, i, j, d, i + 1, j);
    assert i + 1 + d == i + d + 1;
    if a == |s| || s[a] != Closer(kind) {
      ListStart(s, i + 1, kind);
      ListLocal(s, t, i + 1, d, kind);
    }
    NextLocal(s, t, i + 1, j, d);
    ItemsStep(t, i + d, kind);
  }

  lemma ItemsStep(s: string, i: nat, kind: Kind)
    requires i < |s|
    ensures ParseItems(s, i, kind) ==
            var a := SkipSpace(s, i + 1);
            if a < |s| && s[a] == Closer(kind) then Some(([], a + 1)) else ParseList(s, i + 1, kind)
  {
  }

  lemma ListStart(s: string, i: nat, kind: Kind)
    requires i <= |s| && ParseList(s, i, kind).Some?
    ensures SkipSpace(s, i) < ParseList(s, i, kind).value.1
  {
  }

  /** What follows a member or an element is not part of a number. */
  lemma AfterValue(s: string, e: nat)
    requires e <= |s| && SkipSpace(s, e) < |s|
    requires s[SkipSpace(s, e)] == ',' || s[SkipSpace(s, e)] == '}' || s[SkipSpace(s, e)] == ']'
    ensures e < |s| && !IsNumberChar(s[e])
  {
    SpaceRun(s, e);
    assert SkipSpace(s, e) == e || IsJsonSpace(s[e]);
  }

  lemma {:induction false} ListLocal(s: string, t: string, i: nat, d: int, kind: Kind)
    requires i <= |s| && ParseList(s, i, kind).Some?
    requires Agree(s, t, i, ParseList(s, i, kind).value.1, d)
    ensures var (ms, j) := ParseList(s, i, kind).value; ParseList(t, i + d, kind) == Some((ms, j + d))
    decreases |s| - i, 4
  {
    hide ParseList, ParseItem, IsNumberChar, IsJsonSpace, Agree, SkipSpace, Closer;
    var j := ParseList(s, i, kind).value.1;
    ListStep(s, i, kind);
    var f := SkipSpace(s, ParseItem(s, i, kind).value.1);
    AgreeBounds(s, t, i, j, d);
    FirstItemLocal(s, t, i, j, d, kind);
    ListStep(t, i + d, kind);
    if s[f] != Closer(kind) {
      AgreeWithin(s, t, i, j, d, f + 1, j);
      ListLocal(s, t, f + 1, d, kind);
      assert f + 1 + d == f + d + 1;
    }
  }

  /** One item, then the closer or a comma and the rest. */
  lemma ListStep(s: string, i: nat, kind: Kind)
    requires i <= |s|
    ensures ParseList(s, i, kind) ==
            match ParseItem(s, i, kind)
            case None => None
            case Some(item) =>
              var f := SkipSpace(s, item.1);
              if f == |s| then None
              else if s[f] == Closer(kind) then Some(([item.0], f + 1))
              else if s[f] != ',' then None
              else
                match ParseList(s, f + 1, kind)
                case None => None
                case Some(more) => Some(([item.0] + more.0, more.1))
  {
    hide ParseItem, SkipSpace;
  }

  lemma {:induction false} FirstItemLocal(s: string, t: string, i: nat, j: nat, d: int, kind: Kind)
    requires i <= |s| && ParseItem(s, i, kind).Some? && Agree(s, t, i, j, d)
    requires var f := SkipSpace(s, ParseItem(s, i, kind).value.1);
             f < j && f < |s| && (s[f] == ',' || s[f] == Closer(kind))
    ensures 0 <= i + d <= |t|
    ensures var (m, e) := ParseItem(s, i, kind).value;
            var f := SkipSpace(s, e);
            && ParseItem(t, i + d, kind) == Some((m, e + d))
            && SkipSpace(t, e + d) == f + d < |t|
            && t[f + d] == s[f]
    decreases |s| - i, 3
  {
    hide ParseItem, IsNumberChar, IsJsonSpace, Agree, SkipSpace;
    var e := ParseItem(s, i, kind).value.1;
    AgreeBounds(s, t, i, j, d);
    AfterValue(s, e);
    AgreeWithin(s, t, i, j, d, i, e);
    AgreeWithin(s, t, i, j, d, e, j);
    ItemLocal(s, t, i, d, kind);
    SpaceLocal(s, t, e, j, d);
    AgreeWithin(s, t, i, j, d, SkipSpace(s, e), j);
  }

  lemma {:induction false} ItemLocal(s: string, t: string, i: nat, d: int, kind: Kind)
    requires i <= |s| && ParseItem(s, i, kind).Some?
    requires Agree(s, t, i, ParseItem(s, i, kind).value.1, d) && Ends(t, ParseItem(s, i, kind).value.1 + d)
    ensures var (m, e) := ParseItem(s, i, kind).value; ParseItem(t, i + d, kind) == Some((m, e + d))
    decreases |s| - i, 2
  {
    hide ParseKey, ParseValue, IsNumberChar, IsJsonSpace, Agree, SkipSpace;
    var e := ParseItem(s, i, kind).value.1;
    var (key, c) := ParseKey(s, i, kind).value;
    var k := SkipSpace(s, c);
    var v := ParseValue(s, k).value.0;
    AgreeBounds(s, t, i, e, d);
    var i', c', k', e': nat := i + d, c + d, k + d, e + d;
    assert ParseKey(t, i', kind) == Some((key, c')) by {
      AgreeWithin(s, t, i, e, d, i, c);
      KeyLocal(s, t, i, d, kind);
    }
    assert SkipSpace(t, c') == k' by {
      AgreeWithin(s, t, i, e, d, c, e);
      SpaceLocal(s, t, c, e, d);
    }
    assert ParseValue(t, k') == Some((v, e')) && s[k..e] == t[k'..e'] by {
      AgreeWithin(s, t, i, e, d, k, e);
      ValueLocal(s, t, k, d);
    }
  }

  lemma KeyLocal(s: string, t: string, i: nat, d: int, kind: Kind)
    requires i <= |s| && ParseKey(s, i, kind).Some?
    requires Agree(s, t, i, ParseKey(s, i, kind).value.1, d)
    ensures var (key, c) := ParseKey(s, i, kind).value; ParseKey(t, i + d, kind) == Some((key, c + d))
  {
    hide ParseString, Agree, SkipSpace;
    if kind == InObject {
      var e := ParseKey(s, i, kind).value.1;
      AgreeBounds(s, t, i, e, d);
      QuotedLocal(s, t, i, e, d);
      NextLocal(s, t, ParseString(s, SkipSpace(s, i) + 1).value.1, e, d);
    }
  }

  lemma QuotedLocal(s: string, t: string, i: nat, e: nat, d: int)
    requires Agree(s, t, i, e, d) && SkipSpace(s, i) < e
    requires ParseString(s, SkipSpace(s, i) + 1).Some? && ParseString(s, SkipSpace(s, i) + 1).value.1 <= e
    ensures 0 <= i + d <= |t| && SkipSpace(s, i) + d < |t|
    ensures var a := SkipSpace(s, i);
            var (key, b) := ParseString(s, a + 1).value;
            && SkipSpace(t, i + d) == a + d
            && s[a] == t[a + d]
            && ParseString(t, a + d + 1) == Some((key, b + d))
            && Agree(s, t, b, e, d)
  {
    hide ParseString, Agree, SkipSpace;
    var a := SkipSpace(s, i);
    AgreeBounds(s, t, i, e, d);
    SpaceLocal(s, t, i, e, d);
    AgreeWithin(s, t, i, e, d, a, e);
    AgreeWithin(s, t, i, e, d, a + 1, ParseString(s, a + 1).value.1);
    StringLocal(s, t, a + 1, d);
    assert a + 1 + d == a + d + 1;
    AgreeWithin(s, t, i, e, d, ParseString(s, a + 1).value.1, e);
  }

  lemma NextLocal(s: string, t: string, b: nat, e: nat, d: int)
    requires Agree(s, t, b, e, d) && SkipSpace(s, b) < e
    ensures 0 <= b + d <= |t| && SkipSpace(s, b) + d < |t|
    ensures SkipSpace(t, b + d) == SkipSpace(s, b) + d && s[SkipSpace(s, b)] == t[SkipSpace(s, b) + d]
  {
    hide Agree, SkipSpace;
    AgreeBounds(s, t, b, e, d);
    SpaceLocal(s, t, b, e, d);
    AgreeWithin(s, t, b, e, d, SkipSpace(s, b), e);
  }
}
