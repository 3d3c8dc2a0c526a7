/**
 The canonical text of a JSON value, and the value a text denotes: what canonicaljson/canonicaljson.go computes,
 stated on values.

 The number path of encoding/json (token to float64 to token) is the parameter `norm`: it returns nothing
 for a token out of range and otherwise the token printed for the same float64.
 */
module CanonicalPrint {
  import opened Basics
  import opened StringOrder
  import opened JsonText

  type Normaliser = string -> Option<string>

  /** What the theorems use of the number path: it prints number tokens, and prints its own output unchanged. */
  ghost predicate GoodNormaliser(norm: Normaliser) {
    forall t: string :: norm(t).Some? ==> IsNumber(norm(t).value) && norm(norm(t).value) == norm(t)
  }

  // ---------------------------------------------------------------- the value a text denotes

  predicate InRange(norm: Normaliser, v: Json) {
    match v
    case Num(token) => norm(token).Some?
    case Arr(items) => forall i | 0 <= i < |items| :: InRange(norm, items[i])
    case Obj(members) => forall k | k in members :: InRange(norm, members[k])
    case _ => true
  }

  /** The value with every number replaced by the token of its float64. */
  function Normal(norm: Normaliser, v: Json): Json
    requires InRange(norm, v)
  {
    match v
    case Num(token) => Num(norm(token).value)
    case Arr(items) => Arr(seq(|items|, i requires 0 <= i < |items| => Normal(norm, items[i])))
    case Obj(members) => Obj(map k | k in members :: Normal(norm, members[k]))
    case _ => v
  }

  function Denote(norm: Normaliser, text: string): Option<Json> {
    match ParseText(text)
    case None => None
    case Some(v) => if InRange(norm, v) then Some(Normal(norm, v)) else None
  }

  // ---------------------------------------------------------------- printing

  function HexDigit(n: nat): char
    requires n < 16
  {
    if n < 10 then (n + '0' as int) as char else (n - 10 + 'a' as int) as char
  }

  /** json.Marshal of one character, HTML escaping on. */
  function EscapeChar(c: char): (r: string)
    ensures r != ""
  {
    if c == '"' || c == '\\' then ['\\', c]
    else if c == 8 as char then "\\b"
    else if c == 12 as char then "\\f"
    else if c == '\n' then "\\n"
    else if c == '\r' then "\\r"
    else if c == '\t' then "\\t"
    else if c < ' ' || c == '<' || c == '>' || c == '&' then
      ['\\', 'u', '0', '0', HexDigit(c as nat / 16), HexDigit(c as nat % 16)]
    else if c == 0x2028 as char then "\\u2028"
    else if c == 0x2029 as char then "\\u2029"
    else [c]
  }

  function EscapeAll(s: string): string {
    if s == "" then "" else EscapeChar(s[0]) + EscapeAll(s[1..])
  }

  /** json.Marshal of a string. */
  function Quote(s: string): string {
    "\"" + (EscapeAll(s) + "\"")
  }

  function Join(texts: seq<string>): string {
    if texts == [] then ""
    else if |texts| == 1 then texts[0]
    else texts[0] + ("," + Join(texts[1..]))
  }

  lemma {:induction false} JoinSnoc(texts: seq<string>, x: string)
    ensures Join(texts + [x]) == if texts == [] then x else Join(texts) + ("," + x)
  {
    if |texts| >= 1 {
      var rest := texts[1..];
      assert (texts + [x])[1..] == rest + [x];
      JoinSnoc(rest, x);
      if rest != [] {
        Assoc(",", Join(rest), "," + x);
        Assoc(texts[0], "," + Join(rest), "," + x);
      }
    }
  }

  function Entry(key: string, text: string): string {
    Quote(key) + (":" + text)
  }

  function Entries(keys: seq<string>, texts: map<string, string>): seq<string>
    requires forall i | 0 <= i < |keys| :: keys[i] in texts
  {
    seq(|keys|, i requires 0 <= i < |keys| => Entry(keys[i], texts[keys[i]]))
  }

  function Bracket(open: char, texts: seq<string>, close: char): string {
    [open] + (Join(texts) + [close])
  }

  /** The texts between the brackets of an array or the braces of an object. */
  ghost function Texts(v: Json): seq<string>
    requires v.Arr? || v.Obj?
    decreases v, 0
  {
    match v
    case Arr(items) => seq(|items|, i requires 0 <= i < |items| => Print(items[i]))
    case Obj(members) => Entries(SortedKeys(members.Keys), map k | k in members :: Print(members[k]))
  }

  /** The canonical text of a value: no spaces, keys in order. */
  ghost function Print(v: Json): string
    decreases v, 1
  {
    match v
    case Null => "null"
    case Bool(b) => if b then "true" else "false"
    case Num(token) => token
    case Str(s) => Quote(s)
    case Arr(_) => Bracket('[', Texts(v), ']')
    case Obj(_) => Bracket('{', Texts(v), '}')
  }

  // ---------------------------------------------------------------- canonical and signing texts

  /** unicode.IsSpace */
  predicate IsSpace(c: char) {
    var n := c as int;
    9 <= n <= 13 || n == 32 || n == 0x85 || n == 0xA0 || n == 0x1680 || 0x2000 <= n <= 0x200A
    || n == 0x2028 || n == 0x2029 || n == 0x202F || n == 0x205F || n == 0x3000
  }

  /** bytes.TrimSpace */
  function TrimSpace(s: string): (r: string)
    ensures |r| <= |s|
    decreases |s|
  {
    if s == "" then s
    else if IsSpace(s[0]) then TrimSpace(s[1..])
    else if IsSpace(s[|s| - 1]) then TrimSpace(s[..|s| - 1])
    else s
  }

  lemma {:induction false} Trimmed(s: string)
    ensures var r := TrimSpace(s);
            TrimSpace(r) == r && (r != "" ==> !IsSpace(r[0]) && !IsSpace(r[|r| - 1]))
    decreases |s|
  {
    if s == "" {
    } else if IsSpace(s[0]) {
      Trimmed(s[1..]);
    } else if IsSpace(s[|s| - 1]) {
      Trimmed(s[..|s| - 1]);
    }
  }

  /** What is left is the text without its leading and trailing Unicode white space. */
  ghost predicate TrimsTo(s: string, i: int, j: int, r: string) {
    && 0 <= i <= j <= |s| && r == s[i..j]
    && (forall k | 0 <= k < |s| && !(i <= k < j) :: s[k] as int in WHITE_SPACE)
    && (r != "" ==> r[0] as int !in WHITE_SPACE && r[|r| - 1] as int !in WHITE_SPACE)
  }

  const WHITE_SPACE: set<int> :=
    { 9, 10, 11, 12, 13, 0x20, 0x85, 0xA0, 0x1680, 0x2000, 0x2001, 0x2002, 0x2003, 0x2004, 0x2005, 0x2006, 0x2007,
      0x2008, 0x2009, 0x200A, 0x2028, 0x2029, 0x202F, 0x205F, 0x3000 }

  lemma WhiteSpaceExactly(c: char)
    ensures IsSpace(c) <==> c as int in WHITE_SPACE
  {
  }

  lemma {:induction false} TrimExactly(s: string) returns (i: nat, j: nat)
    ensures TrimsTo(s, i, j, TrimSpace(s))
    decreases |s|
  {
    hide IsSpace, WHITE_SPACE, TrimsTo;
    if s != "" {
      WhiteSpaceExactly(s[0]);
      WhiteSpaceExactly(s[|s| - 1]);
    }
    if s == "" {
      i, j := 0, 0;
      NothingToTrim(s);
    } else if IsSpace(s[0]) {
      i, j := TrimExactly(s[1..]);
      TrimFirst(s, i, j, TrimSpace(s));
      i, j := i + 1, j + 1;
    } else if IsSpace(s[|s| - 1]) {
      i, j := TrimExactly(s[..|s| - 1]);
      TrimLast(s, i, j, TrimSpace(s));
    } else {
      i, j := 0, |s|;
      NothingToTrim(s);
    }
  }

  lemma TrimFirst(s: string, i: int, j: int, r: string)
    requires s != "" && s[0] as int in WHITE_SPACE && TrimsTo(s[1..], i, j, r)
    ensures TrimsTo(s, i + 1, j + 1, r)
  {
    hide WHITE_SPACE;
    assert s[1..][i..j] == s[i + 1..j + 1];
    assert forall k | 0 < k < |s| :: s[k] == s[1..][k - 1];
  }

  lemma TrimLast(s: string, i: int, j: int, r: string)
    requires s != "" && s[|s| - 1] as int in WHITE_SPACE && TrimsTo(s[..|s| - 1], i, j, r)
    ensures TrimsTo(s, i, j, r)
  {
    hide WHITE_SPACE;
    assert s[..|s| - 1][i..j] == s[i..j];
    assert forall k | 0 <= k < |s| - 1 :: s[k] == s[..|s| - 1][k];
  }

  lemma NothingToTrim(s: string)
    requires s == "" || (s[0] as int !in WHITE_SPACE && s[|s| - 1] as int !in WHITE_SPACE)
    ensures TrimsTo(s, 0, |s|, s)
  {
    hide WHITE_SPACE;
    assert s[0..|s|] == s;
  }

  /** What the canonicaliser returns for a raw text. */
  ghost function CanonicalText(norm: Normaliser, raw: string): Option<string> {
    match Denote(norm, TrimSpace(raw))
    case None => None
    case Some(v) => Some(Print(v))
  }

  const STRIPPED: set<string> := {"signature", "pubkey_b64"}

  /** The members a signature covers; null counts as an object without members. */
  function SignedMembers(raw: string): Option<map<string, Json>> {
    match ParseText(raw)
    case Some(Obj(members)) => Some(members - STRIPPED)
    case Some(Null) => Some(map[])
    case _ => None
  }

  /** What MarshalForSigning returns for the JSON text of its argument. */
  ghost function SigningText(norm: Normaliser, raw: string): Option<string> {
    match SignedMembers(raw)
    case None => None
    case Some(members) =>
      if InRange(norm, Obj(members)) then Some(Print(Normal(norm, Obj(members)))) else None
  }
}
