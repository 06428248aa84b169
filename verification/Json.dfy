/**
  The JSON text parser as functions of the text and the position: what the
  parser's methods compute.
*/
module JsonText {
  import opened Utf8

  datatype Json =
    | Null
    | Bool(flag: bool)
    | Number(text: string)
    | String(text: string)
    | Array(items: seq<Json>)
    | Object(members: map<string, Json>)

  datatype Fault =
    | BadLiteral | TooDeep | UnexpectedEnd | ExpectedKey | ExpectedColon | UnterminatedObject | ExpectedCommaOrBrace
    | UnterminatedArray | ExpectedCommaOrBracket | ShortEscape | BadUnicode | ControlCharacter | LoneSurrogate
    | BadPair | BadEscape | UnterminatedString | BadNumber | BadFraction | BadExponent | OutOfRange | Trailing

  datatype Result<T> = Done(value: T, pos: nat) | Fail(fault: Fault, at: nat)

  const MAX_DEPTH: nat := 64

  // Whether a number's text is one of a finite value.
  type Finite = string -> bool

  predicate IsSpace(c: char) { c == ' ' || c == '\t' || c == '\n' || c == '\r' }

  predicate IsDigit(c: char) { '0' <= c <= '9' }

  function SkipSpace(s: string, p: nat): (q: nat)
    requires p <= |s|
    ensures p <= q <= |s|
    decreases |s| - p
  {
    if p < |s| && IsSpace(s[p]) then SkipSpace(s, p + 1) else p
  }

  predicate HasAt(s: string, p: nat, word: string)
    requires p <= |s|
  {
    p + |word| <= |s| && s[p..p + |word|] == word
  }

  function Literal(s: string, p: nat, word: string, value: Json): Result<Json>
    requires p <= |s|
  {
    if HasAt(s, p, word) then Done(value, p + |word|) else Fail(BadLiteral, p)
  }

  // ------------------------------------------------- strings

  function HexValue(c: char): (v: int)
    ensures -1 <= v < 16
  {
    if '0' <= c <= '9' then c as int - '0' as int
    else if 'a' <= c <= 'f' then c as int - 'a' as int + 10
    else if 'A' <= c <= 'F' then c as int - 'A' as int + 10
    else -1
  }

  // The digits left of a four-digit code, `v` being what they follow.
  function HexFrom(s: string, p: nat, left: nat, v: nat): (r: Result<nat>)
    requires p + left <= |s|
    ensures r.Done? ==> r.pos == p + left
    decreases left
  {
    if left == 0 then Done(v, p)
    else if HexValue(s[p]) < 0 then Fail(BadUnicode, p + 1)
    else HexFrom(s, p + 1, left - 1, v * 16 + HexValue(s[p]))
  }

  function Hex4(s: string, p: nat): (r: Result<nat>)
    requires p <= |s|
    ensures r.Done? ==> r.pos == p + 4 <= |s|
  {
    if p + 4 > |s| then Fail(ShortEscape, p) else HexFrom(s, p, 4, 0)
  }

  // The code point of a \u escape, or of a pair of them.
  function UnicodeEscape(s: string, p: nat): (r: Result<nat>)
    requires p <= |s|
    ensures r.Done? ==> p < r.pos <= |s| && Scalar(r.value)
  {
    match Hex4(s, p)
    case Fail(fault, at) => Fail(fault, at)
    case Done(high, q) =>
      if 0xD800 <= high <= 0xDBFF then
        if !HasAt(s, q, "\\u") then Fail(LoneSurrogate, q)
        else
          match Hex4(s, q + 2)
          case Fail(fault, at) => Fail(fault, at)
          case Done(low, t) =>
            if low < 0xDC00 || low > 0xDFFF then Fail(BadPair, t)
            else Done(0x1_0000 + (high - 0xD800) * 0x400 + (low - 0xDC00), t)
      else if 0xDC00 <= high <= 0xDFFF then Fail(LoneSurrogate, q)
      else HexIsSmall(s, p); Done(high, q)
  }

  lemma HexIsSmall(s: string, p: nat)
    requires p <= |s|
    ensures Hex4(s, p).Done? ==> Hex4(s, p).value < 0x1_0000
  {
    if p + 4 <= |s| {
      HexIsBounded(s, p, 4, 0, 1);
    }
  }

  // How many codes `n` digits have.
  function Codes(n: nat): nat
    requires n <= 4
  {
    match n
    case 0 => 1
    case 1 => 0x10
    case 2 => 0x100
    case 3 => 0x1000
    case _ => 0x1_0000
  }

  lemma {:induction false} HexIsBounded(s: string, p: nat, left: nat, v: nat, bound: nat)
    requires p + left <= |s| && left <= 4 && v < bound
    ensures HexFrom(s, p, left, v).Done? ==> HexFrom(s, p, left, v).value < bound * Codes(left)
    decreases left
  {
    if left > 0 && HexValue(s[p]) >= 0 {
      HexIsBounded(s, p + 1, left - 1, v * 16 + HexValue(s[p]), bound * 16);
    }
  }

  // What a one-letter escape stands for.
  function Unescaped(e: char): string {
    match e
    case '"' => "\""
    case '\\' => "\\"
    case '/' => "/"
    case 'b' => [8 as char]
    case 'f' => [12 as char]
    case 'n' => "\n"
    case 'r' => "\r"
    case 't' => "\t"
    case _ => ""
  }

  // A string's body from `p` on, with `out` read.
  function StringFrom(s: string, p: nat, out: string): (r: Result<string>)
    requires p <= |s|
    ensures r.Done? ==> p < r.pos <= |s|
    decreases |s| - p
  {
    if p == |s| then Fail(UnterminatedString, p)
    else if s[p] == '"' then Done(out, p + 1)
    else if s[p] < ' ' then Fail(ControlCharacter, p + 1)
    else if s[p] != '\\' then StringFrom(s, p + 1, out + [s[p]])
    else if p + 1 == |s| then Fail(UnterminatedString, p + 1)
    else if Unescaped(s[p + 1]) != "" then StringFrom(s, p + 2, out + Unescaped(s[p + 1]))
    else if s[p + 1] != 'u' then Fail(BadEscape, p + 2)
    else
      match UnicodeEscape(s, p + 2)
      case Fail(fault, at) => Fail(fault, at)
      case Done(cp, q) => StringFrom(s, q, out + Encode(cp))
  }

  // ------------------------------------------------- numbers

  function DigitsEnd(s: string, p: nat): (q: nat)
    requires p <= |s|
    ensures p <= q <= |s|
    decreases |s| - p
  {
    if p < |s| && IsDigit(s[p]) then DigitsEnd(s, p + 1) else p
  }

  predicate DigitAt(s: string, p: nat) { p < |s| && IsDigit(s[p]) }

  function IntegerEnd(s: string, p: nat): (r: Result<()>)
    requires p <= |s|
    ensures r.Done? ==> p < r.pos <= |s|
  {
    var q := if p < |s| && s[p] == '-' then p + 1 else p;
    if !DigitAt(s, q) then Fail(BadNumber, q)
    else if s[q] == '0' then Done((), q + 1)
    else Done((), DigitsEnd(s, q))
  }

  function FractionEnd(s: string, p: nat): (r: Result<()>)
    requires p <= |s|
    ensures r.Done? ==> p <= r.pos <= |s|
  {
    if p == |s| || s[p] != '.' then Done((), p)
    else if !DigitAt(s, p + 1) then Fail(BadFraction, p + 1)
    else Done((), DigitsEnd(s, p + 1))
  }

  function ExponentEnd(s: string, p: nat): (r: Result<()>)
    requires p <= |s|
    ensures r.Done? ==> p <= r.pos <= |s|
  {
    if p == |s| || (s[p] != 'e' && s[p] != 'E') then Done((), p)
    else
      var q := if p + 1 < |s| && (s[p + 1] == '+' || s[p + 1] == '-') then p + 2 else p + 1;
      if !DigitAt(s, q) then Fail(BadExponent, q) else Done((), DigitsEnd(s, q))
  }

  function NumberEnd(s: string, p: nat): (r: Result<()>)
    requires p <= |s|
    ensures r.Done? ==> p < r.pos <= |s|
  {
    match IntegerEnd(s, p)
    case Fail(fault, at) => Fail(fault, at)
    case Done(_, q) =>
      match FractionEnd(s, q)
      case Fail(fault, at) => Fail(fault, at)
      case Done(_, t) => ExponentEnd(s, t)
  }

  function NumberValue(s: string, p: nat, finite: Finite): (r: Result<Json>)
    requires p <= |s|
    ensures r.Done? ==> p < r.pos <= |s|
  {
    match NumberEnd(s, p)
    case Fail(fault, at) => Fail(fault, at)
    case Done(_, q) => if finite(s[p..q]) then Done(Number(s[p..q]), q) else Fail(OutOfRange, q)
  }

  // ------------------------------------------------- values

  function Value(s: string, p: nat, depth: nat, finite: Finite): (r: Result<Json>)
    requires p <= |s|
    ensures r.Done? ==> p < r.pos <= |s|
    decreases |s| - p, 2
  {
    if depth > MAX_DEPTH then Fail(TooDeep, p)
    else if p == |s| then Fail(UnexpectedEnd, p)
    else if s[p] == '{' then
      var q := SkipSpace(s, p + 1);
      if q < |s| && s[q] == '}' then Done(Object(map[]), q + 1) else Members(s, q, depth, finite, map[])
    else if s[p] == '[' then
      var q := SkipSpace(s, p + 1);
      if q < |s| && s[q] == ']' then Done(Array([]), q + 1) else Items(s, q, depth, finite, [])
    else if s[p] == '"' then
      match StringFrom(s, p + 1, "")
      case Fail(fault, at) => Fail(fault, at)
      case Done(text, q) => Done(String(text), q)
    else if s[p] == 't' then Literal(s, p, "true", Bool(true))
    else if s[p] == 'f' then Literal(s, p, "false", Bool(false))
    else if s[p] == 'n' then Literal(s, p, "null", Null)
    else NumberValue(s, p, finite)
  }

  // One key with its value.
  function Member(s: string, p: nat, depth: nat, finite: Finite): (r: Result<(string, Json)>)
    requires p <= |s|
    ensures r.Done? ==> p < r.pos <= |s|
    decreases |s| - p, 3
  {
    var p1 := SkipSpace(s, p);
    if p1 == |s| || s[p1] != '"' then Fail(ExpectedKey, p1)
    else
      match StringFrom(s, p1 + 1, "")
      case Fail(fault, at) => Fail(fault, at)
      case Done(key, p2) =>
        var p3 := SkipSpace(s, p2);
        if p3 == |s| || s[p3] != ':' then Fail(ExpectedColon, p3)
        else
          match Value(s, SkipSpace(s, p3 + 1), depth + 1, finite)
          case Fail(fault, at) => Fail(fault, at)
          case Done(v, p5) => Done((key, v), p5)
  }

  // The members from `p` on, with `acc` read.
  function Members(s: string, p: nat, depth: nat, finite: Finite, acc: map<string, Json>): (r: Result<Json>)
    requires p <= |s|
    ensures r.Done? ==> p < r.pos <= |s|
    decreases |s| - p, 4
  {
    match Member(s, p, depth, finite)
    case Fail(fault, at) => Fail(fault, at)
    case Done((key, v), q) => AfterMember(s, q, depth, finite, acc[key := v])
  }

  function AfterMember(s: string, p: nat, depth: nat, finite: Finite, acc: map<string, Json>): (r: Result<Json>)
    requires p <= |s|
    ensures r.Done? ==> p < r.pos <= |s|
    decreases |s| - p, 5
  {
    var q := SkipSpace(s, p);
    if q == |s| then Fail(UnterminatedObject, q)
    else if s[q] == ',' then Members(s, q + 1, depth, finite, acc)
    else if s[q] == '}' then Done(Object(acc), q + 1)
    else Fail(ExpectedCommaOrBrace, q)
  }

  function Items(s: string, p: nat, depth: nat, finite: Finite, acc: seq<Json>): (r: Result<Json>)
    requires p <= |s|
    ensures r.Done? ==> p < r.pos <= |s|
    decreases |s| - p, 3
  {
    match Value(s, SkipSpace(s, p), depth + 1, finite)
    case Fail(fault, at) => Fail(fault, at)
    case Done(v, p2) =>
      var q := SkipSpace(s, p2);
      if q == |s| then Fail(UnterminatedArray, q)
      else if s[q] == ',' then Items(s, q + 1, depth, finite, acc + [v])
      else if s[q] == ']' then Done(Array(acc + [v]), q + 1)
      else Fail(ExpectedCommaOrBracket, q)
  }

  function Parse(s: string, finite: Finite): Result<Json> {
    match Value(s, SkipSpace(s, 0), 0, finite)
    case Fail(fault, at) => Fail(fault, at)
    case Done(v, p) => if SkipSpace(s, p) != |s| then Fail(Trailing, SkipSpace(s, p)) else Done(v, |s|)
  }
}
