/**
  The renderer's event lines: fields built from untrusted text, read back by the
  JSON parser, and never longer than the owner's line buffer takes.
*/
module EventLines {
  import opened JsonEscape
  import opened JsonText
  import opened Sanitizer

  const MAX_LINE: nat := 4000
  const FIELD_BUFFER: nat := 63

  // A field's number as printed: whole, or with decimals.
  datatype Field =
    | Text(key: string, text: string, max: nat)
    | Flag(key: string, flag: bool)
    | Whole(key: string, n: int)
    | Real(key: string, digits: string)

  // ------------------------------------------------- numbers

  function Digits(n: nat): (d: string)
    ensures d != ""
  {
    if n < 10 then [('0' as int + n) as char] else Digits(n / 10) + [('0' as int + n % 10) as char]
  }

  function Decimal(n: int): string { if n < 0 then "-" + Digits(-n) else Digits(n) }

  // Digits only, and no leading zero.
  lemma {:induction false} DigitsAreANumber(n: nat)
    ensures forall i :: 0 <= i < |Digits(n)| ==> IsDigit(Digits(n)[i])
    ensures n > 0 ==> Digits(n)[0] != '0'
    ensures n == 0 ==> Digits(n) == "0"
  {
    if n >= 10 {
      DigitsAreANumber(n / 10);
    }
  }

  lemma {:induction false} DigitsAreFew(n: nat, k: nat, bound: nat)
    requires k > 0 && n < bound && IsPowerOf10(bound, k)
    ensures |Digits(n)| <= k
    decreases k
  {
    if n >= 10 {
      DigitsAreFew(n / 10, k - 1, bound / 10);
    }
  }

  predicate IsPowerOf10(b: nat, k: nat) {
    if k == 0 then b == 1 else b % 10 == 0 && IsPowerOf10(b / 10, k - 1)
  }

  // The text of a JSON number.
  predicate IsNumber(token: string) {
    NumberEnd(token, 0) == Done((), |token|)
  }

  lemma {:induction false} RunOfDigits(s: string, p: nat)
    requires p <= |s| && forall i :: p <= i < |s| ==> IsDigit(s[i])
    ensures DigitsEnd(s, p) == |s|
    decreases |s| - p
  {
    if p < |s| {
      RunOfDigits(s, p + 1);
    }
  }

  lemma DecimalIsNumber(n: int)
    ensures IsNumber(Decimal(n))
  {
    var m := if n < 0 then -n else n;
    DigitsAreANumber(m);
    var s := Decimal(n);
    var p := if n < 0 then 1 else 0;
    assert n < 0 ==> s[0] == '-' && forall i :: 1 <= i < |s| ==> s[i] == Digits(m)[i - 1];
    if m == 0 {
      assert s == "0";
      assert IntegerEnd(s, 0) == Done((), 1);
    } else {
      assert s[p] == Digits(m)[0] && s[p] != '0';
      RunOfDigits(s, p);
      assert IntegerEnd(s, 0) == Done((), |s|);
    }
  }

  // The integer that decimal digits, and a sign before them, stand for.
  function NatOf(digits: string): int {
    if digits == "" then 0 else NatOf(digits[..|digits| - 1]) * 10 + (digits[|digits| - 1] as int - '0' as int)
  }

  function IntOf(text: string): int {
    if text != "" && text[0] == '-' then -NatOf(text[1..]) else NatOf(text)
  }

  lemma {:induction false} DigitsMean(n: nat)
    ensures NatOf(Digits(n)) == n
  {
    if n >= 10 {
      DigitsMean(n / 10);
      assert Digits(n)[..|Digits(n)| - 1] == Digits(n / 10);
    } else {
      assert Digits(n)[..0] == "";
    }
  }

  // A printed integer stands for itself.
  lemma DecimalMeans(n: int)
    ensures IntOf(Decimal(n)) == n
  {
    var m := if n < 0 then -n else n;
    DigitsMean(m);
    DigitsAreANumber(m);
    assert n < 0 ==> Decimal(n)[1..] == Digits(m);
    assert n >= 0 ==> IsDigit(Decimal(n)[0]);
  }

  // A number's text reads the same wherever it stands, if what follows it does
  // not belong to a number.
  predicate EndsNumber(s: string, p: nat) {
    p < |s| ==> !IsDigit(s[p]) && s[p] != '.' && s[p] != 'e' && s[p] != 'E'
  }

  lemma {:induction false} DigitsAt(s: string, p: nat, t: string, i: nat)
    requires p <= |s| && HasAt(s, p, t) && i <= |t| && EndsNumber(s, p + |t|)
    ensures DigitsEnd(s, p + i) == p + DigitsEnd(t, i)
    decreases |t| - i
  {
    if i < |t| {
      CharAt(s, p, t, i);
      DigitsAt(s, p, t, i + 1);
    }
  }

  lemma IntegerAt(s: string, p: nat, t: string)
    requires p <= |s| && HasAt(s, p, t) && EndsNumber(s, p + |t|) && IntegerEnd(t, 0).Done?
    ensures IntegerEnd(s, p) == Done((), p + IntegerEnd(t, 0).pos)
  {
    CharAt(s, p, t, 0);
    var i := if t[0] == '-' then 1 else 0;
    CharAt(s, p, t, i);
    DigitsAt(s, p, t, i);
  }

  lemma FractionAt(s: string, p: nat, t: string, i: nat)
    requires p <= |s| && HasAt(s, p, t) && EndsNumber(s, p + |t|) && i <= |t| && FractionEnd(t, i).Done?
    ensures FractionEnd(s, p + i) == Done((), p + FractionEnd(t, i).pos)
  {
    if i < |t| {
      CharAt(s, p, t, i);
      if t[i] == '.' {
        CharAt(s, p, t, i + 1);
        DigitsAt(s, p, t, i + 1);
      }
    }
  }

  lemma ExponentAt(s: string, p: nat, t: string, i: nat)
    requires p <= |s| && HasAt(s, p, t) && EndsNumber(s, p + |t|) && i <= |t| && ExponentEnd(t, i).Done?
    ensures ExponentEnd(s, p + i) == Done((), p + ExponentEnd(t, i).pos)
  {
    if i < |t| {
      CharAt(s, p, t, i);
      if t[i] == 'e' || t[i] == 'E' {
        CharAt(s, p, t, i + 1);
        var j := if t[i + 1] == '+' || t[i + 1] == '-' then i + 2 else i + 1;
        CharAt(s, p, t, j);
        DigitsAt(s, p, t, j);
      }
    }
  }

  lemma NumberAt(s: string, p: nat, t: string)
    requires p <= |s| && HasAt(s, p, t) && EndsNumber(s, p + |t|) && IsNumber(t)
    ensures NumberEnd(s, p) == Done((), p + |t|)
  {
    hide IntegerEnd, FractionEnd, ExponentEnd, DigitsEnd;
    IntegerAt(s, p, t);
    var i := IntegerEnd(t, 0).pos;
    FractionAt(s, p, t, i);
    ExponentAt(s, p, t, FractionEnd(t, i).pos);
  }

  // ------------------------------------------------- fields

  function ValueText(f: Field): string {
    match f
    case Text(_, text, max) => Quoted(Sanitize(text, max))
    case Flag(_, flag) => if flag then "true" else "false"
    case Whole(_, n) => Decimal(n)
    case Real(_, digits) => digits
  }

  // Keys and event names are written as they are.
  function Name(key: string): string { "\"" + (key + "\"") }

  // A field with decimals is printed to a buffer that cuts it.
  function Written(f: Field): string {
    var text := "," + (Name(f.key) + (":" + ValueText(f)));
    if f.Real? && |text| > FIELD_BUFFER then text[..FIELD_BUFFER] else text
  }

  function Body(fields: seq<Field>): string {
    if fields == [] then "" else Written(fields[0]) + Body(fields[1..])
  }

  function Line(name: string, fields: seq<Field>): string {
    "{" + ((Name("event") + (":" + Name(name))) + (Body(fields) + "}"))
  }

  // Keys are fixed, and a real's digits are a number that fits its buffer.
  predicate FieldOk(f: Field, finite: Finite) {
    && Plain(f.key)
    && (f.Whole? ==> finite(Decimal(f.n)))
    && (f.Real? ==> IsNumber(f.digits) && finite(f.digits) && |f.key| + 4 + |f.digits| <= FIELD_BUFFER)
  }

  function ValueOf(f: Field): Json {
    match f
    case Text(_, text, max) => String(Sanitize(text, max))
    case Flag(_, flag) => Bool(flag)
    case Whole(_, n) => Number(Decimal(n))
    case Real(_, digits) => Number(digits)
  }

  function Merged(acc: map<string, Json>, fields: seq<Field>): map<string, Json>
    decreases |fields|
  {
    if fields == [] then acc else Merged(acc[fields[0].key := ValueOf(fields[0])], fields[1..])
  }

  // ------------------------------------------------- reading a line back

  lemma NumberIsRead(s: string, p: nat, t: string, depth: nat, finite: Finite)
    requires p <= |s| && HasAt(s, p, t) && EndsNumber(s, p + |t|) && IsNumber(t) && finite(t) && depth <= MAX_DEPTH
    ensures Value(s, p, depth, finite) == Done(Number(t), p + |t|)
  {
    NumberAt(s, p, t);
    assert IntegerEnd(s, p).Done?;
    assert s[p] == '-' || IsDigit(s[p]);
    hide NumberEnd;
  }

  lemma ValueIsRead(s: string, p: nat, f: Field, finite: Finite)
    requires p <= |s| && HasAt(s, p, ValueText(f)) && EndsNumber(s, p + |ValueText(f)|) && FieldOk(f, finite)
    ensures Value(s, p, 1, finite) == Done(ValueOf(f), p + |ValueText(f)|)
  {
    match f
    case Text(_, text, max) => QuotedIsRead(s, p, Sanitize(text, max), 1, finite);
    case Flag(_, flag) => CharAt(s, p, ValueText(f), 0);
    case Whole(_, n) =>
      DecimalIsNumber(n);
      NumberIsRead(s, p, Decimal(n), 1, finite);
    case Real(_, digits) => NumberIsRead(s, p, digits, 1, finite);
  }

  function Named(f: Field): string { Quoted(f.key) + (":" + ValueText(f)) }

  lemma WrittenIsNamed(f: Field, finite: Finite)
    requires FieldOk(f, finite)
    ensures Written(f) == "," + Named(f)
  {
    NameIsQuoted(f.key);
  }

  lemma NameIsQuoted(key: string)
    requires Plain(key)
    ensures Name(key) == Quoted(key)
  {
    PlainIsKept(key);
  }

  lemma NoSpace(s: string, p: nat, word: string)
    requires p <= |s| && word != "" && HasAt(s, p, word) && !IsSpace(word[0])
    ensures p < |s| && s[p] == word[0] && SkipSpace(s, p) == p
  {
    CharAt(s, p, word, 0);
  }

  lemma ValueTextStarts(f: Field, finite: Finite)
    requires FieldOk(f, finite)
    ensures ValueText(f) != "" && !IsSpace(ValueText(f)[0])
  {
    match f
    case Text(_, text, max) =>
    case Flag(_, flag) =>
    case Whole(_, n) =>
      DecimalIsNumber(n);
      assert IntegerEnd(Decimal(n), 0).Done?;
    case Real(_, digits) => assert IntegerEnd(digits, 0).Done?;
  }

  // A key and its value without space around them.
  lemma MemberAt(s: string, p: nat, key: string, text: string, v: Json, finite: Finite)
    requires p <= |s| && HasAt(s, p, Quoted(key) + (":" + text)) && text != "" && !IsSpace(text[0])
    requires var q := p + |Quoted(key)| + 1;
      q + |text| <= |s| ==> Value(s, q, 1, finite) == Done(v, q + |text|)
    ensures Member(s, p, 0, finite) == Done((key, v), p + |Quoted(key) + (":" + text)|)
  {
    hide StringFrom, Escape, Value, SkipSpace, HasAt;
    var body := Escape(key) + "\"";
    var p2 := p + |Quoted(key)|;
    Parts(s, p, Quoted(key), ":" + text);
    Parts(s, p, "\"", body);
    NoSpace(s, p, "\"");
    BodyIsRead(s, p + 1, key);
    Parts(s, p2, ":", text);
    NoSpace(s, p2, ":");
    InBounds(s, p2 + 1, text);
    NoSpace(s, p2 + 1, text);
  }

  lemma MemberIsRead(s: string, p: nat, f: Field, finite: Finite)
    requires p <= |s| && HasAt(s, p, Named(f)) && EndsNumber(s, p + |Named(f)|) && FieldOk(f, finite)
    ensures Member(s, p, 0, finite) == Done((f.key, ValueOf(f)), p + |Named(f)|)
  {
    hide Escape, Value, ValueText, ValueOf, HasAt, Member, EndsNumber, FieldOk;
    var q := p + |Quoted(f.key)|;
    Parts(s, p, Quoted(f.key), ":" + ValueText(f));
    Parts(s, q, ":", ValueText(f));
    ValueTextStarts(f, finite);
    ValueIsRead(s, q + 1, f, finite);
    MemberAt(s, p, f.key, ValueText(f), ValueOf(f), finite);
  }

  // After the last member.
  lemma BraceIsRead(s: string, p: nat, acc: map<string, Json>, finite: Finite)
    requires p <= |s| && HasAt(s, p, "}")
    ensures AfterMember(s, p, 0, finite, acc) == Done(Object(acc), p + 1)
  {
    NoSpace(s, p, "}");
  }

  // After a member with another one behind it.
  lemma CommaIsRead(s: string, p: nat, acc: map<string, Json>, finite: Finite)
    requires p <= |s| && HasAt(s, p, ",") && p + 1 <= |s| && Member(s, p + 1, 0, finite).Done?
    ensures var m := Member(s, p + 1, 0, finite);
      AfterMember(s, p, 0, finite, acc) == AfterMember(s, m.pos, 0, finite, acc[m.value.0 := m.value.1])
  {
    hide Member;
    NoSpace(s, p, ",");
  }

  lemma {:induction false} FieldsAreRead(s: string, p: nat, fields: seq<Field>, acc: map<string, Json>, finite: Finite)
    requires p <= |s| && HasAt(s, p, Body(fields) + "}")
    requires forall f :: f in fields ==> FieldOk(f, finite)
    ensures AfterMember(s, p, 0, finite, acc) == Done(Object(Merged(acc, fields)), p + |Body(fields)| + 1)
    decreases |fields|
  {
    hide HasAt, Member, AfterMember, FieldOk, Written, ValueOf, ValueText;
    if fields == [] {
      assert Body(fields) + "}" == "}";
      BraceIsRead(s, p, acc, finite);
    } else {
      var f, rest := fields[0], Body(fields[1..]) + "}";
      WrittenIsNamed(f, finite);
      hide Quoted;
      assert Body(fields) + "}" == "," + (Named(f) + rest);
      Parts(s, p, ",", Named(f) + rest);
      Parts(s, p + 1, Named(f), rest);
      var q := p + 1 + |Named(f)|;
      RestEndsNumber(s, q, fields[1..]);
      MemberIsRead(s, p + 1, f, finite);
      CommaIsRead(s, p, acc, finite);
      FieldsAreRead(s, q, fields[1..], acc[f.key := ValueOf(f)], finite);
    }
  }

  // What follows a field is a comma or the closing brace.
  lemma RestEndsNumber(s: string, q: nat, fields: seq<Field>)
    requires q <= |s| && HasAt(s, q, Body(fields) + "}")
    ensures EndsNumber(s, q)
  {
    var rest := Body(fields) + "}";
    CharAt(s, q, rest, 0);
    if fields != [] {
      assert rest[0] == Written(fields[0])[0] == ',';
    }
  }

  function Event(name: string): string { Quoted("event") + (":" + Quoted(name)) }

  lemma LineStarts(name: string, fields: seq<Field>)
    requires Plain(name)
    ensures Line(name, fields) == "{" + (Event(name) + (Body(fields) + "}"))
  {
    hide Name, Quoted, Body;
    NameIsQuoted("event");
    NameIsQuoted(name);
  }

  lemma EventIsRead(s: string, name: string, finite: Finite)
    requires 1 <= |s| && HasAt(s, 1, Event(name))
    ensures Member(s, 1, 0, finite) == Done(("event", String(name)), 1 + |Event(name)|)
    ensures SkipSpace(s, 1) == 1 < |s| && s[1] == '"'
  {
    hide Escape, HasAt, Value, Member;
    var key, value := Quoted("event"), Quoted(name);
    Parts(s, 1, key, ":" + value);
    NoSpace(s, 1, key);
    var q := 1 + |key|;
    Parts(s, q, ":", value);
    QuotedIsRead(s, q + 1, name, 1, finite);
    MemberAt(s, 1, "event", value, String(name), finite);
  }

  // A line is read back as its name and fields: text as sanitised, numbers and
  // flags as given.
  lemma LineIsRead(name: string, fields: seq<Field>, finite: Finite)
    requires Plain(name) && forall f :: f in fields ==> FieldOk(f, finite)
    ensures Parse(Line(name, fields), finite)
      == Done(Object(Merged(map["event" := String(name)], fields)), |Line(name, fields)|)
  {
    hide Body, Merged, Line, FieldOk;
    var s, rest := Line(name, fields), Body(fields) + "}";
    LineStarts(name, fields);
    assert HasAt(s, 0, "{" + (Event(name) + rest)) by {
      assert s[0..|s|] == s;
    }
    Parts(s, 0, "{", Event(name) + rest);
    NoSpace(s, 0, "{");
    Parts(s, 1, Event(name), rest);
    EventIsRead(s, name, finite);
    FieldsAreRead(s, 1 + |Event(name)|, fields, map["event" := String(name)], finite);
    ObjectIsRead(s, 1 + |Event(name)|, name, finite);
  }

  lemma ObjectIsRead(s: string, q: nat, name: string, finite: Finite)
    requires 1 < |s| && s[0] == '{' && s[1] == '"' && SkipSpace(s, 1) == 1
    requires Member(s, 1, 0, finite) == Done(("event", String(name)), q)
    requires var r := AfterMember(s, q, 0, finite, map["event" := String(name)]);
      r.Done? && r.pos == |s|
    ensures Parse(s, finite) == AfterMember(s, q, 0, finite, map["event" := String(name)])
  {
    hide Member, AfterMember;
    assert SkipSpace(s, 0) == 0;
    var none: map<string, Json> := map[];
    assert none["event" := String(name)] == map["event" := String(name)];
    assert Members(s, 1, 0, finite, none) == AfterMember(s, q, 0, finite, map["event" := String(name)]);
  }
}
