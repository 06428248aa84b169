/** The parser that advances a position, method by method. */
module JsonParser {
  import opened JsonText
  import opened Utf8
  import opened Wrappers

  datatype Error = Error(fault: Fault, at: nat)

  class Parser {
    const s: string
    const finite: Finite
    var pos: nat
    var error: Option<Error>

    constructor (s: string, finite: Finite)
      ensures this.s == s && this.finite == finite && pos == 0 && error == None
    {
      this.s, this.finite, pos, error := s, finite, 0, None;
    }

    // The outcome is that of `r`.
    ghost predicate Agrees<T>(r: Result<T>, ok: bool)
      reads this
    {
      match r
      case Done(_, q) => ok && pos == q && error == None
      case Fail(fault, at) => !ok && error == Some(Error(fault, at))
    }

    // Only the first failure is reported.
    method Reject(fault: Fault)
      modifies this`error
      ensures error == if old(error) == None then Some(Error(fault, pos)) else old(error)
    {
      if error == None {
        error := Some(Error(fault, pos));
      }
    }

    method SkipWs()
      requires pos <= |s|
      modifies this`pos
      ensures pos == SkipSpace(s, old(pos))
    {
      while pos < |s| && IsSpace(s[pos])
        invariant pos <= |s| && SkipSpace(s, pos) == SkipSpace(s, old(pos))
      {
        pos := pos + 1;
      }
    }

    method ReadLiteral(word: string, value: Json) returns (ok: bool)
      requires pos <= |s| && error == None
      modifies this
      ensures Agrees(Literal(s, old(pos), word, value), ok)
    {
      if !HasAt(s, pos, word) {
        Reject(BadLiteral);
        return false;
      }
      pos := pos + |word|;
      return true;
    }

    method ReadHex4() returns (ok: bool, v: nat)
      requires pos <= |s| && error == None
      modifies this
      ensures Agrees(Hex4(s, old(pos)), ok) && (ok ==> v == Hex4(s, old(pos)).value)
    {
      v := 0;
      if pos + 4 > |s| {
        Reject(ShortEscape);
        return false, v;
      }
      for i := 0 to 4
        invariant pos == old(pos) + i && error == None
        invariant HexFrom(s, pos, 4 - i, v) == HexFrom(s, old(pos), 4, 0)
      {
        var c := s[pos];
        pos := pos + 1;
        if HexValue(c) < 0 {
          Reject(BadUnicode);
          return false, v;
        }
        v := v * 16 + HexValue(c);
      }
      return true, v;
    }

    method ReadUnicode() returns (ok: bool, cp: nat)
      requires pos <= |s| && error == None
      modifies this
      ensures Agrees(UnicodeEscape(s, old(pos)), ok) && (ok ==> cp == UnicodeEscape(s, old(pos)).value)
    {
      hide Hex4;
      ok, cp := ReadHex4();
      if !ok {
        return;
      }
      if 0xD800 <= cp <= 0xDBFF {
        if !HasAt(s, pos, "\\u") {
          Reject(LoneSurrogate);
          return false, cp;
        }
        pos := pos + 2;
        var low;
        ok, low := ReadHex4();
        if !ok || low < 0xDC00 || low > 0xDFFF {
          Reject(BadPair);
          return false, cp;
        }
        cp := 0x1_0000 + (cp - 0xD800) * 0x400 + (low - 0xDC00);
      } else if 0xDC00 <= cp <= 0xDFFF {
        Reject(LoneSurrogate);
        return false, cp;
      }
    }

    // From after the opening quote.
    method ReadString() returns (ok: bool, out: string)
      requires pos <= |s| && error == None
      modifies this
      ensures Agrees(StringFrom(s, old(pos), ""), ok) && (ok ==> out == StringFrom(s, old(pos), "").value)
    {
      hide UnicodeEscape, Encode, Unescaped;
      out := "";
      while pos < |s|
        invariant pos <= |s| && error == None
        invariant StringFrom(s, pos, out) == StringFrom(s, old(pos), "")
      {
        var c := s[pos];
        pos := pos + 1;
        if c == '"' {
          return true, out;
        }
        if c < ' ' {
          Reject(ControlCharacter);
          return false, out;
        }
        if c != '\\' {
          out := out + [c];
          continue;
        }
        if pos == |s| {
          break;
        }
        var e := s[pos];
        pos := pos + 1;
        if Unescaped(e) != "" {
          out := out + Unescaped(e);
        } else if e == 'u' {
          var cp;
          ok, cp := ReadUnicode();
          if !ok {
            return;
          }
          out := out + Encode(cp);
        } else {
          Reject(BadEscape);
          return false, out;
        }
      }
      Reject(UnterminatedString);
      return false, out;
    }

    method SkipDigits()
      requires pos <= |s|
      modifies this`pos
      ensures pos == DigitsEnd(s, old(pos))
    {
      while pos < |s| && IsDigit(s[pos])
        invariant pos <= |s| && DigitsEnd(s, pos) == DigitsEnd(s, old(pos))
      {
        pos := pos + 1;
      }
    }

    method ReadInteger() returns (ok: bool)
      requires pos <= |s| && error == None
      modifies this
      ensures Agrees(IntegerEnd(s, old(pos)), ok)
    {
      if pos < |s| && s[pos] == '-' {
        pos := pos + 1;
      }
      if !DigitAt(s, pos) {
        Reject(BadNumber);
        return false;
      }
      if s[pos] == '0' {
        pos := pos + 1;
      } else {
        SkipDigits();
      }
      return true;
    }

    method ReadFraction() returns (ok: bool)
      requires pos <= |s| && error == None
      modifies this
      ensures Agrees(FractionEnd(s, old(pos)), ok)
    {
      if pos < |s| && s[pos] == '.' {
        pos := pos + 1;
        if !DigitAt(s, pos) {
          Reject(BadFraction);
          return false;
        }
        SkipDigits();
      }
      return true;
    }

    method ReadExponent() returns (ok: bool)
      requires pos <= |s| && error == None
      modifies this
      ensures Agrees(ExponentEnd(s, old(pos)), ok)
    {
      if pos < |s| && (s[pos] == 'e' || s[pos] == 'E') {
        pos := pos + 1;
        if pos < |s| && (s[pos] == '+' || s[pos] == '-') {
          pos := pos + 1;
        }
        if !DigitAt(s, pos) {
          Reject(BadExponent);
          return false;
        }
        SkipDigits();
      }
      return true;
    }

    method ReadNumber() returns (ok: bool, v: Json)
      requires pos <= |s| && error == None
      modifies this
      ensures Agrees(NumberValue(s, old(pos), finite), ok) && (ok ==> v == NumberValue(s, old(pos), finite).value)
    {
      hide IntegerEnd, FractionEnd, ExponentEnd;
      v := Null;
      var start := pos;
      ok := ReadInteger();
      if !ok {
        return;
      }
      ok := ReadFraction();
      if !ok {
        return;
      }
      ok := ReadExponent();
      if !ok {
        return;
      }
      if !finite(s[start..pos]) {
        Reject(OutOfRange);
        return false, v;
      }
      return true, Number(s[start..pos]);
    }

    method ReadValue(depth: nat) returns (ok: bool, v: Json)
      requires pos <= |s| && error == None
      modifies this
      ensures Agrees(Value(s, old(pos), depth, finite), ok) && (ok ==> v == Value(s, old(pos), depth, finite).value)
      decreases |s| - pos, 2
    {
      hide StringFrom, NumberValue, Members, Items, SkipSpace;
      v := Null;
      if depth > MAX_DEPTH {
        Reject(TooDeep);
        return false, v;
      }
      if pos == |s| {
        Reject(UnexpectedEnd);
        return false, v;
      }
      var c := s[pos];
      if c == '{' {
        ok, v := ReadObject(depth);
      } else if c == '[' {
        ok, v := ReadArray(depth);
      } else if c == '"' {
        pos := pos + 1;
        var text;
        ok, text := ReadString();
        v := String(text);
      } else if c == 't' {
        v := Bool(true);
        ok := ReadLiteral("true", v);
      } else if c == 'f' {
        v := Bool(false);
        ok := ReadLiteral("false", v);
      } else if c == 'n' {
        ok := ReadLiteral("null", v);
      } else {
        ok, v := ReadNumber();
      }
    }

    method ReadObject(depth: nat) returns (ok: bool, v: Json)
      requires pos < |s| && s[pos] == '{' && depth <= MAX_DEPTH && error == None
      modifies this
      ensures Agrees(Value(s, old(pos), depth, finite), ok) && (ok ==> v == Value(s, old(pos), depth, finite).value)
      decreases |s| - pos, 1
    {
      hide SkipSpace, Members;
      pos := pos + 1;
      SkipWs();
      if pos < |s| && s[pos] == '}' {
        pos := pos + 1;
        return true, Object(map[]);
      }
      ok, v := ReadMembers(depth);
    }

    method ReadMember(depth: nat) returns (ok: bool, key: string, v: Json)
      requires pos <= |s| && error == None
      modifies this
      ensures Agrees(Member(s, old(pos), depth, finite), ok)
      ensures ok ==> (key, v) == Member(s, old(pos), depth, finite).value
      decreases |s| - pos, 3
    {
      hide StringFrom, SkipSpace, Value;
      key, v := "", Null;
      SkipWs();
      if pos == |s| || s[pos] != '"' {
        Reject(ExpectedKey);
        return false, key, v;
      }
      pos := pos + 1;
      ok, key := ReadString();
      if !ok {
        return;
      }
      SkipWs();
      if pos == |s| || s[pos] != ':' {
        Reject(ExpectedColon);
        return false, key, v;
      }
      pos := pos + 1;
      SkipWs();
      ok, v := ReadValue(depth + 1);
    }

    method ReadMembers(depth: nat) returns (ok: bool, v: Json)
      requires pos <= |s| && error == None
      modifies this
      ensures Agrees(Members(s, old(pos), depth, finite, map[]), ok)
      ensures ok ==> v == Members(s, old(pos), depth, finite, map[]).value
      decreases |s| - pos, 4
    {
      hide SkipSpace, Member;
      var acc: map<string, Json> := map[];
      while true
        invariant old(pos) <= pos <= |s| && error == None
        invariant Members(s, pos, depth, finite, acc) == Members(s, old(pos), depth, finite, map[])
        decreases |s| - pos
      {
        var key;
        ok, key, v := ReadMember(depth);
        if !ok {
          return;
        }
        acc := acc[key := v];
        SkipWs();
        if pos == |s| {
          Reject(UnterminatedObject);
          return false, v;
        }
        if s[pos] == ',' {
          pos := pos + 1;
          continue;
        }
        if s[pos] == '}' {
          pos := pos + 1;
          return true, Object(acc);
        }
        Reject(ExpectedCommaOrBrace);
        return false, v;
      }
    }

    method ReadArray(depth: nat) returns (ok: bool, v: Json)
      requires pos < |s| && s[pos] == '[' && depth <= MAX_DEPTH && error == None
      modifies this
      ensures Agrees(Value(s, old(pos), depth, finite), ok) && (ok ==> v == Value(s, old(pos), depth, finite).value)
      decreases |s| - pos, 1
    {
      hide SkipSpace, Items;
      pos := pos + 1;
      SkipWs();
      if pos < |s| && s[pos] == ']' {
        pos := pos + 1;
        return true, Array([]);
      }
      ok, v := ReadItems(depth);
    }

    method ReadItems(depth: nat) returns (ok: bool, v: Json)
      requires pos <= |s| && error == None
      modifies this
      ensures Agrees(Items(s, old(pos), depth, finite, []), ok)
      ensures ok ==> v == Items(s, old(pos), depth, finite, []).value
      decreases |s| - pos, 3
    {
      hide SkipSpace, Value;
      v := Null;
      var acc: seq<Json> := [];
      while true
        invariant old(pos) <= pos <= |s| && error == None
        invariant Items(s, pos, depth, finite, acc) == Items(s, old(pos), depth, finite, [])
        decreases |s| - pos
      {
        SkipWs();
        ok, v := ReadValue(depth + 1);
        if !ok {
          return;
        }
        acc := acc + [v];
        SkipWs();
        if pos == |s| {
          Reject(UnterminatedArray);
          return false, v;
        }
        if s[pos] == ',' {
          pos := pos + 1;
          continue;
        }
        if s[pos] == ']' {
          pos := pos + 1;
          return true, Array(acc);
        }
        Reject(ExpectedCommaOrBracket);
        return false, v;
      }
    }

    method ParseText() returns (ok: bool, v: Json)
      requires pos == 0 && error == None
      modifies this
      ensures Agrees(Parse(s, finite), ok) && (ok ==> v == Parse(s, finite).value)
    {
      hide Value, SkipSpace;
      SkipWs();
      ok, v := ReadValue(0);
      if !ok {
        return;
      }
      SkipWs();
      if pos != |s| {
        Reject(Trailing);
        return false, v;
      }
    }
  }
}
