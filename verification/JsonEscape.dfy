/**
  Escaping for a JSON string body, against the parser: whatever bytes go in come
  back out (section 7 of RFC 8259).
*/
module JsonEscape {
  import opened JsonText
  import opened Utf8

  function HexDigit(n: nat): char
    requires n < 16
  {
    if n < 10 then ('0' as int + n) as char else ('a' as int + n - 10) as char
  }

  function EscapeChar(c: char): (e: string)
    ensures e != ""
  {
    if c == '"' then "\\\""
    else if c == '\\' then "\\\\"
    else if c == '\n' then "\\n"
    else if c == '\r' then "\\r"
    else if c == '\t' then "\\t"
    else if c < ' ' then "\\u00" + [HexDigit(c as nat / 16), HexDigit(c as nat % 16)]
    else [c]
  }

  function Escape(u: string): string {
    if u == "" then "" else Escape(u[..|u| - 1]) + EscapeChar(u[|u| - 1])
  }

  method EscapeText(u: string) returns (out: string)
    ensures out == Escape(u)
  {
    hide EscapeChar;
    out := "";
    for i := 0 to |u|
      invariant out == Escape(u[..i])
    {
      assert u[..i + 1][..i] == u[..i];
      out := out + EscapeChar(u[i]);
    }
    assert u[..|u|] == u;
  }

  // ------------------------------------------------- shape and size

  lemma EscapedCharIsPrintable(c: char)
    ensures forall i :: 0 <= i < |EscapeChar(c)| ==> EscapeChar(c)[i] >= ' '
    ensures |EscapeChar(c)| <= 6 && (c >= ' ' ==> |EscapeChar(c)| <= 2)
  {
  }

  // No control character is left: a quoted text never breaks a line. It grows
  // by six at most, and where there was none to begin with by two.
  lemma {:induction false} EscapedIsOneLine(u: string)
    ensures forall i :: 0 <= i < |Escape(u)| ==> Escape(u)[i] >= ' '
    ensures |Escape(u)| <= 6 * |u|
    ensures (forall i :: 0 <= i < |u| ==> u[i] >= ' ') ==> |Escape(u)| <= 2 * |u|
  {
    if u != "" {
      hide EscapeChar;
      EscapedIsOneLine(u[..|u| - 1]);
      EscapedCharIsPrintable(u[|u| - 1]);
    }
  }

  // Text that needs no escape.
  predicate Plain(u: string) {
    forall i :: 0 <= i < |u| ==> u[i] >= ' ' && u[i] != '"' && u[i] != '\\'
  }

  lemma {:induction false} PlainIsKept(u: string)
    requires Plain(u)
    ensures Escape(u) == u
  {
    if u != "" {
      assert EscapeChar(u[|u| - 1]) == [u[|u| - 1]];
      hide EscapeChar;
      PlainIsKept(u[..|u| - 1]);
      assert u == u[..|u| - 1] + [u[|u| - 1]];
    }
  }

  // ------------------------------------------------- reading it back

  lemma Parts(s: string, p: nat, a: string, b: string)
    requires p <= |s| && HasAt(s, p, a + b)
    ensures p + |a| <= |s| && HasAt(s, p, a) && HasAt(s, p + |a|, b)
  {
    var t := s[p..p + |a + b|];
    assert s[p..p + |a|] == t[..|a|] == a;
    assert s[p + |a|..p + |a| + |b|] == t[|a|..] == b;
  }

  lemma CharAt(s: string, p: nat, word: string, i: nat)
    requires p <= |s| && HasAt(s, p, word) && i < |word|
    ensures s[p + i] == word[i]
  {
    assert s[p + i] == s[p..p + |word|][i];
  }

  lemma HexDigitIsRead(n: nat)
    requires n < 16
    ensures HexValue(HexDigit(n)) == n
  {
  }

  lemma ControlIsRead(s: string, p: nat, c: char)
    requires p <= |s| && c < ' ' && HasAt(s, p, "00" + [HexDigit(c as nat / 16), HexDigit(c as nat % 16)])
    ensures UnicodeEscape(s, p) == Done(c as nat, p + 4) && Encode(c as nat) == [c]
  {
    var high, low := c as nat / 16, c as nat % 16;
    var word := "00" + [HexDigit(high), HexDigit(low)];
    CharAt(s, p, word, 0);
    CharAt(s, p, word, 1);
    CharAt(s, p, word, 2);
    CharAt(s, p, word, 3);
    HexDigitIsRead(high);
    HexDigitIsRead(low);
    hide HexDigit;
    assert HexFrom(s, p + 3, 1, high) == HexFrom(s, p + 4, 0, high * 16 + low);
    assert HexFrom(s, p + 1, 3, 0) == HexFrom(s, p + 2, 2, 0) == HexFrom(s, p + 3, 1, high);
  }

  lemma EscapedCharIsRead(s: string, p: nat, c: char, out: string)
    requires p <= |s| && HasAt(s, p, EscapeChar(c))
    ensures StringFrom(s, p, out) == StringFrom(s, p + |EscapeChar(c)|, out + [c])
  {
    var e := EscapeChar(c);
    CharAt(s, p, e, 0);
    if |e| > 1 {
      CharAt(s, p, e, 1);
      if |e| > 2 {
        assert e == "\\u" + ("00" + [HexDigit(c as nat / 16), HexDigit(c as nat % 16)]);
        Parts(s, p, "\\u", "00" + [HexDigit(c as nat / 16), HexDigit(c as nat % 16)]);
        ControlIsRead(s, p + 2, c);
      }
    }
  }

  lemma {:induction false} EscapedIsRead(s: string, p: nat, u: string, out: string)
    requires p <= |s| && HasAt(s, p, Escape(u))
    ensures StringFrom(s, p, out) == StringFrom(s, p + |Escape(u)|, out + u)
  {
    hide StringFrom, EscapeChar, HasAt;
    if u == "" {
      assert out + u == out;
    } else {
      var init, c := u[..|u| - 1], u[|u| - 1];
      Parts(s, p, Escape(init), EscapeChar(c));
      EscapedIsRead(s, p, init, out);
      assert p + |Escape(init)| <= |s| by { InBounds(s, p, Escape(init)); }
      EscapedCharIsRead(s, p + |Escape(init)|, c, out + init);
      assert out + init + [c] == out + u;
    }
  }

  lemma InBounds(s: string, p: nat, word: string)
    requires p <= |s| && HasAt(s, p, word)
    ensures p + |word| <= |s|
  {
  }

  function Quoted(u: string): string { "\"" + (Escape(u) + "\"") }

  // From behind the opening quote.
  lemma BodyIsRead(s: string, p: nat, u: string)
    requires p <= |s| && HasAt(s, p, Escape(u) + "\"")
    ensures StringFrom(s, p, "") == Done(u, p + |Escape(u)| + 1)
  {
    hide Escape, HasAt;
    Parts(s, p, Escape(u), "\"");
    InBounds(s, p + |Escape(u)|, "\"");
    CharAt(s, p + |Escape(u)|, "\"", 0);
    EscapedIsRead(s, p, u, "") by { hide StringFrom; }
    assert "" + u == u;
  }

  lemma QuotedIsRead(s: string, p: nat, u: string, depth: nat, finite: Finite)
    requires p <= |s| && HasAt(s, p, Quoted(u)) && depth <= MAX_DEPTH
    ensures Value(s, p, depth, finite) == Done(String(u), p + |Quoted(u)|)
  {
    hide StringFrom, Escape;
    Parts(s, p, "\"", Escape(u) + "\"");
    CharAt(s, p, "\"", 0);
    BodyIsRead(s, p + 1, u);
  }

  // Every byte string survives: parsing the quoted escape gives it back.
  lemma ParseInvertsEscape(u: string, finite: Finite)
    ensures Parse(Quoted(u), finite) == Done(String(u), |Quoted(u)|)
  {
    hide Value, Escape;
    var s := Quoted(u);
    assert s[0..0 + |s|] == s;
    QuotedIsRead(s, 0, u, 0, finite);
    assert SkipSpace(s, 0) == 0;
  }
}
