/**
  UTF-8 by bytes: the encoder, the recogniser of one sequence, and the text
  sanitiser built on it. A string's characters stand for its bytes.
*/
module SixBits {
  // Numbers by groups of six bits, both ways.
  lemma Two(a: nat, b: nat)
    requires b < 0x40
    ensures (a * 0x40 + b) / 0x40 == a && (a * 0x40 + b) % 0x40 == b
  {
  }

  lemma Three(a: nat, b: nat, c: nat)
    requires b < 0x40 && c < 0x40
    ensures var n := a * 0x1000 + b * 0x40 + c;
      n / 0x1000 == a && n / 0x40 % 0x40 == b && n % 0x40 == c
  {
    var m := a * 0x40 + b;
    Two(m, c);
    Two(a, b);
    assert a * 0x1000 + b * 0x40 + c == m * 0x40 + c;
    assert (m * 0x40 + c) / 0x1000 == m / 0x40;
  }

  lemma Four(a: nat, b: nat, c: nat, d: nat)
    requires b < 0x40 && c < 0x40 && d < 0x40
    ensures var n := a * 0x4_0000 + b * 0x1000 + c * 0x40 + d;
      n / 0x4_0000 == a && n / 0x1000 % 0x40 == b && n / 0x40 % 0x40 == c && n % 0x40 == d
  {
    var m := a * 0x40 + b;
    Three(m, c, d);
    Two(a, b);
    var n := a * 0x4_0000 + b * 0x1000 + c * 0x40 + d;
    assert n == m * 0x1000 + c * 0x40 + d;
    assert n / 0x4_0000 == m / 0x40;
  }

  lemma Groups(n: nat)
    ensures n == n / 0x40 * 0x40 + n % 0x40
    ensures n == n / 0x1000 * 0x1000 + n / 0x40 % 0x40 * 0x40 + n % 0x40
    ensures n == n / 0x4_0000 * 0x4_0000 + n / 0x1000 % 0x40 * 0x1000 + n / 0x40 % 0x40 * 0x40 + n % 0x40
  {
    var m, k := n / 0x40, n / 0x1000;
    assert k == m / 0x40 && m == k * 0x40 + m % 0x40;
    assert k / 0x40 == n / 0x4_0000 && k == k / 0x40 * 0x40 + k % 0x40;
  }
}

module Utf8 {
  import opened SixBits

  // The code points that have an encoding (section 3 of RFC 3629).
  predicate Scalar(cp: nat) {
    cp < 0xD800 || 0xE000 <= cp <= 0x10FFFF
  }

  function Lead(base: nat, bits: nat): char
    requires base + bits < 0x100
  {
    (base + bits) as char
  }

  function Continuation(bits: nat): char
    requires bits < 0x40
  {
    (0x80 + bits) as char
  }

  function Encode(cp: nat): (s: string)
    requires Scalar(cp)
    ensures 1 <= |s| <= 4
  {
    if cp < 0x80 then [cp as char]
    else if cp < 0x800 then [Lead(0xC0, cp / 0x40), Continuation(cp % 0x40)]
    else if cp < 0x1_0000 then
      [Lead(0xE0, cp / 0x1000), Continuation(cp / 0x40 % 0x40), Continuation(cp % 0x40)]
    else
      [Lead(0xF0, cp / 0x4_0000), Continuation(cp / 0x1000 % 0x40), Continuation(cp / 0x40 % 0x40), Continuation(cp % 0x40)]
  }

  function Byte(s: string, i: nat): nat
    requires i < |s|
  {
    s[i] as nat
  }

  predicate IsContinuation(b: nat) { 0x80 <= b < 0xC0 }

  // How many continuation bytes the first byte calls for; none if it cannot
  // begin a sequence.
  function Needed(c: nat): (n: nat)
    ensures n <= 3
  {
    if 0xC2 <= c < 0xE0 then 1
    else if 0xE0 <= c < 0xF0 then 2
    else if 0xF0 <= c <= 0xF4 then 3
    else 0
  }

  // No overlong form, no surrogate, nothing past the last code point.
  predicate SecondFits(c: nat, c1: nat) {
    && !(c == 0xE0 && c1 < 0xA0) && !(c == 0xED && c1 >= 0xA0)
    && !(c == 0xF0 && c1 < 0x90) && !(c == 0xF4 && c1 >= 0x90)
  }

  // The first `n` bytes after the one at `i` continue it.
  predicate Continued(s: string, i: nat, n: nat)
    requires i + n < |s| && n <= 3
  {
    && (n >= 1 ==> IsContinuation(Byte(s, i + 1)))
    && (n >= 2 ==> IsContinuation(Byte(s, i + 2)))
    && (n >= 3 ==> IsContinuation(Byte(s, i + 3)))
  }

  // The length of the well-formed sequence at `i`, or 0.
  function SeqLen(s: string, i: nat): (n: nat)
    requires i < |s|
    ensures i + n <= |s| && n <= 4
  {
    var c := Byte(s, i);
    var needed := Needed(c);
    if c < 0x80 then 1
    else if needed == 0 || i + needed >= |s| then 0
    else if !Continued(s, i, needed) then 0
    else if !SecondFits(c, Byte(s, i + 1)) then 0
    else needed + 1
  }

  method SequenceLength(s: string, i: nat) returns (n: nat)
    requires i < |s|
    ensures n == SeqLen(s, i)
  {
    var c := Byte(s, i);
    if c < 0x80 {
      return 1;
    }
    var needed := Needed(c);
    if needed == 0 || i + needed >= |s| {
      return 0;
    }
    for j := 1 to needed + 1
      invariant Continued(s, i, j - 1)
    {
      if !IsContinuation(Byte(s, i + j)) {
        return 0;
      }
    }
    return if SecondFits(c, Byte(s, i + 1)) then needed + 1 else 0;
  }

  // A sequence is recognised wherever it stands.
  lemma SameSequence(s: string, i: nat, t: string, j: nat)
    requires i < |s| && SeqLen(s, i) > 0 && j + SeqLen(s, i) <= |t|
    requires s[i..i + SeqLen(s, i)] == t[j..j + SeqLen(s, i)]
    ensures SeqLen(t, j) == SeqLen(s, i)
  {
    var n := SeqLen(s, i);
    SameByte(s, i, t, j, n, 0);
    if n > 1 {
      SameByte(s, i, t, j, n, 1);
    }
    if n > 2 {
      SameByte(s, i, t, j, n, 2);
    }
    if n > 3 {
      SameByte(s, i, t, j, n, 3);
    }
  }

  lemma SameByte(s: string, i: nat, t: string, j: nat, n: nat, k: nat)
    requires k < n && i + n <= |s| && j + n <= |t| && s[i..i + n] == t[j..j + n]
    ensures s[i + k] == t[j + k]
  {
    assert s[i + k] == s[i..i + n][k] == t[j..j + n][k];
  }

  // ------------------------------------------------- the recogniser is the encoder

  function Six(s: string, i: nat): nat
    requires i < |s|
  {
    Byte(s, i) % 0x40
  }

  // The code point of a recognised sequence.
  function Decode(s: string, i: nat): nat
    requires i < |s| && SeqLen(s, i) > 0
  {
    match SeqLen(s, i)
    case 1 => Byte(s, i)
    case 2 => (Byte(s, i) - 0xC0) * 0x40 + Six(s, i + 1)
    case 3 => (Byte(s, i) - 0xE0) * 0x1000 + Six(s, i + 1) * 0x40 + Six(s, i + 2)
    case _ => (Byte(s, i) - 0xF0) * 0x4_0000 + Six(s, i + 1) * 0x1000 + Six(s, i + 2) * 0x40 + Six(s, i + 3)
  }

  // What is recognised is the encoding of a code point ...
  lemma RecognisedIsEncoded(s: string, i: nat)
    requires i < |s| && SeqLen(s, i) > 0
    ensures Scalar(Decode(s, i)) && s[i..i + SeqLen(s, i)] == Encode(Decode(s, i))
  {
    match SeqLen(s, i)
    case 1 => assert s[i..i + 1] == [s[i]];
    case 2 => RecognisedTwo(s, i);
    case 3 => RecognisedThree(s, i);
    case _ => RecognisedFour(s, i);
  }

  lemma RecognisedTwo(s: string, i: nat)
    requires i < |s| && SeqLen(s, i) == 2
    ensures Scalar(Decode(s, i)) && s[i..i + 2] == Encode(Decode(s, i))
  {
    Two(Byte(s, i) - 0xC0, Six(s, i + 1));
    assert s[i..i + 2] == [s[i], s[i + 1]];
  }

  lemma RecognisedThree(s: string, i: nat)
    requires i < |s| && SeqLen(s, i) == 3
    ensures Scalar(Decode(s, i)) && s[i..i + 3] == Encode(Decode(s, i))
  {
    Three(Byte(s, i) - 0xE0, Six(s, i + 1), Six(s, i + 2));
    assert s[i..i + 3] == [s[i], s[i + 1], s[i + 2]];
  }

  lemma RecognisedFour(s: string, i: nat)
    requires i < |s| && SeqLen(s, i) == 4
    ensures Scalar(Decode(s, i)) && s[i..i + 4] == Encode(Decode(s, i))
  {
    FourEncodes(Byte(s, i) - 0xF0, Six(s, i + 1), Six(s, i + 2), Six(s, i + 3));
    hide Encode;
    assert s[i..i + 4] == [s[i], s[i + 1], s[i + 2], s[i + 3]];
  }

  lemma FourEncodes(a: nat, b: nat, c: nat, d: nat)
    requires a <= 4 && b < 0x40 && c < 0x40 && d < 0x40 && (a == 0 ==> b >= 0x10) && (a == 4 ==> b < 0x10)
    ensures var cp := a * 0x4_0000 + b * 0x1000 + c * 0x40 + d;
      && 0x1_0000 <= cp && Scalar(cp)
      && Encode(cp) == [Lead(0xF0, a), Continuation(b), Continuation(c), Continuation(d)]
  {
    Four(a, b, c, d);
  }

  // ... and every encoding is recognised.
  lemma EncodedIsRecognised(cp: nat)
    requires Scalar(cp)
    ensures SeqLen(Encode(cp), 0) == |Encode(cp)| && Decode(Encode(cp), 0) == cp
  {
    if cp >= 0x1_0000 {
      EncodedFour(cp);
    } else if cp >= 0x800 {
      EncodedThree(cp);
    } else if cp >= 0x80 {
      Groups(cp);
    }
  }

  lemma EncodedThree(cp: nat)
    requires Scalar(cp) && 0x800 <= cp < 0x1_0000
    ensures SeqLen(Encode(cp), 0) == 3 && Decode(Encode(cp), 0) == cp
  {
    Groups(cp);
    var a, b, c := cp / 0x1000, cp / 0x40 % 0x40, cp % 0x40;
    var s := [Lead(0xE0, a), Continuation(b), Continuation(c)];
    assert Encode(cp) == s;
    assert Byte(s, 0) == 0xE0 + a && Byte(s, 1) == 0x80 + b && Byte(s, 2) == 0x80 + c;
    assert SecondFits(0xE0 + a, 0x80 + b);
  }

  lemma EncodedFour(cp: nat)
    requires Scalar(cp) && 0x1_0000 <= cp
    ensures SeqLen(Encode(cp), 0) == 4 && Decode(Encode(cp), 0) == cp
  {
    Groups(cp);
    var a, b, c, d := cp / 0x4_0000, cp / 0x1000 % 0x40, cp / 0x40 % 0x40, cp % 0x40;
    var s := [Lead(0xF0, a), Continuation(b), Continuation(c), Continuation(d)];
    assert Encode(cp) == s;
    assert Byte(s, 0) == 0xF0 + a && Byte(s, 1) == 0x80 + b && Byte(s, 2) == 0x80 + c && Byte(s, 3) == 0x80 + d;
    assert SecondFits(0xF0 + a, 0x80 + b);
  }
}

/**
  Untrusted text made safe for a bounded line: bytes outside a well-formed
  sequence go, control characters become spaces, and the text is cut between
  code points.
*/
module Sanitizer {
  import opened Utf8

  // Whole sequences from `i` on (section 4 of RFC 3629).
  predicate WellFormedFrom(s: string, i: nat)
    requires i <= |s|
    decreases |s| - i
  {
    i == |s| || (SeqLen(s, i) > 0 && WellFormedFrom(s, i + SeqLen(s, i)))
  }

  predicate WellFormed(s: string) { WellFormedFrom(s, 0) }

  function EncodeAll(cps: seq<nat>): string
    requires forall cp :: cp in cps ==> Scalar(cp)
  {
    if cps == [] then "" else EncodeAll(cps[..|cps| - 1]) + Encode(cps[|cps| - 1])
  }

  // A whole sequence may follow.
  lemma {:induction false} AppendSequence(s: string, i: nat, piece: string)
    requires i <= |s| && WellFormedFrom(s, i)
    requires piece != "" && SeqLen(piece, 0) == |piece|
    ensures WellFormedFrom(s + piece, i)
    decreases |s| - i
  {
    hide SeqLen;
    var t := s + piece;
    if i == |s| {
      assert t[i..i + |piece|] == piece[0..|piece|];
      SameSequence(piece, 0, t, i);
    } else {
      var n := SeqLen(s, i);
      assert t[i..i + n] == s[i..i + n];
      SameSequence(s, i, t, i);
      AppendSequence(s, i + n, piece);
    }
  }

  // The encodings of code points are well-formed ...
  lemma {:induction false} EncodedIsWellFormed(cps: seq<nat>)
    requires forall cp :: cp in cps ==> Scalar(cp)
    ensures WellFormed(EncodeAll(cps))
  {
    if cps != [] {
      hide Encode, SeqLen;
      var last := cps[|cps| - 1];
      EncodedIsWellFormed(cps[..|cps| - 1]);
      EncodedIsRecognised(last);
      AppendSequence(EncodeAll(cps[..|cps| - 1]), 0, Encode(last));
    }
  }

  // ... and nothing else is.
  lemma WellFormedIsEncoded(s: string)
    requires WellFormed(s)
    ensures exists cps: seq<nat> :: (forall cp :: cp in cps ==> Scalar(cp)) && EncodeAll(cps) == s
  {
    var cps := DecodeFrom(s, 0, []);
  }

  lemma {:induction false} DecodeFrom(s: string, i: nat, before: seq<nat>) returns (cps: seq<nat>)
    requires i <= |s| && WellFormedFrom(s, i)
    requires (forall cp :: cp in before ==> Scalar(cp)) && EncodeAll(before) == s[..i]
    ensures (forall cp :: cp in cps ==> Scalar(cp)) && EncodeAll(cps) == s
    decreases |s| - i
  {
    if i == |s| {
      assert s[..i] == s;
      cps := before;
    } else {
      hide Encode, Decode, SeqLen;
      var n, cp := SeqLen(s, i), Decode(s, i);
      RecognisedIsEncoded(s, i);
      var longer := before + [cp];
      assert longer[..|before|] == before;
      assert EncodeAll(longer) == s[..i] + s[i..i + n] == s[..i + n];
      cps := DecodeFrom(s, i + n, longer);
    }
  }

  predicate Clean(c: char) { c >= ' ' && c != 0x7F as char }

  predicate Printable(s: string) { forall i :: 0 <= i < |s| ==> Clean(s[i]) }

  function Piece(s: string, i: nat, n: nat): (p: string)
    requires 1 <= n && i + n <= |s|
    ensures |p| == n
  {
    if n == 1 && !Clean(s[i]) then " " else s[i..i + n]
  }

  // From `i` on, with `out` done.
  function SanitizeFrom(s: string, i: nat, max: nat, out: string): string
    requires i <= |s| && |out| <= max
    decreases |s| - i
  {
    if i == |s| then out
    else
      var n := SeqLen(s, i);
      if n == 0 then SanitizeFrom(s, i + 1, max, out)
      else if |out| + n > max then out
      else SanitizeFrom(s, i + n, max, out + Piece(s, i, n))
  }

  function Sanitize(s: string, max: nat): string { SanitizeFrom(s, 0, max, "") }

  method SanitizeText(s: string, max: nat) returns (out: string)
    ensures out == Sanitize(s, max)
  {
    hide SeqLen;
    out := "";
    var i := 0;
    while i < |s|
      invariant i <= |s| && |out| <= max
      invariant SanitizeFrom(s, i, max, out) == Sanitize(s, max)
    {
      var n := SequenceLength(s, i);
      if n == 0 {
        i := i + 1;
        continue;
      }
      if |out| + n > max {
        break;
      }
      out := out + if n == 1 && !Clean(s[i]) then " " else s[i..i + n];
      i := i + n;
    }
  }

  lemma PieceIsSafe(s: string, i: nat)
    requires i < |s| && SeqLen(s, i) > 0
    ensures var p := Piece(s, i, SeqLen(s, i));
      SeqLen(p, 0) == |p| && Printable(p)
  {
    var n := SeqLen(s, i);
    var p := Piece(s, i, n);
    if p == " " {
      assert SeqLen(" ", 0) == 1;
    } else {
      assert s[i..i + n] == p[0..n];
      SameSequence(s, i, p, 0);
      if n > 1 {
        ContinuedIsClean(s, i);
      }
    }
  }

  lemma ContinuedIsClean(s: string, i: nat)
    requires i < |s| && SeqLen(s, i) > 1
    ensures Printable(s[i..i + SeqLen(s, i)])
  {
    assert Continued(s, i, SeqLen(s, i) - 1);
    forall k | i <= k < i + SeqLen(s, i)
      ensures Clean(s[k])
    {
      assert k == i || k == i + 1 || k == i + 2 || k == i + 3;
    }
  }

  // Bounded, well-formed and free of control characters, whatever goes in.
  lemma {:induction false} FromIsSafe(s: string, i: nat, max: nat, out: string)
    requires i <= |s| && |out| <= max && WellFormed(out) && Printable(out)
    ensures var r := SanitizeFrom(s, i, max, out);
      |r| <= max && |r| <= |out| + |s| - i && WellFormed(r) && Printable(r)
    decreases |s| - i
  {
    if i < |s| {
      var n := SeqLen(s, i);
      hide SeqLen, Piece;
      if n == 0 {
        FromIsSafe(s, i + 1, max, out);
      } else if |out| + n <= max {
        PieceIsSafe(s, i);
        AppendSequence(out, 0, Piece(s, i, n));
        FromIsSafe(s, i + n, max, out + Piece(s, i, n));
      }
    }
  }

  lemma SanitizedIsSafe(s: string, max: nat)
    ensures var r := Sanitize(s, max);
      |r| <= max && |r| <= |s| && WellFormed(r) && Printable(r)
  {
    FromIsSafe(s, 0, max, "");
  }

  // Safe text that fits is left alone ...
  lemma {:induction false} SafeIsKept(s: string, i: nat, max: nat)
    requires i <= |s| <= max && WellFormedFrom(s, i) && Printable(s)
    ensures SanitizeFrom(s, i, max, s[..i]) == s
    decreases |s| - i
  {
    if i < |s| {
      hide SeqLen;
      var n := SeqLen(s, i);
      assert Piece(s, i, n) == s[i..i + n] && s[..i] + s[i..i + n] == s[..i + n];
      SafeIsKept(s, i + n, max);
    } else {
      assert s[..i] == s;
    }
  }

  // ... so sanitising twice is sanitising once.
  lemma SanitizeTwice(s: string, max: nat)
    ensures Sanitize(Sanitize(s, max), max) == Sanitize(s, max)
  {
    SanitizedIsSafe(s, max);
    SafeIsKept(Sanitize(s, max), 0, max);
  }

  lemma {:induction false} FromIsNoLonger(s: string, i: nat, max: nat, out: string)
    requires i <= |s| && |out| <= max
    ensures |SanitizeFrom(s, i, max, out)| <= |out| + |s| - i
    decreases |s| - i
  {
    if i < |s| {
      hide SeqLen;
      var n := SeqLen(s, i);
      if n == 0 {
        FromIsNoLonger(s, i + 1, max, out);
      } else if |out| + n <= max {
        FromIsNoLonger(s, i + n, max, out + Piece(s, i, n));
      }
    }
  }

  // Nothing is dropped without the text getting shorter.
  lemma {:induction false} SameLengthIsKept(s: string, i: nat, max: nat)
    requires i <= |s| && i <= max && Printable(s) && |SanitizeFrom(s, i, max, s[..i])| == |s|
    ensures SanitizeFrom(s, i, max, s[..i]) == s
    decreases |s| - i
  {
    if i < |s| {
      hide SeqLen;
      var n := SeqLen(s, i);
      if n == 0 {
        FromIsNoLonger(s, i + 1, max, s[..i]);
      } else if i + n <= max {
        assert Piece(s, i, n) == s[i..i + n] && s[..i] + s[i..i + n] == s[..i + n];
        SameLengthIsKept(s, i + n, max);
      }
    } else {
      assert s[..i] == s;
    }
  }
}
