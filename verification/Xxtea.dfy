/**
  XXTEA over big-endian words: every step changes one word by a mix of its two
  neighbours, which the step leaves alone, so decryption undoes the steps in
  reverse order with the sums in reverse order.
*/
// Words that wrap around at 32 bits, and indices that wrap around at `n`.
module Modular {
  const MODULUS: nat := 0x1_0000_0000
  const DELTA: int := 0x9E3779B9

  type Word = w: int | 0 <= w < MODULUS

  function Plus(a: Word, b: Word): Word { (a + b) % MODULUS }

  function Minus(a: Word, b: Word): Word { (a - b) % MODULUS }

  lemma PlusMinusUndo(a: Word, b: Word)
    ensures Minus(Plus(a, b), b) == a && Plus(Minus(a, b), b) == a
  {
  }

  function Next(p: nat, n: nat): (r: nat)
    requires p < n
    ensures r < n
  {
    if p + 1 == n then 0 else p + 1
  }

  function Prev(p: nat, n: nat): (r: nat)
    requires p < n
    ensures r < n
  {
    if p == 0 then n - 1 else p - 1
  }

  // The indices are computed modulo `n`.
  lemma NeighboursWrap(p: nat, n: nat)
    requires p < n
    ensures (p + 1) % n == Next(p, n) && (p - 1) % n == Prev(p, n)
  {
  }

  // The sum of round `r`, the first one being 1.
  function Sum(r: nat): Word { r * DELTA % MODULUS }

  lemma SumSteps(r: nat)
    ensures Sum(0) == 0 && Plus(Sum(r), DELTA) == Sum(r + 1)
    ensures r > 0 ==> Minus(Sum(r), DELTA) == Sum(r - 1)
  {
    ModAdd(r * DELTA, DELTA);
    ModAdd(r * DELTA, -DELTA);
  }

  lemma ModAdd(x: int, d: int)
    ensures (x % MODULUS + d) % MODULUS == (x + d) % MODULUS
  {
  }

  lemma SplitNibbles(high: int, low: nat)
    requires low < 16
    ensures (high * 16 + low) / 16 == high && (high * 16 + low) % 16 == low
  {
  }

  // The low byte of a number, by its halves.
  lemma LowByte(x: int)
    ensures x % 0x100 == 16 * (x % 0x100 / 16) + x % 0x100 % 16
    ensures x % 0x100 % 16 == x % 16 && x % 0x100 / 16 % 2 == x / 16 % 2
  {
    var q, n := x / 0x100, x % 0x100;
    var h, l := n / 16, n % 16;
    assert x == 16 * (16 * q + h) + l;
    assert x / 16 == 2 * (8 * q) + h;
  }

  // The big-endian digits of a word.
  function Digit(w: Word, i: nat): (d: nat)
    requires i < 4
    ensures d < 0x100
  {
    match i
    case 0 => w / 0x100_0000
    case 1 => w / 0x1_0000 % 0x100
    case 2 => w / 0x100 % 0x100
    case _ => w % 0x100
  }

  function FromDigits(d0: nat, d1: nat, d2: nat, d3: nat): Word
    requires d0 < 0x100 && d1 < 0x100 && d2 < 0x100 && d3 < 0x100
  {
    d0 * 0x100_0000 + d1 * 0x1_0000 + d2 * 0x100 + d3
  }

  lemma DigitsOf(d0: nat, d1: nat, d2: nat, d3: nat)
    requires d0 < 0x100 && d1 < 0x100 && d2 < 0x100 && d3 < 0x100
    ensures var w := FromDigits(d0, d1, d2, d3);
      Digit(w, 0) == d0 && Digit(w, 1) == d1 && Digit(w, 2) == d2 && Digit(w, 3) == d3
  {
    var w := FromDigits(d0, d1, d2, d3);
    var w2 := d0 * 0x1_0000 + d1 * 0x100 + d2;
    var w1 := d0 * 0x100 + d1;
    assert w == w2 * 0x100 + d3 && w2 == w1 * 0x100 + d2;
    assert w / 0x100 == w2 && w % 0x100 == d3;
    assert w / 0x1_0000 == w1;
  }

  lemma FromDigitsOf(w: Word)
    ensures FromDigits(Digit(w, 0), Digit(w, 1), Digit(w, 2), Digit(w, 3)) == w
  {
    var w2 := w / 0x100;
    var w1 := w2 / 0x100;
    assert w == w2 * 0x100 + w % 0x100 && w2 == w1 * 0x100 + w2 % 0x100;
    assert w1 == w / 0x1_0000 && w1 == w1 / 0x100 * 0x100 + w1 % 0x100;
    assert w1 / 0x100 == w / 0x100_0000;
  }
}

/**
  The rounds, for any mixing function: nothing about it is needed to undo them.
*/
module MixRounds {
  import opened Modular

  // Previous word, next word, sum and index.
  type Mix = (Word, Word, Word, nat) -> Word

  function MixAt(v: seq<Word>, p: nat, s: Word, mix: Mix): Word
    requires p < |v|
  {
    mix(v[Prev(p, |v|)], v[Next(p, |v|)], s, p)
  }

  function EncryptStep(v: seq<Word>, p: nat, s: Word, mix: Mix): (r: seq<Word>)
    requires p < |v|
    ensures |r| == |v|
  {
    v[p := Plus(v[p], MixAt(v, p, s, mix))]
  }

  function DecryptStep(v: seq<Word>, p: nat, s: Word, mix: Mix): (r: seq<Word>)
    requires p < |v|
    ensures |r| == |v|
  {
    v[p := Minus(v[p], MixAt(v, p, s, mix))]
  }

  lemma StepsUndo(v: seq<Word>, p: nat, s: Word, mix: Mix)
    requires 2 <= |v| && p < |v|
    ensures DecryptStep(EncryptStep(v, p, s, mix), p, s, mix) == v
    ensures EncryptStep(DecryptStep(v, p, s, mix), p, s, mix) == v
  {
    hide Plus, Minus;
    PlusMinusUndo(v[p], MixAt(v, p, s, mix));
    assert MixAt(EncryptStep(v, p, s, mix), p, s, mix) == MixAt(v, p, s, mix);
    assert MixAt(DecryptStep(v, p, s, mix), p, s, mix) == MixAt(v, p, s, mix);
  }

  // A single word is its own neighbour: nothing undoes its step.
  lemma OneWordIsLost()
    ensures exists v: seq<Word>, mix: Mix ::
      |v| == 1 && DecryptStep(EncryptStep(v, 0, 0, mix), 0, 0, mix) != v
  {
    var v: seq<Word>, mix: Mix := [1], (z, y, s, p) => z;
    assert EncryptStep(v, 0, 0, mix)[0] == 2;
    assert DecryptStep(EncryptStep(v, 0, 0, mix), 0, 0, mix)[0] == 0;
  }

  // ------------------------------------------------- one round

  // The steps at 0 .. q - 1, in that order.
  function EncryptTo(v: seq<Word>, q: nat, s: Word, mix: Mix): (r: seq<Word>)
    requires q <= |v|
    ensures |r| == |v|
  {
    if q == 0 then v else EncryptStep(EncryptTo(v, q - 1, s, mix), q - 1, s, mix)
  }

  // The steps at q - 1 .. 0, in that order.
  function DecryptFrom(v: seq<Word>, q: nat, s: Word, mix: Mix): (r: seq<Word>)
    requires q <= |v|
    ensures |r| == |v|
    decreases q
  {
    if q == 0 then v else DecryptFrom(DecryptStep(v, q - 1, s, mix), q - 1, s, mix)
  }

  lemma {:induction false} DecryptUndoesRound(v: seq<Word>, q: nat, s: Word, mix: Mix)
    requires 2 <= |v| && q <= |v|
    ensures DecryptFrom(EncryptTo(v, q, s, mix), q, s, mix) == v
  {
    if q > 0 {
      hide EncryptStep, DecryptStep;
      var w := EncryptTo(v, q - 1, s, mix);
      var e := EncryptStep(w, q - 1, s, mix);
      assert DecryptFrom(e, q, s, mix) == DecryptFrom(DecryptStep(e, q - 1, s, mix), q - 1, s, mix);
      StepsUndo(w, q - 1, s, mix);
      DecryptUndoesRound(v, q - 1, s, mix);
    }
  }

  lemma {:induction false} EncryptUndoesRound(v: seq<Word>, q: nat, s: Word, mix: Mix)
    requires 2 <= |v| && q <= |v|
    ensures EncryptTo(DecryptFrom(v, q, s, mix), q, s, mix) == v
    decreases q
  {
    if q > 0 {
      hide EncryptStep, DecryptStep;
      StepsUndo(v, q - 1, s, mix);
      EncryptUndoesRound(DecryptStep(v, q - 1, s, mix), q - 1, s, mix);
    }
  }

  // ------------------------------------------------- all rounds

  function Rounds(n: nat): nat
    requires n > 0
  {
    6 + 52 / n
  }

  function EncryptRounds(v: seq<Word>, r: nat, mix: Mix): (w: seq<Word>)
    ensures |w| == |v|
  {
    if r == 0 then v else EncryptTo(EncryptRounds(v, r - 1, mix), |v|, Sum(r), mix)
  }

  function DecryptRounds(v: seq<Word>, r: nat, mix: Mix): (w: seq<Word>)
    ensures |w| == |v|
    decreases r
  {
    if r == 0 then v else DecryptRounds(DecryptFrom(v, |v|, Sum(r), mix), r - 1, mix)
  }

  lemma {:induction false} DecryptUndoesRounds(v: seq<Word>, r: nat, mix: Mix)
    requires 2 <= |v|
    ensures DecryptRounds(EncryptRounds(v, r, mix), r, mix) == v
  {
    if r > 0 {
      hide EncryptTo, DecryptFrom, Sum;
      var w := EncryptRounds(v, r - 1, mix);
      var e := EncryptTo(w, |v|, Sum(r), mix);
      assert DecryptRounds(e, r, mix) == DecryptRounds(DecryptFrom(e, |v|, Sum(r), mix), r - 1, mix);
      DecryptUndoesRound(w, |v|, Sum(r), mix);
      DecryptUndoesRounds(v, r - 1, mix);
    }
  }

  lemma {:induction false} EncryptUndoesRounds(v: seq<Word>, r: nat, mix: Mix)
    requires 2 <= |v|
    ensures EncryptRounds(DecryptRounds(v, r, mix), r, mix) == v
    decreases r
  {
    if r > 0 {
      hide EncryptTo, DecryptFrom, Sum;
      EncryptUndoesRound(v, |v|, Sum(r), mix);
      EncryptUndoesRounds(DecryptFrom(v, |v|, Sum(r), mix), r - 1, mix);
    }
  }

  // ------------------------------------------------- in place

  method EncryptInPlace(v: array<Word>, mix: Mix)
    requires v.Length > 0
    modifies v
    ensures v[..] == EncryptRounds(old(v[..]), Rounds(v.Length), mix)
  {
    hide Plus, Minus, Sum;
    var n := v.Length;
    var rounds, s, z := 6 + 52 / n, 0, v[n - 1];
    ghost var start := v[..];
    SumSteps(0);
    for r := 0 to rounds
      invariant s == Sum(r) && z == v[n - 1]
      invariant v[..] == EncryptRounds(start, r, mix)
    {
      s := Plus(s, DELTA);
      SumSteps(r);
      ghost var before := v[..];
      for p := 0 to n
        invariant z == v[if p == 0 then n - 1 else p - 1]
        invariant v[..] == EncryptTo(before, p, s, mix)
      {
        NeighboursWrap(p, n);
        var y := v[(p + 1) % n];
        ghost var now := v[..];
        assert z == now[Prev(p, n)] && y == now[Next(p, n)];
        v[p] := Plus(v[p], mix(z, y, s, p));
        z := v[p];
        assert v[..] == EncryptStep(now, p, s, mix);
      }
    }
  }

  method DecryptInPlace(v: array<Word>, mix: Mix)
    requires v.Length > 0
    modifies v
    ensures v[..] == DecryptRounds(old(v[..]), Rounds(v.Length), mix)
  {
    hide Plus, Minus, Sum;
    var n := v.Length;
    var rounds := 6 + 52 / n;
    var s, y := Sum(rounds), v[0];
    ghost var goal := DecryptRounds(v[..], rounds, mix);
    var r := rounds;
    while r > 0
      invariant 0 <= r && s == Sum(r) && y == v[0]
      invariant DecryptRounds(v[..], r, mix) == goal
    {
      ghost var round := DecryptFrom(v[..], n, s, mix);
      var p := n;
      while p > 0
        invariant 0 <= p <= n
        invariant y == v[if p == n then 0 else p]
        invariant DecryptFrom(v[..], p, s, mix) == round
      {
        p := p - 1;
        NeighboursWrap(p, n);
        var z := v[(p - 1) % n];
        ghost var now := v[..];
        assert z == now[Prev(p, n)] && y == now[Next(p, n)];
        v[p] := Minus(v[p], mix(z, y, s, p));
        y := v[p];
        assert v[..] == DecryptStep(now, p, s, mix);
      }
      SumSteps(r);
      s := Minus(s, DELTA);
      r := r - 1;
    }
  }
}

// Bytes as numbers.
module Octets {
  function Nat(b: bv8): (n: nat)
    ensures n < 0x100
  {
    b as nat
  }

  function Octet(n: nat): bv8
    requires n < 0x100
  {
    n as bv8
  }

  lemma OctetNat(b: bv8)
    ensures Octet(Nat(b)) == b
  {
  }

  lemma FromNibbles(high: nat, low: nat)
    requires high < 0x10 && low < 0x10
    ensures ((16 * high + low) as bv8) as nat == 16 * high + low
  {
  }

  lemma NatOctet(n: nat)
    requires n < 0x100
    ensures Nat(Octet(n)) == n
  {
    FromNibbles(n / 16, n % 16);
  }

  lemma OctetIsZero(n: nat)
    requires n < 0x100
    ensures Octet(n) == 0 <==> n == 0
  {
    NatOctet(n);
    NatOctet(0);
  }

  lemma LowNibble(x: bv8)
    ensures Nat(x & 0xF) == Nat(x) % 16
  {
  }

  lemma BitFour(high: nat, low: nat)
    requires high < 0x10 && low < 0x10
    ensures Octet(16 * high + low) & 0x10 != 0 <==> high % 2 == 1
  {
  }
}

module Xxtea {
  import opened MixRounds
  import opened Modular
  import opened Octets
  import opened ShiftRegister

  function KeyIndex(p: nat, e: nat): (i: nat)
    requires e < 4
    ensures i < 4
  {
    (((p % 4) as bv2) ^ (e as bv2)) as nat
  }

  // The mix, computed without wrap-around and cut to a word at the end.
  function Mx(z: Word, y: Word, s: Word, p: nat, k: seq<Word>): Word
    requires |k| == 4
  {
    var e := s / 4 % 4;
    var z64, y64, s64, k64 := z as bv64, y as bv64, s as bv64, k[KeyIndex(p, e)] as bv64;
    (((((z64 >> 5) ^ (y64 << 2)) + ((y64 >> 3) ^ (z64 << 4))) ^ ((s64 ^ y64) + (k64 ^ z64))) & 0xFFFF_FFFF) as Word
  }

  function KeyMix(k: seq<Word>): Mix
    requires |k| == 4
  {
    (z, y, s, p) => Mx(z, y, s, p, k)
  }

  // ------------------------------------------------- bytes

  function WordOf(b0: Byte, b1: Byte, b2: Byte, b3: Byte): Word {
    FromDigits(Nat(b0), Nat(b1), Nat(b2), Nat(b3))
  }

  function ByteOf(w: Word, i: nat): Byte
    requires i < 4
  {
    Octet(Digit(w, i))
  }

  lemma BytesOfWord(b0: Byte, b1: Byte, b2: Byte, b3: Byte)
    ensures var w := WordOf(b0, b1, b2, b3);
      ByteOf(w, 0) == b0 && ByteOf(w, 1) == b1 && ByteOf(w, 2) == b2 && ByteOf(w, 3) == b3
  {
    hide Nat, Octet, Digit, FromDigits;
    DigitsOf(Nat(b0), Nat(b1), Nat(b2), Nat(b3));
    OctetNat(b0);
    OctetNat(b1);
    OctetNat(b2);
    OctetNat(b3);
  }

  lemma WordOfBytes(w: Word)
    ensures WordOf(ByteOf(w, 0), ByteOf(w, 1), ByteOf(w, 2), ByteOf(w, 3)) == w
  {
    hide Nat, Octet, Digit, FromDigits;
    FromDigitsOf(w);
    NatOctet(Digit(w, 0));
    NatOctet(Digit(w, 1));
    NatOctet(Digit(w, 2));
    NatOctet(Digit(w, 3));
  }

  // Zero bytes up to a whole number of words.
  function Padded(b: seq<Byte>): (r: seq<Byte>)
    ensures |r| % 4 == 0 && b <= r && |r| < |b| + 4
  {
    b + seq(-|b| % 4, i => 0)
  }

  // The words of a padded string, the highest byte first.
  function Words(b: seq<Byte>): (v: seq<Word>)
    ensures |v| == |Padded(b)| / 4
  {
    var w := Padded(b);
    seq(|w| / 4, i requires 0 <= i < |w| / 4 => WordOf(w[4 * i], w[4 * i + 1], w[4 * i + 2], w[4 * i + 3]))
  }

  function Bytes(v: seq<Word>): (b: seq<Byte>)
    ensures |b| == 4 * |v|
  {
    seq(4 * |v|, i requires 0 <= i < 4 * |v| => ByteOf(v[i / 4], i % 4))
  }

  lemma BytesOfWords(b: seq<Byte>)
    ensures Bytes(Words(b)) == Padded(b)
  {
    hide WordOf, ByteOf;
    var w, r := Padded(b), Bytes(Words(b));
    forall i | 0 <= i < |w|
      ensures r[i] == w[i]
    {
      var j := i / 4 * 4;
      BytesOfWord(w[j], w[j + 1], w[j + 2], w[j + 3]);
    }
  }

  lemma WordsOfBytes(v: seq<Word>)
    ensures Words(Bytes(v)) == v
  {
    hide WordOf, ByteOf;
    var b := Bytes(v);
    assert Padded(b) == b;
    forall i | 0 <= i < |v|
      ensures Words(b)[i] == v[i]
    {
      WordOfBytes(v[i]);
    }
  }

  function Encrypt(data: seq<Byte>, key: seq<Byte>): seq<Byte>
    requires data != [] && |key| == 16
  {
    Bytes(EncryptRounds(Words(data), Rounds(|Words(data)|), KeyMix(Words(key))))
  }

  function Decrypt(data: seq<Byte>, key: seq<Byte>): seq<Byte>
    requires data != [] && |key| == 16
  {
    Bytes(DecryptRounds(Words(data), Rounds(|Words(data)|), KeyMix(Words(key))))
  }

  method EncryptBytes(data: seq<Byte>, key: seq<Byte>) returns (out: seq<Byte>)
    requires data != [] && |key| == 16
    ensures out == Encrypt(data, key)
  {
    var words := Words(data);
    var v := new Word[|words|](i requires 0 <= i < |words| => words[i]);
    assert v[..] == words;
    EncryptInPlace(v, KeyMix(Words(key)));
    out := Bytes(v[..]);
  }

  method DecryptBytes(data: seq<Byte>, key: seq<Byte>) returns (out: seq<Byte>)
    requires data != [] && |key| == 16
    ensures out == Decrypt(data, key)
  {
    var words := Words(data);
    var v := new Word[|words|](i requires 0 <= i < |words| => words[i]);
    assert v[..] == words;
    DecryptInPlace(v, KeyMix(Words(key)));
    out := Bytes(v[..]);
  }

  // Data of at least two words comes back, padded to whole words.
  lemma DecryptInvertsEncrypt(data: seq<Byte>, key: seq<Byte>)
    requires |data| > 4 && |key| == 16
    ensures Encrypt(data, key) != []
    ensures Decrypt(Encrypt(data, key), key) == Padded(data)
  {
    hide EncryptRounds, DecryptRounds, Words, Bytes, Rounds;
    var v, mix := Words(data), KeyMix(Words(key));
    DecryptUndoesRounds(v, Rounds(|v|), mix);
    WordsOfBytes(EncryptRounds(v, Rounds(|v|), mix));
    BytesOfWords(data);
  }

  lemma EncryptInvertsDecrypt(data: seq<Byte>, key: seq<Byte>)
    requires |data| > 4 && |key| == 16
    ensures Decrypt(data, key) != []
    ensures Encrypt(Decrypt(data, key), key) == Padded(data)
  {
    hide EncryptRounds, DecryptRounds, Words, Bytes, Rounds;
    var v, mix := Words(data), KeyMix(Words(key));
    EncryptUndoesRounds(v, Rounds(|v|), mix);
    WordsOfBytes(DecryptRounds(v, Rounds(|v|), mix));
    BytesOfWords(data);
  }
}
