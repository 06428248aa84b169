/**
  CRC-8 (polynomial 0x07, initial value 0, no reflection): it is linear, a
  valid codeword has CRC 0, and so it sees every burst of at most 8 bits.
*/

// The shift register, on single bytes.
module ShiftRegister {
  type Byte = bv8

  // One shift.
  function Shift(c: Byte): Byte {
    if c & 0x80 != 0 then (c << 1) ^ 0x07 else c << 1
  }

  // The eight shifts that take in one byte.
  function Shift8(c: Byte): Byte {
    Shift(Shift(Shift(Shift(Shift(Shift(Shift(Shift(c))))))))
  }

  // Addition of polynomials over the two-element field.
  function Add(a: Byte, b: Byte): Byte { a ^ b }

  lemma ShiftIsLinear(x: Byte, y: Byte)
    ensures Shift(Add(x, y)) == Add(Shift(x), Shift(y))
  {
    var hx, hy := x & 0x80 != 0, y & 0x80 != 0;
    if hx && hy {
    } else if hx {
    } else if hy {
    }
  }

  lemma Shift2IsLinear(x: Byte, y: Byte)
    ensures Shift(Shift(Add(x, y))) == Add(Shift(Shift(x)), Shift(Shift(y)))
  {
    hide Shift, Add;
    ShiftIsLinear(x, y);
    ShiftIsLinear(Shift(x), Shift(y));
  }

  lemma Shift8IsLinear(x: Byte, y: Byte)
    ensures Shift8(Add(x, y)) == Add(Shift8(x), Shift8(y))
  {
    hide Shift, Add;
    var x2, y2 := Shift(Shift(x)), Shift(Shift(y));
    var x4, y4 := Shift(Shift(x2)), Shift(Shift(y2));
    var x6, y6 := Shift(Shift(x4)), Shift(Shift(y4));
    Shift2IsLinear(x, y);
    Shift2IsLinear(x2, y2);
    Shift2IsLinear(x4, y4);
    Shift2IsLinear(x6, y6);
  }

  lemma Shift8IsInjectiveAt0(c: Byte)
    ensures Shift8(c) == 0 <==> c == 0
  {
  }

  lemma SumIsZero(a: Byte, b: Byte)
    ensures Add(a, b) == 0 <==> a == b
  {
  }

  lemma AddZero(a: Byte)
    ensures Add(0, a) == a && Add(a, 0) == a
  {
  }

  lemma AddAssociates(a: Byte, b: Byte, c: Byte)
    ensures Add(Add(a, b), c) == Add(a, Add(b, c))
  {
  }

  lemma AddCommutes(a: Byte, b: Byte)
    ensures Add(a, b) == Add(b, a)
  {
  }

  lemma Regroup(p: Byte, q: Byte, x: Byte, y: Byte)
    ensures Add(Add(p, q), Add(x, y)) == Add(Add(p, x), Add(q, y))
  {
    hide Add;
    AddAssociates(p, q, Add(x, y));
    AddAssociates(q, x, y);
    AddCommutes(q, x);
    AddAssociates(x, q, y);
    AddAssociates(p, x, Add(q, y));
  }

  // Bit `r` of a byte, the highest first: the order in which it is shifted in.
  predicate Bit(b: Byte, r: nat)
    requires r < 8
  {
    match r
    case 0 => b & 0x80 != 0
    case 1 => b & 0x40 != 0
    case 2 => b & 0x20 != 0
    case 3 => b & 0x10 != 0
    case 4 => b & 0x08 != 0
    case 5 => b & 0x04 != 0
    case 6 => b & 0x02 != 0
    case _ => b & 0x01 != 0
  }

  lemma NoBitIsZero(b: Byte)
    requires !Bit(b, 0) && !Bit(b, 1) && !Bit(b, 2) && !Bit(b, 3)
    requires !Bit(b, 4) && !Bit(b, 5) && !Bit(b, 6) && !Bit(b, 7)
    ensures b == 0
  {
  }

  // Two neighbouring bytes within 8 consecutive bits, `t` bits from the top of
  // the first one, do not cancel.
  lemma WindowIsSeen(e1: Byte, e2: Byte, t: nat)
    requires t < 8 && (e1 != 0 || e2 != 0)
    requires forall r: nat :: r < t ==> !Bit(e1, r)
    requires forall r: nat :: t <= r < 8 ==> !Bit(e2, r)
    ensures Shift8(e1) != e2
  {
    assert 0 < t ==> !Bit(e1, 0);
    assert 1 < t ==> !Bit(e1, 1);
    assert 2 < t ==> !Bit(e1, 2);
    assert 3 < t ==> !Bit(e1, 3);
    assert 4 < t ==> !Bit(e1, 4);
    assert 5 < t ==> !Bit(e1, 5);
    assert 6 < t ==> !Bit(e1, 6);
    assert t <= 0 ==> !Bit(e2, 0);
    assert t <= 1 ==> !Bit(e2, 1);
    assert t <= 2 ==> !Bit(e2, 2);
    assert t <= 3 ==> !Bit(e2, 3);
    assert t <= 4 ==> !Bit(e2, 4);
    assert t <= 5 ==> !Bit(e2, 5);
    assert t <= 6 ==> !Bit(e2, 6);
    assert !Bit(e2, 7);
  }
}

module Crc8 {
  import opened ShiftRegister

  function Crc(data: seq<Byte>): Byte {
    if data == [] then 0 else Shift8(Add(Crc(data[..|data| - 1]), data[|data| - 1]))
  }

  function Shifts(c: Byte, n: nat): Byte {
    if n == 0 then c else Shift(Shifts(c, n - 1))
  }

  method ComputeCrc(data: seq<Byte>) returns (crc: Byte)
    ensures crc == Crc(data)
  {
    crc := 0;
    for i := 0 to |data|
      invariant crc == Crc(data[..i])
    {
      assert data[..i + 1][..i] == data[..i];
      crc := crc ^ data[i];
      crc := EightShifts(crc);
    }
    assert data[..|data|] == data;
  }

  method EightShifts(start: Byte) returns (crc: Byte)
    ensures crc == Shift8(start)
  {
    crc := start;
    for k := 0 to 8
      invariant crc == Shifts(start, k)
    {
      crc := if crc & 0x80 != 0 then (crc << 1) ^ 0x07 else crc << 1;
    }
    hide Shift;
    assert Shifts(start, 2) == Shift(Shift(start));
    assert Shifts(start, 4) == Shift(Shift(Shifts(start, 2)));
    assert Shifts(start, 6) == Shift(Shift(Shifts(start, 4)));
  }

  // ------------------------------------------------- linearity

  function Xor(a: seq<Byte>, b: seq<Byte>): (r: seq<Byte>)
    requires |a| == |b|
    ensures |r| == |a|
  {
    seq(|a|, i requires 0 <= i < |a| => Add(a[i], b[i]))
  }

  lemma {:induction false} CrcIsLinear(a: seq<Byte>, b: seq<Byte>)
    requires |a| == |b|
    ensures Crc(Xor(a, b)) == Add(Crc(a), Crc(b))
  {
    if a != [] {
      var n := |a| - 1;
      hide Shift8, Add;
      CrcIsLinear(a[..n], b[..n]);
      assert Xor(a, b)[..n] == Xor(a[..n], b[..n]);
      var p, q := Crc(a[..n]), Crc(b[..n]);
      Regroup(p, q, a[n], b[n]);
      Shift8IsLinear(Add(p, a[n]), Add(q, b[n]));
    }
  }

  // A message followed by its CRC has CRC 0, and by no other byte.
  lemma CodewordIsZero(data: seq<Byte>, crc: Byte)
    ensures Crc(data + [crc]) == 0 <==> crc == Crc(data)
  {
    hide Shift8, Add;
    assert (data + [crc])[..|data|] == data;
    Shift8IsInjectiveAt0(Add(Crc(data), crc));
    SumIsZero(Crc(data), crc);
  }

  // ------------------------------------------------- bursts

  ghost predicate AllZero(e: seq<Byte>) { forall i :: 0 <= i < |e| ==> e[i] == 0 }

  // Every bit that is set in `e` is one of the 8 from bit `k` on.
  ghost predicate Burst(e: seq<Byte>, k: nat) {
    forall i: nat, r: nat :: i < |e| && r < 8 && Bit(e[i], r) ==> k <= 8 * i + r < k + 8
  }

  lemma OutsideIsZero(e: seq<Byte>, k: nat, i: nat)
    requires Burst(e, k) && i < |e| && (8 * i + 7 < k || k + 8 <= 8 * i)
    ensures e[i] == 0
  {
    hide Bit;
    NoBitIsZero(e[i]);
  }

  lemma {:induction false} ZeroPrefix(e: seq<Byte>)
    requires AllZero(e)
    ensures Crc(e) == 0
  {
    if e != [] {
      hide Shift8, Add;
      ZeroPrefix(e[..|e| - 1]);
      AddZero(0);
      Shift8IsInjectiveAt0(0);
    }
  }

  // Trailing zeros never cancel a register that is not zero.
  lemma {:induction false} ZeroSuffix(e: seq<Byte>, n: nat)
    requires n <= |e| && Crc(e[..n]) != 0
    requires forall i :: n <= i < |e| ==> e[i] == 0
    ensures Crc(e) != 0
    decreases |e|
  {
    if n == |e| {
      assert e[..n] == e;
    } else {
      hide Shift8, Add;
      var m := |e| - 1;
      assert e[..m][..n] == e[..n];
      ZeroSuffix(e[..m], n);
      AddZero(Crc(e[..m]));
      Shift8IsInjectiveAt0(Crc(e[..m]));
    }
  }

  // The register after the first byte of a burst, and after the second.
  lemma AfterZeros(e: seq<Byte>, j: nat)
    requires j < |e| && AllZero(e[..j])
    ensures Crc(e[..j + 1]) == Shift8(e[j])
    ensures j + 1 < |e| ==> Crc(e[..j + 2]) == Shift8(Add(Shift8(e[j]), e[j + 1]))
  {
    hide Shift8, Add;
    ZeroPrefix(e[..j]);
    assert e[..j + 1][..j] == e[..j];
    AddZero(e[j]);
    if j + 1 < |e| {
      assert e[..j + 2][..j + 1] == e[..j + 1];
    }
  }

  // No burst of at most 8 bits has CRC 0.
  lemma BurstIsSeen(e: seq<Byte>, k: nat)
    requires Burst(e, k) && !AllZero(e)
    ensures Crc(e) != 0
  {
    hide Shift8, Add, Bit;
    var j, t := k / 8, k % 8;
    forall i | 0 <= i < |e| && i != j && i != j + 1
      ensures e[i] == 0
    {
      OutsideIsZero(e, k, i);
    }
    if j + 1 < |e| {
      WindowIsSeen(e[j], e[j + 1], t);
      AfterZeros(e, j);
      SumIsZero(Shift8(e[j]), e[j + 1]);
      Shift8IsInjectiveAt0(Add(Shift8(e[j]), e[j + 1]));
      ZeroSuffix(e, j + 2);
    } else {
      AfterZeros(e, j);
      Shift8IsInjectiveAt0(e[j]);
      assert e[..j + 1] == e;
    }
  }

  // A codeword stays one exactly when the error pattern is one.
  lemma AlteredIsAccepted(code: seq<Byte>, e: seq<Byte>)
    requires |code| == |e| && Crc(code) == 0
    ensures Crc(Xor(code, e)) == 0 <==> Crc(e) == 0
  {
    hide Shift8, Add;
    CrcIsLinear(code, e);
    AddZero(Crc(e));
  }

  // So a codeword altered within 8 consecutive bits is rejected ...
  lemma BurstIsRejected(code: seq<Byte>, e: seq<Byte>, k: nat)
    requires |code| == |e| && Crc(code) == 0 && Burst(e, k) && !AllZero(e)
    ensures Crc(Xor(code, e)) != 0
  {
    BurstIsSeen(e, k);
    AlteredIsAccepted(code, e);
  }

  // ... and 8 is the best bound: nine bits can slip through.
  lemma NineBitsCanSlip(code: seq<Byte>)
    requires |code| == 2 && Crc(code) == 0
    ensures Crc(Xor(code, [0x01, 0x07])) == 0
  {
    assert Crc([0x01, 0x07]) == 0 by {
      AfterZeros([0x01, 0x07], 0);
      assert [0x01, 0x07][..2] == [0x01 as Byte, 0x07];
      assert Shift8(0x01) == 0x07;
    }
    AlteredIsAccepted(code, [0x01, 0x07]);
  }
}
