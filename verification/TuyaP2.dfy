/**
  Beacon v2 ("P2") frames and their data points: header, addresses, sequence
  number, sub-command and payload CRC, the encrypted payload under a mask, and a
  CRC over all but the two lowest header bits.
*/
module TuyaP2 {
  import opened Crc8
  import opened Modular
  import opened Octets
  import opened ShiftRegister
  import Xxtea

  datatype Error = BadLength | SequenceOverflow | BadByte | TooLong | ShortFrame | FrameCrc | PayloadCrc

  datatype Result<T> = Ok(value: T) | Err(error: Error)

  datatype Frame = Frame(pair: bool, kind: nat, src: seq<Byte>, dst: seq<Byte>, sn: nat, subCmd: nat, payload: seq<Byte>)

  function Zeros(n: nat): (z: seq<Byte>)
    ensures |z| == n && AllZero(z)
  {
    seq(n, i => 0)
  }

  // Zero bytes up to 16.
  function Padded16(p: seq<Byte>): (r: seq<Byte>)
    requires |p| <= 16
    ensures |r| == 16 && p <= r
  {
    p + Zeros(16 - |p|)
  }

  // The type in bits 3 to 7, then version 3.
  function Header(kind: int): Byte {
    (Octet(kind % 256) << 3) + 3
  }

  // The mask covers the encrypted half only.
  function Masked(inner: seq<Byte>, mask: seq<Byte>): (r: seq<Byte>)
    requires |inner| == 24 && |mask| == 16
    ensures |r| == 24
  {
    inner[..8] + Xor(inner[8..], mask)
  }

  function Inner(subCmd: int, src: seq<Byte>, dst: seq<Byte>, sn: nat, p: seq<Byte>, key: seq<Byte>): (r: seq<Byte>)
    requires |src| == 2 && |dst| == 2 && sn < 0x1_0000 && |p| == 16 && |key| == 16
    ensures |r| == 24
  {
    src + dst + [Octet(sn / 256), Octet(sn % 256)] + [Octet(subCmd % 256), Crc(p)] + Xxtea.Encrypt(p, key)
  }

  function Build(kind: int, subCmd: int, src: seq<Byte>, dst: seq<Byte>, sn: int,
                 payload: seq<Byte>, key: seq<Byte>, mask: seq<Byte>): (r: Result<seq<Byte>>)
    requires |key| == 16 && |mask| == 16
    ensures r.Ok? ==> |r.value| == 26
  {
    if |src| != 2 || |dst| != 2 || |payload| > 16 then Err(BadLength)
    else if !(0 <= sn < 0x1_0000) then Err(SequenceOverflow)
    else
      var inner := Inner(subCmd, src, dst, sn, Padded16(payload), key);
      var header := Header(kind);
      Ok([header] + Masked(inner, mask) + [Crc([header & 0xFC] + inner)])
  }

  function Parse(frame: seq<Byte>, key: seq<Byte>, mask: seq<Byte>): Result<Frame>
    requires |key| == 16 && |mask| == 16
  {
    if |frame| < 26 then Err(ShortFrame)
    else
      var header, inner, crc := frame[0], Masked(frame[1..25], mask), frame[25];
      if Crc([header & 0xFC] + inner) != crc then Err(FrameCrc)
      else
        var p := Xxtea.Decrypt(inner[8..], key);
        if Crc(p) != inner[7] then Err(PayloadCrc)
        else
          Ok(Frame(Pair(header), Kind(header), inner[..2], inner[2..4],
                   Nat(inner[4]) * 256 + Nat(inner[5]), Nat(inner[6]), p))
  }

  function Pair(header: Byte): bool { header & 0x80 != 0 }

  function Kind(header: Byte): nat { Nat((header >> 3) & 0xF) }

  // ------------------------------------------------- the methods

  method Mask(inner: array<Byte>, mask: seq<Byte>)
    requires inner.Length == 24 && |mask| == 16
    modifies inner
    ensures inner[..] == Masked(old(inner[..]), mask)
  {
    for i := 0 to 16
      invariant inner[..8 + i] == old(inner[..8]) + Xor(old(inner[8..8 + i]), mask[..i])
      invariant inner[8 + i..] == old(inner[8 + i..])
    {
      inner[8 + i] := inner[8 + i] ^ mask[i];
    }
    assert inner[..24] == inner[..];
    assert mask[..16] == mask;
    assert old(inner[8..24]) == old(inner[8..]) == old(inner[..])[8..];
  }

  method BuildFrame(kind: int, subCmd: int, src: seq<Byte>, dst: seq<Byte>, sn: int,
                    payload: seq<Byte>, key: seq<Byte>, mask: seq<Byte>) returns (r: Result<seq<Byte>>)
    requires |key| == 16 && |mask| == 16
    ensures r == Build(kind, subCmd, src, dst, sn, payload, key, mask)
  {
    hide Crc, Xxtea.Encrypt, Octet, Header, Masked;
    if |src| != 2 || |dst| != 2 || |payload| > 16 {
      return Err(BadLength);
    }
    var p := Padded16(payload);
    if !(0 <= sn < 0x1_0000) {
      return Err(SequenceOverflow);
    }
    var pCrc := ComputeCrc(p);
    var secret := Xxtea.EncryptBytes(p, key);
    var x := src + dst + [Octet(sn / 256), Octet(sn % 256)] + [Octet(subCmd % 256), pCrc] + secret;
    assert x == Inner(subCmd, src, dst, sn, p, key);
    var header := Header(kind);
    var crc := ComputeCrc([header & 0xFC] + x);
    var inner := new Byte[24](i requires 0 <= i < 24 => x[i]);
    assert inner[..] == x;
    Mask(inner, mask);
    return Ok([header] + inner[..] + [crc]);
  }

  method ParseFrame(frame: seq<Byte>, key: seq<Byte>, mask: seq<Byte>) returns (r: Result<Frame>)
    requires |key| == 16 && |mask| == 16
    ensures r == Parse(frame, key, mask)
  {
    hide Crc, Xxtea.Decrypt, Nat, Kind, Pair, Masked;
    if |frame| < 26 {
      return Err(ShortFrame);
    }
    var header, crc := frame[0], frame[25];
    var inner := new Byte[24](i requires 0 <= i < 24 => frame[1 + i]);
    assert inner[..] == frame[1..25];
    Mask(inner, mask);
    var seen := ComputeCrc([header & 0xFC] + inner[..]);
    if seen != crc {
      return Err(FrameCrc);
    }
    var p := Xxtea.DecryptBytes(inner[8..], key);
    assert inner[8..] == inner[..][8..];
    seen := ComputeCrc(p);
    if seen != inner[7] {
      return Err(PayloadCrc);
    }
    return Ok(Frame(Pair(header), Kind(header), inner[..2], inner[2..4],
                    Nat(inner[4]) * 256 + Nat(inner[5]), Nat(inner[6]), p));
  }

  // ------------------------------------------------- round trip

  lemma AddTwice(a: Byte, b: Byte)
    ensures Add(Add(a, b), b) == a
  {
  }

  lemma MaskTwice(inner: seq<Byte>, mask: seq<Byte>)
    requires |inner| == 24 && |mask| == 16
    ensures Masked(Masked(inner, mask), mask) == inner
  {
    hide Add;
    var twice := Masked(Masked(inner, mask), mask);
    forall i | 0 <= i < 24
      ensures twice[i] == inner[i]
    {
      if i >= 8 {
        AddTwice(inner[i], mask[i - 8]);
      }
    }
  }

  lemma KindOfHeader(kind: int)
    ensures Kind(Header(kind)) == kind % 16
    ensures Pair(Header(kind)) <==> kind / 16 % 2 == 1
  {
    hide Octet, Nat;
    var n := kind % 256;
    LowByte(kind);
    HeaderBits(Octet(n));
    LowNibble(Octet(n));
    NatOctet(n);
    BitFour(n / 16, n % 16);
  }

  lemma HeaderBits(x: Byte)
    ensures (((x << 3) + 3) >> 3) & 0xF == x & 0xF
    ensures ((x << 3) + 3) & 0x80 != 0 <==> x & 0x10 != 0
  {
  }

  // Whatever the builder accepts, the parser gives back: the type and pair bit
  // from the five bits the header has room for, the low byte of the
  // sub-command, and the payload with its padding.
  lemma ParseInvertsBuild(kind: int, subCmd: int, src: seq<Byte>, dst: seq<Byte>, sn: int,
                          payload: seq<Byte>, key: seq<Byte>, mask: seq<Byte>)
    requires |key| == 16 && |mask| == 16
    requires Build(kind, subCmd, src, dst, sn, payload, key, mask).Ok?
    ensures Parse(Build(kind, subCmd, src, dst, sn, payload, key, mask).value, key, mask)
      == Ok(Frame(kind / 16 % 2 == 1, kind % 16, src, dst, sn, subCmd % 256, Padded16(payload)))
  {
    hide Crc, Xxtea.Encrypt, Xxtea.Decrypt, Header, Kind, Pair, Masked, Octet, Nat;
    var p := Padded16(payload);
    var inner := Inner(subCmd, src, dst, sn, p, key);
    var frame := Build(kind, subCmd, src, dst, sn, payload, key, mask).value;
    assert frame[1..25] == Masked(inner, mask);
    MaskTwice(inner, mask);
    assert inner[8..] == Xxtea.Encrypt(p, key);
    Xxtea.DecryptInvertsEncrypt(p, key);
    assert Xxtea.Padded(p) == p;
    assert inner[..2] == src && inner[2..4] == dst;
    NatOctet(sn / 256);
    NatOctet(sn % 256);
    NatOctet(subCmd % 256);
    KindOfHeader(kind);
  }

  // ------------------------------------------------- alterations

  // The part of an error pattern that the frame CRC sees.
  function Covered(e: seq<Byte>): (r: seq<Byte>)
    requires |e| >= 26
    ensures |r| == 26
  {
    [e[0] & 0xFC] + e[1..26]
  }

  function Codeword(frame: seq<Byte>, mask: seq<Byte>): (r: seq<Byte>)
    requires |frame| >= 26 && |mask| == 16
    ensures |r| == 26
  {
    [frame[0] & 0xFC] + Masked(frame[1..25], mask) + [frame[25]]
  }

  lemma CrcPasses(frame: seq<Byte>, mask: seq<Byte>)
    requires |frame| >= 26 && |mask| == 16
    ensures Crc(Codeword(frame, mask)) == 0
      <==> Crc([frame[0] & 0xFC] + Masked(frame[1..25], mask)) == frame[25]
  {
    hide Crc, Masked;
    CodewordIsZero([frame[0] & 0xFC] + Masked(frame[1..25], mask), frame[25]);
  }

  lemma HeaderAdds(a: Byte, b: Byte)
    ensures Add(a, b) & 0xFC == Add(a & 0xFC, b & 0xFC)
  {
  }

  lemma Swap(a: Byte, e: Byte, m: Byte)
    ensures Add(Add(a, e), m) == Add(Add(a, m), e)
  {
    hide Add;
    AddAssociates(a, e, m);
    AddCommutes(e, m);
    AddAssociates(a, m, e);
  }

  // Altering the frame alters the codeword by the covered part.
  lemma CodewordOfAltered(frame: seq<Byte>, e: seq<Byte>, mask: seq<Byte>)
    requires |frame| == |e| >= 26 && |mask| == 16
    ensures Codeword(Xor(frame, e), mask) == Xor(Codeword(frame, mask), Covered(e))
  {
    hide Add;
    var left, right := Codeword(Xor(frame, e), mask), Xor(Codeword(frame, mask), Covered(e));
    HeaderAdds(frame[0], e[0]);
    forall i | 1 <= i < 26
      ensures left[i] == right[i]
    {
      CodewordAt(frame, mask, i);
      CodewordAt(Xor(frame, e), mask, i);
      if 9 <= i < 25 {
        Swap(frame[i], e[i], mask[i - 9]);
      }
    }
  }

  lemma CodewordAt(frame: seq<Byte>, mask: seq<Byte>, i: nat)
    requires |frame| >= 26 && |mask| == 16 && 1 <= i < 26
    ensures Codeword(frame, mask)[i] == if 9 <= i < 25 then Add(frame[i], mask[i - 9]) else frame[i]
  {
    hide Add;
    if i < 25 {
      assert Codeword(frame, mask)[i] == Masked(frame[1..25], mask)[i - 1];
    }
  }

  lemma CoveredBits(b: Byte, r: nat)
    requires r < 8 && Bit(b & 0xFC, r)
    ensures Bit(b, r)
  {
  }

  lemma CoveredIsBurst(e: seq<Byte>, k: nat)
    requires |e| >= 26 && Burst(e, k)
    ensures Burst(Covered(e), k)
  {
    hide Bit;
    var c := Covered(e);
    forall i: nat, r: nat | i < |c| && r < 8 && Bit(c[i], r)
      ensures k <= 8 * i + r < k + 8
    {
      if i == 0 {
        CoveredBits(e[0], r);
      }
      assert Bit(e[i], r);
    }
  }

  lemma UncoveredIsUnused(a: Byte, e: Byte)
    requires e & 0xFC == 0
    ensures Add(a, e) & 0xFC == a & 0xFC && Pair(Add(a, e)) == Pair(a) && Kind(Add(a, e)) == Kind(a)
  {
    assert (Add(a, e) >> 3) & 0xF == (a >> 3) & 0xF;
    assert Add(a, e) & 0x80 == a & 0x80;
  }

  // Changes in the two uncovered header bits, or past the frame, go unnoticed ...
  lemma UncoveredIsIgnored(frame: seq<Byte>, e: seq<Byte>, key: seq<Byte>, mask: seq<Byte>)
    requires |key| == 16 && |mask| == 16 && |frame| == |e| >= 26 && AllZero(Covered(e))
    ensures Parse(Xor(frame, e), key, mask) == Parse(frame, key, mask)
  {
    hide Add, Crc, Xxtea.Decrypt, Pair, Kind, Masked, Nat;
    var c := Covered(e);
    assert c[0] == 0;
    UncoveredIsUnused(frame[0], e[0]);
    var altered := Xor(frame, e);
    forall i | 1 <= i < 26
      ensures altered[i] == frame[i]
    {
      assert c[i] == 0;
      AddZero(frame[i]);
    }
    assert altered[1..25] == frame[1..25];
  }

  // ... and any other change within 8 consecutive bits is rejected.
  lemma AlteredFrameIsRejected(frame: seq<Byte>, e: seq<Byte>, k: nat, key: seq<Byte>, mask: seq<Byte>)
    requires |key| == 16 && |mask| == 16 && |frame| == |e| && Parse(frame, key, mask).Ok? && Burst(e, k)
    ensures Parse(Xor(frame, e), key, mask)
      == if AllZero(Covered(e)) then Parse(frame, key, mask) else Err(FrameCrc)
  {
    hide Add, Crc, Xxtea.Decrypt, Pair, Kind, Masked, Nat, Covered, Codeword, Burst, Xor;
    if AllZero(Covered(e)) {
      UncoveredIsIgnored(frame, e, key, mask);
    } else {
      CrcPasses(frame, mask);
      CrcPasses(Xor(frame, e), mask);
      CodewordOfAltered(frame, e, mask);
      CoveredIsBurst(e, k);
      BurstIsRejected(Codeword(frame, mask), Covered(e), k);
    }
  }
}
