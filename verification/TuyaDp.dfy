/**
  The data points of a P2 payload: id, type and length nibbles, value.
*/
module TuyaDp {
  import opened Crc8
  import opened Modular
  import opened Octets
  import opened ShiftRegister
  import opened TuyaP2

  datatype Dp = Dp(id: int, kind: int, value: seq<Byte>)

  // Both numbers fit a byte; only the low nibble of the length is sent.
  predicate Fits(d: Dp) {
    0 <= d.id < 0x100 && 0 <= d.kind * 16 + |d.value| % 16 < 0x100
  }

  function Tlv(d: Dp): (b: seq<Byte>)
    requires Fits(d)
    ensures |b| == 2 + |d.value|
  {
    [Octet(d.id), Octet(d.kind * 16 + |d.value| % 16)] + d.value
  }

  function Concat(dps: seq<Dp>): seq<Byte>
    requires forall d :: d in dps ==> Fits(d)
  {
    if dps == [] then [] else Tlv(dps[0]) + Concat(dps[1..])
  }

  function Encode(dps: seq<Dp>): Result<seq<Byte>> {
    if exists d :: d in dps && !Fits(d) then Err(BadByte)
    else if |Concat(dps)| > 16 then Err(TooLong)
    else Ok(Concat(dps))
  }

  // A slice that goes past the end is cut there.
  function Slice(p: seq<Byte>, i: nat, j: nat): seq<Byte>
    requires i <= |p| && i <= j
  {
    if j <= |p| then p[i..j] else p[i..]
  }

  function Decode(p: seq<Byte>, i: nat): seq<Dp>
    decreases |p| - i
  {
    if i + 2 <= |p| && p[i] != 0 then
      var n := Nat(p[i + 1]) % 16;
      [Dp(Nat(p[i]), Nat(p[i + 1]) / 16, Slice(p, i + 2, i + 2 + n))] + Decode(p, i + 2 + n)
    else []
  }

  method DecodePayload(p: seq<Byte>) returns (out: seq<Dp>)
    ensures out == Decode(p, 0)
  {
    hide Nat, Slice;
    var i := 0;
    out := [];
    while i + 2 <= |p| && p[i] != 0
      invariant out + Decode(p, i) == Decode(p, 0)
    {
      var id, kind, n := Nat(p[i]), Nat(p[i + 1]) / 16, Nat(p[i + 1]) % 16;
      var d := Dp(id, kind, Slice(p, i + 2, i + 2 + n));
      assert Decode(p, i) == [d] + Decode(p, i + 2 + n);
      assert out + ([d] + Decode(p, i + 2 + n)) == (out + [d]) + Decode(p, i + 2 + n);
      out := out + [d];
      i := i + 2 + n;
    }
  }

  // A zero id ends the list for the reader.
  function UpToZero(dps: seq<Dp>): seq<Dp> {
    if dps == [] || dps[0].id == 0 then [] else [dps[0]] + UpToZero(dps[1..])
  }

  lemma {:induction false} NoZeroIsAll(dps: seq<Dp>)
    ensures UpToZero(dps) == dps <==> forall d :: d in dps ==> d.id != 0
  {
    if dps != [] && dps[0].id != 0 {
      assert dps == [dps[0]] + dps[1..];
      NoZeroIsAll(dps[1..]);
    }
  }

  // The first bytes of an encoded point tell its id, type and length.
  lemma HeadOf(d: Dp)
    requires Fits(d) && |d.value| < 16
    ensures Tlv(d)[0] == 0 <==> d.id == 0
    ensures Nat(Tlv(d)[0]) == d.id && Nat(Tlv(d)[1]) / 16 == d.kind && Nat(Tlv(d)[1]) % 16 == |d.value|
  {
    hide Nat, Octet;
    NatOctet(d.id);
    OctetIsZero(d.id);
    NatOctet(d.kind * 16 + |d.value|);
    SplitNibbles(d.kind, |d.value|);
  }

  lemma {:induction false} DecodeInverts(pre: seq<Byte>, dps: seq<Dp>, n: nat)
    requires (forall d :: d in dps ==> Fits(d)) && |Concat(dps)| <= 16
    ensures Decode(pre + Concat(dps) + Zeros(n), |pre|) == UpToZero(dps)
    decreases |dps|
  {
    var p, i := pre + Concat(dps) + Zeros(n), |pre|;
    if dps != [] {
      var d, rest := dps[0], Concat(dps[1..]);
      hide Tlv;
      var t := Tlv(d);
      assert p == pre + t + rest + Zeros(n);
      DecodeOne(pre, d, rest + Zeros(n));
      assert p == pre + t + (rest + Zeros(n)) == (pre + t) + rest + Zeros(n);
      if d.id != 0 {
        hide Decode;
        DecodeInverts(pre + t, dps[1..], n);
      }
    }
  }

  // Decoding at an encoded point gives that point, then goes on behind it.
  lemma DecodeOne(pre: seq<Byte>, d: Dp, rest: seq<Byte>)
    requires Fits(d) && |d.value| < 16
    ensures Decode(pre + Tlv(d) + rest, |pre|)
      == if d.id == 0 then [] else [d] + Decode(pre + Tlv(d) + rest, |pre + Tlv(d)|)
  {
    hide Nat, Octet, Tlv, Decode, Slice;
    var t := Tlv(d);
    var p, i := pre + t + rest, |pre|;
    HeadOf(d);
    assert p[i] == t[0] && p[i + 1] == t[1];
    assert p[i..i + |t|] == t;
    TailOf(d, p, i);
    DecodeStep(d, p, i);
  }

  lemma DecodeStep(d: Dp, p: seq<Byte>, i: nat)
    requires i + 2 + |d.value| <= |p| && (p[i] == 0 <==> d.id == 0)
    requires Nat(p[i]) == d.id && Nat(p[i + 1]) / 16 == d.kind && Nat(p[i + 1]) % 16 == |d.value|
    requires Slice(p, i + 2, i + 2 + |d.value|) == d.value
    ensures Decode(p, i) == if d.id == 0 then [] else [d] + Decode(p, i + 2 + |d.value|)
  {
    hide Nat, Slice;
  }

  lemma TailOf(d: Dp, p: seq<Byte>, i: nat)
    requires Fits(d) && i + 2 + |d.value| <= |p| && p[i..i + 2 + |d.value|] == Tlv(d)
    ensures Slice(p, i + 2, i + 2 + |d.value|) == d.value
  {
    hide Octet;
    var t := p[i..i + 2 + |d.value|];
    assert t[2..] == d.value;
  }

  // Everything the encoder accepts decodes, after padding, to the points before
  // the first zero id: so to the same list exactly when no id is zero.
  lemma DecodeInvertsEncode(dps: seq<Dp>)
    requires Encode(dps).Ok?
    ensures Decode(Padded16(Encode(dps).value), 0) == UpToZero(dps)
    ensures Decode(Padded16(Encode(dps).value), 0) == dps <==> forall d :: d in dps ==> d.id != 0
  {
    hide Decode, Concat, Tlv, UpToZero;
    var b := Encode(dps).value;
    DecodeInverts([], dps, 16 - |b|);
    assert [] + b + Zeros(16 - |b|) == Padded16(b);
    NoZeroIsAll(dps);
  }

  // From data points to a frame and back.
  lemma PointsSurviveTheFrame(dps: seq<Dp>, kind: int, subCmd: int, src: seq<Byte>, dst: seq<Byte>, sn: nat,
                              key: seq<Byte>, mask: seq<Byte>)
    requires |key| == 16 && |mask| == 16 && |src| == 2 && |dst| == 2 && sn < 0x1_0000
    requires Encode(dps).Ok? && forall d :: d in dps ==> d.id != 0
    ensures var built := Build(kind, subCmd, src, dst, sn, Encode(dps).value, key, mask);
      && built.Ok? && Parse(built.value, key, mask).Ok?
      && var frame := Parse(built.value, key, mask).value;
      && frame.src == src && frame.dst == dst && frame.sn == sn && Decode(frame.payload, 0) == dps
  {
    hide Parse, Inner, Masked, Decode, Crc, Header;
    DecodeInvertsEncode(dps);
    ParseInvertsBuild(kind, subCmd, src, dst, sn, Encode(dps).value, key, mask);
  }
}
