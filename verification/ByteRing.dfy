/**
  The byte ring between the network thread and the playback thread: a FIFO of
  whole frames, even where the capacity is not a multiple of the frame size.
*/

// Whole numbers of frames of `f` bytes.
module Frames {
  lemma MultipleIsFar(n: int, d: int)
    requires n > 0 && d != 0
    ensures n * d >= n || n * d <= -n
  {
    if d > 0 {
      assert n * (d - 1) >= 0;
    } else {
      assert n * (-d - 1) >= 0;
    }
  }

  // Quotient and remainder are unique.
  lemma ModOf(a: int, q: int, r: int, n: int)
    requires 0 <= r < n && a == n * q + r
    ensures a % n == r
  {
    var d := a / n - q;
    assert n * d == r - a % n;
    if d != 0 {
      MultipleIsFar(n, d);
    }
  }

  predicate Whole(n: int, f: nat)
    requires f > 0
  {
    n % f == 0
  }

  function RoundDown(n: nat, f: nat): (r: nat)
    requires f > 0
  {
    n - n % f
  }

  lemma RoundDownIsWhole(n: nat, f: nat)
    requires f > 0
    ensures Whole(RoundDown(n, f), f) && RoundDown(n, f) <= n < RoundDown(n, f) + f
  {
    ModOf(RoundDown(n, f), n / f, 0, f);
  }

  lemma RoundDownOfWhole(n: nat, f: nat)
    requires f > 0
    ensures Whole(n, f) ==> RoundDown(n, f) == n
    ensures RoundDown(n, f) == 0 <==> n < f
  {
    RoundDownIsWhole(n, f);
    if n < f {
      ModOf(n, 0, n, f);
    }
  }

  // The chunk for `left` bytes where `space` are free.
  lemma ChunkIsWhole(left: nat, space: nat, f: nat)
    requires f > 0
    ensures RoundDown(left, f) <= left < RoundDown(left, f) + f
    ensures RoundDown(left, f) == 0 <==> left < f
    ensures var most := if RoundDown(left, f) < space then RoundDown(left, f) else space;
      && Whole(RoundDown(most, f), f) && RoundDown(most, f) <= most
      && (RoundDown(most, f) == 0 <==> left < f || space < f)
  {
    hide Whole, RoundDown;
    RoundDownIsWhole(left, f);
    RoundDownOfWhole(left, f);
    var most := if RoundDown(left, f) < space then RoundDown(left, f) else space;
    RoundDownIsWhole(most, f);
    RoundDownOfWhole(most, f);
    if RoundDown(left, f) != 0 {
      WholeIsFrame(RoundDown(left, f), f);
    }
  }

  lemma WholeIsFrame(n: nat, f: nat)
    requires f > 0 && n > 0 && Whole(n, f)
    ensures n >= f
  {
    if n < f {
      ModOf(n, 0, n, f);
    }
  }

  lemma SumIsWhole(a: int, b: int, f: nat)
    requires f > 0 && Whole(a, f) && Whole(b, f)
    ensures Whole(a + b, f) && Whole(a - b, f)
  {
    ModOf(a + b, a / f + b / f, 0, f);
    ModOf(a - b, a / f - b / f, 0, f);
  }
}

// The stretch of a ring that starts at `tail`.
module RingWindow {
  import opened Frames

  function Wrap(n: nat, cap: nat): (i: nat)
    requires n < 2 * cap
    ensures i < cap
  {
    if n < cap then n else n - cap
  }

  lemma WrapIsModulo(n: nat, cap: nat)
    requires n < 2 * cap
    ensures n % cap == Wrap(n, cap)
  {
    ModOf(n, if n < cap then 0 else 1, Wrap(n, cap), cap);
  }

  function Window<T>(r: seq<T>, tail: nat, used: nat): (w: seq<T>)
    requires tail < |r| && used <= |r|
    ensures |w| == used
  {
    if tail + used <= |r| then r[tail..tail + used] else r[tail..] + r[..tail + used - |r|]
  }

  // The ring after a copy in at `head`, in two parts where it wraps around.
  function Written<T>(r: seq<T>, head: nat, chunk: seq<T>): (w: seq<T>)
    requires head < |r| && |chunk| <= |r|
    ensures |w| == |r|
  {
    var first := |r| - head;
    if |chunk| <= first then r[..head] + chunk + r[head + |chunk|..]
    else chunk[first..] + r[|chunk| - first..head] + chunk[..first]
  }

  // `bytes` copied over `r` from `at` on.
  function Spliced<T>(r: seq<T>, at: nat, bytes: seq<T>): (w: seq<T>)
    requires at + |bytes| <= |r|
    ensures |w| == |r|
  {
    r[..at] + bytes + r[at + |bytes|..]
  }

  lemma OneCopyIsWritten<T>(r: seq<T>, head: nat, chunk: seq<T>)
    requires head < |r| && |chunk| <= |r| - head
    ensures Spliced(r, head, chunk) == Written(r, head, chunk)
  {
  }

  lemma TwoCopiesAreWritten<T>(r: seq<T>, head: nat, chunk: seq<T>)
    requires head < |r| && |r| - head < |chunk| <= |r|
    ensures Spliced(Spliced(r, head, chunk[..|r| - head]), 0, chunk[|r| - head..]) == Written(r, head, chunk)
  {
    var first := |r| - head;
    assert Spliced(r, head, chunk[..first]) == r[..head] + chunk[..first];
    assert (r[..head] + chunk[..first])[|chunk| - first..] == r[|chunk| - first..head] + chunk[..first];
  }

  lemma WindowAt<T>(r: seq<T>, tail: nat, used: nat, i: nat)
    requires tail < |r| && i < used <= |r|
    ensures Window(r, tail, used)[i] == r[Wrap(tail + i, |r|)]
  {
  }

  lemma WrittenAt<T>(r: seq<T>, head: nat, chunk: seq<T>, j: nat)
    requires head < |r| && |chunk| <= |r| && j < |r|
    ensures var offset := if j < head then j + |r| - head else j - head;
      Written(r, head, chunk)[j] == if offset < |chunk| then chunk[offset] else r[j]
  {
    var first := |r| - head;
    if |chunk| <= first {
      assert Written(r, head, chunk) == r[..head] + (chunk + r[head + |chunk|..]);
    } else {
      assert Written(r, head, chunk) == chunk[first..] + (r[|chunk| - first..head] + chunk[..first]);
    }
  }

  lemma WrittenExtendsWindow<T>(r: seq<T>, tail: nat, used: nat, chunk: seq<T>)
    requires tail < |r| && used + |chunk| <= |r|
    ensures Window(Written(r, Wrap(tail + used, |r|), chunk), tail, used + |chunk|) == Window(r, tail, used) + chunk
  {
    hide Window, Written;
    var head := Wrap(tail + used, |r|);
    var w := Written(r, head, chunk);
    forall i | 0 <= i < used + |chunk|
      ensures Window(w, tail, used + |chunk|)[i] == (Window(r, tail, used) + chunk)[i]
    {
      WindowAt(w, tail, used + |chunk|, i);
      WrittenAt(r, head, chunk, Wrap(tail + i, |r|));
      if i < used {
        WindowAt(r, tail, used, i);
      }
    }
  }

  lemma WindowSplits<T>(r: seq<T>, tail: nat, used: nat, n: nat)
    requires tail < |r| && n <= used <= |r|
    ensures Window(r, tail, used) == Window(r, tail, n) + Window(r, Wrap(tail + n, |r|), used - n)
    ensures Wrap(Wrap(tail + n, |r|) + (used - n), |r|) == Wrap(tail + used, |r|)
  {
    hide Window;
    var next := Wrap(tail + n, |r|);
    forall i | 0 <= i < used
      ensures Window(r, tail, used)[i] == (Window(r, tail, n) + Window(r, next, used - n))[i]
    {
      WindowAt(r, tail, used, i);
      if i < n {
        WindowAt(r, tail, n, i);
      } else {
        WindowAt(r, next, used - n, i - n);
      }
    }
  }
}

module AlsaRing {
  import opened Bytes
  import opened Frames
  import opened RingWindow

  class ByteRing {
    const capacity: nat
    const frame: nat
    const ring: array<Byte>
    var head: nat
    var tail: nat
    var used: nat
    var running: bool
    // The deadline of the write in progress has passed.
    var expired: bool
    // How often the ring was cleared, and the bytes accepted and taken since.
    ghost var clears: nat
    ghost var accepted: seq<Byte>
    ghost var taken: seq<Byte>

    ghost predicate Shape()
      reads this
    {
      && frame > 0 && capacity > 0 && ring.Length == capacity
      && tail < capacity && used <= capacity
      && head == Wrap(tail + used, capacity)
    }

    // The bytes in the ring, oldest first.
    ghost function Contents(): seq<Byte>
      requires Shape()
      reads this, ring
    {
      Window(ring[..], tail, used)
    }

    // First in, first out, and only ever whole frames.
    ghost predicate Valid()
      reads this, ring
    {
      && Shape()
      && accepted == taken + Contents()
      && Whole(used, frame) && Whole(|accepted|, frame) && Whole(|taken|, frame)
    }

    constructor (capacity: nat, frame: nat)
      requires capacity > 0 && frame > 0
      ensures Valid() && fresh(ring) && running && this.capacity == capacity && this.frame == frame
      ensures accepted == taken == []
    {
      this.capacity, this.frame := capacity, frame;
      ring := new Byte[capacity](i => 0);
      head, tail, used := 0, 0, 0;
      running, expired := true, false;
      clears, accepted, taken := 0, [], [];
    }

    // The head is where the oldest byte and the count say it is.
    lemma HeadFollows()
      requires Shape()
      ensures head == (tail + used) % capacity
    {
      WrapIsModulo(tail + used, capacity);
    }

    // What the playback thread has taken is what was accepted first.
    lemma TakenIsPrefix()
      requires Valid()
      ensures taken <= accepted && accepted[|taken|..] == Contents()
    {
    }

    method Clear()
      requires Valid()
      modifies this`head, this`tail, this`used, this`clears, this`accepted, this`taken
      ensures Valid() && Contents() == [] && accepted == taken == []
      ensures clears == old(clears) + 1
    {
      head, tail, used := 0, 0, 0;
      clears, accepted, taken := clears + 1, [], [];
    }

    method CopyTo(at: nat, bytes: seq<Byte>)
      requires at + |bytes| <= ring.Length
      modifies ring
      ensures ring[..] == Spliced(old(ring[..]), at, bytes)
    {
      forall i | 0 <= i < |bytes| {
        ring[at + i] := bytes[i];
      }
    }

    // The two copies of one chunk.
    method CopyIn(chunk: seq<Byte>)
      requires Shape() && |chunk| <= capacity
      modifies ring
      ensures ring[..] == Written(old(ring[..]), head, chunk)
    {
      ghost var before := ring[..];
      var n := |chunk|;
      var first := if n < capacity - head then n else capacity - head;
      hide Spliced, Written;
      CopyTo(head, chunk[..first]);
      if n > first {
        CopyTo(0, chunk[first..]);
        TwoCopiesAreWritten(before, head, chunk);
      } else {
        assert chunk[..first] == chunk;
        OneCopyIsWritten(before, head, chunk);
      }
    }

    method Append(chunk: seq<Byte>)
      requires Valid() && |chunk| <= capacity - used && Whole(|chunk|, frame)
      modifies this`head, this`used, this`accepted, ring
      ensures Valid()
      ensures Contents() == old(Contents()) + chunk && accepted == old(accepted) + chunk
    {
      hide Whole, Window, Written;
      ghost var before, contents := ring[..], Contents();
      var n := |chunk|;
      CopyIn(chunk);
      WrapIsModulo(head + n, capacity);
      head := (head + n) % capacity;
      used := used + n;
      WrittenExtendsWindow(before, tail, used - n, chunk);
      SumIsWhole(used - n, n, frame);
      SumIsWhole(|accepted|, n, frame);
      assert taken + (contents + chunk) == accepted + chunk;
      accepted := accepted + chunk;
    }

    // The two copies out of the ring.
    method CopyOut(n: nat) returns (out: seq<Byte>)
      requires Shape() && n <= used
      ensures out == Window(ring[..], tail, n)
    {
      var first := if n < capacity - tail then n else capacity - tail;
      out := ring[tail..tail + first];
      if n > first {
        out := out + ring[..n - first];
      }
    }

    // The playback thread's half: up to a period of whole frames, oldest first.
    method Take(period: nat) returns (out: seq<Byte>)
      requires Valid()
      modifies this`tail, this`used, this`taken
      ensures Valid() && accepted == old(accepted)
      ensures |out| == RoundDown(if old(used) < period then old(used) else period, frame)
      ensures old(Contents()) == out + Contents() && taken == old(taken) + out
    {
      hide Whole, RoundDown, Window;
      var most := if used < period then used else period;
      var n := RoundDown(most, frame);
      RoundDownIsWhole(most, frame);
      if used < frame {
        RoundDownOfWhole(most, frame);
        return [];
      }
      ghost var bytes := ring[..];
      WindowSplits(bytes, tail, used, n);
      out := CopyOut(n);
      WrapIsModulo(tail + n, capacity);
      tail := (tail + n) % capacity;
      used := used - n;
      SumIsWhole(used + n, n, frame);
      SumIsWhole(|taken|, n, frame);
      assert taken + (out + Window(bytes, tail, used)) == (taken + out) + Window(bytes, tail, used);
      taken := taken + out;
    }

    // The other threads while the lock is free: takes, clears and a stop, in
    // any number and order. Nobody else writes.
    method Others()
      requires Valid()
      modifies this`head, this`tail, this`used, this`running, this`clears, this`accepted, this`taken
      ensures Valid() && clears >= old(clears)
      ensures accepted == if clears == old(clears) then old(accepted) else []
      ensures !old(running) ==> !running
    {
      var steps: nat := *;
      while steps > 0
        invariant Valid() && clears >= old(clears)
        invariant accepted == if clears == old(clears) then old(accepted) else []
        invariant !old(running) ==> !running
      {
        steps := steps - 1;
        var step: nat := *;
        if step == 0 {
          var period: nat := *;
          var _ := Take(period);
        } else if step == 1 {
          Clear();
        } else {
          running := false;
        }
      }
    }

    // Waits for room for a frame, a stop, or the deadline.
    method WaitForRoom()
      requires Valid()
      modifies this`head, this`tail, this`used, this`running, this`clears, this`accepted, this`taken, this`expired
      ensures Valid() && clears >= old(clears)
      ensures accepted == if clears == old(clears) then old(accepted) else []
      ensures !old(running) ==> !running
      ensures expired || capacity - used >= frame || !running
    {
      Others();
      if capacity - used < frame && running {
        expired := true;
      }
    }

    // The rounds of `Write` for the rest of its data: a chunk, or a wait.
    method OfferChunk(data: seq<Byte>, written: nat) returns (chunk: nat)
      requires Valid() && running && written < |data| && |data| - written >= frame
      modifies this`head, this`tail, this`used, this`running, this`clears, this`accepted, this`taken, this`expired, ring
      ensures Valid() && clears >= old(clears)
      ensures written + chunk <= |data|
      ensures Whole(chunk, frame)
      ensures chunk > 0 ==> clears == old(clears) && accepted == old(accepted) + data[written..written + chunk]
      ensures chunk == 0 ==> accepted == if clears == old(clears) then old(accepted) else []
      ensures chunk == 0 ==> old(capacity - used) < frame && (expired || !running || frame <= capacity - used)
      ensures old(expired) ==> expired
    {
      hide Whole, RoundDown, Window;
      var remaining := RoundDown(|data| - written, frame);
      var space := capacity - used;
      ChunkIsWhole(|data| - written, space, frame);
      chunk := RoundDown(if remaining < space then remaining else space, frame);
      if chunk > 0 {
        Append(data[written..written + chunk]);
        return;
      }
      if * {
        expired := true;
      }
      if !expired {
        WaitForRoom();
      }
    }

    // Accepts whole frames only, as many as fit before the deadline. `from` is
    // where in `data` the bytes since the last clear begin.
    method Write(data: seq<Byte>) returns (written: nat, ghost from: nat)
      requires Valid()
      modifies this`head, this`tail, this`used, this`running, this`clears, this`accepted, this`taken, this`expired, ring
      ensures Valid() && from <= written <= |data| && clears >= old(clears)
      ensures !old(running) ==> written == |data| && accepted == old(accepted) && Contents() == old(Contents())
      ensures old(running) ==> Whole(written, frame) && Whole(from, frame)
      ensures clears == old(clears) ==> from == 0
      ensures old(running) ==> accepted == (if clears == old(clears) then old(accepted) else []) + data[from..written]
      ensures old(running) && running && !expired ==> |data| < written + frame
    {
      from := 0;
      if !running {
        return |data|, 0;
      }
      RoundDownIsWhole(0, frame);
      FrameIsPositive();
      hide Whole, Window, Wrap, Shape, ByteRing.Valid;
      written, expired := 0, false;
      ghost var base := accepted;
      assert accepted == base + data[0..0];
      while written < |data| && running && !expired
        invariant Valid() && from <= written <= |data| && clears >= old(clears)
        invariant Whole(written, frame) && Whole(from, frame) && (clears == old(clears) ==> from == 0)
        invariant base == (if clears == old(clears) then old(accepted) else []) && accepted == base + data[from..written]
        decreases |data| - written, if capacity - used < frame && running && !expired then 1 else 0
      {
        if |data| - written < frame {
          break;
        }
        var chunk;
        chunk, from, base := WriteRound(data, written, from, base);
        written := written + chunk;
      }
    }

    // One round: a chunk, or a wait. A clear meanwhile starts anew behind what
    // is written.
    method WriteRound(data: seq<Byte>, written: nat, ghost from: nat, ghost base: seq<Byte>)
      returns (chunk: nat, ghost from1: nat, ghost base1: seq<Byte>)
      requires Valid() && running && from <= written < |data| && |data| - written >= frame
      requires Whole(written, frame) && Whole(from, frame) && accepted == base + data[from..written]
      modifies this`head, this`tail, this`used, this`running, this`clears, this`accepted, this`taken, this`expired, ring
      ensures Valid() && clears >= old(clears) && from1 <= written <= written + chunk <= |data|
      ensures Whole(written + chunk, frame) && Whole(from1, frame) && accepted == base1 + data[from1..written + chunk]
      ensures if clears == old(clears) then from1 == from && base1 == base else from1 == written && base1 == []
      ensures chunk == 0 ==> old(capacity - used) < frame && (expired || !running || frame <= capacity - used)
      ensures old(expired) ==> expired
    {
      FrameIsPositive();
      hide Whole, Window, Wrap, Shape, ByteRing.Valid;
      from1, base1 := from, base;
      chunk := OfferChunk(data, written);
      if clears != old(clears) {
        from1, base1 := written, [];
      }
      Extends(base1, data, from1, written, chunk);
      SumIsWhole(written, chunk, frame);
    }

    lemma FrameIsPositive()
      requires Valid()
      ensures frame > 0
    {
    }

    lemma Extends(base: seq<Byte>, data: seq<Byte>, from: nat, written: nat, chunk: nat)
      requires from <= written && written + chunk <= |data|
      ensures base + data[from..written + chunk] == base + data[from..written] + data[written..written + chunk]
      ensures chunk == 0 ==> base + data[from..written + chunk] == base + data[from..written]
    {
      assert data[from..written + chunk] == data[from..written] + data[written..written + chunk];
    }
  }
}
