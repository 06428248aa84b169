/**
  The reader of the PCM tap ring. Every load is one step; between two loads the
  writer may take any number of steps, dying and being reopened included. A
  verdict other than Retry is the one Lookup gives on the published history.
*/
module TapReader {
  import opened TapProtocol
  import opened TapLookup

  datatype Status = Ok | NoData | Retry

  datatype Info = Info(epoch: nat, rate: nat, end: nat)

  const SILENCE := Frame(0, 0)

  // What a reader learned by the time of `seen`, having started at `before`:
  // the format was current all along, and `view` is the published history.
  ghost predicate Snapshot(before: State, seen: State, view: View) {
    && Inv(before) && Inv(seen) && Evolves(before, seen)
    && before.h.seqno == seen.h.seqno && seen.h.seqno % 2 == 0
    && view.epoch == seen.h.epoch && view.rate == seen.h.rate
    && before.h.chunksWritten <= |view.log| <= seen.h.chunksWritten
    && view.log <= seen.chunkLog
    && view.lo == OldestKept(|view.log|, seen.chunkCapacity)
  }

  function OldestKept(written: nat, capacity: nat): nat {
    if written > capacity then written - capacity else 0
  }

  // The records of the snapshot's epoch are whole chunks without a hole
  // between them, and all their frames are in the history.
  lemma SnapshotIsWhole(before: State, mid: State, seen: State, view: View)
    requires Snapshot(before, seen, view) && Inv(mid) && Evolves(before, mid) && Evolves(mid, seen)
    requires |view.log| <= mid.h.chunksWritten
    ensures Contiguous(view)
    ensures forall n: nat :: n < |view.log| && view.log[n].epoch == view.epoch ==>
              && Whole(seen, n) && n < |mid.chunkLog|
              && view.log[n].start + view.log[n].frames <= |mid.frameLog|
  {
    SameSeqSameFormat(before, mid);
    SameSeqSameFormat(mid, seen);
    forall n: nat | n < |view.log| && view.log[n].epoch == view.epoch
      ensures Whole(mid, n) && Whole(seen, n) && mid.chunkLog[n] == view.log[n]
      ensures view.log[n].start + view.log[n].frames <= |mid.frameLog|
    {
      assert mid.chunkLog[n] == seen.chunkLog[n] == view.log[n];
    }
    forall n: nat | view.lo < n < |view.log| && view.log[n - 1].epoch == view.epoch && view.log[n].epoch == view.epoch
      ensures view.log[n - 1].start + view.log[n - 1].frames == view.log[n].start
    {
      var p := n - 1;
      assert Whole(mid, p) && Whole(mid, p + 1);
    }
  }

  lemma SlotInRing(i: nat, s: State)
    requires Inv(s)
    ensures s.frameCapacity > 0 && Slot(i, s.frameCapacity) < s.frameCapacity
  {
  }

  lemma RecordAt(s: State, n: nat, log: seq<Record>)
    requires Inv(s) && n < |log| && log <= s.chunkLog
    ensures s.chunkCapacity > 0 && Slot(n, s.chunkCapacity) < |s.records|
    ensures RecordIntact(s, n) ==> s.records[Slot(n, s.chunkCapacity)] == log[n]
  {
  }

  lemma PublishedIsLogged(s: State)
    requires Inv(s)
    ensures s.h.chunksWritten <= |s.chunkLog| && s.chunkCapacity > 0
  {
  }

  // The format was current from the first load on if `seq` has not moved.
  lemma HeadIsSnapshot(before: State, head: State, seen: State, view: View)
    requires Inv(before) && Inv(head) && Inv(seen) && Evolves(before, head) && Evolves(head, seen)
    requires before.h.seqno == seen.h.seqno && seen.h.seqno % 2 == 0
    requires head.h.epoch == view.epoch && head.h.rate == view.rate
    requires view.log == head.chunkLog[..head.h.chunksWritten]
    requires view.lo == OldestKept(|view.log|, head.chunkCapacity)
    ensures Snapshot(before, seen, view)
  {
    EvolvesTrans(before, head, seen);
    SameSeqSameFormat(head, seen);
  }

  lemma OddIsOvertaken(s: State, view: View, q: Query)
    requires s.h.seqno % 2 == 1
    ensures Overtaken(s, s, view, q)
  {
  }

  lemma RetryIsOvertaken(before: State, head: State, after: State, view: View, q: Query, w: Window, oldest: nat)
    requires Inv(before) && Inv(head) && Inv(after) && Evolves(before, head) && Evolves(head, after)
    requires before.h.seqno % 2 == 0
    requires before.h.seqno == after.h.seqno ==> head.h.epoch == view.epoch && head.h.rate == view.rate
    requires view.log == head.chunkLog[..head.h.chunksWritten] && view.log != []
    requires view.lo == OldestKept(|view.log|, head.chunkCapacity)
    requires RecordIntact(after, oldest) ==> Lookup(view, q) == w
    requires RecordIntact(after, Visited(view, q)) ==> oldest == Visited(view, q)
    requires after.h.seqno != before.h.seqno || !RecordIntact(after, oldest) || (w.Found? && !FrameIntact(after, w.first))
    ensures Overtaken(before, after, view, q)
  {
    hide Inv, Lookup, Visited;
    EvolvesTrans(before, head, after);
    PublishedIsLogged(head);
    if before.h.seqno == after.h.seqno {
      HeadIsSnapshot(before, head, after, view);
    }
  }

  // A found window lies in the history as it was when the head was loaded.
  lemma FoundFits(before: State, head: State, seen: State, view: View, q: Query)
    requires Inv(head) && Evolves(before, head) && Evolves(head, seen)
    requires Answered(before, seen, view) && |view.log| <= head.h.chunksWritten
    requires Lookup(view, q).Found?
    ensures Lookup(view, q).end <= |head.frameLog| <= |seen.frameLog|
  {
    SnapshotIsWhole(before, head, seen, view);
    FoundIsOneEpoch(view, q);
  }

  ghost predicate Answered(before: State, seen: State, view: View) {
    Snapshot(before, seen, view) && ValidView(view)
  }

  // Why a read gives up: a format change, or the writer reserved past the
  // oldest record the search and the walk consult or past the window.
  ghost predicate Overtaken(before: State, after: State, view: View, q: Query) {
    || before.h.seqno % 2 == 1
    || after.h.seqno != before.h.seqno
    || (Answered(before, after, view)
        && (!RecordIntact(after, Visited(view, q))
            || (Lookup(view, q).Found? && !FrameIntact(after, Lookup(view, q).first))))
  }

  // The moment an early NoData rests on: there was no stream, or nothing had
  // been published.
  ghost predicate NothingAt(before: State, early: State, after: State) {
    && before.h.seqno % 2 == 0 && Reaches(before, early) && Reaches(early, after)
    && (early.h.rate == 0 || early.h.chunksWritten == 0)
  }

  // What a read promises, `before` and `after` being the shared state when it
  // began and ended, `seen` when its last frame had been copied.
  ghost predicate ReadOutcome(before: State, after: State, q: Query, status: Status, info: Info, out: seq<Frame>,
                              view: View, seen: State, early: State) {
    && Inv(after) && Evolves(before, after)
    && match status
       case Ok =>
         && Answered(before, seen, view) && Evolves(seen, after)
         && var w := Lookup(view, q);
         && w.Found? && w.first <= w.end <= |after.frameLog| && w.end - w.first <= q.frames
         && FrameIntact(seen, w.first)
         && info == Info(seen.h.epoch, seen.h.rate, w.end)
         && out == Zeros(q.frames - (w.end - w.first)) + after.frameLog[w.first..w.end]
       case NoData =>
         || q.frames == 0 || q.frames > before.frameCapacity
         || NothingAt(before, early, after)
         || (Answered(before, seen, view) && Evolves(seen, after) && Lookup(view, q) == Missing)
       case Retry => Overtaken(before, after, view, q)
  }

  // An answer holds only frames published whole in the one epoch it names.
  lemma AnswerIsPublished(before: State, seen: State, view: View, q: Query, i: nat)
    requires Answered(before, seen, view) && Lookup(view, q).Found?
    requires Lookup(view, q).first <= i < Lookup(view, q).end
    ensures exists n: nat :: n < seen.h.chunksWritten && Whole(seen, n) && seen.chunkLog[n].epoch == seen.h.epoch
              && seen.chunkLog[n].start <= i < seen.chunkLog[n].start + seen.chunkLog[n].frames
  {
    SnapshotIsWhole(before, seen, seen, view);
    FoundIsOneEpoch(view, q);
    assert Covered(view, i);
    var n: nat :| FrameOf(view, n, i);
    assert seen.chunkLog[n] == view.log[n];
  }

  // With the writer idle and no commit cut short, a read is retried only when
  // the window reaches back past what the ring still holds.
  lemma IdleRetryIsTooOld(s: State, view: View, q: Query)
    requires Inv(s) && s.w.phase.Idle? && s.h.chunksReserved == s.h.chunksWritten
    requires Overtaken(s, s, view, q)
    ensures Answered(s, s, view) && Lookup(view, q).Found?
    ensures s.h.framesReserved > Lookup(view, q).first + s.frameCapacity
  {
  }

  function Zeros(n: nat): seq<Frame> { seq(n, _ => SILENCE) }

  class Tap {
    var st: State

    // Any number of steps of the writer side.
    method Interfere()
      requires Inv(st)
      modifies this
      ensures Inv(st) && Evolves(old(st), st) && Reaches(old(st), st)
    {
      hide Reaches;
      ReachesItself(st);
      var steps: nat := *;
      while steps > 0
        invariant Inv(st) && Evolves(old(st), st) && Reaches(old(st), st)
      {
        var step: Step := *;
        if Enabled(st, step) {
          ghost var before := st;
          st := Apply(st, step);
          ReachesNext(old(st), before, step);
          StepKeepsInv(before, step);
          EvolvesTrans(old(st), before, st);
        }
        steps := steps - 1;
      }
    }

    // Copies record `n`, one field at a time.
    method LoadRecord(n: nat, ghost log: seq<Record>) returns (r: Record)
      requires Inv(st) && n < |log| && log <= st.chunkLog
      modifies this
      ensures Inv(st) && Evolves(old(st), st)
      ensures RecordIntact(st, n) ==> r == log[n]
    {
      hide Inv, Reaches;
      Interfere();
      RecordAt(st, n, log);
      var slot := Slot(n, st.chunkCapacity);
      var start := st.records[slot].start;
      assert RecordIntact(st, n) ==> start == log[n].start;
      ghost var before := st;
      Interfere();
      EvolvesTrans(old(st), before, st);
      RecordAt(st, n, log);
      var tEnd := st.records[slot].tEnd;
      assert RecordIntact(st, n) ==> start == log[n].start && tEnd == log[n].tEnd;
      before := st;
      Interfere();
      EvolvesTrans(old(st), before, st);
      RecordAt(st, n, log);
      var frames := st.records[slot].frames;
      assert RecordIntact(st, n) ==> start == log[n].start && tEnd == log[n].tEnd && frames == log[n].frames;
      before := st;
      Interfere();
      EvolvesTrans(old(st), before, st);
      RecordAt(st, n, log);
      r := Record(start, tEnd, frames, st.records[slot].epoch);
    }

    // Copies record n - 1 when it is of the view's epoch. Otherwise `bounded`
    // says whether the epoch, or the file's history, starts at record n.
    method Older(n: nat, lo: nat, epoch: nat, oldest: nat, ghost view: View)
      returns (more: bool, r: Record, bounded: bool, low: nat)
      requires Inv(st) && view.log <= st.chunkLog
      requires lo == view.lo <= oldest <= n < |view.log| && epoch == view.epoch
      modifies this
      ensures Inv(st) && Evolves(old(st), st)
      ensures low == (if n == lo || oldest < n then oldest else n - 1) && (more ==> lo < n)
      ensures RecordIntact(st, low) ==>
                && more == HasPrev(view, n)
                && (more ==> r == view.log[n - 1] && !bounded)
                && (!more ==> bounded == (n > lo || lo == 0))
    {
      low := oldest;
      r := Record(0, 0, 0, 0);
      if n == lo {
        return false, r, lo == 0, low;
      }
      if n - 1 < low {
        low := n - 1;
      }
      r := LoadRecord(n - 1, view.log);
      bounded := r.epoch != epoch;
      more := !bounded;
    }

    // From record `n` back to the oldest one ending at or after `t`.
    method SearchBack(n0: nat, best0: Record, t: int, lo: nat, epoch: nat, oldest0: nat, ghost view: View)
      returns (n: nat, best: Record, hasPrev: bool, prev: Record, oldest: nat)
      requires Inv(st) && view.log <= st.chunkLog
      requires lo == view.lo <= oldest0 <= n0 < |view.log| && oldest0 == n0 && epoch == view.epoch
      requires best0.tEnd >= t
      requires RecordIntact(st, oldest0) ==> best0 == view.log[n0]
      modifies this
      ensures Inv(st) && Evolves(old(st), st)
      ensures lo <= oldest <= n <= n0 && best.tEnd >= t && (hasPrev ==> lo < n && oldest == n - 1)
      ensures RecordIntact(st, oldest) ==>
                && n == Search(view, n0, t) && best == view.log[n]
                && hasPrev == HasPrev(view, n)
                && (hasPrev ==> prev == view.log[n - 1])
      ensures RecordIntact(st, SearchVisits(view, n0, t)) ==> oldest == SearchVisits(view, n0, t)
    {
      hide Inv;
      n, best, oldest := n0, best0, oldest0;
      while true
        invariant Inv(st) && Evolves(old(st), st) && view.log <= st.chunkLog
        invariant lo <= oldest == n <= n0 && best.tEnd >= t
        invariant RecordIntact(st, oldest) ==> best == view.log[n] && Search(view, n0, t) == Search(view, n, t)
        invariant RecordIntact(st, SearchVisits(view, n0, t)) ==> Search(view, n0, t) <= n
        decreases n
      {
        ghost var before := st;
        var bounded;
        hasPrev, prev, bounded, oldest := Older(n, lo, epoch, oldest, view);
        EvolvesTrans(old(st), before, st);
        if !hasPrev || prev.tEnd < t {
          return;
        }
        best := prev;
        n := n - 1;
      }
    }

    // Walks back until the window is covered, or stops where the epoch or a
    // gap starts.
    method WalkBackFrom(n0: nat, best: Record, start: nat, lo: nat, epoch: nat, rate: nat, oldest0: nat, ghost view: View)
      returns (low: Record, bounded: bool, oldest: nat)
      requires Inv(st) && view.log <= st.chunkLog
      requires lo == view.lo <= oldest0 <= n0 < |view.log| && epoch == view.epoch && rate == view.rate
      requires RecordIntact(st, oldest0) ==> best == view.log[n0]
      modifies this
      ensures Inv(st) && Evolves(old(st), st)
      ensures lo <= oldest <= oldest0
      ensures RecordIntact(st, oldest) ==>
                && low == view.log[WalkBack(view, n0, start)]
                && (low.start > start ==> bounded == StartsAt(view, WalkBack(view, n0, start)))
      ensures RecordIntact(st, WalkVisits(view, n0, start, oldest0)) ==>
                oldest == WalkVisits(view, n0, start, oldest0)
    {
      hide Inv, LongerThan;
      var n := n0;
      low, bounded, oldest := best, false, oldest0;
      while low.start > start
        invariant Inv(st) && Evolves(old(st), st) && view.log <= st.chunkLog
        invariant lo <= oldest <= n <= n0 && oldest <= oldest0
        invariant RecordIntact(st, oldest) ==> low == view.log[n] && WalkBack(view, n0, start) == WalkBack(view, n, start)
        invariant oldest == Least(oldest0, n)
        invariant RecordIntact(st, WalkVisits(view, n0, start, oldest0)) ==> WalkBack(view, n0, start) <= n
        decreases n
      {
        ghost var before := st;
        var more, prev;
        more, prev, bounded, oldest := Older(n, lo, epoch, oldest, view);
        EvolvesTrans(old(st), before, st);
        if !more {
          return;
        }
        if LongerThan(low.tEnd - prev.tEnd, 2 * low.frames, rate) {
          bounded := true;
          return;
        }
        low := prev;
        n := n - 1;
      }
    }

    // After the copies: whether neither the format changed nor any record from
    // `oldest` or (with `copied`) frame from `first` was overwritten meanwhile.
    method Settled(seqno: nat, oldest: nat, copied: bool, first: nat) returns (ok: bool)
      requires Inv(st) && seqno <= st.h.seqno
      modifies this
      ensures Inv(st) && Evolves(old(st), st)
      ensures ok ==>
                && old(st).h.seqno == seqno && RecordIntact(old(st), oldest)
                && (copied ==> FrameIntact(old(st), first))
      ensures !ok ==>
                || st.h.seqno != seqno || !RecordIntact(st, oldest)
                || (copied && !FrameIntact(st, first))
    {
      Interfere();
      if st.h.seqno != seqno {
        return false;
      }
      ghost var mid := st;
      Interfere();
      EvolvesTrans(old(st), mid, st);
      if st.h.chunksReserved > oldest + st.chunkCapacity {
        return false;
      }
      if !copied {
        return true;
      }
      mid := st;
      Interfere();
      EvolvesTrans(old(st), mid, st);
      ok := st.h.framesReserved <= first + st.frameCapacity;
    }

    // Copies `count` frames from consecutive ring slots, left and right apart.
    method CopyRun(slot: nat, from: nat, count: nat, out: array<Frame>, at: nat, ghost log: seq<Frame>)
      requires Inv(st) && log <= st.frameLog
      requires slot + count <= st.frameCapacity && at + count <= out.Length
      requires forall i: nat :: from <= i < from + count ==> Slot(i, st.frameCapacity) == slot + i - from
      modifies this, out
      ensures Inv(st) && Evolves(old(st), st)
      ensures forall k :: 0 <= k < out.Length && !(at <= k < at + count) ==> out[k] == old(out[k])
      ensures forall i: nat :: from <= i < from + count && i < |log| && FrameIntact(st, i) ==>
                out[at + i - from] == log[i]
    {
      hide Inv;
      var j := 0;
      while j < count
        invariant 0 <= j <= count
        invariant Inv(st) && Evolves(old(st), st)
        invariant forall k :: 0 <= k < out.Length && !(at <= k < at + j) ==> out[k] == old(out[k])
        invariant forall i: nat :: from <= i < from + j && i < |log| && FrameIntact(st, i) ==>
                    out[at + i - from] == log[i]
      {
        ghost var before := st;
        assert Slot(from + j, st.frameCapacity) == slot + j;
        var frame := LoadFrame(slot + j, from + j, log);
        EvolvesTrans(old(st), before, st);
        out[at + j] := frame;
        j := j + 1;
      }
    }

    // Copies one frame, which is frame `i` unless it is being overwritten.
    method LoadFrame(slot: nat, ghost i: nat, ghost log: seq<Frame>) returns (frame: Frame)
      requires Inv(st) && log <= st.frameLog
      requires slot < st.frameCapacity && Slot(i, st.frameCapacity) == slot
      modifies this
      ensures Inv(st) && Evolves(old(st), st)
      ensures i < |log| && FrameIntact(st, i) ==> frame == log[i]
    {
      Interfere();
      var left := st.samples[slot].left;
      assert i < |log| && FrameIntact(st, i) ==> left == log[i].left;
      ghost var before := st;
      Interfere();
      EvolvesTrans(old(st), before, st);
      frame := Frame(left, st.samples[slot].right);
    }

    // Copies frames `from` onward, whose slots may wrap round the ring once.
    method CopyFrames(from: nat, count: nat, out: array<Frame>, at: nat, ghost log: seq<Frame>)
      requires Inv(st) && log <= st.frameLog
      requires count <= st.frameCapacity && at + count <= out.Length
      modifies this, out
      ensures Inv(st) && Evolves(old(st), st)
      ensures forall k :: 0 <= k < out.Length && !(at <= k < at + count) ==> out[k] == old(out[k])
      ensures forall i: nat :: from <= i < from + count && i < |log| && FrameIntact(st, i) ==>
                out[at + i - from] == log[i]
    {
      if count == 0 {
        return;
      }
      SlotInRing(from, st);
      hide Inv;
      var slot := Slot(from, st.frameCapacity);
      var first := if count < st.frameCapacity - slot then count else st.frameCapacity - slot;
      RunOfSlots(from, first, st.frameCapacity);
      CopyRun(slot, from, first, out, at, log);
      if count > first {
        ghost var before := st;
        RunOfSlots(from + first, count - first, st.frameCapacity);
        CopyRun(0, from + first, count - first, out, at + first, log);
        EvolvesTrans(old(st), before, st) by { hide Inv; }
      }
    }

    // Loads the format and the published count, `seq` having been loaded.
    // `atRate` is the moment the rate was loaded.
    method LoadHead(seqno: nat) returns (epoch: nat, rate: nat, written: nat, ghost view: View, ghost atRate: State)
      requires Inv(st) && seqno == st.h.seqno && seqno % 2 == 0
      modifies this
      ensures Inv(st) && Evolves(old(st), st)
      ensures Reaches(old(st), atRate) && Reaches(atRate, st) && atRate.h.rate == rate
      ensures st.h.seqno == seqno ==> st.h.epoch == epoch && st.h.rate == rate
      ensures written == st.h.chunksWritten
      ensures view == View(st.chunkLog[..written], OldestKept(written, st.chunkCapacity), epoch, rate)
    {
      hide Inv, Reaches;
      Interfere();
      epoch := st.h.epoch;
      ghost var atEpoch := st;
      Interfere();
      EvolvesTrans(old(st), atEpoch, st);
      ReachesTrans(old(st), atEpoch, st);
      rate := st.h.rate;
      atRate := st;
      Interfere();
      EvolvesTrans(old(st), atRate, st);
      EvolvesTrans(atEpoch, atRate, st);
      PublishedIsLogged(st);
      written := st.h.chunksWritten;
      view := View(st.chunkLog[..written], OldestKept(written, st.chunkCapacity), epoch, rate);
      if st.h.seqno == seqno {
        SameSeqSameFormat(atEpoch, st);
        SameSeqSameFormat(atRate, st);
      }
    }

    // The record the target time falls in and the window's end inside it.
    method Locate(q: Query, lo: nat, epoch: nat, rate: nat, written: nat, ghost view: View)
      returns (located: bool, n: nat, best: Record, end: nat, oldest: nat)
      requires Inv(st) && view.log <= st.chunkLog
      requires view.lo == lo < written == |view.log| && view.epoch == epoch && view.rate == rate
      modifies this
      ensures Inv(st) && Evolves(old(st), st)
      ensures lo <= oldest < written && (located ==> oldest <= n < written)
      ensures RecordIntact(st, oldest) ==>
                && (located ==> best == view.log[n])
                && Lookup(view, q) == if located then WindowEnding(view, n, end, q.frames) else Missing
      ensures RecordIntact(st, LocateVisits(view, q)) ==>
                && oldest == LocateVisits(view, q)
                && Visited(view, q) == if located then WalkVisits(view, n, StartOf(end, q.frames), oldest) else oldest
    {
      hide Inv, WalkVisits, SearchVisits;
      n := written - 1;
      oldest, end := n, 0;
      best := LoadRecord(n, view.log);
      if best.epoch != epoch {
        return false, n, best, end, oldest;
      }
      var t := if q.latest then best.tEnd else q.tEnd;
      if best.tEnd < t {
        return false, n, best, end, oldest;
      }
      ghost var before := st;
      located, n, best, end, oldest := LocateFrom(n, best, q.latest, t, lo, epoch, rate, view, q.frames);
      EvolvesTrans(old(st), before, st);
    }

    method LocateFrom(n0: nat, best0: Record, latest: bool, t: int, lo: nat, epoch: nat, rate: nat, ghost view: View, ghost frames: nat)
      returns (located: bool, n: nat, best: Record, end: nat, oldest: nat)
      requires Inv(st) && view.log <= st.chunkLog
      requires view.lo == lo <= n0 < |view.log| && view.epoch == epoch && view.rate == rate
      requires best0.tEnd >= t && (RecordIntact(st, n0) ==> best0 == view.log[n0])
      modifies this
      ensures Inv(st) && Evolves(old(st), st)
      ensures lo <= oldest <= n0 && (located ==> oldest <= n <= n0)
      ensures RecordIntact(st, oldest) ==>
                && (located ==> best == view.log[n])
                && LookupAt(view, if latest then n0 else Search(view, n0, t), !latest, t, frames)
                   == if located then WindowEnding(view, n, end, frames) else Missing
      ensures var o := if latest then n0 else SearchVisits(view, n0, t);
        RecordIntact(st, o) ==>
          && oldest == o && view.log[n0].tEnd >= t
          && VisitedAt(view, if latest then n0 else Search(view, n0, t), o, !latest, t, frames)
             == if located then WalkVisits(view, n, StartOf(end, frames), oldest) else oldest
    {
      hide Inv, LongerThan, Lag, WindowEnding, WalkVisits;
      n, best, oldest, end := n0, best0, n0, 0;
      var hasPrev, prev := false, Record(0, 0, 0, 0);
      if !latest {
        n, best, hasPrev, prev, oldest := SearchBack(n, best, t, lo, epoch, oldest, view);
      }
      var lag := Lag(best.tEnd - t, rate);
      if lag >= best.frames {
        if !hasPrev || LongerThan(t - prev.tEnd, best.frames, rate) {
          return false, n, best, end, oldest;
        }
        end := best.start;
        best := prev;
        n := n - 1;
      } else {
        end := best.start + best.frames - lag;
      }
      located := true;
    }

    // The first frame of the window ending at `end` that has a history.
    method FirstFrame(n: nat, best: Record, end: nat, frames: nat, lo: nat, epoch: nat, rate: nat, oldest0: nat, ghost view: View)
      returns (found: bool, first: nat, oldest: nat)
      requires Inv(st) && view.log <= st.chunkLog
      requires lo == view.lo <= oldest0 <= n < |view.log| && epoch == view.epoch && rate == view.rate
      requires RecordIntact(st, oldest0) ==> best == view.log[n]
      modifies this
      ensures Inv(st) && Evolves(old(st), st)
      ensures lo <= oldest <= oldest0
      ensures found ==> first <= end <= first + frames
      ensures RecordIntact(st, oldest) ==>
                WindowEnding(view, n, end, frames) == if found then Found(first, end) else Missing
      ensures var o := WalkVisits(view, n, StartOf(end, frames), oldest0);
        RecordIntact(st, o) ==> oldest == o
    {
      hide Inv;
      var start := StartOf(end, frames);
      var low, bounded;
      low, bounded, oldest := WalkBackFrom(n, best, start, lo, epoch, rate, oldest0, view);
      if low.start > start && !bounded {
        return false, 0, oldest;
      }
      return true, Clip(low.start, start, end), oldest;
    }

    // Fills `out` with silence, then the frames from `first` to `end`.
    method CopyWindow(first: nat, end: nat, out: array<Frame>, ghost log: seq<Frame>)
      requires Inv(st) && log <= st.frameLog
      requires first <= end <= first + out.Length && out.Length <= st.frameCapacity
      modifies this, out
      ensures Inv(st) && Evolves(old(st), st)
      ensures end <= |log| && FrameIntact(st, first) ==>
                out[..] == Zeros(out.Length - (end - first)) + log[first..end]
    {
      hide Inv;
      var zeros := out.Length - (end - first);
      forall k | 0 <= k < zeros {
        out[k] := SILENCE;
      }
      CopyFrames(first, end - first, out, zeros, log);
      if end <= |log| && FrameIntact(st, first) {
        forall k | zeros <= k < out.Length
          ensures out[k] == log[first..end][k - zeros]
        {
          var i := first + k - zeros;
          assert FrameIntact(st, i) && out[zeros + i - first] == log[i];
        }
      }
    }

    // The search, the walk back and the copies, each by any number of loads.
    method Gather(q: Query, out: array<Frame>, epoch: nat, rate: nat, written: nat, ghost view: View)
      returns (found: bool, first: nat, end: nat, oldest: nat)
      requires Inv(st) && view.log <= st.chunkLog
      requires out.Length == q.frames <= st.frameCapacity
      requires view.lo == OldestKept(written, st.chunkCapacity) && view.epoch == epoch && view.rate == rate
      requires 0 < written == |view.log|
      modifies this, out
      ensures Inv(st) && Evolves(old(st), st)
      ensures view.lo <= oldest < written && (found ==> first <= end <= first + q.frames)
      ensures RecordIntact(st, oldest) ==> Lookup(view, q) == if found then Found(first, end) else Missing
      ensures RecordIntact(st, Visited(view, q)) ==> oldest == Visited(view, q)
      ensures found && end <= |old(st).frameLog| && FrameIntact(st, first) ==>
                out[..] == Zeros(q.frames - (end - first)) + old(st).frameLog[first..end]
    {
      hide Inv;
      PublishedIsLogged(st);
      ghost var log := st.frameLog;
      var lo := OldestKept(written, st.chunkCapacity);
      var n, best;
      found, first := false, 0;
      found, n, best, end, oldest := Locate(q, lo, epoch, rate, written, view);
      if !found {
        return;
      }
      ghost var before := st;
      found, first, oldest := FirstFrame(n, best, end, q.frames, lo, epoch, rate, oldest, view);
      EvolvesTrans(old(st), before, st);
      if !found {
        return;
      }
      before := st;
      CopyWindow(first, end, out, log);
      EvolvesTrans(old(st), before, st);
    }

    // The frames whose last one plays at `q.tEnd`, or the newest ones.
    // `seen` is the shared state when the last frame had been copied, `early`
    // the moment an early NoData rests on.
    method Read(q: Query, out: array<Frame>)
      returns (status: Status, info: Info, ghost view: View, ghost seen: State, ghost early: State)
      requires Inv(st) && out.Length == q.frames
      modifies this, out
      ensures Inv(st) && Evolves(old(st), st)
      ensures ReadOutcome(old(st), st, q, status, info, out[..], view, seen, early)
    {
      hide Inv, Lookup, Overtaken, Reaches, Visited;
      view, seen, early := View([], 0, 0, 0), st, st;
      info := Info(0, 0, 0);
      EvolvesItself(st);
      if q.frames == 0 || q.frames > st.frameCapacity {
        return NoData, info, view, seen, early;
      }
      var seqno := st.h.seqno;
      if seqno % 2 == 1 {
        OddIsOvertaken(st, view, q);
        return Retry, info, view, seen, early;
      }
      var epoch, rate, written;
      epoch, rate, written, view, early := LoadHead(seqno);
      if rate == 0 || written == 0 {
        if rate != 0 {
          ReachesTrans(old(st), early, st);
          ReachesItself(st);
          early := st;
        }
        return NoData, info, view, seen, early;
      }
      ghost var head := st;
      PublishedIsLogged(head);
      var found, first, end, oldest := Gather(q, out, epoch, rate, written, view);
      seen := st;
      EvolvesTrans(old(st), head, seen);
      var ok := Settled(seqno, oldest, found, first);
      EvolvesTrans(old(st), seen, st);
      EvolvesTrans(head, seen, st);
      if ok {
        HeadIsSnapshot(old(st), head, seen, view);
        if found {
          FoundFits(old(st), head, seen, view, q);
          status := Ok;
          info := Info(epoch, rate, end);
        } else {
          status := NoData;
        }
      } else {
        status := Retry;
        RetryIsOvertaken(old(st), head, st, view, q, if found then Found(first, end) else Missing, oldest);
      }
    }
  }

  // Consecutive frames sit in consecutive slots up to the end of the ring,
  // and the next one in slot 0.
  lemma RunOfSlots(from: nat, count: nat, capacity: nat)
    requires capacity > 0 && Slot(from, capacity) + count <= capacity
    ensures forall i: nat :: from <= i < from + count ==> Slot(i, capacity) == Slot(from, capacity) + i - from
    ensures Slot(from, capacity) + count == capacity ==> Slot(from + count, capacity) == 0
  {
    var q := from / capacity;
    forall i: nat | from <= i < from + count
      ensures Slot(i, capacity) == Slot(from, capacity) + i - from
    {
      SlotIs(i, q, Slot(from, capacity) + i - from, capacity);
    }
    if Slot(from, capacity) + count == capacity {
      SlotIs(from + count, q + 1, 0, capacity);
    }
  }

  lemma SlotIs(i: nat, q: nat, r: nat, capacity: nat)
    requires r < capacity && i == q * capacity + r
    ensures Slot(i, capacity) == r
  {
    var k := i / capacity - q;
    assert k * capacity == r - i % capacity;
    assert k > 0 ==> k * capacity >= capacity;
    assert k < 0 ==> k * capacity + capacity <= 0;
  }
}
