/**
  The PCM tap ring as a state machine: the shared header, record ring and
  sample ring, the one writer's program counter, and the history of what was
  committed. One step is one store of the writer, or its death, or its rebirth
  on the file it left behind. Stores are sequentially consistent.
*/
module TapProtocol {
  import opened Wrappers

  datatype Frame = Frame(left: int, right: int)

  datatype Record = Record(start: nat, tEnd: int, frames: nat, epoch: nat)

  datatype Format = Format(epoch: nat, rate: nat)

  // The shared header's fields that change after the file is initialized.
  datatype Header = Header(seqno: nat, epoch: nat, rate: nat,
                           framesReserved: nat, framesWritten: nat,
                           chunksReserved: nat, chunksWritten: nat)

  datatype Chunk = Chunk(frames: seq<Frame>, tEnd: int)

  // Where the writer is. `stored` counts the stores of the running call that
  // have been done; a format change may be followed by the commit that asked
  // for it.
  datatype Phase =
    | Dead
    | Idle
    | Changing(done: nat, rate: nat, job: Option<Chunk>)
    | Committing(chunk: Chunk, stored: nat)

  // The writer's own copies of the shared counters, its stream and its rate.
  datatype Writer = Writer(phase: Phase, seqno: nat, epoch: nat, frames: nat, chunks: nat,
                           stream: nat, rate: nat)

  datatype State = State(
    frameCapacity: nat, chunkCapacity: nat,
    h: Header, records: seq<Record>, samples: seq<Frame>,
    w: Writer,
    // History: the frame at each absolute index, the record of each chunk,
    // the chunks a dead writer left behind, the format each even `seq` named.
    frameLog: seq<Frame>, chunkLog: seq<Record>, abandoned: set<nat>, formats: seq<Format>)

  datatype Step =
    | BeginStream(stream: nat, rate: nat)
    | Commit(stream: nat, rate: nat, stereo: seq<Frame>, tEnd: int)
    | Store
    | Kill
    | Reopen

  function Slot(i: nat, capacity: nat): nat
    requires capacity > 0
  {
    i % capacity
  }

  // The newest `capacity` frames: what is kept of an oversize chunk.
  function Newest(stereo: seq<Frame>, capacity: nat): (kept: seq<Frame>)
    ensures |kept| <= capacity && |kept| <= |stereo|
  {
    if |stereo| > capacity then stereo[|stereo| - capacity..] else stereo
  }

  predicate Enabled(s: State, step: Step) {
    match step
    case BeginStream(_, _) => s.w.phase.Idle?
    case Commit(_, _, _, _) => s.w.phase.Idle?
    case Store => s.w.phase.Changing? || s.w.phase.Committing?
    case Kill => !s.w.phase.Dead?
    case Reopen => s.w.phase.Dead?
  }

  function Resume(job: Option<Chunk>): Phase {
    match job
    case None => Idle
    case Some(chunk) => Committing(chunk, 0)
  }

  // The next store of a format change: `seq` odd, epoch, rate, `seq` even.
  function ChangeStore(s: State): State
    requires s.w.phase.Changing?
  {
    var p := s.w.phase;
    if p.done == 0 then
      s.(h := s.h.(seqno := s.w.seqno + 1),
         w := s.w.(seqno := s.w.seqno + 1, phase := Changing(1, p.rate, p.job)))
    else if p.done == 1 then
      s.(h := s.h.(epoch := s.w.epoch + 1),
         w := s.w.(epoch := s.w.epoch + 1, phase := Changing(2, p.rate, p.job)))
    else if p.done == 2 then
      s.(h := s.h.(rate := p.rate), w := s.w.(phase := Changing(3, p.rate, p.job)))
    else
      s.(h := s.h.(seqno := s.w.seqno + 1),
         w := s.w.(seqno := s.w.seqno + 1, phase := Resume(p.job)),
         formats := s.formats + [Format(s.h.epoch, s.h.rate)])
  }

  // A commit's stores in order: both reserve counters, every sample (left and
  // right are separate stores), the record's four fields, both written counters.
  function SampleStores(chunk: Chunk): nat { 2 * |chunk.frames| }

  function CommitStores(chunk: Chunk): nat { SampleStores(chunk) + 8 }

  function StoreSample(s: State, j: nat): (r: seq<Frame>)
    requires s.w.phase.Committing? && j < SampleStores(s.w.phase.chunk)
    requires 0 < s.frameCapacity == |s.samples|
    ensures |r| == |s.samples|
  {
    var slot := Slot(s.w.frames + j / 2, s.frameCapacity);
    var frame := s.w.phase.chunk.frames[j / 2];
    s.samples[slot := if j % 2 == 0 then s.samples[slot].(left := frame.left)
                      else s.samples[slot].(right := frame.right)]
  }

  function StoreField(s: State, i: nat): (r: seq<Record>)
    requires s.w.phase.Committing?
    requires 0 < s.chunkCapacity == |s.records|
    ensures |r| == |s.records|
  {
    var slot := Slot(s.w.chunks, s.chunkCapacity);
    var chunk := s.w.phase.chunk;
    s.records[slot := if i == 0 then s.records[slot].(start := s.w.frames)
                      else if i == 1 then s.records[slot].(tEnd := chunk.tEnd)
                      else if i == 2 then s.records[slot].(frames := |chunk.frames|)
                      else s.records[slot].(epoch := s.w.epoch)]
  }

  function CommitStore(s: State): State
    requires s.w.phase.Committing? && s.w.phase.stored < CommitStores(s.w.phase.chunk)
    requires Sized(s)
  {
    var p := s.w.phase;
    var cells := SampleStores(p.chunk);
    var f1 := s.w.frames + |p.chunk.frames|;
    var next := s.w.(phase := Committing(p.chunk, p.stored + 1));
    if p.stored == 0 then s.(h := s.h.(framesReserved := f1), w := next)
    else if p.stored == 1 then s.(h := s.h.(chunksReserved := s.w.chunks + 1), w := next)
    else if p.stored < 2 + cells then s.(samples := StoreSample(s, p.stored - 2), w := next)
    else if p.stored < 6 + cells then s.(records := StoreField(s, p.stored - 2 - cells), w := next)
    else if p.stored == 6 + cells then s.(h := s.h.(framesWritten := f1), w := next)
    else
      s.(h := s.h.(chunksWritten := s.w.chunks + 1),
         w := s.w.(frames := f1, chunks := s.w.chunks + 1, phase := Idle),
         frameLog := s.frameLog + p.chunk.frames,
         chunkLog := s.chunkLog + [Record(s.w.frames, p.chunk.tEnd, |p.chunk.frames|, s.w.epoch)])
  }

  function Max(a: nat, b: nat): nat { if a < b then b else a }

  // What the ring holds in the frame slots from |frameLog| up to `end`.
  function LeftInRing(s: State, end: nat): seq<Frame>
    requires Sized(s)
  {
    seq(if end <= |s.frameLog| then 0 else end - |s.frameLog|,
        (i: nat) => s.samples[Slot(|s.frameLog| + i, s.frameCapacity)])
  }

  // The reuse path of a writer opening the file: it continues from the
  // reserved counters and starts a new epoch with no stream. A chunk the last
  // writer had reserved but not published is abandoned as the ring holds it.
  function ReopenFile(s: State): State
    requires Sized(s)
  {
    var frames := Max(s.h.framesReserved, s.h.framesWritten);
    var chunks := Max(s.h.chunksReserved, s.h.chunksWritten);
    var n := |s.chunkLog|;
    s.(w := Writer(Changing(0, 0, None), s.h.seqno - s.h.seqno % 2, s.h.epoch, frames, chunks, 0, 0),
       frameLog := s.frameLog + LeftInRing(s, frames),
       chunkLog := if chunks > n then s.chunkLog + [s.records[Slot(n, s.chunkCapacity)]] else s.chunkLog,
       abandoned := if chunks > n then s.abandoned + {n} else s.abandoned)
  }

  predicate Sized(s: State) {
    && 0 < s.chunkCapacity == |s.records|
    && 0 < s.frameCapacity == |s.samples|
    && (s.w.phase.Committing? ==> s.w.phase.stored < CommitStores(s.w.phase.chunk))
  }

  function Apply(s: State, step: Step): State
    requires Sized(s) && Enabled(s, step)
  {
    match step
    case BeginStream(stream, rate) =>
      s.(w := s.w.(stream := stream, rate := rate, phase := Changing(0, rate, None)))
    case Commit(stream, rate, stereo, tEnd) =>
      var kept := Newest(stereo, s.frameCapacity);
      var job := if kept == [] then None else Some(Chunk(kept, tEnd));
      if stream != s.w.stream || rate != s.w.rate then
        s.(w := s.w.(stream := stream, rate := rate, phase := Changing(0, rate, job)))
      else
        s.(w := s.w.(phase := Resume(job)))
    case Store => if s.w.phase.Changing? then ChangeStore(s) else CommitStore(s)
    case Kill => s.(w := s.w.(phase := Dead))
    case Reopen => ReopenFile(s)
  }

  // A freshly created file: zeroed, with its writer idle.
  predicate Init(s: State) {
    && Sized(s)
    && s.h == Header(0, 0, 0, 0, 0, 0, 0)
    && (forall i :: 0 <= i < |s.records| ==> s.records[i] == Record(0, 0, 0, 0))
    && s.w == Writer(Idle, 0, 0, 0, 0, 0, 0)
    && s.frameLog == [] && s.chunkLog == [] && s.abandoned == {}
    && s.formats == [Format(0, 0)]
  }

  // ------------------------------------------------------------ invariant

  // A chunk record or frame no reservation has reached yet.
  predicate RecordIntact(s: State, n: nat) { s.h.chunksReserved <= n + s.chunkCapacity }

  predicate FrameIntact(s: State, i: nat) { s.h.framesReserved <= i + s.frameCapacity }

  ghost predicate RingHoldsLog(s: State)
    requires Sized(s)
  {
    && (forall n: nat :: n < |s.chunkLog| && RecordIntact(s, n) ==>
          s.records[Slot(n, s.chunkCapacity)] == s.chunkLog[n])
    && (forall i: nat :: i < |s.frameLog| && FrameIntact(s, i) ==>
          s.samples[Slot(i, s.frameCapacity)] == s.frameLog[i])
  }

  // Chunks that were published whole.
  ghost predicate Whole(s: State, n: nat) { n < |s.chunkLog| && n !in s.abandoned }

  ghost predicate LogShape(s: State) {
    && (forall n :: n in s.abandoned ==> n < |s.chunkLog|)
    && (forall n: nat :: Whole(s, n) ==>
          && 0 < s.chunkLog[n].frames <= s.frameCapacity
          && s.chunkLog[n].start + s.chunkLog[n].frames <= |s.frameLog|
          && s.chunkLog[n].epoch <= s.h.epoch)
    // Neighbours of one epoch are contiguous.
    && (forall n: nat :: Whole(s, n) && Whole(s, n + 1) && s.chunkLog[n].epoch == s.chunkLog[n + 1].epoch ==>
          s.chunkLog[n].start + s.chunkLog[n].frames == s.chunkLog[n + 1].start)
    && (s.w.phase.Idle? || s.w.phase.Committing? ==> TailIsNewest(s))
  }

  // While a writer may commit, a newest chunk of its epoch ends where its
  // next one will start.
  ghost predicate TailIsNewest(s: State) {
    var last := |s.chunkLog| - 1;
    last >= 0 && Whole(s, last) && s.chunkLog[last].epoch == s.h.epoch ==>
      s.chunkLog[last].start + s.chunkLog[last].frames == |s.frameLog|
  }

  ghost predicate AllLoggedBefore(s: State, epoch: nat) {
    forall n: nat :: n < |s.chunkLog| ==> s.chunkLog[n].epoch < epoch
  }

  // An abandoned slot carries an older epoch than any chunk published after it.
  ghost predicate AbandonedAreOlder(s: State) {
    && (forall n: nat :: n in s.abandoned && n < |s.chunkLog| ==>
          && s.chunkLog[n].epoch <= s.h.epoch
          && (n < s.h.chunksWritten || s.w.phase.Idle? || s.w.phase.Committing? ==>
                s.chunkLog[n].epoch < s.h.epoch))
    && (forall j :: 0 <= j < |s.records| ==> s.records[j].epoch <= s.h.epoch)
  }

  ghost predicate Seqlock(s: State) {
    && |s.formats| == s.h.seqno / 2 + 1
    && (s.h.seqno % 2 == 0 ==> s.formats[s.h.seqno / 2] == Format(s.h.epoch, s.h.rate))
    && (s.h.seqno % 2 == 1 ==> s.formats[s.h.seqno / 2].epoch <= s.h.epoch)
    && (forall i, j :: 0 <= i < j < |s.formats| ==> s.formats[i].epoch < s.formats[j].epoch)
  }

  ghost predicate CountersInStep(s: State) {
    && |s.frameLog| <= s.h.framesReserved <= |s.frameLog| + s.frameCapacity
    && |s.chunkLog| <= s.h.chunksReserved <= |s.chunkLog| + 1
    && s.h.framesWritten <= s.h.framesReserved
    && s.h.chunksWritten <= |s.chunkLog|
  }

  ghost predicate WriterInStep(s: State) {
    var w, h := s.w, s.h;
    w.phase.Dead? || (
      && w.frames == |s.frameLog| && w.chunks == |s.chunkLog|
      && w.epoch == h.epoch
      && (w.phase.Idle? || w.phase.Committing? ==> w.seqno == h.seqno && h.seqno % 2 == 0)
      && (w.phase.Changing? ==> ChangeInStep(s))
      && (w.phase.Idle? || w.phase.Changing? ==> h.framesReserved == w.frames && h.chunksReserved == w.chunks)
      && (w.phase.Committing? ==> CommitInStep(s)))
  }

  ghost predicate ChangeInStep(s: State)
    requires s.w.phase.Changing?
  {
    var w, h, p := s.w, s.h, s.w.phase;
    && p.done <= 3
    && (p.job.Some? ==> 0 < |p.job.value.frames| <= s.frameCapacity)
    && (p.done == 0 ==> w.seqno % 2 == 0 && w.seqno <= h.seqno <= w.seqno + 1)
    && (p.done > 0 ==> w.seqno == h.seqno && h.seqno % 2 == 1)
    && (p.done >= 2 ==>
          && h.seqno / 2 < |s.formats| && s.formats[h.seqno / 2].epoch < h.epoch
          && AllLoggedBefore(s, h.epoch))
    && (p.done == 3 ==> h.rate == p.rate)
  }

  ghost predicate CommitInStep(s: State)
    requires s.w.phase.Committing?
  {
    var w, h, p := s.w, s.h, s.w.phase;
    var f, c, cells := p.chunk.frames, p.chunk, SampleStores(p.chunk);
    && Sized(s)
    && 0 < |f| <= s.frameCapacity
    && h.framesReserved == w.frames + (if p.stored > 0 then |f| else 0)
    && h.chunksReserved == w.chunks + (if p.stored > 1 then 1 else 0)
    && (forall q: nat :: q < |f| && 2 + 2 * q < p.stored ==>
          s.samples[Slot(w.frames + q, s.frameCapacity)].left == f[q].left)
    && (forall q: nat :: q < |f| && 3 + 2 * q < p.stored ==>
          s.samples[Slot(w.frames + q, s.frameCapacity)].right == f[q].right)
    && var r := s.records[Slot(w.chunks, s.chunkCapacity)];
    && (p.stored > 2 + cells ==> r.start == w.frames)
    && (p.stored > 3 + cells ==> r.tEnd == c.tEnd)
    && (p.stored > 4 + cells ==> r.frames == |f|)
    && (p.stored > 5 + cells ==> r.epoch == w.epoch)
    && (p.stored > 6 + cells ==> h.framesWritten == h.framesReserved)
  }

  ghost predicate Inv(s: State) {
    && Sized(s)
    && RingHoldsLog(s)
    && LogShape(s)
    && AbandonedAreOlder(s)
    && Seqlock(s)
    && CountersInStep(s)
    && WriterInStep(s)
  }

  // ------------------------------------------------------------ monotonicity

  // What any number of writer steps keeps: no counter ever decreases, and
  // history only grows.
  ghost predicate Evolves(s: State, t: State) {
    && s.frameCapacity == t.frameCapacity && s.chunkCapacity == t.chunkCapacity
    && s.h.seqno <= t.h.seqno
    && s.h.epoch <= t.h.epoch
    && s.h.framesReserved <= t.h.framesReserved
    && s.h.framesWritten <= t.h.framesWritten
    && s.h.chunksReserved <= t.h.chunksReserved
    && s.h.chunksWritten <= t.h.chunksWritten
    && s.frameLog <= t.frameLog
    && s.chunkLog <= t.chunkLog
    && s.formats <= t.formats
    && (forall n: nat :: n < |s.chunkLog| ==> (n in s.abandoned <==> n in t.abandoned))
  }

  // ------------------------------------------------------------ proofs

  lemma SlotsDiffer(a: nat, b: nat, capacity: nat)
    requires a != b && a < b + capacity && b < a + capacity
    ensures Slot(a, capacity) != Slot(b, capacity)
  {
    if a > b {
      SlotsDiffer(b, a, capacity);
    } else {
      var k := b / capacity - a / capacity;
      assert b - a == capacity * k + (b % capacity - a % capacity);
      assert k <= 0 ==> capacity * k <= 0;
      assert k >= 1 ==> capacity * k >= capacity;
    }
  }

  lemma InitKeepsInv(s: State)
    requires Init(s)
    ensures Inv(s)
  {
  }

  // What a step that leaves the rings and the logs alone keeps.
  lemma SameRingsKept(s: State, t: State)
    requires Sized(s) && RingHoldsLog(s) && LogShape(s)
    requires t.frameCapacity == s.frameCapacity && t.chunkCapacity == s.chunkCapacity
    requires t.records == s.records && t.samples == s.samples
    requires t.frameLog == s.frameLog && t.chunkLog == s.chunkLog && t.abandoned == s.abandoned
    requires t.h.framesReserved >= s.h.framesReserved && t.h.chunksReserved >= s.h.chunksReserved
    requires s.h.epoch <= t.h.epoch && Sized(t)
    requires t.w.phase.Idle? || t.w.phase.Committing? ==> TailIsNewest(t)
    ensures RingHoldsLog(t) && LogShape(t)
  {
    assert forall n: nat :: RecordIntact(t, n) ==> RecordIntact(s, n);
    assert forall i: nat :: FrameIntact(t, i) ==> FrameIntact(s, i);
    assert forall n: nat :: Whole(t, n) == Whole(s, n);
  }

  // The store of a commit that is done at `stored`, by what it changes.
  lemma ReserveStored(s: State)
    requires Sized(s) && s.w.phase.Committing? && s.w.phase.stored < 2
    ensures var p, t := s.w.phase, CommitStore(s);
      && t == s.(h := t.h, w := s.w.(phase := Committing(p.chunk, p.stored + 1)))
      && t.h == if p.stored == 0 then s.h.(framesReserved := s.w.frames + |p.chunk.frames|)
                else s.h.(chunksReserved := s.w.chunks + 1)
  {
  }

  lemma FieldStored(s: State)
    requires Sized(s) && s.w.phase.Committing?
    requires 2 + SampleStores(s.w.phase.chunk) <= s.w.phase.stored < 6 + SampleStores(s.w.phase.chunk)
    ensures var p := s.w.phase;
      CommitStore(s) == s.(records := StoreField(s, p.stored - 2 - SampleStores(p.chunk)),
                           w := s.w.(phase := Committing(p.chunk, p.stored + 1)))
  {
  }

  lemma ReserveKeepsInv(s: State)
    requires Inv(s) && s.w.phase.Committing? && s.w.phase.stored < 2
    ensures Inv(CommitStore(s)) && Evolves(s, CommitStore(s))
  {
    var t := CommitStore(s);
    ReserveStored(s);
    hide CommitStore;
    assert RingHoldsLog(t) && LogShape(t) by { SameRingsKept(s, t); }
    hide RingHoldsLog, LogShape;
    assert AbandonedAreOlder(t) && Seqlock(t);
    hide AbandonedAreOlder, Seqlock;
    assert WriterInStep(t) && CountersInStep(t) by { hide Slot; }
  }

  lemma SampleKeepsInv(s: State)
    requires Inv(s) && s.w.phase.Committing?
    requires 2 <= s.w.phase.stored < 2 + SampleStores(s.w.phase.chunk)
    ensures Inv(CommitStore(s)) && Evolves(s, CommitStore(s))
  {
    var t := CommitStore(s);
    assert RingHoldsLog(t) by {
      var q0 := (s.w.phase.stored - 2) / 2;
      forall i: nat | i < |s.frameLog| && FrameIntact(t, i)
        ensures t.samples[Slot(i, s.frameCapacity)] == s.frameLog[i]
      {
        assert FrameIntact(s, i);
        SlotsDiffer(i, s.w.frames + q0, s.frameCapacity);
      }
    }
    assert CommitInStep(t) by {
      SampleStoreInStep(s);
    }
  }

  lemma SampleStoreInStep(s: State)
    requires Sized(s) && s.w.phase.Committing? && CommitInStep(s)
    requires 2 <= s.w.phase.stored < 2 + SampleStores(s.w.phase.chunk)
    ensures CommitInStep(CommitStore(s))
  {
    var t := CommitStore(s);
    var f := s.w.phase.chunk.frames;
    forall q: nat | q < |f|
      ensures 2 + 2 * q < t.w.phase.stored ==> t.samples[Slot(s.w.frames + q, s.frameCapacity)].left == f[q].left
      ensures 3 + 2 * q < t.w.phase.stored ==> t.samples[Slot(s.w.frames + q, s.frameCapacity)].right == f[q].right
    {
      SampleStored(s, q);
    }
    hide Slot, StoreSample;
  }

  // After a sample store, frame `q` of the chunk is in the ring as far as it
  // has been stored.
  lemma SampleStored(s: State, q: nat)
    requires Sized(s) && s.w.phase.Committing? && CommitInStep(s)
    requires 2 <= s.w.phase.stored < 2 + SampleStores(s.w.phase.chunk) && q < |s.w.phase.chunk.frames|
    ensures var r, f := StoreSample(s, s.w.phase.stored - 2)[Slot(s.w.frames + q, s.frameCapacity)], s.w.phase.chunk.frames[q];
      && (2 + 2 * q < s.w.phase.stored + 1 ==> r.left == f.left)
      && (3 + 2 * q < s.w.phase.stored + 1 ==> r.right == f.right)
  {
    var q0 := (s.w.phase.stored - 2) / 2;
    if q != q0 {
      SlotsDiffer(s.w.frames + q, s.w.frames + q0, s.frameCapacity);
    }
    hide Slot;
  }

  lemma FieldKeepsRing(s: State)
    requires Inv(s) && s.w.phase.Committing?
    requires 2 + SampleStores(s.w.phase.chunk) <= s.w.phase.stored < 6 + SampleStores(s.w.phase.chunk)
    ensures RingHoldsLog(CommitStore(s))
  {
    var t := CommitStore(s);
    forall n: nat | n < |s.chunkLog| && RecordIntact(t, n)
      ensures t.records[Slot(n, s.chunkCapacity)] == s.chunkLog[n]
    {
      assert RecordIntact(s, n);
      SlotsDiffer(n, s.w.chunks, s.chunkCapacity);
    }
  }

  lemma FieldKeepsInv(s: State)
    requires Inv(s) && s.w.phase.Committing?
    requires 2 + SampleStores(s.w.phase.chunk) <= s.w.phase.stored < 6 + SampleStores(s.w.phase.chunk)
    ensures Inv(CommitStore(s)) && Evolves(s, CommitStore(s))
  {
    var t := CommitStore(s);
    FieldKeepsRing(s);
    FieldStored(s);
    hide CommitStore, RingHoldsLog;
    assert AbandonedAreOlder(t) && LogShape(t) && Seqlock(t);
    hide AbandonedAreOlder, LogShape, Seqlock;
    assert CommitInStep(s);
    FieldStoreInStep(s);
    hide CommitInStep, Slot;
  }

  lemma FieldStoreInStep(s: State)
    requires Sized(s) && s.w.phase.Committing? && CommitInStep(s)
    requires 2 + SampleStores(s.w.phase.chunk) <= s.w.phase.stored < 6 + SampleStores(s.w.phase.chunk)
    ensures CommitInStep(CommitStore(s))
  {
    FieldStored(s);
    hide CommitStore, Slot;
  }

  lemma PublishFramesKeepsInv(s: State)
    requires Inv(s) && s.w.phase.Committing?
    requires s.w.phase.stored == 6 + SampleStores(s.w.phase.chunk)
    ensures Inv(CommitStore(s)) && Evolves(s, CommitStore(s))
  {
    var t := CommitStore(s);
    assert RingHoldsLog(t) && LogShape(t) by { SameRingsKept(s, t); }
    hide RingHoldsLog, LogShape;
    assert CommitInStep(t);
  }

  lemma PublishChunkKeepsRing(s: State)
    requires Inv(s) && s.w.phase.Committing?
    requires s.w.phase.stored == 7 + SampleStores(s.w.phase.chunk)
    ensures RingHoldsLog(CommitStore(s))
  {
    var t := CommitStore(s);
    var f := s.w.phase.chunk.frames;
    forall i: nat | i < |t.frameLog| && FrameIntact(t, i)
      ensures t.samples[Slot(i, s.frameCapacity)] == t.frameLog[i]
    {
      if i < |s.frameLog| {
        assert FrameIntact(s, i);
      } else {
        var q := i - |s.frameLog|;
        assert s.samples[Slot(s.w.frames + q, s.frameCapacity)] == f[q];
      }
    }
    forall n: nat | n < |t.chunkLog| && RecordIntact(t, n)
      ensures t.records[Slot(n, s.chunkCapacity)] == t.chunkLog[n]
    {
      assert RecordIntact(s, n);
    }
  }

  lemma PublishChunkKeepsShape(s: State)
    requires Inv(s) && s.w.phase.Committing?
    requires s.w.phase.stored == 7 + SampleStores(s.w.phase.chunk)
    ensures LogShape(CommitStore(s))
  {
    var t := CommitStore(s);
    forall n: nat | Whole(t, n)
      ensures 0 < t.chunkLog[n].frames <= t.frameCapacity
      ensures t.chunkLog[n].start + t.chunkLog[n].frames <= |t.frameLog|
      ensures t.chunkLog[n].epoch <= t.h.epoch
    {
      assert n < |s.chunkLog| ==> Whole(s, n);
    }
    forall n: nat | Whole(t, n) && Whole(t, n + 1) && t.chunkLog[n].epoch == t.chunkLog[n + 1].epoch
      ensures t.chunkLog[n].start + t.chunkLog[n].frames == t.chunkLog[n + 1].start
    {
      assert Whole(s, n);
      assert n + 1 < |s.chunkLog| ==> Whole(s, n + 1);
    }
  }

  lemma PublishChunkKeepsInv(s: State)
    requires Inv(s) && s.w.phase.Committing?
    requires s.w.phase.stored == 7 + SampleStores(s.w.phase.chunk)
    ensures Inv(CommitStore(s)) && Evolves(s, CommitStore(s))
  {
    var t := CommitStore(s);
    assert RingHoldsLog(t) by { PublishChunkKeepsRing(s); }
    assert LogShape(t) by { PublishChunkKeepsShape(s); }
    assert AbandonedAreOlder(t);
    assert WriterInStep(t);
  }

  lemma ChangeStoreKeepsInv(s: State)
    requires Inv(s) && s.w.phase.Changing?
    ensures Inv(ChangeStore(s)) && Evolves(s, ChangeStore(s))
  {
    var t := ChangeStore(s);
    assert RingHoldsLog(t) && LogShape(t) by { SameRingsKept(s, t); }
    hide RingHoldsLog, LogShape;
    assert CountersInStep(t);
    ChangeStoreInStep(s);
    hide AbandonedAreOlder, WriterInStep, Seqlock, CountersInStep;
  }

  lemma ChangeStoreInStep(s: State)
    requires Inv(s) && s.w.phase.Changing?
    ensures AbandonedAreOlder(ChangeStore(s)) && WriterInStep(ChangeStore(s)) && Seqlock(ChangeStore(s))
  {
    var t := ChangeStore(s);
    if s.w.phase.done == 1 {
      assert AllLoggedBefore(t, t.h.epoch);
    }
  }

  lemma ReopenKeepsRing(s: State)
    requires Inv(s) && s.w.phase.Dead?
    ensures RingHoldsLog(ReopenFile(s))
  {
    var t := ReopenFile(s);
    assert forall n: nat :: RecordIntact(t, n) == RecordIntact(s, n);
    forall i: nat | i < |t.frameLog| && FrameIntact(t, i)
      ensures t.samples[Slot(i, s.frameCapacity)] == t.frameLog[i]
    {
      assert FrameIntact(s, i);
    }
  }

  lemma ReopenKeepsShape(s: State)
    requires Inv(s) && s.w.phase.Dead?
    ensures LogShape(ReopenFile(s))
  {
    var t := ReopenFile(s);
    hide RingHoldsLog, Slot, Seqlock;
    assert forall n: nat :: Whole(t, n) == Whole(s, n);
  }

  lemma ReopenInStep(s: State)
    requires Inv(s) && s.w.phase.Dead?
    ensures AbandonedAreOlder(ReopenFile(s)) && Seqlock(ReopenFile(s))
    ensures CountersInStep(ReopenFile(s)) && WriterInStep(ReopenFile(s))
  {
    hide RingHoldsLog, LogShape;
  }

  lemma ReopenKeepsInv(s: State)
    requires Inv(s) && s.w.phase.Dead?
    ensures Inv(ReopenFile(s)) && Evolves(s, ReopenFile(s))
  {
    ReopenKeepsRing(s);
    ReopenKeepsShape(s);
    ReopenInStep(s);
    assert CountersInStep(s);
    hide RingHoldsLog, LogShape, AbandonedAreOlder, Seqlock, CountersInStep, WriterInStep, Slot;
  }

  // Every step keeps the invariant, a kill between any two stores and a
  // reopen included, and no counter or history ever shrinks.
  lemma StepKeepsInv(s: State, step: Step)
    requires Inv(s) && Enabled(s, step)
    ensures Inv(Apply(s, step)) && Evolves(s, Apply(s, step))
  {
    var t := Apply(s, step);
    match step
    case Store =>
      if s.w.phase.Changing? {
        ChangeStoreKeepsInv(s);
      } else if s.w.phase.stored < 2 {
        ReserveKeepsInv(s);
      } else if s.w.phase.stored < 2 + SampleStores(s.w.phase.chunk) {
        SampleKeepsInv(s);
      } else if s.w.phase.stored < 6 + SampleStores(s.w.phase.chunk) {
        FieldKeepsInv(s);
      } else if s.w.phase.stored == 6 + SampleStores(s.w.phase.chunk) {
        PublishFramesKeepsInv(s);
      } else {
        PublishChunkKeepsInv(s);
      }
    case Reopen => ReopenKeepsInv(s);
    case _ => WriterMoveKeepsInv(s, t);
  }

  // A step that only moves the writer: a call begins, or the writer dies.
  lemma WriterMoveKeepsInv(s: State, t: State)
    requires Inv(s) && t == s.(w := t.w)
    requires Sized(t) && WriterInStep(t)
    requires t.w.phase.Idle? || t.w.phase.Committing? ==> s.w.phase.Idle?
    ensures Inv(t) && Evolves(s, t)
  {
    SameRingsKept(s, t);
  }

  lemma EvolvesTrans(s: State, t: State, u: State)
    requires Evolves(s, t) && Evolves(t, u)
    ensures Evolves(s, u)
  {
  }

  // Every even `seq` value names one (epoch, rate) pair for ever.
  lemma SameSeqSameFormat(s: State, t: State)
    requires Inv(s) && Inv(t) && Evolves(s, t)
    requires s.h.seqno == t.h.seqno && s.h.seqno % 2 == 0
    ensures s.h.epoch == t.h.epoch && s.h.rate == t.h.rate
  {
    assert t.formats[s.h.seqno / 2] == s.formats[s.h.seqno / 2];
  }

  ghost predicate Next(s: State, t: State) {
    Sized(s) && exists step :: Enabled(s, step) && t == Apply(s, step)
  }

  lemma NextKeepsInv(s: State, t: State)
    requires Inv(s) && Next(s, t)
    ensures Inv(t) && Evolves(s, t)
  {
    var step :| Enabled(s, step) && t == Apply(s, step);
    StepKeepsInv(s, step);
  }

  // `t` comes after `s`, by any number of steps.
  ghost predicate Reaches(s: State, t: State) {
    exists path: seq<State> :: IsPath(path) && path[0] == s && path[|path| - 1] == t
  }

  ghost predicate IsPath(path: seq<State>) {
    |path| > 0 && forall i: nat :: i + 1 < |path| ==> Next(path[i], path[i + 1])
  }

  lemma ReachesItself(s: State)
    ensures Reaches(s, s)
  {
    assert IsPath([s]);
  }

  lemma ReachesNext(s: State, t: State, step: Step)
    requires Reaches(s, t) && Sized(t) && Enabled(t, step)
    ensures Reaches(s, Apply(t, step))
  {
    hide Apply, Enabled;
    var path: seq<State> :| IsPath(path) && path[0] == s && path[|path| - 1] == t;
    var u := Apply(t, step);
    var longer := path + [u];
    assert Next(t, u);
    forall i: nat | i + 1 < |longer|
      ensures Next(longer[i], longer[i + 1])
    {
      if i + 1 < |path| {
        assert Next(path[i], path[i + 1]);
      }
    }
    assert IsPath(longer) && longer[|longer| - 1] == u;
  }

  lemma ReachesTrans(s: State, t: State, u: State)
    requires Reaches(s, t) && Reaches(t, u)
    ensures Reaches(s, u)
  {
    hide Next;
    var a: seq<State> :| IsPath(a) && a[0] == s && a[|a| - 1] == t;
    var b: seq<State> :| IsPath(b) && b[0] == t && b[|b| - 1] == u;
    var path := a + b[1..];
    forall i: nat | i + 1 < |path|
      ensures Next(path[i], path[i + 1])
    {
      if i + 1 < |a| {
        assert Next(a[i], a[i + 1]);
      } else {
        var k := i + 1 - |a|;
        assert Next(b[k], b[k + 1]);
      }
    }
    assert IsPath(path) && path[0] == s && path[|path| - 1] == u;
  }

  lemma {:induction false} PathKeepsInv(path: seq<State>, j: nat)
    requires IsPath(path) && Inv(path[0]) && j < |path|
    ensures Inv(path[j]) && Evolves(path[0], path[j])
  {
    hide Inv, Next;
    if j > 0 {
      var i := j - 1;
      PathKeepsInv(path, i);
      assert Next(path[i], path[i + 1]);
      NextKeepsInv(path[i], path[j]);
      EvolvesTrans(path[0], path[i], path[j]);
    } else {
      EvolvesItself(path[0]);
    }
  }

  lemma EvolvesItself(s: State)
    ensures Evolves(s, s)
  {
  }

  lemma ReachedKeepsInv(s: State, t: State)
    requires Inv(s) && Reaches(s, t)
    ensures Inv(t) && Evolves(s, t)
  {
    hide Inv;
    var path: seq<State> :| IsPath(path) && path[0] == s && path[|path| - 1] == t;
    PathKeepsInv(path, |path| - 1);
  }

  // A run of the writer side from a fresh file, kills and reopens included.
  ghost predicate IsRun(run: seq<State>) {
    && |run| > 0 && Init(run[0])
    && forall i: nat :: i + 1 < |run| ==> Next(run[i], run[i + 1])
  }

  lemma {:induction false} RunKeepsInv(run: seq<State>, j: nat)
    requires IsRun(run) && j < |run|
    ensures Inv(run[j])
  {
    if j == 0 {
      InitKeepsInv(run[0]);
    } else {
      var i := j - 1;
      RunKeepsInv(run, i);
      assert Next(run[i], run[i + 1]);
      NextKeepsInv(run[i], run[i + 1]);
    }
  }

  lemma {:induction false} RunEvolves(run: seq<State>, i: nat, j: nat)
    requires IsRun(run) && i <= j < |run|
    ensures Evolves(run[i], run[j])
    decreases j
  {
    if i < j {
      var k := j - 1;
      RunEvolves(run, i, k);
      assert Next(run[k], run[k + 1]);
      NextEvolves(run, k);
      EvolvesTrans(run[i], run[k], run[j]);
    }
  }

  lemma NextEvolves(run: seq<State>, k: nat)
    requires IsRun(run) && k + 1 < |run|
    ensures Evolves(run[k], run[k + 1])
  {
    RunKeepsInv(run, k);
    NextKeepsInv(run[k], run[k + 1]);
  }

  // Over any run: two moments that show the same even `seq` show the same
  // epoch and rate, and later epochs are never smaller.
  lemma EvenSeqNamesOneFormat(run: seq<State>, i: nat, j: nat)
    requires IsRun(run) && i <= j < |run|
    ensures run[i].h.epoch <= run[j].h.epoch && run[i].h.seqno <= run[j].h.seqno
    ensures run[i].h.seqno == run[j].h.seqno && run[i].h.seqno % 2 == 0 ==>
              run[i].h.epoch == run[j].h.epoch && run[i].h.rate == run[j].h.rate
  {
    RunEvolves(run, i, j);
    if run[i].h.seqno == run[j].h.seqno && run[i].h.seqno % 2 == 0 {
      RunKeepsInv(run, i);
      RunKeepsInv(run, j);
      SameSeqSameFormat(run[i], run[j]);
    }
  }

  // Over any run: a chunk slot a dead writer left behind carries an older
  // epoch than the header by the time a published chunk follows it.
  lemma AbandonedStaysOlder(run: seq<State>, j: nat, n: nat)
    requires IsRun(run) && j < |run|
    requires n in run[j].abandoned && n < run[j].h.chunksWritten
    ensures n < |run[j].chunkLog| && run[j].chunkLog[n].epoch < run[j].h.epoch
  {
    RunKeepsInv(run, j);
  }
}
