/**
  The writer's calls, run store by store until the writer is idle again: what a
  call that is not cut short leaves in the ring.
*/
module TapWriter {
  import opened Wrappers
  import opened TapProtocol
  import opened TapReader

  // The stores a call still has to do.
  function StoresLeft(p: Phase): nat {
    match p
    case Dead => 0
    case Idle => 0
    case Changing(done, _, job) =>
      (if done < 4 then 4 - done else 0) + 1 + (if job.Some? then CommitStores(job.value) else 0)
    case Committing(chunk, stored) => if stored < CommitStores(chunk) then CommitStores(chunk) - stored else 0
  }

  // What a call that starts a new epoch iff `change` and then appends `job`
  // must leave behind, wherever the writer is in it.
  ghost predicate OnTheWay(s0: State, s: State, change: bool, rate: nat, job: Option<Chunk>) {
    var e1, q1 := s0.h.epoch + (if change then 1 else 0), s0.w.seqno + (if change then 2 else 0);
    && s.abandoned == s0.abandoned
    && match s.w.phase
       case Dead => false
       case Changing(done, r, j) =>
         && change && done <= 3 && r == rate && j == job
         && s.frameLog == s0.frameLog && s.chunkLog == s0.chunkLog && s.formats == s0.formats
         && s.records == s0.records
         && s.h.epoch == s0.h.epoch + (if done >= 2 then 1 else 0)
         && s.w.seqno == s0.w.seqno + (if done >= 1 then 1 else 0)
         && (done == 3 ==> s.h.rate == rate)
       case Committing(c, _) =>
         && job == Some(c)
         && s.frameLog == s0.frameLog && s.chunkLog == s0.chunkLog
         && s.formats == Formats(s0, change, rate)
         && s.h.epoch == e1 && s.h.seqno == q1
       case Idle =>
         && s.h.epoch == e1 && s.h.seqno == q1
         && s.formats == Formats(s0, change, rate)
         && match job
            case None => s.frameLog == s0.frameLog && s.chunkLog == s0.chunkLog && s.records == s0.records
            case Some(c) =>
              && s.frameLog == s0.frameLog + c.frames
              && s.chunkLog == s0.chunkLog + [Record(|s0.frameLog|, c.tEnd, |c.frames|, e1)]
              && s.h.framesWritten == s.h.framesReserved == |s.frameLog|
              && s.h.chunksWritten == s.h.chunksReserved == |s.chunkLog|
  }

  function Formats(s0: State, change: bool, rate: nat): seq<Format> {
    if change then s0.formats + [Format(s0.h.epoch + 1, rate)] else s0.formats
  }

  lemma StoreStaysOnTheWay(s0: State, s: State, change: bool, rate: nat, job: Option<Chunk>)
    requires Inv(s) && OnTheWay(s0, s, change, rate, job)
    requires s.w.phase.Changing? || s.w.phase.Committing?
    ensures OnTheWay(s0, Apply(s, Store), change, rate, job)
    ensures StoresLeft(Apply(s, Store).w.phase) < StoresLeft(s.w.phase)
  {
  }

  // The rest of a call's stores.
  method Finish(tap: Tap, ghost s0: State, ghost change: bool, ghost rate: nat, ghost job: Option<Chunk>)
    requires Inv(tap.st) && OnTheWay(s0, tap.st, change, rate, job)
    modifies tap
    ensures Inv(tap.st) && tap.st.w.phase.Idle? && OnTheWay(s0, tap.st, change, rate, job)
    ensures Evolves(old(tap.st), tap.st) && tap.st.w.stream == old(tap.st).w.stream && tap.st.w.rate == old(tap.st).w.rate
  {
    hide Inv;
    while !tap.st.w.phase.Idle?
      invariant Inv(tap.st) && OnTheWay(s0, tap.st, change, rate, job)
      invariant Evolves(old(tap.st), tap.st)
      invariant tap.st.w.stream == old(tap.st).w.stream && tap.st.w.rate == old(tap.st).w.rate
      decreases StoresLeft(tap.st.w.phase)
    {
      ghost var before := tap.st;
      StepKeepsInv(before, Store);
      StoreStaysOnTheWay(s0, before, change, rate, job);
      InvIsSized(before);
      tap.st := Apply(tap.st, Store);
      EvolvesTrans(old(tap.st), before, tap.st);
    }
  }

  lemma InvIsSized(s: State)
    requires Inv(s)
    ensures Sized(s)
  {
  }

  lemma IdleIsEven(s: State)
    requires Inv(s) && s.w.phase.Idle?
    ensures s.w.seqno == s.h.seqno && s.w.epoch == s.h.epoch
  {
  }

  // Appends the frames whose last one plays at `tEnd`. Another stream or rate
  // than the current one starts a new epoch first; only the newest frames of
  // a chunk larger than the ring are kept.
  method Commit(tap: Tap, stream: nat, rate: nat, stereo: seq<Frame>, tEnd: int)
    requires Inv(tap.st) && tap.st.w.phase.Idle?
    modifies tap
    ensures Inv(tap.st) && tap.st.w.phase.Idle? && Evolves(old(tap.st), tap.st)
    ensures tap.st.w.stream == stream && tap.st.w.rate == rate
    ensures var s0, s := old(tap.st), tap.st;
      var kept := if |stereo| > s0.frameCapacity then stereo[|stereo| - s0.frameCapacity..] else stereo;
      var change := stream != s0.w.stream || rate != s0.w.rate;
      && s.h.epoch == s0.h.epoch + (if change then 1 else 0)
      && s.h.seqno == s0.h.seqno + (if change then 2 else 0)
      && s.formats == Formats(s0, change, rate)
      && s.frameLog == s0.frameLog + kept
      && s.abandoned == s0.abandoned
      && s.chunkLog == (if kept == [] then s0.chunkLog
                        else s0.chunkLog + [Record(|s0.frameLog|, tEnd, |kept|, s.h.epoch)])
      && (kept != [] ==> s.h.framesWritten == |s.frameLog| && s.h.chunksWritten == |s.chunkLog|)
  {
    ghost var s0 := tap.st;
    var step := Step.Commit(stream, rate, stereo, tEnd);
    StepKeepsInv(s0, step);
    InvIsSized(s0);
    ghost var kept := Newest(stereo, s0.frameCapacity);
    hide Inv, OnTheWay, Apply, Evolves, Formats, CommitStores, Sized;
    ghost var change := stream != s0.w.stream || rate != s0.w.rate;
    ghost var job := if kept == [] then None else Some(Chunk(kept, tEnd));
    CommitStarts(s0, stream, rate, stereo, tEnd);
    IdleIsEven(s0);
    tap.st := Apply(tap.st, step);
    ghost var begun := tap.st;
    Finish(tap, s0, change, rate, job);
    EvolvesTrans(s0, begun, tap.st);
    CallIsDone(s0, tap.st, change, rate, job);
  }

  lemma CommitStarts(s0: State, stream: nat, rate: nat, stereo: seq<Frame>, tEnd: int)
    requires Inv(s0) && s0.w.phase.Idle?
    ensures var kept := Newest(stereo, s0.frameCapacity);
      var s := Apply(s0, Step.Commit(stream, rate, stereo, tEnd));
      && s.w.stream == stream && s.w.rate == rate
      && OnTheWay(s0, s, stream != s0.w.stream || rate != s0.w.rate, rate,
                  if kept == [] then None else Some(Chunk(kept, tEnd)))
  {
    IdleIsEven(s0);
    InvIsSized(s0);
    hide Inv;
  }

  lemma CallIsDone(s0: State, s: State, change: bool, rate: nat, job: Option<Chunk>)
    requires OnTheWay(s0, s, change, rate, job) && s.w.phase.Idle?
    ensures s.h.epoch == s0.h.epoch + (if change then 1 else 0)
    ensures s.h.seqno == s0.w.seqno + (if change then 2 else 0)
    ensures s.formats == Formats(s0, change, rate) && s.abandoned == s0.abandoned
    ensures job.None? ==> s.frameLog == s0.frameLog && s.chunkLog == s0.chunkLog && s.records == s0.records
    ensures job.Some? ==> var c := job.value;
      && s.frameLog == s0.frameLog + c.frames
      && s.chunkLog == s0.chunkLog + [Record(|s0.frameLog|, c.tEnd, |c.frames|, s.h.epoch)]
      && s.h.framesWritten == |s.frameLog| && s.h.chunksWritten == |s.chunkLog|
  {
  }

  // Starts a new epoch; `end_stream` is the stream 0 at rate 0.
  method BeginStream(tap: Tap, stream: nat, rate: nat)
    requires Inv(tap.st) && tap.st.w.phase.Idle?
    modifies tap
    ensures Inv(tap.st) && tap.st.w.phase.Idle? && Evolves(old(tap.st), tap.st)
    ensures tap.st.w.stream == stream && tap.st.w.rate == rate
    ensures var s0, s := old(tap.st), tap.st;
      && s.h.epoch == s0.h.epoch + 1 && s.h.seqno == s0.h.seqno + 2
      && s.formats == s0.formats + [Format(s0.h.epoch + 1, rate)]
      && s.frameLog == s0.frameLog && s.chunkLog == s0.chunkLog && s.abandoned == s0.abandoned
  {
    ghost var s0 := tap.st;
    var step := Step.BeginStream(stream, rate);
    hide Inv, OnTheWay, Apply, Evolves, Sized;
    StreamStarts(s0, stream, rate);
    StepKeepsInv(s0, step);
    InvIsSized(s0);
    IdleIsEven(s0);
    tap.st := Apply(tap.st, step);
    ghost var begun := tap.st;
    Finish(tap, s0, true, rate, None);
    EvolvesTrans(s0, begun, tap.st);
    CallIsDone(s0, tap.st, true, rate, None);
  }

  lemma StreamStarts(s0: State, stream: nat, rate: nat)
    requires Inv(s0) && s0.w.phase.Idle?
    ensures var s := Apply(s0, Step.BeginStream(stream, rate));
      s.w.stream == stream && s.w.rate == rate && OnTheWay(s0, s, true, rate, None)
  {
    IdleIsEven(s0);
    InvIsSized(s0);
    hide Inv;
  }

  // Opens a file a dead writer left, wherever it died: counters go on from
  // the reserved ones and every record in the ring belongs to an older epoch.
  method Reopen(tap: Tap)
    requires Inv(tap.st) && tap.st.w.phase.Dead?
    modifies tap
    ensures Inv(tap.st) && tap.st.w.phase.Idle? && Evolves(old(tap.st), tap.st)
    ensures tap.st.w.frames == old(tap.st).h.framesReserved == tap.st.h.framesReserved
    ensures tap.st.w.chunks == old(tap.st).h.chunksReserved == tap.st.h.chunksReserved
    ensures tap.st.h.epoch == old(tap.st).h.epoch + 1 && tap.st.h.seqno % 2 == 0
    ensures tap.st.h.rate == 0 && AllLoggedBefore(tap.st, tap.st.h.epoch)
    ensures tap.st.records == old(tap.st).records && forall r :: r in tap.st.records ==> r.epoch < tap.st.h.epoch
  {
    StepKeepsInv(tap.st, Step.Reopen);
    tap.st := Apply(tap.st, Step.Reopen);
    ghost var s0 := tap.st;
    Finish(tap, s0, true, 0, None);
    ReopenedIsNewest(old(tap.st), s0, tap.st);
  }

  lemma ReopenedIsNewest(dead: State, s0: State, s: State)
    requires Inv(dead) && dead.w.phase.Dead? && s0 == ReopenFile(dead)
    requires Inv(s0) && Inv(s) && s.w.phase.Idle? && Evolves(s0, s)
    requires OnTheWay(s0, s, true, 0, None)
    ensures Evolves(dead, s)
    ensures s.w.frames == dead.h.framesReserved == s.h.framesReserved
    ensures s.w.chunks == dead.h.chunksReserved == s.h.chunksReserved
    ensures s.h.epoch == dead.h.epoch + 1 && s.h.seqno % 2 == 0 && s.h.rate == 0
    ensures AllLoggedBefore(s, s.h.epoch)
    ensures s.records == dead.records && forall r :: r in s.records ==> r.epoch < s.h.epoch
  {
    ReopenKeepsInv(dead);
    EvolvesTrans(dead, s0, s);
    LoggedAtMost(s0);
    assert s.formats[|s.formats| - 1] == Format(s0.h.epoch + 1, 0);
  }

  lemma LoggedAtMost(s: State)
    requires Inv(s)
    ensures AllLoggedBefore(s, s.h.epoch + 1)
  {
    forall n: nat | n < |s.chunkLog|
      ensures s.chunkLog[n].epoch < s.h.epoch + 1
    {
      assert n in s.abandoned || Whole(s, n);
    }
  }
}
