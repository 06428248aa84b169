/**
  What a read answers while nothing is stored in the header: on an exact epoch,
  the flat lookup of the history as it stands.
*/
module TapPromise {
  import opened TapProtocol
  import opened TapLookup
  import opened TapReader
  import opened TapFlat

  // The published history, and what the record ring still holds of it.
  function CurrentView(s: State): View
    requires s.h.chunksWritten <= |s.chunkLog|
  {
    View(s.chunkLog[..s.h.chunksWritten], OldestKept(s.h.chunksWritten, s.chunkCapacity), s.h.epoch, s.h.rate)
  }

  // With the header at rest, whatever a reader found out is the current view.
  lemma QuietViewIsCurrent(before: State, seen: State, after: State, view: View)
    requires Answered(before, seen, view) && Evolves(seen, after) && after.h == before.h
    ensures before.h.chunksWritten <= |before.chunkLog| && view == CurrentView(before) && seen.h == before.h
  {
    PublishedIsLogged(before);
    SameSeqSameFormat(before, seen);
    hide Inv;
    assert view.log == before.chunkLog[..before.h.chunksWritten];
  }

  // With the header at rest, published chunks of a stream cannot look absent.
  lemma QuietIsNotNothing(before: State, early: State, after: State)
    requires Inv(before) && after.h == before.h && NothingAt(before, early, after)
    ensures before.h.rate == 0 || before.h.chunksWritten == 0
  {
    hide Inv, Reaches;
    ReachedKeepsInv(before, early);
    ReachedKeepsInv(early, after);
    SameSeqSameFormat(before, early);
  }

  // A window is too old once the writer has reserved more than a ring past it.
  predicate TooOld(s: State, w: Window) {
    w.Found? && s.h.framesReserved > w.first + s.frameCapacity
  }

  // `w` is the answer: its frames after the silence that pads them; no data
  // exactly when there is no window, and a retry exactly when the ring has
  // dropped the window's first frame.
  ghost predicate Answers(s: State, q: Query, w: Window, status: Status, info: Info, out: seq<Frame>) {
    && (status == NoData <==> w == Missing)
    && (status == Retry <==> TooOld(s, w))
    && (status == Ok ==>
          && w.Found? && w.first <= w.end <= |s.frameLog| && w.end - w.first <= q.frames
          && info == Info(s.h.epoch, s.h.rate, w.end)
          && out == Zeros(q.frames - (w.end - w.first)) + s.frameLog[w.first..w.end])
  }

  lemma AnsweredEvolves(before: State, seen: State, view: View)
    requires Inv(before) && Answered(before, seen, view)
    ensures Evolves(before, seen) && |view.log| <= seen.h.chunksWritten && ValidView(view)
    ensures seen.frameCapacity == before.frameCapacity
  {
  }

  lemma SameFrames(before: State, after: State, w: Window)
    requires Evolves(before, after) && w.Found? && w.first <= w.end <= |before.frameLog|
    ensures w.end <= |after.frameLog| && after.frameLog[w.first..w.end] == before.frameLog[w.first..w.end]
  {
  }

  lemma QuietOkAnswers(before: State, after: State, q: Query, info: Info, out: seq<Frame>, view: View, seen: State, early: State)
    requires Inv(before) && after.h == before.h
    requires ReadOutcome(before, after, q, Ok, info, out, view, seen, early)
    ensures before.h.chunksWritten <= |before.chunkLog| && ValidView(CurrentView(before))
    ensures Answers(before, q, Lookup(CurrentView(before), q), Ok, info, out)
  {
    hide Inv, Lookup, Visited, Reaches, Overtaken, CurrentView, ValidView, Snapshot, NothingAt, Evolves;
    QuietViewIsCurrent(before, seen, after, view);
    EvolvesItself(before);
    var w := Lookup(view, q);
    AnsweredEvolves(before, seen, view);
    FoundFits(before, before, seen, view, q);
    SameFrames(before, after, w);
  }

  lemma QuietNoDataAnswers(before: State, after: State, q: Query, info: Info, out: seq<Frame>, view: View, seen: State, early: State)
    requires Inv(before) && after.h == before.h && before.h.rate > 0 && 0 < before.h.chunksWritten <= |before.chunkLog|
    requires 0 < q.frames <= before.frameCapacity
    requires ReadOutcome(before, after, q, NoData, info, out, view, seen, early)
    ensures Answers(before, q, Lookup(CurrentView(before), q), NoData, info, out)
  {
    hide Inv, Lookup, Visited, Reaches, NothingAt;
    if NothingAt(before, early, after) {
      QuietIsNotNothing(before, early, after);
    } else {
      QuietViewIsCurrent(before, seen, after, view);
    }
  }

  lemma QuietRetryAnswers(before: State, after: State, q: Query, info: Info, out: seq<Frame>, view: View, seen: State, early: State)
    requires Inv(before) && after.h == before.h && 0 < before.h.chunksWritten <= |before.chunkLog|
    requires before.h.seqno % 2 == 0 && before.h.chunksReserved == before.h.chunksWritten
    requires ReadOutcome(before, after, q, Retry, info, out, view, seen, early)
    ensures Answers(before, q, Lookup(CurrentView(before), q), Retry, info, out)
  {
    EvolvesItself(after);
    QuietViewIsCurrent(before, after, after, view);
    hide Inv, Lookup, Visited, Reaches, NothingAt;
  }

  // The promise of a read that no store of the header disturbs, no commit
  // having been cut short: it answers from the history as it stands.
  lemma QuietReadIsLookup(before: State, after: State, q: Query, status: Status, info: Info, out: seq<Frame>,
                          view: View, seen: State, early: State)
    requires Inv(before) && after.h == before.h && before.h.rate > 0 && 0 < before.h.chunksWritten <= |before.chunkLog|
    requires before.h.seqno % 2 == 0 && before.h.chunksReserved == before.h.chunksWritten
    requires 0 < q.frames <= before.frameCapacity
    requires ReadOutcome(before, after, q, status, info, out, view, seen, early)
    ensures Answers(before, q, Lookup(CurrentView(before), q), status, info, out)
  {
    hide Inv, Lookup, ReadOutcome, Answers;
    match status
    case Ok => QuietOkAnswers(before, after, q, info, out, view, seen, early);
    case NoData => QuietNoDataAnswers(before, after, q, info, out, view, seen, early);
    case Retry => QuietRetryAnswers(before, after, q, info, out, view, seen, early);
  }

  // The answer is the flat lookup in the current view's epoch from record `a`.
  ghost predicate AnswersFlat(s: State, a: nat, q: Query, status: Status, info: Info, out: seq<Frame>)
    requires s.h.chunksWritten <= |s.chunkLog|
  {
    var v := CurrentView(s);
    && v.lo <= a < |v.log| && v.log[a].start <= EndFrame(v, |v.log| - 1)
    && Answers(s, q, FlatOf(v, a, q), status, info, out)
  }

  // On an exact epoch that is the flat lookup.
  lemma QuietReadIsFlat(before: State, after: State, q: Query, status: Status, info: Info, out: seq<Frame>,
                        view: View, seen: State, early: State, a: nat, origin: int)
    requires before.h.chunksWritten <= |before.chunkLog| && ExactEpoch(CurrentView(before), a, origin)
    requires Inv(before) && after.h == before.h
    requires before.h.seqno % 2 == 0 && before.h.chunksReserved == before.h.chunksWritten
    requires 0 < q.frames <= before.frameCapacity
    requires ReadOutcome(before, after, q, status, info, out, view, seen, early)
    ensures AnswersFlat(before, a, q, status, info, out)
  {
    hide Inv, Lookup, FlatOf, ReadOutcome, Answers;
    LookupIsFlat(CurrentView(before), a, origin, q);
    QuietReadIsLookup(before, after, q, status, info, out, view, seen, early);
  }

  // A ring of at most 100 s at the stream's rate holds no longer chunk: on it
  // every gap-free epoch is exact.
  lemma ShortRingIsExact(before: State, seen: State, view: View, a: nat, origin: int)
    requires Answered(before, seen, view) && GapFree(view, a, origin)
    requires seen.frameCapacity <= 100 * seen.h.rate
    ensures ExactEpoch(view, a, origin)
  {
    SnapshotIsWhole(before, seen, seen, view);
    forall n: nat | a <= n < |view.log|
      ensures view.log[n].frames <= 100 * view.rate
    {
      InEpoch(view, a, origin, n);
      assert Whole(seen, n) && seen.chunkLog[n] == view.log[n];
    }
  }
}
