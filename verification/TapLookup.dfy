/**
  Which frames a read answers with, as a function of the chunk records alone:
  the search and the walk back of the reader on records that are not torn, and
  the direct lookup in the flat history that it refines.
*/
module TapLookup {
  import opened TapProtocol

  datatype Query = Query(latest: bool, tEnd: int, frames: nat)

  // The records up to the newest published one, the oldest index still kept,
  // and the format the reader loaded.
  datatype View = View(log: seq<Record>, lo: nat, epoch: nat, rate: nat)

  datatype Window = Missing | Found(first: nat, end: nat)

  const LONG_US: int := 100000000

  // Whether `us` is longer than `frames` frames at `rate`.
  predicate LongerThan(us: int, frames: nat, rate: nat) {
    us > 0 && (us > LONG_US || us * rate > frames * 1000000)
  }

  // Frames from a target time to the end of a chunk `dt` microseconds later.
  function Lag(dt: nat, rate: nat): nat {
    ((if dt > LONG_US then LONG_US else dt) * rate + 500000) / 1000000
  }

  ghost predicate ValidView(v: View) { v.lo < |v.log| }

  predicate HasPrev(v: View, n: nat)
    requires v.lo <= n < |v.log|
  {
    n > v.lo && v.log[n - 1].epoch == v.epoch
  }

  function Search(v: View, n: nat, t: int): (r: nat)
    requires v.lo <= n < |v.log|
    ensures v.lo <= r <= n
    ensures v.log[n].tEnd >= t ==> v.log[r].tEnd >= t
  {
    if HasPrev(v, n) && v.log[n - 1].tEnd >= t then Search(v, n - 1, t) else n
  }

  predicate GapBefore(v: View, n: nat)
    requires v.lo < n < |v.log|
  {
    LongerThan(v.log[n].tEnd - v.log[n - 1].tEnd, 2 * v.log[n].frames, v.rate)
  }

  function WalkBack(v: View, n: nat, start: nat): (r: nat)
    requires v.lo <= n < |v.log|
    ensures v.lo <= r <= n
  {
    if v.log[n].start > start && HasPrev(v, n) && !GapBefore(v, n) then WalkBack(v, n - 1, start) else n
  }

  // Whether what lies before record `n` is known not to belong to the window:
  // the epoch, the file's history or a stretch without a gap starts there.
  predicate StartsAt(v: View, n: nat)
    requires v.lo <= n < |v.log|
  {
    if HasPrev(v, n) then GapBefore(v, n) else n > v.lo || v.lo == 0
  }

  function StartOf(end: nat, frames: nat): nat { if end > frames then end - frames else 0 }

  function Clip(low: nat, start: nat, end: nat): nat {
    var first := if low < start then start else low;
    if first > end then end else first
  }

  // The window of `frames` frames ending at `end`, inside record `n`.
  function WindowEnding(v: View, n: nat, end: nat, frames: nat): Window
    requires v.lo <= n < |v.log|
  {
    var start := StartOf(end, frames);
    var low := WalkBack(v, n, start);
    if v.log[low].start > start && !StartsAt(v, low) then Missing
    else Found(Clip(v.log[low].start, start, end), end)
  }

  function Lookup(v: View, q: Query): Window
    requires ValidView(v)
  {
    var last := |v.log| - 1;
    if v.log[last].epoch != v.epoch then Missing else
    var t := if q.latest then v.log[last].tEnd else q.tEnd;
    if v.log[last].tEnd < t then Missing else
    LookupAt(v, if q.latest then last else Search(v, last, t), !q.latest, t, q.frames)
  }

  // The answer once record `n` is known to be the oldest one ending at or
  // after the target time.
  function LookupAt(v: View, n: nat, searched: bool, t: int, frames: nat): Window
    requires v.lo <= n < |v.log|
  {
    if v.log[n].tEnd < t then Missing
    else LookupLag(v, n, searched, t, Lag(v.log[n].tEnd - t, v.rate), frames)
  }

  // The answer `lag` frames back from the end of record `n`.
  function LookupLag(v: View, n: nat, searched: bool, t: int, lag: nat, frames: nat): Window
    requires v.lo <= n < |v.log|
  {
    var best := v.log[n];
    if lag >= best.frames then
      if !(searched && HasPrev(v, n)) || LongerThan(t - v.log[n - 1].tEnd, best.frames, v.rate) then Missing
      else WindowEnding(v, n - 1, best.start, frames)
    else WindowEnding(v, n, best.start + best.frames - lag, frames)
  }

  // ------------------------------------------------- the records consulted

  function Least(a: nat, b: nat): nat { if a < b then a else b }

  // After asking for the record before `n`, the oldest one read being `o`.
  function Peeked(v: View, n: nat, o: nat): nat
    requires v.lo <= n
  {
    if n == v.lo || o < n then o else n - 1
  }

  // The oldest record the search reads.
  function SearchVisits(v: View, n: nat, t: int): (r: nat)
    requires v.lo <= n < |v.log|
    ensures v.lo <= r <= Search(v, n, t)
  {
    var m := Search(v, n, t);
    Peeked(v, m, m)
  }

  // The oldest record read by the end of the walk back from `n`.
  function WalkVisits(v: View, n: nat, start: nat, o: nat): (r: nat)
    requires v.lo <= o <= n < |v.log|
    ensures v.lo <= r <= o
  {
    var w := WalkBack(v, n, start);
    if v.log[w].start > start then Peeked(v, w, Least(o, w)) else Least(o, w)
  }

  // The oldest record read by the time the target is located, or found to be
  // nowhere.
  function LocateVisits(v: View, q: Query): (r: nat)
    requires ValidView(v)
    ensures v.lo <= r < |v.log|
  {
    var last := |v.log| - 1;
    if v.log[last].epoch != v.epoch || q.latest || v.log[last].tEnd < q.tEnd then last
    else SearchVisits(v, last, q.tEnd)
  }

  // The oldest record a read consults: the one its final check must protect.
  function Visited(v: View, q: Query): (r: nat)
    requires ValidView(v)
    ensures v.lo <= r <= LocateVisits(v, q) < |v.log|
  {
    var last := |v.log| - 1;
    var o := LocateVisits(v, q);
    if v.log[last].epoch != v.epoch then o else
    var t := if q.latest then v.log[last].tEnd else q.tEnd;
    if v.log[last].tEnd < t then o else
    VisitedAt(v, if q.latest then last else Search(v, last, t), o, !q.latest, t, q.frames)
  }

  // From record `n` on, the oldest one read so far being `o`.
  function VisitedAt(v: View, n: nat, o: nat, searched: bool, t: int, frames: nat): (r: nat)
    requires v.lo <= o <= n < |v.log| && v.log[n].tEnd >= t && (searched && HasPrev(v, n) ==> o < n)
    ensures v.lo <= r <= o
  {
    var best := v.log[n];
    var lag := Lag(best.tEnd - t, v.rate);
    if lag >= best.frames then
      if !(searched && HasPrev(v, n)) || LongerThan(t - v.log[n - 1].tEnd, best.frames, v.rate) then o
      else WalkVisits(v, n - 1, StartOf(best.start, frames), o)
    else WalkVisits(v, n, StartOf(best.start + best.frames - lag, frames), o)
  }

  // ------------------------------------------------- one epoch, no holes

  // The records of the view's epoch follow each other without a hole.
  ghost predicate Contiguous(v: View) {
    forall n: nat :: v.lo < n < |v.log| && v.log[n - 1].epoch == v.epoch && v.log[n].epoch == v.epoch ==>
      v.log[n - 1].start + v.log[n - 1].frames == v.log[n].start
  }

  // Frame `i` belongs to record `n`, which is of the view's epoch.
  ghost predicate FrameOf(v: View, n: nat, i: nat) {
    && v.lo <= n < |v.log|
    && v.log[n].epoch == v.epoch
    && v.log[n].start <= i < v.log[n].start + v.log[n].frames
  }

  ghost predicate Covered(v: View, i: nat) { exists k: nat :: FrameOf(v, k, i) }

  lemma {:induction false} WalkCovers(v: View, n: nat, start: nat, i: nat)
    requires v.lo <= n < |v.log| && v.log[n].epoch == v.epoch && Contiguous(v)
    requires v.log[WalkBack(v, n, start)].start <= i < v.log[n].start + v.log[n].frames
    ensures Covered(v, i)
  {
    if v.log[n].start <= i {
      assert FrameOf(v, n, i);
    } else {
      WalkCovers(v, n - 1, start, i);
    }
  }

  lemma {:induction false} SearchStaysInEpoch(v: View, n: nat, t: int)
    requires v.lo <= n < |v.log| && v.log[n].epoch == v.epoch
    ensures v.log[Search(v, n, t)].epoch == v.epoch
  {
    if HasPrev(v, n) && v.log[n - 1].tEnd >= t {
      SearchStaysInEpoch(v, n - 1, t);
    }
  }

  // `end` lies inside, or just after, a record of the view's epoch.
  ghost predicate EndsInEpoch(v: View, end: nat) {
    exists n: nat :: v.lo <= n < |v.log| && v.log[n].epoch == v.epoch &&
      v.log[n].start <= end <= v.log[n].start + v.log[n].frames
  }

  // What every found window satisfies: it ends inside record `n`, and all of
  // it belongs to records of the one epoch.
  lemma WindowIsOneEpoch(v: View, n: nat, end: nat, frames: nat)
    requires v.lo <= n < |v.log| && v.log[n].epoch == v.epoch && Contiguous(v)
    requires v.log[n].start <= end <= v.log[n].start + v.log[n].frames
    requires WindowEnding(v, n, end, frames).Found?
    ensures var w := WindowEnding(v, n, end, frames);
      && w.first <= w.end == end <= w.first + frames && EndsInEpoch(v, end)
      && forall i: nat :: w.first <= i < end ==> Covered(v, i)
  {
    var start := StartOf(end, frames);
    var w := WindowEnding(v, n, end, frames);
    forall i: nat | w.first <= i < end
      ensures Covered(v, i)
    {
      WalkCovers(v, n, start, i);
    }
  }

  lemma FoundAtIsOneEpoch(v: View, n: nat, searched: bool, t: int, frames: nat)
    requires v.lo <= n < |v.log| && v.log[n].epoch == v.epoch && Contiguous(v)
    requires LookupAt(v, n, searched, t, frames).Found?
    ensures var w := LookupAt(v, n, searched, t, frames);
      && w.first <= w.end <= w.first + frames && EndsInEpoch(v, w.end)
      && forall i: nat :: w.first <= i < w.end ==> Covered(v, i)
  {
    hide WindowEnding, WalkBack, Lag, LongerThan, EndsInEpoch, Covered;
    var lag := Lag(v.log[n].tEnd - t, v.rate);
    if lag >= v.log[n].frames {
      WindowIsOneEpoch(v, n - 1, v.log[n].start, frames);
    } else {
      WindowIsOneEpoch(v, n, v.log[n].start + v.log[n].frames - lag, frames);
    }
  }

  // Every frame of a found window belongs to a record of the one epoch.
  lemma FoundIsOneEpoch(v: View, q: Query)
    requires ValidView(v) && Contiguous(v) && Lookup(v, q).Found?
    ensures var w := Lookup(v, q);
      && w.first <= w.end <= w.first + q.frames && EndsInEpoch(v, w.end)
      && forall i: nat :: w.first <= i < w.end ==> Covered(v, i)
  {
    var last := |v.log| - 1;
    var t := if q.latest then v.log[last].tEnd else q.tEnd;
    var n := if q.latest then last else Search(v, last, t);
    SearchStaysInEpoch(v, last, t);
    FoundAtIsOneEpoch(v, n, !q.latest, t, q.frames);
  }
}
