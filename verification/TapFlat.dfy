/**
  The record walk against a direct lookup in the flat sample history, on an
  epoch without gaps whose chunk end times match their frame counts exactly.
*/
module TapFlat {
  import opened TapLookup

  const SECOND: int := 1000000

  // Records `a` onward are the view's epoch: contiguous, and record n ends at
  // (1000000 * its end frame + origin) / rate.
  ghost predicate GapFree(v: View, a: nat, origin: int) {
    && v.lo <= a < |v.log| && v.rate > 0
    && (a == v.lo || v.log[a - 1].epoch != v.epoch)
    && (forall n: nat :: a <= n < |v.log| ==> ExactRecord(v, n, origin))
    && (forall n: nat :: a < n < |v.log| ==> EndFrame(v, n - 1) == v.log[n].start)
  }

  ghost predicate ExactRecord(v: View, n: nat, origin: int)
    requires n < |v.log|
  {
    && v.log[n].epoch == v.epoch
    && v.log[n].frames > 0
    && v.log[n].tEnd * v.rate == SECOND * EndFrame(v, n) + origin
  }

  // No chunk is over 100 s long, the most the code counts back.
  ghost predicate NoneLong(v: View, a: nat) {
    forall n: nat :: a <= n < |v.log| ==> v.log[n].frames <= 100 * v.rate
  }

  ghost predicate ExactEpoch(v: View, a: nat, origin: int) {
    GapFree(v, a, origin) && NoneLong(v, a)
  }

  function EndFrame(v: View, n: nat): nat
    requires n < |v.log|
  {
    v.log[n].start + v.log[n].frames
  }

  // Frames of the flat history [first, end), the last one playing at `newest`:
  // counted back from the end, to the nearest frame. `known` says whether
  // nothing precedes `first`.
  function FlatLookup(first: nat, end: nat, known: bool, newest: int, rate: nat, q: Query): Window
    requires first <= end
  {
    var t := if q.latest then newest else q.tEnd;
    if newest < t then Missing else FlatBack(first, end, known, Back(newest - t, rate), q.frames)
  }

  // Frames in `us` microseconds, to the nearest.
  function Back(us: nat, rate: nat): nat { (us * rate + SECOND / 2) / SECOND }

  // The window of `frames` frames ending `back` frames before `end`.
  function FlatBack(first: nat, end: nat, known: bool, back: nat, frames: nat): Window
    requires first <= end
  {
    if back >= end - first then Missing else
    var last := end - back;
    var start := StartOf(last, frames);
    if first <= start then Found(start, last)
    else if known then Found(first, last)
    else Missing
  }

  // ------------------------------------------------- the search

  ghost predicate OldestEndingAt(v: View, a: nat, n: nat, t: int) {
    && v.lo <= a <= n < |v.log| && v.log[n].tEnd >= t
    && (n > a ==> v.log[n - 1].tEnd < t)
  }

  lemma {:induction false} SearchFinds(v: View, a: nat, origin: int, n: nat, t: int)
    requires GapFree(v, a, origin) && a <= n < |v.log| && v.log[n].tEnd >= t
    ensures OldestEndingAt(v, a, Search(v, n, t), t)
  {
    assert HasPrev(v, n) <==> n > a by {
      assert n > a ==> ExactRecord(v, n - 1, origin);
    }
    if n > a && v.log[n - 1].tEnd >= t {
      SearchFinds(v, a, origin, n - 1, t);
    }
  }

  // ------------------------------------------------- the walk back

  lemma NoGap(v: View, a: nat, origin: int, n: nat)
    requires ExactEpoch(v, a, origin) && a < n < |v.log|
    ensures HasPrev(v, n) && !GapBefore(v, n)
  {
    assert ExactRecord(v, n, origin) && ExactRecord(v, n - 1, origin);
    var us := v.log[n].tEnd - v.log[n - 1].tEnd;
    assert us * v.rate == SECOND * v.log[n].frames;
    NotLong(us, v.rate, v.log[n].frames);
  }

  lemma {:induction false} WalkFinds(v: View, a: nat, origin: int, n: nat, start: nat)
    requires ExactEpoch(v, a, origin) && a <= n < |v.log|
    ensures var m := WalkBack(v, n, start);
      && a <= m <= n && v.log[m].start <= v.log[n].start
      && (v.log[m].start > start ==> m == a)
  {
    if v.log[n].start > start && n > a {
      NoGap(v, a, origin, n);
      WalkFinds(v, a, origin, n - 1, start);
    } else if n == a {
      assert !HasPrev(v, n);
    }
  }

  lemma {:induction false} StartsInOrder(v: View, a: nat, origin: int, m: nat, n: nat)
    requires GapFree(v, a, origin) && a <= m <= n < |v.log|
    ensures v.log[m].start <= v.log[n].start && EndFrame(v, m) <= EndFrame(v, n)
    decreases n - m
  {
    if m < n {
      StartsInOrder(v, a, origin, m, n - 1);
      assert EndFrame(v, n - 1) == v.log[n].start;
    }
  }

  lemma WindowIsDirect(v: View, a: nat, origin: int, n: nat, last: nat, end: nat, frames: nat)
    requires ExactEpoch(v, a, origin) && a <= n < |v.log|
    requires v.log[n].start <= last <= EndFrame(v, n) && v.log[a].start < last <= end
    ensures WindowEnding(v, n, last, frames) == FlatBack(v.log[a].start, end, a > v.lo || v.lo == 0, end - last, frames)
  {
    var start := StartOf(last, frames);
    var m := WalkBack(v, n, start);
    WalkFinds(v, a, origin, n, start);
    StartsInOrder(v, a, origin, a, m);
    StartsInOrder(v, a, origin, a, n);
    assert !HasPrev(v, a);
  }

  // ------------------------------------------------- the lag

  lemma Scale(x: int, y: int, rate: nat)
    requires x <= y
    ensures x * rate <= y * rate
  {
  }

  // A chunk's worth of time is under 100 s.
  lemma NotLong(us: int, rate: nat, frames: nat)
    requires us * rate <= SECOND * frames && 0 < rate && frames <= 100 * rate
    ensures us <= LONG_US
  {
    if us > LONG_US {
      Scale(LONG_US + 1, us, rate);
    }
  }

  lemma BackShift(k: nat, us: nat, later: nat, rate: nat)
    requires later * rate == SECOND * k + us * rate
    ensures Back(later, rate) == k + Back(us, rate)
  {
  }

  lemma LagWithin(dt: nat, rate: nat, frames: nat)
    requires dt * rate < SECOND * frames && 0 < rate && frames <= 100 * rate
    ensures Lag(dt, rate) == Back(dt, rate) <= frames
  {
    NotLong(dt, rate, frames);
  }

  lemma LagBeyond(dt: nat, rate: nat, frames: nat)
    requires 0 < rate && frames <= 100 * rate
    ensures Lag(dt, rate) >= frames ==> Back(dt, rate) >= frames
    ensures Lag(dt, rate) < frames ==> Lag(dt, rate) == Back(dt, rate)
  {
    if dt > LONG_US {
      Scale(LONG_US, dt, rate);
    }
  }

  // End times newest >= b >= t > p, of end frames end >= eb >= ep, at `rate`.
  lemma Distances(newest: int, b: int, p: int, t: int, end: nat, eb: nat, ep: nat, rate: nat, origin: int)
    requires newest * rate == SECOND * end + origin
    requires b * rate == SECOND * eb + origin
    requires p * rate == SECOND * ep + origin
    ensures (newest - t) * rate == SECOND * (end - eb) + (b - t) * rate
    ensures (t - p) * rate == SECOND * (eb - ep) - (b - t) * rate
    ensures t > p && rate > 0 ==> (t - p) * rate > 0
    ensures b >= t ==> (b - t) * rate >= 0
  {
    assert (newest - t) * rate == newest * rate - t * rate;
    assert (b - t) * rate == b * rate - t * rate;
    assert (t - p) * rate == t * rate - p * rate;
  }

  // Counting back inside the located record is counting back from the end.
  lemma LagIsDistance(v: View, a: nat, origin: int, n: nat, t: int)
    requires ExactEpoch(v, a, origin) && OldestEndingAt(v, a, n, t)
    ensures var last := |v.log| - 1;
      var lag := Lag(v.log[n].tEnd - t, v.rate);
      && EndFrame(v, n) <= EndFrame(v, last) && t <= v.log[last].tEnd
      && var back := Back(v.log[last].tEnd - t, v.rate);
      && (n > a ==> lag <= v.log[n].frames)
      && (lag < v.log[n].frames || n > a ==> back == EndFrame(v, last) - EndFrame(v, n) + lag)
      && (lag >= v.log[n].frames && n == a ==> back >= EndFrame(v, last) - v.log[a].start)
  {
    var last := |v.log| - 1;
    var dt := v.log[n].tEnd - t;
    var k := EndFrame(v, last) - EndFrame(v, n);
    StartsInOrder(v, a, origin, n, last);
    TimesInOrder(v, a, origin, n, last);
    assert ExactRecord(v, n, origin) && ExactRecord(v, last, origin);
    var p := if n > a then n - 1 else n;
    assert ExactRecord(v, p, origin);
    Distances(v.log[last].tEnd, v.log[n].tEnd, v.log[p].tEnd, t, EndFrame(v, last), EndFrame(v, n), EndFrame(v, p), v.rate, origin);
    BackShift(k, dt, v.log[last].tEnd - t, v.rate);
    if n > a {
      LagWithin(dt, v.rate, v.log[n].frames);
    } else {
      LagBeyond(dt, v.rate, v.log[n].frames);
    }
  }

  lemma TimeOrder(x: int, y: int, rate: nat, ex: nat, ey: nat, origin: int)
    requires x * rate == SECOND * ex + origin && y * rate == SECOND * ey + origin
    requires ex <= ey && rate > 0
    ensures x <= y
  {
    if x > y {
      Scale(y + 1, x, rate);
    }
  }

  lemma TimesInOrder(v: View, a: nat, origin: int, m: nat, n: nat)
    requires GapFree(v, a, origin) && a <= m <= n < |v.log|
    ensures v.log[m].tEnd <= v.log[n].tEnd
  {
    StartsInOrder(v, a, origin, m, n);
    InEpoch(v, a, origin, m);
    InEpoch(v, a, origin, n);
    TimeOrder(v.log[m].tEnd, v.log[n].tEnd, v.rate, EndFrame(v, m), EndFrame(v, n), origin) by { hide GapFree; }
  }

  // A search that lands just after a chunk takes that chunk's end.
  lemma JustAfterIsNoGap(v: View, a: nat, origin: int, n: nat, t: int)
    requires ExactEpoch(v, a, origin) && OldestEndingAt(v, a, n, t) && n > a
    ensures HasPrev(v, n) && !LongerThan(t - v.log[n - 1].tEnd, v.log[n].frames, v.rate)
  {
    assert ExactRecord(v, n, origin) && ExactRecord(v, n - 1, origin);
    Distances(v.log[n].tEnd, v.log[n].tEnd, v.log[n - 1].tEnd, t, EndFrame(v, n), EndFrame(v, n), EndFrame(v, n - 1), v.rate, origin);
    NotLong(t - v.log[n - 1].tEnd, v.rate, v.log[n].frames);
  }

  function FlatOf(v: View, a: nat, q: Query): Window
    requires v.lo <= a < |v.log| && v.log[a].start <= EndFrame(v, |v.log| - 1)
  {
    var last := |v.log| - 1;
    FlatLookup(v.log[a].start, EndFrame(v, last), a > v.lo || v.lo == 0, v.log[last].tEnd, v.rate, q)
  }

  lemma EndsAfterStart(v: View, a: nat, origin: int, n: nat)
    requires GapFree(v, a, origin) && a <= n < |v.log|
    ensures v.log[a].start < EndFrame(v, n)
  {
    assert ExactRecord(v, a, origin);
    StartsInOrder(v, a, origin, a, n);
  }

  lemma LagIsFlat(v: View, a: nat, origin: int, n: nat, t: int, lag: nat, back: nat, frames: nat)
    requires ExactEpoch(v, a, origin) && OldestEndingAt(v, a, n, t)
    requires var last := |v.log| - 1;
      && v.log[a].start <= v.log[n].start && EndFrame(v, n) <= EndFrame(v, last)
      && (n > a ==> lag <= v.log[n].frames)
      && (lag < v.log[n].frames || n > a ==> back == EndFrame(v, last) - EndFrame(v, n) + lag)
      && (lag >= v.log[n].frames && n == a ==> back >= EndFrame(v, last) - v.log[a].start)
    ensures LookupLag(v, n, true, t, lag, frames)
            == FlatBack(v.log[a].start, EndFrame(v, |v.log| - 1), a > v.lo || v.lo == 0, back, frames)
  {
    hide GapFree, NoneLong, LongerThan, WindowEnding;
    var end := EndFrame(v, |v.log| - 1);
    if lag < v.log[n].frames {
      WindowIsDirect(v, a, origin, n, EndFrame(v, n) - lag, end, frames);
    } else if n > a {
      JustAfterIsNoGap(v, a, origin, n, t);
      Adjacent(v, a, origin, n);
      EndsAfterStart(v, a, origin, n - 1);
      WindowIsDirect(v, a, origin, n - 1, v.log[n].start, end, frames);
    } else {
      NoPrev(v, a, origin);
    }
  }

  lemma Adjacent(v: View, a: nat, origin: int, n: nat)
    requires GapFree(v, a, origin) && a < n < |v.log|
    ensures EndFrame(v, n - 1) == v.log[n].start
  {
  }

  lemma InEpoch(v: View, a: nat, origin: int, n: nat)
    requires GapFree(v, a, origin) && a <= n < |v.log|
    ensures ExactRecord(v, n, origin)
  {
  }

  lemma NoPrev(v: View, a: nat, origin: int)
    requires GapFree(v, a, origin)
    ensures !HasPrev(v, a)
  {
  }

  lemma LocatedIsFlat(v: View, a: nat, origin: int, n: nat, q: Query)
    requires ExactEpoch(v, a, origin) && OldestEndingAt(v, a, n, q.tEnd) && !q.latest
    requires q.tEnd <= v.log[|v.log| - 1].tEnd && v.log[a].start <= EndFrame(v, |v.log| - 1)
    ensures LookupAt(v, n, true, q.tEnd, q.frames) == FlatOf(v, a, q)
  {
    hide GapFree, NoneLong, ExactRecord, LongerThan, LookupLag, FlatBack;
    var last := |v.log| - 1;
    var lag, back := Lag(v.log[n].tEnd - q.tEnd, v.rate), Back(v.log[last].tEnd - q.tEnd, v.rate);
    StartsInOrder(v, a, origin, a, n);
    LagIsDistance(v, a, origin, n, q.tEnd);
    LagIsFlat(v, a, origin, n, q.tEnd, lag, back, q.frames);
  }

  // The record walk is the direct lookup.
  lemma LookupIsFlat(v: View, a: nat, origin: int, q: Query)
    requires ExactEpoch(v, a, origin)
    ensures v.log[a].start <= EndFrame(v, |v.log| - 1) && Lookup(v, q) == FlatOf(v, a, q)
  {
    var last := |v.log| - 1;
    EndsAfterStart(v, a, origin, last);
    InEpoch(v, a, origin, last);
    if q.latest {
      LatestIsFlat(v, a, origin, q);
    } else if q.tEnd <= v.log[last].tEnd {
      hide LongerThan, Lag, Back, LookupAt, FlatBack, ExactRecord;
      SearchFinds(v, a, origin, last, q.tEnd);
      LocatedIsFlat(v, a, origin, Search(v, last, q.tEnd), q);
    }
  }

  lemma LatestIsFlat(v: View, a: nat, origin: int, q: Query)
    requires ExactEpoch(v, a, origin) && v.lo <= a < |v.log| && q.latest
    ensures v.log[a].start <= EndFrame(v, |v.log| - 1) && Lookup(v, q) == FlatOf(v, a, q)
  {
    hide GapFree, NoneLong, LongerThan, WindowEnding, FlatBack;
    var last := |v.log| - 1;
    EndsAfterStart(v, a, origin, last);
    InEpoch(v, a, origin, last);
    StartsInOrder(v, a, origin, a, last);
    WindowIsDirect(v, a, origin, last, EndFrame(v, last), EndFrame(v, last), q.frames);
  }

  // The window ends within half a frame of the target time.
  lemma FlatEndsNearTarget(first: nat, end: nat, known: bool, newest: int, rate: nat, origin: int, q: Query)
    requires first <= end && !q.latest && newest * rate == SECOND * end + origin
    requires FlatLookup(first, end, known, newest, rate, q).Found?
    ensures var w := FlatLookup(first, end, known, newest, rate, q);
      && -SECOND / 2 <= SECOND * w.end + origin - q.tEnd * rate <= SECOND / 2
      && first <= w.first <= w.end <= end
      && (w.end - w.first < q.frames ==> (known && w.first == first) || w.first == 0)
  {
    assert (newest - q.tEnd) * rate == newest * rate - q.tEnd * rate;
  }

  // The whole promise of a timed read on an exact epoch: it ends within half a
  // frame of the target and is silent only before the epoch's first frame.
  lemma ReadEndsNearTarget(v: View, a: nat, origin: int, q: Query)
    requires ExactEpoch(v, a, origin) && !q.latest && Lookup(v, q).Found?
    ensures var w := Lookup(v, q);
      && -SECOND / 2 <= SECOND * w.end + origin - q.tEnd * v.rate <= SECOND / 2
      && v.log[a].start <= w.first <= w.end <= EndFrame(v, |v.log| - 1)
      && (w.end - w.first < q.frames ==> w.first == v.log[a].start || w.first == 0)
  {
    hide LongerThan, Lag, FlatLookup, Lookup;
    var last := |v.log| - 1;
    LookupIsFlat(v, a, origin, q);
    assert ExactRecord(v, last, origin);
    FlatEndsNearTarget(v.log[a].start, EndFrame(v, last), a > v.lo || v.lo == 0, v.log[last].tEnd, v.rate, origin, q);
  }

  // ------------------------------------------------- chunks over 100 s

  lemma SearchIs(v: View, a: nat, origin: int, n: nat, t: int)
    requires GapFree(v, a, origin) && OldestEndingAt(v, a, n, t)
    ensures var last := |v.log| - 1;
      v.log[last].tEnd >= t && Search(v, last, t) == n
  {
    var last := |v.log| - 1;
    TimesInOrder(v, a, origin, n, last);
    SearchFinds(v, a, origin, last, t);
    OneIsOldest(v, a, origin, n, Search(v, last, t), t);
    OneIsOldest(v, a, origin, Search(v, last, t), n, t);
  }

  lemma OneIsOldest(v: View, a: nat, origin: int, m: nat, n: nat, t: int)
    requires GapFree(v, a, origin) && OldestEndingAt(v, a, m, t) && OldestEndingAt(v, a, n, t)
    ensures m >= n
  {
    hide GapFree;
    if m < n {
      TimesInOrder(v, a, origin, m, n - 1);
    }
  }

  // A timed query the newest record has reached asks from the record found.
  lemma LookupSearches(v: View, q: Query, n: nat)
    requires v.lo <= n < |v.log| && !q.latest
    requires var last := |v.log| - 1;
      v.log[last].epoch == v.epoch && v.log[last].tEnd >= q.tEnd && Search(v, last, q.tEnd) == n
    ensures Lookup(v, q) == LookupAt(v, n, true, q.tEnd, q.frames)
  {
    hide LookupAt, Search;
  }

  // `k` seconds before the end of record `n` are `k` seconds' frames more than
  // what follows the record.
  lemma SecondsBack(v: View, a: nat, origin: int, n: nat, k: nat)
    requires GapFree(v, a, origin) && a <= n < |v.log|
    ensures var last := |v.log| - 1;
      && EndFrame(v, n) <= EndFrame(v, last) && v.log[n].tEnd <= v.log[last].tEnd
      && Back(v.log[last].tEnd - (v.log[n].tEnd - k * SECOND), v.rate) == EndFrame(v, last) - EndFrame(v, n) + k * v.rate
  {
    var last := |v.log| - 1;
    hide GapFree, EndFrame, Back;
    TimesInOrder(v, a, origin, n, last);
    StartsInOrder(v, a, origin, n, last);
    TimeOf(v, a, origin, n);
    TimeOf(v, a, origin, last);
    SecondsScaled(v.log[last].tEnd, v.log[n].tEnd, k, v.rate, EndFrame(v, last), EndFrame(v, n), origin);
    BackIs(v.log[last].tEnd - (v.log[n].tEnd - k * SECOND), v.rate, EndFrame(v, last) - EndFrame(v, n) + k * v.rate);
  }

  lemma TimeOf(v: View, a: nat, origin: int, n: nat)
    requires GapFree(v, a, origin) && a <= n < |v.log|
    ensures v.log[n].tEnd * v.rate == SECOND * EndFrame(v, n) + origin
  {
    InEpoch(v, a, origin, n);
  }

  lemma SecondsScaled(x: int, y: int, k: nat, rate: nat, ex: int, ey: int, origin: int)
    requires x * rate == SECOND * ex + origin && y * rate == SECOND * ey + origin
    ensures (x - (y - k * SECOND)) * rate == SECOND * (ex - ey + k * rate)
  {
    DifferenceScaled(x, y - k * SECOND, rate);
    DifferenceScaled(y, k * SECOND, rate);
    assert k * SECOND * rate == SECOND * (k * rate);
  }

  lemma DifferenceScaled(x: int, y: int, rate: int)
    ensures (x - y) * rate == x * rate - y * rate
  {
  }

  lemma BackIs(us: nat, rate: nat, frames: nat)
    requires us * rate == SECOND * frames
    ensures Back(us, rate) == frames
  {
  }

  // A long chunk counts as a gap, so the walk stops at it: with another chunk
  // before it, a window that reaches there is cut.
  lemma LongChunkCutsWindow(v: View, a: nat, origin: int, n: nat)
    requires GapFree(v, a, origin) && a < n < |v.log| && v.log[n].frames > 100 * v.rate
    ensures v.log[a].start <= EndFrame(v, |v.log| - 1)
    ensures exists q: Query :: Lookup(v, q) != FlatOf(v, a, q)
  {
    hide *;
    EndsAfterStart(v, a, origin, |v.log| - 1);
    var q := Query(false, v.log[n].tEnd - SECOND, v.log[n].frames - v.rate + 1);
    WindowIsCut(v, a, origin, n, q);
  }

  lemma WindowIsCut(v: View, a: nat, origin: int, n: nat, q: Query)
    requires GapFree(v, a, origin) && a < n < |v.log| && v.log[n].frames > 100 * v.rate
    requires q == Query(false, v.log[n].tEnd - SECOND, v.log[n].frames - v.rate + 1)
    ensures v.log[a].start <= EndFrame(v, |v.log| - 1)
    ensures Lookup(v, q) != FlatOf(v, a, q)
  {
    hide ExactRecord, Search, Back, Lag, WindowEnding, LookupAt, LookupLag, LongerThan, Lookup, FlatLookup;
    var last := |v.log| - 1;
    BoundsGap(v, a, origin, n);
    SearchIs(v, a, origin, n, q.tEnd);
    SecondsBack(v, a, origin, n, 1);
    EndsAfterStart(v, a, origin, last);
    EndsAfterStart(v, a, origin, n - 1);
    Adjacent(v, a, origin, n);
    NewestInEpoch(v, a, origin);
    hide GapFree;
    LookupSearches(v, q, n);
    CutWindow(v, n, q.tEnd, q.frames);
    UncutFlat(v, a, n, q);
  }

  lemma UncutFlat(v: View, a: nat, n: nat, q: Query)
    requires v.lo <= a < n < |v.log| && v.log[a].start < v.log[n].start && !q.latest
    requires v.log[n].frames > 100 * v.rate && q.frames == v.log[n].frames - v.rate + 1
    requires var last := |v.log| - 1;
      && EndFrame(v, n) <= EndFrame(v, last) && q.tEnd <= v.log[last].tEnd
      && Back(v.log[last].tEnd - q.tEnd, v.rate) == EndFrame(v, last) - EndFrame(v, n) + v.rate
    ensures FlatOf(v, a, q) == Found(v.log[n].start - 1, EndFrame(v, n) - v.rate)
  {
    hide Back;
  }

  lemma BoundsGap(v: View, a: nat, origin: int, n: nat)
    requires GapFree(v, a, origin) && a < n < |v.log| && v.log[n].frames > 100 * v.rate
    ensures HasPrev(v, n) && GapBefore(v, n) && OldestEndingAt(v, a, n, v.log[n].tEnd - SECOND)
  {
    InEpoch(v, a, origin, n);
    InEpoch(v, a, origin, n - 1);
    Adjacent(v, a, origin, n);
    hide GapFree;
    var us := v.log[n].tEnd - v.log[n - 1].tEnd;
    DifferenceScaled(v.log[n].tEnd, v.log[n - 1].tEnd, v.rate);
    IsLong(us, v.rate, v.log[n].frames);
  }

  lemma IsLong(us: int, rate: nat, frames: nat)
    requires us * rate == SECOND * frames && frames > 100 * rate && rate > 0
    ensures us > LONG_US
  {
    if us <= LONG_US {
      Scale(us, LONG_US, rate);
    }
  }

  lemma CutWindow(v: View, n: nat, t: int, frames: nat)
    requires v.lo < n < |v.log| && v.rate > 0 && HasPrev(v, n) && GapBefore(v, n)
    requires t == v.log[n].tEnd - SECOND && v.log[n].frames > 100 * v.rate
    requires frames == v.log[n].frames - v.rate + 1 && v.log[n].start > 0
    ensures LookupAt(v, n, true, t, frames) == Found(v.log[n].start, EndFrame(v, n) - v.rate)
  {
    assert Lag(SECOND, v.rate) == v.rate;
    var end := EndFrame(v, n) - v.rate;
    assert StartOf(end, frames) == v.log[n].start - 1;
    assert WalkBack(v, n, v.log[n].start - 1) == n;
  }

  // The first chunk of the epoch, when long: 101 s back, the walk counts 100 s.
  lemma LongChunkIsMisplaced(v: View, a: nat, origin: int)
    requires GapFree(v, a, origin) && v.log[a].frames > 100 * v.rate
    ensures v.log[a].start <= EndFrame(v, |v.log| - 1)
    ensures exists q: Query :: Lookup(v, q) != FlatOf(v, a, q)
  {
    EndsAfterStart(v, a, origin, |v.log| - 1);
    hide *;
    WindowIsMisplaced(v, a, origin, Query(false, v.log[a].tEnd - 101 * SECOND, 1));
  }

  lemma WindowIsMisplaced(v: View, a: nat, origin: int, q: Query)
    requires GapFree(v, a, origin) && v.log[a].frames > 100 * v.rate
    requires q == Query(false, v.log[a].tEnd - 101 * SECOND, 1)
    ensures v.log[a].start <= EndFrame(v, |v.log| - 1)
    ensures Lookup(v, q) != FlatOf(v, a, q)
  {
    hide ExactRecord, Search, Back, Lag, WindowEnding, LookupAt, LookupLag, LongerThan, Lookup, FlatLookup;
    SearchIs(v, a, origin, a, q.tEnd);
    SecondsBack(v, a, origin, a, 101);
    EndsAfterStart(v, a, origin, |v.log| - 1);
    NewestInEpoch(v, a, origin);
    hide GapFree;
    LookupSearches(v, q, a);
    MisplacedWindow(v, a, q.tEnd);
    MisplacedFlat(v, a, q);
  }

  lemma NewestInEpoch(v: View, a: nat, origin: int)
    requires GapFree(v, a, origin)
    ensures v.log[|v.log| - 1].epoch == v.epoch && v.rate > 0
  {
    InEpoch(v, a, origin, |v.log| - 1);
  }

  lemma MisplacedFlat(v: View, a: nat, q: Query)
    requires v.lo <= a < |v.log| && v.log[a].start <= EndFrame(v, |v.log| - 1) && !q.latest
    requires var last := |v.log| - 1;
      && q.tEnd <= v.log[last].tEnd
      && Back(v.log[last].tEnd - q.tEnd, v.rate) == EndFrame(v, last) - EndFrame(v, a) + 101 * v.rate
    ensures FlatOf(v, a, q).Found? ==> FlatOf(v, a, q).end == EndFrame(v, a) - 101 * v.rate
  {
    hide Back;
  }

  lemma MisplacedWindow(v: View, a: nat, t: int)
    requires v.lo <= a < |v.log| && v.rate > 0 && v.log[a].frames > 100 * v.rate
    requires t == v.log[a].tEnd - 101 * SECOND
    ensures LookupAt(v, a, true, t, 1).Found? && LookupAt(v, a, true, t, 1).end == EndFrame(v, a) - 100 * v.rate
  {
    LagOf101(v.rate);
    var end := EndFrame(v, a) - 100 * v.rate;
    assert WalkBack(v, a, StartOf(end, 1)) == a;
  }

  lemma LagOf101(rate: nat)
    ensures Lag(101 * SECOND, rate) == 100 * rate
  {
  }

  // On a gap-free epoch the record walk is the direct lookup for every query
  // exactly when no chunk is over 100 s long.
  lemma WalkIsDirectIffNoneLong(v: View, a: nat, origin: int)
    requires GapFree(v, a, origin)
    ensures v.log[a].start <= EndFrame(v, |v.log| - 1)
    ensures (forall q: Query :: Lookup(v, q) == FlatOf(v, a, q)) <==> NoneLong(v, a)
  {
    EndsAfterStart(v, a, origin, |v.log| - 1);
    if NoneLong(v, a) {
      forall q: Query
        ensures Lookup(v, q) == FlatOf(v, a, q)
      {
        LookupIsFlat(v, a, origin, q);
      }
    } else {
      var n: nat :| a <= n < |v.log| && v.log[n].frames > 100 * v.rate;
      if n > a {
        LongChunkCutsWindow(v, a, origin, n);
      } else {
        LongChunkIsMisplaced(v, a, origin);
      }
    }
  }
}
