/**
  The runtime cost guard: walks a preset down a ladder of levels (resolution
  rung x vblanks per frame) until a window of page flips holds the level's
  minimum rate, or skips it.
*/
module FlipRate {
  function Sum(w: seq<int>): int {
    if w == [] then 0 else Sum(w[..|w| - 1]) + w[|w| - 1]
  }

  ghost predicate IsWorst(w: seq<int>, m: int) {
    && m in w
    && forall i :: 0 <= i < |w| ==> w[i] <= m
  }

  predicate Positive(w: seq<int>) {
    forall i :: 0 <= i < |w| ==> w[i] > 0
  }

  // Frames per second where `frames` flips took `total` microseconds.
  function Rate(total: int, frames: int): real
    requires total > 0 && frames > 0
  {
    1000000.0 / (total as real / frames as real)
  }

  lemma {:induction false} SumWithout(w: seq<int>, h: nat)
    requires Positive(w) && h < |w|
    ensures Sum(w) - w[h] >= |w| - 1
  {
    var n := |w| - 1;
    if h < n {
      SumWithout(w[..n], h);
    } else {
      SumIsPositive(w[..n]);
    }
  }

  lemma {:induction false} SumIsPositive(w: seq<int>)
    requires Positive(w)
    ensures Sum(w) >= |w|
  {
    if w != [] {
      SumIsPositive(w[..|w| - 1]);
    }
  }

  lemma {:induction false} SumOfUpdate(w: seq<int>, h: nat, x: int)
    requires h < |w|
    ensures Sum(w[h := x]) == Sum(w) - w[h] + x
  {
    var n := |w| - 1;
    if h < n {
      assert w[h := x][..n] == w[..n][h := x];
      SumOfUpdate(w[..n], h, x);
    } else {
      assert w[h := x][..n] == w[..n];
    }
  }

  lemma RateFalls(total: int, longer: int, frames: int)
    requires 0 < total <= longer && frames > 0
    ensures Rate(total, frames) >= Rate(longer, frames)
  {
    var n := frames as real;
    var a, b := total as real / n, longer as real / n;
    Scaled(total as real, longer as real, n);
    assert 0.0 < a <= b;
    Inverse(a, b);
  }

  lemma Scaled(x: real, y: real, n: real)
    requires 0.0 < x <= y && n > 0.0
    ensures 0.0 < x / n <= y / n
  {
  }

  lemma Inverse(a: real, b: real)
    requires 0.0 < a <= b
    ensures 1000000.0 / a >= 1000000.0 / b
  {
  }

  // The measured rate is at least that of the other frames, whichever one frame
  // is set aside and however long that one took.
  lemma OneHitchIsDropped(w: seq<int>, h: nat, hitch: int, worst: int)
    requires |w| >= 2 && h < |w| && Positive(w) && hitch > 0 && IsWorst(w[h := hitch], worst)
    ensures Sum(w) - w[h] > 0 && Sum(w[h := hitch]) - worst > 0
    ensures Rate(Sum(w[h := hitch]) - worst, |w| - 1) >= Rate(Sum(w) - w[h], |w| - 1)
  {
    var u := w[h := hitch];
    var k :| 0 <= k < |u| && u[k] == worst;
    SumOfUpdate(w, h, hitch);
    assert Positive(u);
    SumWithout(w, h);
    SumWithout(u, k);
    assert worst >= u[h];
    RateFalls(Sum(u) - worst, Sum(w) - w[h], |w| - 1);
  }
}

module Guard {
  import opened FlipRate
  import opened Wrappers

  datatype Level = Level(rung: nat, interval: int, minFps: real)

  datatype Verdict = Nothing | Accept | StepDown | Skip

  function Min(a: real, b: real): real { if a < b then a else b }

  function Max(a: real, b: real): real { if a > b then a else b }

  const SLACK: real := 1.0

  class CostGuard {
    const rungs: nat
    const startInterval: int
    const refreshHz: real
    const settleFrames: int
    const windowFrames: int
    var minFps: real
    var levels: seq<Level>
    var settled: map<string, nat>
    var fps: map<string, real>
    var file: string
    var level: nat
    var rungFloor: nat
    var settleLeft: int
    var window: seq<int>
    var lastFps: Option<real>
    // The step-downs of the current preset since it was begun.
    ghost var downs: nat

    // The rate every level must hold.
    function Floor(): real
      requires startInterval >= 1
      reads this`minFps
    {
      (if refreshHz > 0.0 then Min(minFps, refreshHz / startInterval as real) else minFps) - SLACK
    }

    // A steady half rate beats a jittery full one, while it holds the floor.
    function FloorOf(interval: int): real
      requires startInterval >= 1
      reads this`minFps
    {
      if interval == 1 && refreshHz / 2.0 >= Floor() then Max(0.9 * refreshHz, Floor()) else Floor()
    }

    // (r0,1) (r0,2) (r1,2) ... from interval 1, else (r0,i0) (r1,i0) ...
    predicate Ladder()
      reads this`levels
    {
      && rungs >= 1 && startInterval >= 1
      && |levels| == (if startInterval == 1 then rungs + 1 else rungs)
      && forall i :: 0 <= i < |levels| ==>
           && levels[i].rung == (if startInterval == 1 && i > 0 then i - 1 else i)
           && levels[i].interval == (if startInterval > 1 then startInterval else if i == 0 then 1 else 2)
    }

    predicate Floored()
      requires startInterval >= 1
      reads this`levels, this`minFps
    {
      forall i :: 0 <= i < |levels| ==> levels[i].minFps == FloorOf(levels[i].interval)
    }

    ghost predicate Valid()
      reads this
    {
      && Ladder() && Floored() && windowFrames >= 2
      && rungFloor < rungs && level < |levels| && levels[level].rung >= rungFloor
      && (forall f :: f in settled ==> settled[f] < |levels|)
      && Positive(window) && |window| < windowFrames
      && downs <= level
    }

    predicate Reachable(i: nat)
      requires i < |levels|
      reads this`levels
    {
      levels[i].interval == 1 || refreshHz <= 0.0
      || (levels[i].interval > 1 && refreshHz / levels[i].interval as real >= levels[i].minFps)
    }

    constructor (rungs: nat, startInterval: int, refreshHz: real, minFps: real, settleFrames: int, windowFrames: int)
      ensures Valid() && file == "" && level == 0 && rungFloor == 0 && this.minFps == minFps
      ensures this.rungs == if rungs == 0 then 1 else rungs
      ensures this.startInterval == if startInterval < 1 then 1 else startInterval
      ensures this.windowFrames == if windowFrames < 2 then 2 else windowFrames
      ensures this.refreshHz == refreshHz
    {
      this.rungs := if rungs == 0 then 1 else rungs;
      this.startInterval := if startInterval < 1 then 1 else startInterval;
      this.windowFrames := if windowFrames < 2 then 2 else windowFrames;
      this.refreshHz, this.minFps, this.settleFrames := refreshHz, minFps, settleFrames;
      settled, fps, file, level, rungFloor := map[], map[], "", 0, 0;
      settleLeft, window, lastFps, downs := 0, [], None, 0;
      levels := [];
      new;
      var i0 := this.startInterval;
      if i0 == 1 {
        levels := [Level(0, 1, 0.0)];
      }
      var first := |levels|;
      for r := 0 to this.rungs
        invariant |levels| == first + r
        invariant first == 1 ==> levels[0] == Level(0, 1, 0.0)
        invariant forall i :: first <= i < |levels| ==> levels[i] == Level(i - first, if i0 == 1 then 2 else i0, 0.0)
        invariant file == "" && level == 0 && rungFloor == 0 && this.minFps == minFps
        invariant settled == map[] && window == [] && downs == 0
      {
        levels := levels + [Level(r, if i0 == 1 then 2 else i0, 0.0)];
      }
      ApplyFloors();
    }

    method ApplyFloors()
      requires Ladder()
      modifies this`levels
      ensures |levels| == |old(levels)|
      ensures forall i :: 0 <= i < |levels| ==>
        levels[i] == old(levels)[i].(minFps := FloorOf(old(levels)[i].interval))
    {
      var target := minFps;
      if refreshHz > 0.0 {
        target := Min(target, refreshHz / startInterval as real);
      }
      var floor := target - SLACK;
      var halfRateHolds := refreshHz / 2.0 >= floor;
      for k := 0 to |levels|
        invariant |levels| == |old(levels)|
        invariant forall i :: 0 <= i < k ==>
          levels[i] == old(levels)[i].(minFps := FloorOf(old(levels)[i].interval))
        invariant forall i :: k <= i < |levels| ==> levels[i] == old(levels)[i]
      {
        var min := if levels[k].interval == 1 && halfRateHolds then Max(0.9 * refreshHz, floor) else floor;
        levels := levels[k := levels[k].(minFps := min)];
      }
    }

    // `from` if reachable, else the next reachable level below it, if any.
    method ReachableFrom(from: nat) returns (r: nat)
      requires Valid() && from <= |levels|
      ensures from <= r <= |levels| && (r < |levels| ==> Reachable(r))
      ensures forall i :: from <= i < r ==> !Reachable(i)
    {
      r := from;
      while r < |levels| && !Reachable(r)
        invariant from <= r <= |levels|
        invariant forall i :: from <= i < r ==> !Reachable(i)
      {
        r := r + 1;
      }
    }

    // ------------------------------------------------- what can be reached

    lemma FastIsReachable()
      requires Ladder() && startInterval == 1
      ensures Reachable(0)
    {
    }

    // With a slower start every level can present the minimum ...
    lemma SlowIsReachable(i: nat)
      requires Ladder() && startInterval >= 2 && i < |levels|
      requires levels[i].minFps == FloorOf(levels[i].interval)
      ensures Reachable(i)
    {
    }

    // ... so, however high the minimum, some level always can.
    lemma SomeIsReachable()
      requires Valid()
      ensures exists i: nat :: i < |levels| && Reachable(i)
    {
      if startInterval == 1 {
        FastIsReachable();
      } else {
        SlowIsReachable(0);
      }
      assert Reachable(0);
    }

    // A level that can't has none below it that can: they share its interval.
    lemma UnreachableFromHere(i: nat, j: nat)
      requires Ladder() && i <= j < |levels| && !Reachable(i)
      requires levels[i].minFps == FloorOf(levels[i].interval) && levels[j].minFps == FloorOf(levels[j].interval)
      ensures !Reachable(j) && startInterval == 1
    {
      if startInterval >= 2 {
        SlowIsReachable(i);
      }
    }

    // ------------------------------------------------- one preset

    // The first level from `from` on whose rung is at least `rung`, else the last.
    ghost predicate IsFirstRung(from: nat, r: nat, rung: nat)
      reads this`levels
    {
      && from <= r < |levels|
      && (forall i :: from <= i < r ==> levels[i].rung < rung)
      && (r + 1 < |levels| ==> levels[r].rung >= rung)
    }

    // The first reachable level from `from` on, or `from` itself if none is.
    ghost predicate IsUsable(from: nat, r: nat)
      reads this`levels
    {
      && from <= r < |levels|
      && (if Reachable(r) then forall i :: from <= i < r ==> !Reachable(i)
          else r == from && forall i :: from <= i < |levels| ==> !Reachable(i))
    }

    lemma FirstRungHolds(from: nat, r: nat)
      requires Ladder() && IsFirstRung(from, r, rungFloor) && rungFloor < rungs
      ensures levels[r].rung >= rungFloor
    {
    }

    lemma RungsGrow(i: nat, j: nat)
      requires Ladder() && i <= j < |levels|
      ensures levels[i].rung <= levels[j].rung
    {
    }

    method ClampToFloor(from: nat) returns (r: nat)
      requires Ladder() && from < |levels|
      ensures IsFirstRung(from, r, rungFloor)
    {
      r := from;
      while r + 1 < |levels| && levels[r].rung < rungFloor
        invariant from <= r < |levels|
        invariant forall i :: from <= i < r ==> levels[i].rung < rungFloor
      {
        r := r + 1;
      }
    }

    // The level settled on earlier, else the first one at or below the hint.
    method StartLevel(f: string, hintRung: nat) returns (r: nat)
      requires Valid()
      ensures if f in settled then r == settled[f] else IsFirstRung(0, r, hintRung)
      ensures r < |levels|
    {
      if f in settled {
        return settled[f];
      }
      r := 0;
      while r + 1 < |levels| && levels[r].rung < hintRung
        invariant r < |levels|
        invariant forall i :: 0 <= i < r ==> levels[i].rung < hintRung
      {
        r := r + 1;
      }
    }

    // Where measuring starts: from the settled level or the hint, past what the
    // thermal floor forbids, past what can't present the minimum.
    method Begin(f: string, hintRung: nat) returns (r: nat, ghost start: nat, ghost clamped: nat)
      requires Valid() && f != ""
      modifies this`file, this`window, this`settleLeft, this`lastFps, this`downs, this`level
      ensures Valid() && r == level && file == f && downs == 0
      ensures window == [] && settleLeft == settleFrames && lastFps == None
      ensures f in settled ==> start == settled[f]
      ensures f !in settled ==> IsFirstRung(0, start, hintRung)
      ensures IsFirstRung(start, clamped, rungFloor) && IsUsable(clamped, level)
    {
      hide CostGuard.Floored, CostGuard.Reachable, CostGuard.Ladder, CostGuard.IsFirstRung;
      var at := StartLevel(f, hintRung);
      start := at;
      at := ClampToFloor(at);
      clamped := at;
      FirstRungHolds(start, at);
      var usable := ReachableFrom(at);
      usable := if usable < |levels| then usable else at;
      RungsGrow(at, usable);
      level := usable;
      file, window, settleLeft, lastFps, downs := f, [], settleFrames, None, 0;
      return level, start, clamped;
    }

    // This flip ends a window.
    predicate Completes(intervalUs: int, measurable: bool)
      reads this
    {
      file != "" && measurable && settleLeft <= 0 && intervalUs > 0 && |window| + 1 >= windowFrames
    }

    method WindowRate(w: seq<int>) returns (rate: real, ghost worst: int)
      requires |w| >= 2 && Positive(w)
      ensures IsWorst(w, worst) && Sum(w) > worst && rate == Rate(Sum(w) - worst, |w| - 1)
      ensures forall h: nat :: h < |w| ==> Sum(w) > w[h] && rate >= Rate(Sum(w) - w[h], |w| - 1)
    {
      var sum, most := 0, 0;
      for i := 0 to |w|
        invariant sum == Sum(w[..i])
        invariant i > 0 ==> IsWorst(w[..i], most)
        invariant i == 0 ==> most == 0
      {
        assert w[..i + 1][..i] == w[..i];
        assert i == 0 || most in w[..i + 1];
        sum := sum + w[i];
        most := if w[i] > most then w[i] else most;
      }
      assert w[..|w|] == w;
      worst := most;
      var k :| 0 <= k < |w| && w[k] == most;
      SumWithout(w, k);
      rate := 1000000.0 / ((sum - most) as real / (|w| - 1) as real);
      forall h: nat | h < |w|
        ensures Sum(w) > w[h] && rate >= Rate(Sum(w) - w[h], |w| - 1)
      {
        assert w[h := w[h]] == w;
        OneHitchIsDropped(w, h, w[h], most);
      }
    }

    // A window that failed: the next reachable level, else a skip.
    method StepOrSkip() returns (v: Verdict)
      requires Valid() && file != ""
      modifies this`settleLeft, this`settled, this`file, this`level, this`downs
      ensures Valid() && v in {StepDown, Skip}
      ensures settleLeft == if v == StepDown then settleFrames else old(settleLeft)
      ensures v == StepDown ==> level > old(level) && Reachable(level) && downs == old(downs) + 1
      ensures v == StepDown ==> forall i :: old(level) < i < level ==> !Reachable(i)
      ensures v == StepDown ==> settled == old(settled)[file := level] && file == old(file)
      ensures v == Skip ==> file == "" && settled == old(settled) - {old(file)}
      ensures v == Skip ==> level == old(level) && downs == old(downs)
      ensures v == Skip ==> forall i :: level < i < |levels| ==> !Reachable(i)
    {
      hide CostGuard.Floored, CostGuard.Reachable, CostGuard.Ladder;
      var next := ReachableFrom(level + 1);
      if next >= |levels| {
        settled, file := settled - {file}, "";
        return Skip;
      }
      RungsGrow(level, next);
      level, downs := next, downs + 1;
      settled, settleLeft := settled[file := level], settleFrames;
      return StepDown;
    }

    // The verdict of a window: it passes if the flips hold the minimum with any
    // one of them set aside; else the next reachable level, else a skip.
    method Judge(w: seq<int>) returns (v: Verdict, ghost worst: int)
      requires Valid() && |w| >= 2 && Positive(w) && file != ""
      modifies this`settleLeft, this`lastFps, this`fps, this`settled, this`file, this`level, this`downs
      ensures Valid() && v in {Accept, StepDown, Skip} && IsWorst(w, worst) && Sum(w) > worst
      ensures v == Accept <==> Rate(Sum(w) - worst, |w| - 1) >= old(levels[level].minFps)
      ensures forall h: nat :: h < |w| && Sum(w) > w[h] && Rate(Sum(w) - w[h], |w| - 1) >= old(levels[level].minFps) ==>
        v == Accept
      ensures fps == old(fps)[old(file) := Rate(Sum(w) - worst, |w| - 1)] && lastFps == Some(fps[old(file)])
      ensures settleLeft == if v == StepDown then settleFrames else old(settleLeft)
      ensures v != StepDown ==> level == old(level) && downs == old(downs)
      ensures v != Skip ==> settled == old(settled)[file := level] && file == old(file)
      ensures v == StepDown ==> level > old(level) && Reachable(level) && downs == old(downs) + 1
      ensures v == StepDown ==> forall i :: old(level) < i < level ==> !Reachable(i)
      ensures v == Skip ==> file == "" && settled == old(settled) - {old(file)}
      ensures v == Skip ==> forall i :: level < i < |levels| ==> !Reachable(i)
    {
      hide CostGuard.Floored, CostGuard.Reachable, CostGuard.Ladder, Rate, Sum, IsWorst;
      var rate;
      rate, worst := WindowRate(w);
      lastFps, fps := Some(rate), fps[file := rate];
      if rate >= levels[level].minFps {
        settled := settled[file := level];
        return Accept, worst;
      }
      v := StepOrSkip();
    }

    // Only a full window of measurable flips gives a verdict: that of the window.
    method OnFlip(intervalUs: int, measurable: bool) returns (v: Verdict)
      requires Valid()
      modifies this`window, this`settleLeft, this`lastFps, this`fps, this`settled, this`file, this`level, this`downs
      ensures Valid()
      ensures v == Nothing <==> !old(Completes(intervalUs, measurable))
      ensures v == Nothing ==> level == old(level) && downs == old(downs) && file == old(file) && settled == old(settled)
      // Until then: a flip that does not count restarts the settling, one more
      // settles, or one more is in the window.
      ensures v == Nothing ==> fps == old(fps) && lastFps == old(lastFps)
      ensures v == Nothing && file == "" ==> settleLeft == old(settleLeft) && window == old(window)
      ensures v == Nothing && file != "" && !measurable ==> settleLeft == settleFrames && window == []
      ensures v == Nothing && file != "" && measurable && old(settleLeft) > 0 ==>
        settleLeft == old(settleLeft) - 1 && window == old(window)
      ensures v == Nothing && file != "" && measurable && old(settleLeft) <= 0 ==>
        settleLeft == old(settleLeft) && window == old(window) + if intervalUs > 0 then [intervalUs] else []
      ensures v != Nothing ==> window == [] && settleLeft == if v == StepDown then settleFrames else old(settleLeft)
      ensures v != Nothing ==>
        var w := old(window) + [intervalUs];
        && (exists worst :: IsWorst(w, worst) && Sum(w) > worst
              && fps == old(fps)[old(file) := Rate(Sum(w) - worst, |w| - 1)]
              && (v == Accept <==> fps[old(file)] >= old(levels[level].minFps)))
        && lastFps == Some(fps[old(file)])
        && forall h: nat :: h < |w| && Sum(w) > w[h] && Rate(Sum(w) - w[h], |w| - 1) >= old(levels[level].minFps) ==> v == Accept
      ensures v in {Accept, Skip} ==> level == old(level) && downs == old(downs)
      ensures v in {Accept, StepDown} ==> settled == old(settled)[file := level] && file == old(file)
      ensures v == StepDown ==> level > old(level) && Reachable(level) && downs == old(downs) + 1
      ensures v == StepDown ==> forall i :: old(level) < i < level ==> !Reachable(i)
      ensures v == Skip ==> file == "" && settled == old(settled) - {old(file)}
      ensures v == Skip ==> forall i :: level < i < |levels| ==> !Reachable(i)
    {
      hide CostGuard.Floored, CostGuard.Reachable, CostGuard.Ladder, Rate, Sum, IsWorst;
      if file == "" {
        return Nothing;
      }
      if !measurable {
        settleLeft, window := settleFrames, [];
        return Nothing;
      }
      if settleLeft > 0 {
        settleLeft := settleLeft - 1;
        return Nothing;
      }
      if intervalUs <= 0 {
        return Nothing;
      }
      var w := window + [intervalUs];
      if |w| < windowFrames {
        window := w;
        return Nothing;
      }
      window := [];
      ghost var worst;
      v, worst := Judge(w);
    }

    // A new minimum skips the current preset only where neither its level nor
    // any below can present it, and never with a slower start.
    method SetMinFps(min: real) returns (v: Verdict)
      requires Valid()
      modifies this`minFps, this`levels, this`settled, this`settleLeft, this`window, this`file
      ensures Valid() && minFps == min && v in {Nothing, Skip} && |levels| == |old(levels)|
      ensures min == old(minFps) ==> v == Nothing && settled == old(settled) && levels == old(levels) && file == old(file)
      ensures min != old(minFps) ==> settled == map[] && (v == Skip <==> old(file) != "" && !Reachable(level))
      ensures v == Skip ==> file == "" && startInterval == 1 && forall i :: level <= i < |levels| ==> !Reachable(i)
      ensures v == Nothing ==> file == old(file)
      ensures min != old(minFps) && old(file) != "" ==> settleLeft == settleFrames && window == []
      ensures min == old(minFps) || old(file) == "" ==> settleLeft == old(settleLeft) && window == old(window)
    {
      if min == minFps {
        return Nothing;
      }
      minFps := min;
      ApplyFloors();
      settled := map[];
      if file == "" {
        return Nothing;
      }
      settleLeft, window := settleFrames, [];
      if Reachable(level) {
        return Nothing;
      }
      forall i: nat | level <= i < |levels|
        ensures !Reachable(i) && startInterval == 1
      {
        UnreachableFromHere(level, i);
      }
      file := "";
      return Skip;
    }

    method SetRungFloor(rung: nat) returns (moved: bool)
      requires Valid()
      modifies this`rungFloor, this`level, this`settled, this`settleLeft, this`window
      ensures Valid() && rungFloor == if rung < rungs then rung else rungs - 1
      ensures IsFirstRung(old(level), level, rungFloor) && (moved <==> level != old(level))
      ensures settled == if moved && file != "" then old(settled)[file := level] else old(settled)
      ensures settleLeft == (if moved then settleFrames else old(settleLeft))
      ensures window == if moved then [] else old(window)
    {
      hide CostGuard.Floored, CostGuard.Ladder;
      rungFloor := if rung < rungs - 1 then rung else rungs - 1;
      var clamped := ClampToFloor(level);
      FirstRungHolds(level, clamped);
      if clamped == level {
        return false;
      }
      level := clamped;
      if file != "" {
        settled := settled[file := level];
      }
      settleLeft, window := settleFrames, [];
      return true;
    }

    method Resettle()
      requires Valid()
      modifies this`settleLeft, this`window
      ensures Valid() && settleLeft == settleFrames && window == []
    {
      settleLeft, window := settleFrames, [];
    }

    // A whole measurement of one preset, with flips, commands and thermal
    // changes in any number and order: at most one step-down per level below
    // the first, and never a rung above the thermal floor.
    method Measure(f: string, hintRung: nat) returns (stepDowns: nat, skipped: bool)
      requires Valid() && f != ""
      modifies this
      ensures Valid() && |levels| == old(|levels|)
      ensures stepDowns <= |levels| - 1 && (skipped <==> file == "")
      ensures levels[level].rung >= rungFloor
    {
      hide CostGuard.Floored, CostGuard.Reachable, CostGuard.Ladder;
      var r, _, _ := Begin(f, hintRung);
      stepDowns, skipped := 0, false;
      var steps: nat := *;
      while steps > 0 && !skipped
        invariant Valid() && |levels| == old(|levels|)
        invariant stepDowns == downs && (skipped <==> file == "")
      {
        steps := steps - 1;
        var event: nat := *;
        if event == 0 {
          var min: real := *;
          var v := SetMinFps(min);
          skipped := v == Skip;
        } else if event == 1 {
          var rung: nat := *;
          var _ := SetRungFloor(rung);
        } else if event == 2 {
          Resettle();
        } else {
          var interval: int, measurable: bool := *, *;
          var v := OnFlip(interval, measurable);
          stepDowns := if v == StepDown then stepDowns + 1 else stepDowns;
          skipped := v == Skip;
        }
      }
    }
  }
}
