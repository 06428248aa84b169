/**
  The renderer's presentation state machine: the frames it renders, holds and
  submits, the switch to the next preset, recovery from presets that fail or
  hang the GPU, and the hand-over of the display. Warm-up outcomes, GPU resets,
  verdicts of the cost guard, timers, commands and flips are arbitrary.
*/
module Renderer {
  import opened Wrappers
  import opened Presets
  import opened Switching

  const SWITCH_BATCH: nat := 8

  datatype Phase = Prepared | Presenting | Released

  // A locked buffer and the presets drawn into it.
  datatype Buffer = Buffer(id: nat, shows: set<nat>)

  // A frame rendered or submitted: what it shows, and what was excluded by the
  // photosensitivity filter and had hung the GPU at that moment.
  datatype Shown = Shown(shows: set<nat>, excluded: set<nat>, hung: set<nat>)

  // The presets that hung the GPU, and every frame rendered and submitted.
  datatype Past = Past(hung: set<nat>, rendered: seq<Shown>, submitted: seq<Shown>)

  datatype Command =
    | Take | Release | Exit | NextPreset | PrevPreset | Lock(on: bool)
    | SetRotate | SetHighFrequency(on: bool) | SetMinFps

  datatype Attempted = Loaded | Failed | GivenUp

  datatype FlipResult = Accepted | Busy | Refused

  // Later on the same run: what hung stays so, and no frame after it counts
  // without it.
  ghost predicate Onward(p: Past, q: Past) {
    && p.hung <= q.hung
    && Counted(p.hung, p.rendered, q.rendered)
    && Counted(p.hung, p.submitted, q.submitted)
  }

  ghost predicate Counted(hung: set<nat>, before: seq<Shown>, after: seq<Shown>) {
    before <= after && forall k :: |before| <= k < |after| ==> hung <= after[k].hung
  }

  // No frame after `before` shows preset `i`.
  ghost predicate NotShown(i: nat, before: seq<Shown>, after: seq<Shown>) {
    forall k :: |before| <= k < |after| ==> i !in after[k].shows
  }

  lemma HungGrows(p: Past, q: Past)
    requires p.hung <= q.hung && p.rendered == q.rendered && p.submitted == q.submitted
    ensures Onward(p, q)
  {
  }

  lemma OnwardItself(p: Past)
    ensures Onward(p, p)
  {
  }

  lemma OnwardTrans(p: Past, q: Past, r: Past)
    requires Onward(p, q) && Onward(q, r)
    ensures Onward(p, r)
  {
  }

  predicate SafeShown(f: Shown) { f.shows !! f.excluded && f.shows !! f.hung }

  function Id(b: Option<Buffer>): set<nat> { if b.Some? then {b.value.id} else {} }

  function One(t: Option<nat>): set<nat> { if t.Some? then {t.value} else {} }

  ghost function Ids(s: seq<nat>): set<nat> { set id | id in s }

  // The buffer surface and the display. A buffer is locked until released; the
  // display may be scanning out any of `displayed`; `flight` is a flip it has
  // accepted that has not landed.
  class Surface {
    var locked: set<nat>
    ghost var displayed: set<nat>
    ghost var flight: Option<nat>

    constructor ()
      ensures locked == {} && displayed == {} && flight == None
    {
      locked, displayed, flight := {}, {}, None;
    }

    method LockFront() returns (bo: Option<nat>)
      modifies this`locked
      ensures bo.Some? ==> bo.value !in old(locked) && locked == old(locked) + {bo.value}
      ensures bo.None? ==> locked == old(locked)
    {
      var id: nat := *;
      if id in locked {
        return None;
      }
      locked := locked + {id};
      return Some(id);
    }

    // A buffer is given back once, and never while it may be on screen.
    method Unlock(id: nat)
      requires id in locked && id !in displayed
      modifies this`locked
      ensures locked == old(locked) - {id}
    {
      locked := locked - {id};
    }

    method UnlockAtTeardown(id: nat)
      requires id in locked
      modifies this`locked
      ensures locked == old(locked) - {id}
    {
      locked := locked - {id};
    }

    // At most one flip is in flight.
    method PageFlip(id: nat) returns (r: FlipResult)
      requires id in locked && flight == None
      modifies this`displayed, this`flight
      ensures r == Accepted ==> displayed == old(displayed) + {id} && flight == Some(id)
      ensures r != Accepted ==> displayed == old(displayed) && flight == None
    {
      r := *;
      if r == Accepted {
        displayed := displayed + {id};
        flight := Some(id);
      }
    }

    // The awaited flip landed: only its buffer is on screen.
    method Landed(id: nat)
      requires flight == Some(id)
      modifies this`displayed, this`flight
      ensures displayed == {id} && flight == None
    {
      displayed := {id};
      flight := None;
    }

    method TakeDisplay(id: nat) returns (ok: bool)
      requires id in locked
      modifies this`displayed, this`flight
      ensures ok ==> displayed == {id} && flight == None
      ensures !ok ==> displayed == old(displayed) && flight == old(flight)
    {
      ok := *;
      if ok {
        displayed := {id};
        flight := None;
      }
    }
  }

  class App {
    const presets: PresetManager
    const sw: SwitchState
    const surface: Surface

    var phase: Phase
    var front: Option<Buffer>
    var pending: Option<Buffer>
    var queued: Option<Buffer>
    var scanoutLeft: seq<nat>
    var current: Option<nat>
    var exitDecided: bool

    // What the renderer library really draws: the preset in its transition
    // slot and the one blending out.
    ghost var playing: Option<nat>
    ghost var fading: Option<nat>
    // Presets that hung the GPU; a selection ended with no preset to show.
    ghost var hung: set<nat>
    ghost var wedged: bool
    // Every frame rendered and every frame submitted, and failed attempts.
    ghost var rendered: seq<Shown>
    ghost var submitted: seq<Shown>
    ghost var failures: nat

    constructor (presets: PresetManager)
      requires presets.Valid() && presets.Fresh() && !presets.hasCurrent && presets.bag == []
      requires presets.showing == None && presets.outgoing == None
      ensures Valid() && fresh(sw) && fresh(surface) && this.presets == presets
      ensures phase == Prepared && queued == None && !exitDecided && !wedged && surface.locked == {}
      ensures submitted == [] && rendered == [] && failures == 0
    {
      this.presets := presets;
      sw := new SwitchState();
      surface := new Surface();
      phase, front, pending, queued, scanoutLeft := Prepared, None, None, None, [];
      current, exitDecided, playing, fading := None, false, None, None;
      hung, wedged, rendered, submitted, failures := {}, false, [], [], 0;
      new;
      UnskippedFits(presets);
    }

    // ---------------------------------------------------------- invariant

    // The presets the manager believes are drawn.
    function OnScreen(): set<nat>
      reads presets`showing, presets`outgoing
    {
      One(presets.showing) + One(presets.outgoing)
    }

    ghost function Excluded(): set<nat>
      reads presets`highFrequency
    {
      set i: nat | i < |presets.entries| && presets.ExcludedHighFrequency(i)
    }

    // Every locked buffer has exactly one holder, and what the display may be
    // scanning out is held.
    ghost predicate BuffersHeld()
      reads this`phase, this`front, this`pending, this`queued, this`scanoutLeft, surface
    {
      && surface.locked == Id(front) + Id(pending) + Id(queued) + Ids(scanoutLeft)
      && Id(front) !! Id(pending) !! Id(queued) !! Ids(scanoutLeft)
      && Distinct(scanoutLeft)
      && (phase == Presenting ==>
            && front.Some? && scanoutLeft == []
            && surface.displayed == Id(front) + Id(pending)
            && One(surface.flight) == Id(pending))
      && (phase != Presenting ==>
            front == None && pending == None && surface.displayed <= Ids(scanoutLeft))
    }

    ghost predicate HistorySafe()
      reads this`rendered, this`submitted
    {
      && (forall k :: 0 <= k < |rendered| ==> SafeShown(rendered[k]))
      && (forall k :: 0 <= k < |submitted| ==> SafeShown(submitted[k]))
    }

    ghost predicate HungSkipped()
      reads this`hung, presets`skipped
    {
      forall h :: h in hung ==> h < |presets.entries| && presets.entries[h].file in presets.skipped
    }

    // Between the parts of a switch.
    ghost predicate Core()
      reads this`phase, this`front, this`pending, this`queued, this`scanoutLeft, this`current, this`playing, this`fading
      reads this`hung, this`wedged, this`rendered, this`submitted, this`failures
      reads presets, sw`forceCut, surface
    {
      && presets.Valid()
      && BuffersHeld()
      && HistorySafe()
      && current == presets.showing
      // Unless the next switch must cut, the library draws what the manager
      // believes, and none of it hung the GPU.
      && (!sw.forceCut && !wedged ==>
            playing == presets.showing && fading == presets.outgoing && OnScreen() !! hung)
      && HungSkipped()
      && failures + |presets.Unskipped()| <= |presets.entries|
    }

    ghost predicate Valid()
      reads this, presets, sw`forceCut, sw`requested, surface
    {
      && Core()
      && (wedged ==> exitDecided)
      && (sw.forceCut ==> Urgent(sw.requested) || wedged)
      // A frame waiting to be submitted shows what is on screen now.
      && (queued.Some? ==>
            !sw.Holding() && !wedged && !presets.HighFrequencyOnScreen() && queued.value.shows == OnScreen())
    }

    ghost function Now(shows: set<nat>): Shown
      reads this`hung, presets`highFrequency
    {
      Shown(shows, Excluded(), hung)
    }

    ghost function History(): Past
      reads this`hung, this`rendered, this`submitted
    {
      Past(hung, rendered, submitted)
    }

    // ---------------------------------------------------------- small parts

    // A frame rendered but not yet submitted is never shown.
    method DropQueued()
      requires Core()
      modifies this`queued, surface`locked
      ensures Core() && queued == None
      ensures surface.locked == old(surface.locked) - old(Id(queued))
    {
      if queued.Some? {
        surface.Unlock(queued.value.id);
      }
      queued := None;
    }

    // While high_frequency presets are off, a switch away from one on screen
    // is due and no frame rendered with it is shown.
    method GuardHighFrequency()
      requires Valid0()
      modifies this`queued, surface`locked, sw`requested
      ensures Valid()
      ensures old(sw.Holding()) ==> sw.Holding()
      ensures presets.HighFrequencyOnScreen() ==> queued == None && sw.Pending()
      ensures !presets.HighFrequencyOnScreen() ==> queued == old(queued) && sw.requested == old(sw.requested)
      ensures sw.requested == old(sw.requested) || (old(sw.requested) == NoSwitch && sw.requested == Eject)
    {
      if !presets.HighFrequencyOnScreen() {
        return;
      }
      DropQueued();
      sw.EjectIfIdle();
    }

    // Valid, but for a frame queued before the filter came on.
    ghost predicate Valid0()
      reads this, presets, sw`forceCut, sw`requested, surface
    {
      && Core()
      && (wedged ==> exitDecided)
      && (sw.forceCut ==> Urgent(sw.requested) || wedged)
      && (queued.Some? ==> !sw.Holding() && !wedged && queued.value.shows == OnScreen())
    }

    // The preset showing is not to be played again.
    method SkipCurrent()
      requires Valid() && current.Some?
      requires !sw.Holding()
      modifies presets`skipped, sw`requested
      ensures Valid() && sw.requested == Eject
      ensures presets.skipped == old(presets.skipped) + {presets.entries[current.value].file}
      ensures presets.Unskipped() <= old(presets.Unskipped())
    {
      hide BuffersHeld, HistorySafe, HungSkipped, PresetManager.Valid, PresetManager.Unskipped;
      SkipShowing();
      sw.DoEject();
    }

    // A GPU reset blamed on the preset showing, when `logged`: it is skipped,
    // its waiting frame is dropped, and nothing is rendered until a replacement.
    method CheckGpuResets(logged: bool)
      requires Valid()
      modifies this`queued, this`hung, surface`locked, presets`skipped, sw`requested, sw`forceCut
      ensures Valid()
      ensures old(sw.Holding()) ==> sw.Holding()
      ensures !logged || current == None ==> unchanged(this`queued, this`hung, surface`locked, presets`skipped, sw)
      ensures logged && current.Some? ==> hung == old(hung) + {current.value} && sw.Holding() && queued == None
      ensures presets.Unskipped() <= old(presets.Unskipped())
    {
      if !logged || current == None {
        return;
      }
      hide BuffersHeld, HistorySafe, HungSkipped, PresetManager.Valid, PresetManager.Unskipped;
      SkipShowing();
      DropQueued();
      MarkHung();
    }

    method MarkHung()
      requires Core() && current.Some? && queued == None && presets.entries[current.value].file in presets.skipped
      requires wedged ==> exitDecided
      modifies this`hung, sw`requested, sw`forceCut
      ensures Valid() && hung == old(hung) + {current.value} && sw.Holding()
    {
      sw.Hang();
      hung := hung + {current.value};
    }

    method SkipShowing()
      requires Core() && current.Some?
      modifies presets`skipped
      ensures Core() && presets.skipped == old(presets.skipped) + {presets.entries[current.value].file}
      ensures presets.Unskipped() <= old(presets.Unskipped())
    {
      ghost var before := presets.Unskipped();
      var _ := presets.Skip(presets.entries[current.value].file);
      SubsetCount(presets.Unskipped(), before);
    }

    // ---------------------------------------------------------- the switch

    // Preloads entry `i`, and activates it when that went well: it then holds
    // the transition slot whether or not the frame drawn off-screen is good.
    method WarmUp(i: nat, blend: bool) returns (ok: bool, activated: bool)
      requires HistorySafe() && i !in Excluded() + hung
      requires blend ==> One(playing) !! Excluded() + hung
      modifies this`playing, this`fading, this`rendered
      ensures HistorySafe() && Onward(old(History()), History())
      ensures ok ==> activated
      ensures activated ==> playing == Some(i) && fading == if blend then old(playing) else None
      ensures !activated ==> playing == old(playing) && fading == old(fading)
    {
      activated := *;
      ok := *;
      ok := ok && activated;
      if activated {
        fading := if blend then playing else None;
        playing := Some(i);
        rendered := rendered + [Now(One(playing) + One(fading))];
      }
    }

    // What a switch keeps while it tries candidates.
    ghost predicate Trying(activatedFailure: bool)
      reads this`phase, this`front, this`pending, this`queued, this`scanoutLeft, this`current, this`playing, this`fading
      reads this`hung, this`wedged, this`rendered, this`submitted, this`failures
      reads presets, sw`forceCut, surface
    {
      && presets.Valid() && BuffersHeld() && HistorySafe()
      && current == presets.showing && !wedged && queued == None
      && (!sw.forceCut ==> OnScreen() !! hung)
      && (!sw.forceCut && !activatedFailure ==> playing == presets.showing && fading == presets.outgoing)
      && HungSkipped()
      && failures + |presets.Unskipped()| <= |presets.entries|
    }

    // One candidate: its level, its warm-up, and what comes of it.
    method Attempt(i: nat, smooth: bool, failedBefore: bool) returns (r: Attempted, activatedFailure: bool)
      requires Trying(failedBefore) && presets.Eligible(i)
      requires smooth ==> !sw.forceCut && !presets.HighFrequencyOnScreen()
      modifies this`current, this`playing, this`fading, this`rendered, this`failures, this`exitDecided
      modifies presets`skipped, presets`showing, presets`outgoing
      ensures old(exitDecided) || r == GivenUp ==> exitDecided
      ensures Onward(old(History()), History())
      ensures r != Loaded ==>
                && Trying(activatedFailure)
                && presets.showing == old(presets.showing) && presets.outgoing == old(presets.outgoing)
      ensures r != Failed ==> presets.skipped == old(presets.skipped)
      ensures r == Failed ==>
                && presets.Unskipped() < old(presets.Unskipped())
                && |presets.skipped| == |old(presets.skipped)| + 1
      ensures presets.skipped >= old(presets.skipped)
      ensures r == Loaded ==>
                && presets.Valid() && BuffersHeld() && HistorySafe() && current == presets.showing == Some(i)
                && playing == presets.showing && fading == presets.outgoing
                && presets.outgoing == (if fading.Some? then old(presets.showing) else None)
                && (fading.Some? ==> smooth)
                && HungSkipped() && failures + |presets.Unskipped()| <= |presets.entries|
    {
      OnwardItself(History());
      hide BuffersHeld, HistorySafe, Onward, PresetManager.Valid, PresetManager.Unskipped;
      activatedFailure := failedBefore;
      var levelFails: bool := *;
      if levelFails {
        exitDecided := true;
        return GivenUp, activatedFailure;
      }
      var wantsBlend: bool := *;
      var blend := smooth && !failedBefore && wantsBlend;
      var ok, activated := WarmUp(i, blend);
      if ok {
        hide HungSkipped;
        current := Some(i);
        presets.OnShown(i, blend);
        return Loaded, activatedFailure;
      }
      activatedFailure := failedBefore || activated;
      FailedAttempt(i);
      assert HungSkipped();
      return Failed, activatedFailure;
    }

    // Tries `first`, then rotation picks, at most a batch of them. Each failed
    // candidate is skipped for good.
    method SwitchTo(first: Option<nat>, smooth: bool) returns (sel: Selection)
      requires Core() && !wedged && queued == None
      requires first.Some? ==> presets.Eligible(first.value)
      requires first.None? ==> presets.NoneEligible()
      requires smooth ==> !sw.forceCut && !presets.HighFrequencyOnScreen()
      modifies this`current, this`playing, this`fading, this`rendered, this`failures, this`exitDecided, this`wedged
      modifies presets`bag, presets`round, presets`dealt, presets`history, presets`cursor, presets`hasCurrent
      modifies presets`skipped, presets`showing, presets`outgoing, sw`forceCut
      ensures Core() && (old(exitDecided) || sel == Aborted ==> exitDecided) && Onward(old(History()), History())
      ensures wedged <==> sel == Exhausted || sel == Aborted
      ensures sel == Switched ==>
                && !sw.forceCut && presets.showing.Some? && presets.Eligible(presets.showing.value)
                && (presets.outgoing == None || (smooth && presets.outgoing == old(presets.showing)))
      ensures sel == Exhausted ==> presets.NoneEligible()
      ensures sel != Switched ==> presets.showing == old(presets.showing) && presets.outgoing == old(presets.outgoing)
      // A deferred selection has skipped a whole batch, all of them new.
      ensures sel == Deferred ==>
                && |presets.skipped| == |old(presets.skipped)| + SWITCH_BATCH
                && presets.Unskipped() < old(presets.Unskipped())
                && (old(sw.forceCut) ==> sw.forceCut)
      ensures presets.skipped >= old(presets.skipped) && presets.Unskipped() <= old(presets.Unskipped())
    {
      hide BuffersHeld, HistorySafe, HungSkipped, PresetManager.Valid, PresetManager.Unskipped;
      hide Onward, PresetManager.NoneEligible, PresetManager.Eligible;
      CoreIsTrying();
      hide Core;
      var activatedFailure;
      sel, activatedFailure := Select(first, smooth);
      sw.Selected(sel, activatedFailure);
      if sel == Deferred && current.Some? {
        var levelFails: bool := *;
        if levelFails {
          exitDecided := true;
          sel := Aborted;
        }
      }
      wedged := sel == Exhausted || sel == Aborted;
      PartsAreCore();
    }

    lemma CoreIsTrying()
      requires Core() && !wedged && queued == None
      ensures Trying(false)
    {
      hide BuffersHeld, HistorySafe, HungSkipped, PresetManager.Valid, PresetManager.Unskipped;
    }

    lemma PartsAreCore()
      requires presets.Valid() && BuffersHeld() && HistorySafe() && HungSkipped() && current == presets.showing
      requires failures + |presets.Unskipped()| <= |presets.entries|
      requires !sw.forceCut && !wedged ==>
                 playing == presets.showing && fading == presets.outgoing && OnScreen() !! hung
      ensures Core()
    {
    }

    method Select(first: Option<nat>, smooth: bool) returns (sel: Selection, activatedFailure: bool)
      requires Trying(false)
      requires first.Some? ==> presets.Eligible(first.value)
      requires first.None? ==> presets.NoneEligible()
      requires smooth ==> !sw.forceCut && !presets.HighFrequencyOnScreen()
      modifies this`current, this`playing, this`fading, this`rendered, this`failures, this`exitDecided
      modifies presets`bag, presets`round, presets`dealt, presets`history, presets`cursor, presets`hasCurrent
      modifies presets`skipped, presets`showing, presets`outgoing
      ensures presets.Valid() && BuffersHeld() && HistorySafe() && HungSkipped() && current == presets.showing
      ensures failures + |presets.Unskipped()| <= |presets.entries|
      ensures (old(exitDecided) || sel == Aborted ==> exitDecided) && Onward(old(History()), History())
      ensures presets.skipped >= old(presets.skipped) && presets.Unskipped() <= old(presets.Unskipped())
      ensures sel == Switched ==>
                && playing == presets.showing && fading == presets.outgoing && OnScreen() !! hung
                && presets.showing.Some? && presets.Eligible(presets.showing.value)
                && (presets.outgoing == None || (smooth && presets.outgoing == old(presets.showing)))
      ensures sel != Switched ==>
                && Trying(activatedFailure)
                && presets.showing == old(presets.showing) && presets.outgoing == old(presets.outgoing)
      ensures sel == Exhausted ==> presets.NoneEligible()
      ensures sel == Deferred ==>
                && |presets.skipped| == |old(presets.skipped)| + SWITCH_BATCH
                && presets.Unskipped() < old(presets.Unskipped())
    {
      hide BuffersHeld, HistorySafe, PresetManager.Valid;
      hide PresetManager.EligibleSet, PresetManager.Unskipped;
      ghost var showed := presets.showing;
      var r;
      r, activatedFailure := TryCandidates(first, smooth);
      if r == Loaded {
        assert OnScreen() !! hung by {
          assert presets.showing.value !in hung;
          assert presets.outgoing.Some? ==> presets.outgoing.value in One(showed);
        }
        sel := Switched;
      } else if r == GivenUp {
        sel := Aborted;
      } else {
        var n := presets.EligibleCount();
        sel := if n == 0 then Exhausted else Deferred;
      }
    }

    method TryCandidates(first: Option<nat>, smooth: bool)
      returns (r: Attempted, activatedFailure: bool)
      requires Trying(false)
      requires first.Some? ==> presets.Eligible(first.value)
      requires first.None? ==> presets.NoneEligible()
      requires smooth ==> !sw.forceCut && !presets.HighFrequencyOnScreen()
      modifies this`current, this`playing, this`fading, this`rendered, this`failures, this`exitDecided
      modifies presets`bag, presets`round, presets`dealt, presets`history, presets`cursor, presets`hasCurrent
      modifies presets`skipped, presets`showing, presets`outgoing
      ensures (old(exitDecided) || r == GivenUp ==> exitDecided) && Onward(old(History()), History())
      ensures presets.skipped >= old(presets.skipped) && presets.Unskipped() <= old(presets.Unskipped())
      ensures r != Loaded ==>
                && Trying(activatedFailure)
                && presets.showing == old(presets.showing) && presets.outgoing == old(presets.outgoing)
      ensures r == Failed && !presets.NoneEligible() ==>
                && |presets.skipped| == |old(presets.skipped)| + SWITCH_BATCH
                && presets.Unskipped() < old(presets.Unskipped())
      ensures r == Loaded ==>
                && presets.Valid() && BuffersHeld() && HistorySafe() && current == presets.showing
                && presets.showing.Some? && presets.Eligible(presets.showing.value)
                && playing == presets.showing && fading == presets.outgoing
                && (presets.outgoing == None || (smooth && presets.outgoing == old(presets.showing)))
                && HungSkipped()
                && failures + |presets.Unskipped()| <= |presets.entries|
    {
      OnwardItself(History());
      hide BuffersHeld, HistorySafe, HungSkipped, Trying, Onward, PresetManager.Valid, PresetManager.DealtFrom;
      hide PresetManager.Unskipped, PresetManager.NoneEligible;
      var entry, tried := first, 0;
      activatedFailure, r := false, Failed;
      while entry.Some?
        invariant Trying(activatedFailure)
        invariant tried < SWITCH_BATCH && (old(exitDecided) ==> exitDecided) && r == Failed
        invariant presets.showing == old(presets.showing) && presets.outgoing == old(presets.outgoing)
        invariant entry.Some? ==> presets.Eligible(entry.value)
        invariant entry.None? ==> presets.NoneEligible()
        invariant presets.skipped >= old(presets.skipped) && |presets.skipped| == |old(presets.skipped)| + tried
        invariant presets.Unskipped() <= old(presets.Unskipped())
        invariant Onward(old(History()), History())
        decreases SWITCH_BATCH - tried
      {
        ghost var past := History();
        r, activatedFailure := Attempt(entry.value, smooth, activatedFailure);
        OnwardTrans(old(History()), past, History());
        if r != Failed {
          return;
        }
        tried := tried + 1;
        if tried >= SWITCH_BATCH {
          return;
        }
        label picking:
        TryingIsValid(activatedFailure);
        entry := presets.Rotate();
        PickKeepsTrying@picking(activatedFailure);
      }
    }

    lemma TryingIsValid(activatedFailure: bool)
      requires Trying(activatedFailure)
      ensures presets.Valid()
    {
    }

    twostate lemma PickKeepsTrying(activatedFailure: bool)
      requires old(Trying(activatedFailure)) && presets.Valid()
      requires unchanged(this) && unchanged(sw`forceCut) && unchanged(surface)
      requires unchanged(presets`skipped) && unchanged(presets`highFrequency)
      requires unchanged(presets`showing) && unchanged(presets`outgoing)
      ensures Trying(activatedFailure)
    {
      hide PresetManager.Valid, PresetManager.Unskipped, HistorySafe, BuffersHeld;
    }

    // A failed candidate is skipped: one fewer to try.
    method FailedAttempt(i: nat)
      requires presets.Valid() && presets.Eligible(i)
      requires failures + |presets.Unskipped()| <= |presets.entries|
      modifies this`failures, presets`skipped
      ensures presets.Valid() && failures == old(failures) + 1
      ensures failures + |presets.Unskipped()| <= |presets.entries|
      ensures presets.Unskipped() < old(presets.Unskipped())
      ensures presets.skipped == old(presets.skipped) + {presets.entries[i].file}
      ensures |presets.skipped| == |old(presets.skipped)| + 1
    {
      ghost var before := presets.Unskipped();
      var _ := presets.Skip(presets.entries[i].file);
      failures := failures + 1;
      assert i in before && i !in presets.Unskipped();
      StrictSubsetCount(presets.Unskipped(), before, i);
    }

    // Where the pending switch goes. Nowhere, when it is a `prev` with nothing
    // earlier and no excluded preset is on screen. `next` and `prev` move in the
    // history while it has an eligible entry on their side, a cut keeps the
    // preset showing if it may stay, and anything else is the bag's next one.
    method PickNext(s: Switch, hf: bool) returns (go: bool, next: Option<nat>)
      requires presets.Valid() && hf == presets.HighFrequencyOnScreen()
      modifies presets`bag, presets`round, presets`dealt, presets`history, presets`cursor, presets`hasCurrent
      ensures presets.Valid()
      ensures go ==> (next == None <==> presets.NoneEligible()) && (next.Some? ==> presets.Eligible(next.value))
      ensures !go <==> !hf && (s == NoSwitch || (s == Prev && !old(presets.HasEarlier())))
      ensures s == Next && old(presets.HasLater()) ==>
                && next == presets.Current() && presets.history == old(presets.history) && presets.bag == old(presets.bag)
                && old(presets.cursor) < presets.cursor
                && forall c: nat :: old(presets.cursor) < c < presets.cursor ==> !presets.Eligible(presets.history[c])
      ensures s == Prev && old(presets.HasEarlier()) ==>
                && next == presets.Current() && presets.history == old(presets.history) && presets.bag == old(presets.bag)
                && presets.cursor < old(presets.cursor)
                && forall c: nat :: presets.cursor < c < old(presets.cursor) ==> !presets.Eligible(presets.history[c])
      ensures hf && (s == Eject || s == NoSwitch || (s == Prev && !old(presets.HasEarlier()))) ==>
                if presets.showing.Some? && presets.Eligible(presets.showing.value) then
                  next == presets.showing && presets.history == old(presets.history) && presets.bag == old(presets.bag)
                else
                  next.Some? ==> presets.DealtFrom(old(presets.bag), old(presets.round), next.value)
      ensures s == Rotate || s == Retry || (s == Eject && !hf) || (s == Next && !old(presets.HasLater())) ==>
                (next.Some? ==> presets.DealtFrom(old(presets.bag), old(presets.round), next.value))
    {
      hide PresetManager.Valid, PresetManager.DealtFrom, PresetManager.HasLater, PresetManager.HasEarlier;
      next := None;
      match s {
        case NoSwitch =>
        case Rotate => next := presets.Rotate();
        case Next => next := presets.Next();
        case Prev => next := presets.Prev();
        case Eject =>
          if hf {
            next := presets.CutTarget();
          } else {
            next := presets.Rotate();
          }
        case Retry => next := presets.Rotate();
      }
      if next == None {
        if !hf && (s == NoSwitch || s == Prev) {
          return false, None;
        }
        if hf {
          next := presets.CutTarget();
        }
      }
      go := true;
      if next.Some? {
        assert !presets.NoneEligible();
      }
    }

    lemma CoreIsValid()
      requires Core()
      ensures presets.Valid()
    {
    }

    // A pick changes nothing the frames depend on.
    twostate lemma PickKeepsCore()
      requires old(Core()) && presets.Valid() && unchanged(this) && unchanged(sw`forceCut) && unchanged(surface)
      requires unchanged(presets`skipped) && unchanged(presets`highFrequency)
      requires unchanged(presets`showing) && unchanged(presets`outgoing)
      ensures Core()
    {
      hide PresetManager.Valid, PresetManager.Unskipped, HistorySafe, BuffersHeld;
    }

    // The pending switch happens, or is put off with a batch of presets less,
    // or the renderer is wedged and exits.
    method ApplySwitch()
      requires Valid() && !wedged && queued == None
      modifies this`current, this`playing, this`fading, this`rendered, this`failures, this`exitDecided, this`wedged
      modifies presets`bag, presets`round, presets`dealt, presets`history, presets`cursor, presets`hasCurrent
      modifies presets`skipped, presets`showing, presets`outgoing, sw`forceCut, sw`requested
      ensures Valid() && (old(exitDecided) ==> exitDecided) && Onward(old(History()), History())
      ensures presets.Unskipped() <= old(presets.Unskipped())
      ensures wedged || sw.requested == NoSwitch || sw.requested == Retry
      ensures !wedged && sw.requested == NoSwitch ==> !sw.Holding() && !presets.HighFrequencyOnScreen()
      ensures sw.requested == Retry && !wedged ==>
                && presets.Unskipped() < old(presets.Unskipped())
                && |presets.skipped| == |old(presets.skipped)| + SWITCH_BATCH
                && (old(sw.Holding()) ==> sw.Holding())
                && presets.showing == old(presets.showing) && presets.outgoing == old(presets.outgoing)
    {
      hide Core, PresetManager.Unskipped, PresetManager.NoneEligible, PresetManager.DealtFrom;
      hide PresetManager.HasLater, PresetManager.HasEarlier, PresetManager.Eligible, Onward;
      hide PresetManager.HighFrequencyOnScreen;
      CoreIsValid();
      OnwardItself(History());
      var s := sw.Begin();
      var hf := presets.HighFrequencyOnScreen();
      hide PresetManager.Valid;
      label picking:
      var go, next := PickNext(s, hf);
      PickKeepsCore@picking();
      if !go {
        return;
      }
      hide App.Valid;
      GoTo(next, hf);
    }

    // The switch to `next`, and what becomes of the request for it.
    method GoTo(next: Option<nat>, hf: bool)
      requires Core() && !wedged && queued == None && sw.requested == NoSwitch && hf == presets.HighFrequencyOnScreen()
      requires next.Some? ==> presets.Eligible(next.value)
      requires next.None? ==> presets.NoneEligible()
      modifies this`current, this`playing, this`fading, this`rendered, this`failures, this`exitDecided, this`wedged
      modifies presets`bag, presets`round, presets`dealt, presets`history, presets`cursor, presets`hasCurrent
      modifies presets`skipped, presets`showing, presets`outgoing, sw`forceCut, sw`requested
      ensures Valid() && (old(exitDecided) ==> exitDecided) && Onward(old(History()), History())
      ensures presets.Unskipped() <= old(presets.Unskipped())
      ensures wedged || sw.requested == NoSwitch || sw.requested == Retry
      ensures !wedged && sw.requested == NoSwitch ==> !sw.forceCut && !presets.HighFrequencyOnScreen()
      ensures sw.requested == Retry && !wedged ==>
                && presets.Unskipped() < old(presets.Unskipped())
                && |presets.skipped| == |old(presets.skipped)| + SWITCH_BATCH
                && (old(sw.forceCut) ==> sw.forceCut)
                && presets.showing == old(presets.showing) && presets.outgoing == old(presets.outgoing)
    {
      hide Core, PresetManager.Unskipped, PresetManager.NoneEligible, PresetManager.Eligible, Onward;
      hide PresetManager.HighFrequencyOnScreen, PresetManager.Valid, PresetManager.Excluded;
      ghost var showed := presets.showing;
      ShowingIsAllowed();
      var sel := SwitchTo(next, sw.Smooth() && !hf);
      if sel == Deferred {
        sw.DoRetry();
      } else if sel != Switched {
        exitDecided := true;
      } else {
        EligibleIsAllowed(showed);
      }
    }

    lemma ShowingIsAllowed()
      ensures !presets.HighFrequencyOnScreen() ==> !presets.Excluded(presets.showing)
    {
    }

    lemma EligibleIsAllowed(showed: Option<nat>)
      requires presets.showing.Some? && presets.Eligible(presets.showing.value)
      requires presets.outgoing == None || (presets.outgoing == showed && !presets.Excluded(showed))
      ensures !presets.HighFrequencyOnScreen()
    {
    }

    // ---------------------------------------------------------- frames

    // What a frame drawn or submitted now shows is safe.
    lemma ShownNowIsSafe()
      requires Valid() && !sw.Holding() && !wedged && !presets.HighFrequencyOnScreen()
      ensures playing == presets.showing && fading == presets.outgoing
      ensures SafeShown(Now(OnScreen()))
    {
    }

    // The blend may be over by now: the preset blending out is dropped first.
    method DrawFrame()
      requires Valid() && queued == None && !sw.Holding() && !wedged && !presets.HighFrequencyOnScreen()
      modifies this`fading, this`rendered, presets`outgoing
      ensures Valid() && !presets.HighFrequencyOnScreen() && Onward(old(History()), History())
      ensures rendered == old(rendered) + [Now(OnScreen())]
    {
      hide BuffersHeld, HungSkipped, PresetManager.Valid, PresetManager.Unskipped;
      var blendOver: bool := *;
      if blendOver {
        presets.OnBlendDone();
        fading := None;
      }
      ShownNowIsSafe();
      rendered := rendered + [Now(One(playing) + One(fading))];
    }

    // Draws what is on screen, and locks the frame as the one waiting.
    method RenderFrame() returns (ok: bool)
      requires Valid() && queued == None && !sw.Holding() && !wedged && !presets.HighFrequencyOnScreen()
      modifies this`fading, this`rendered, this`queued, this`exitDecided, presets`outgoing, surface`locked
      ensures Valid() && !presets.HighFrequencyOnScreen() && (old(exitDecided) ==> exitDecided)
      ensures rendered == old(rendered) + [Now(OnScreen())] && Onward(old(History()), History())
      ensures ok <==> queued.Some?
      ensures ok ==> queued.value.shows == OnScreen() && surface.locked == old(surface.locked) + {queued.value.id}
      ensures !ok ==> exitDecided && surface.locked == old(surface.locked)
    {
      hide BuffersHeld, HistorySafe, HungSkipped, PresetManager.Valid, PresetManager.Unskipped;
      DrawFrame();
      var swapped: bool := *;
      if !swapped {
        exitDecided := true;
        return false;
      }
      ok := LockFrame();
    }

    // Locks the frame drawn as the one waiting to be submitted.
    method LockFrame() returns (ok: bool)
      requires Valid() && queued == None && !sw.Holding() && !wedged && !presets.HighFrequencyOnScreen()
      modifies this`queued, this`exitDecided, surface`locked
      ensures Valid() && (old(exitDecided) ==> exitDecided)
      ensures ok <==> queued.Some?
      ensures ok ==> queued.value.shows == OnScreen() && surface.locked == old(surface.locked) + {queued.value.id}
      ensures !ok ==> exitDecided && surface.locked == old(surface.locked)
    {
      hide HistorySafe, HungSkipped, PresetManager.Valid, PresetManager.Unskipped;
      var bo := surface.LockFront();
      var framed: bool := *;
      if bo == None || !framed {
        if bo.Some? {
          surface.Unlock(bo.value);
        }
        exitDecided := true;
        return false;
      }
      queued := Some(Buffer(bo.value, OnScreen()));
      return true;
    }

    // The awaited flip landed: the frame before it is given back.
    method Land()
      requires Valid() && phase == Presenting && pending.Some?
      modifies this`front, this`pending, surface
      ensures Valid() && pending == None && front == old(pending)
      ensures old(front).value.id !in surface.locked
    {
      hide HistorySafe, HungSkipped, PresetManager.Valid, PresetManager.Unskipped;
      surface.Landed(pending.value.id);
      if front.Some? {
        surface.Unlock(front.value.id);
      }
      front := pending;
      pending := None;
    }

    method OnFlip()
      requires Valid() && phase == Presenting && pending.Some?
      modifies this`front, this`pending, this`exitDecided, surface, presets`skipped, sw`requested
      ensures Valid() && pending == None && front == old(pending)
      ensures old(exitDecided) ==> exitDecided
      ensures old(sw.Holding()) ==> sw.Holding() && presets.skipped == old(presets.skipped)
    {
      Land();
      if current == None || sw.Holding() {
        return;
      }
      Verdict();
    }

    // The cost guard's verdict on the preset showing.
    method Verdict()
      requires Valid() && current.Some? && !sw.Holding()
      modifies this`exitDecided, presets`skipped, sw`requested
      ensures Valid() && (old(exitDecided) ==> exitDecided)
    {
      var stepDown: bool, skip: bool := *, *;
      if stepDown {
        var levelFails: bool := *;
        if levelFails {
          exitDecided := true;
        }
      } else if skip {
        SkipCurrent();
      }
    }

    // Records the submission of a frame that shows what is on screen now.
    method RecordSubmitted(shows: set<nat>)
      requires HistorySafe() && SafeShown(Now(shows))
      modifies this`submitted
      ensures HistorySafe() && submitted == old(submitted) + [Now(shows)] && Onward(old(History()), History())
    {
      submitted := submitted + [Now(shows)];
    }

    // Submits the waiting frame when no flip is in flight; `ok` unless that is
    // refused.
    method SubmitQueued(due: bool) returns (ok: bool)
      requires Valid() && phase == Presenting && !wedged
      modifies this`pending, this`queued, this`submitted, this`exitDecided, surface`displayed, surface`flight
      ensures Valid() && Onward(old(History()), History())
      ensures if ok then exitDecided == old(exitDecided) else exitDecided && submitted == old(submitted)
      ensures submitted == old(submitted) || (old(pending) == None && old(queued).Some?
                && submitted == old(submitted) + [Now(old(queued).value.shows)] && pending == old(queued) && queued == None)
    {
      ok := true;
      if pending == None && queued.Some? && due {
        ShownNowIsSafe();
        HeldWhileQueued();
        OnwardItself(History());
        hide BuffersHeld, HistorySafe, SafeShown, Core, App.Valid, Excluded, Onward;
        var r := surface.PageFlip(queued.value.id);
        if r == Accepted {
          RecordSubmitted(queued.value.shows);
          pending := queued;
          queued := None;
          FlipTaken();
        } else {
          FlipNotTaken();
          if r == Refused {
            exitDecided := true;
            ok := false;
          }
        }
        OnlyBuffersMoved();
      }
    }

    lemma HeldWhileQueued()
      requires Valid() && phase == Presenting && queued.Some? && pending == None
      ensures queued.value.id in surface.locked && surface.flight == None && HistorySafe()
    {
    }

    twostate lemma FlipTaken()
      requires old(BuffersHeld()) && old(phase) == Presenting && old(queued).Some? && old(pending) == None
      requires unchanged(`phase, `front, `scanoutLeft, surface`locked) && pending == old(queued) && queued == None
      requires surface.displayed == old(surface.displayed) + {pending.value.id}
      requires surface.flight == Some(pending.value.id)
      ensures BuffersHeld()
    {
    }

    twostate lemma FlipNotTaken()
      requires old(BuffersHeld()) && unchanged(`phase, `front, `pending, `queued, `scanoutLeft, surface`locked)
      requires surface.displayed == old(surface.displayed) && surface.flight == old(surface.flight)
      ensures BuffersHeld()
    {
    }

    // One round while presenting. `lost`: the flip in flight is overdue; `due`:
    // the waiting frame's time has come; `freeBuffer`: the surface has one.
    method PresentStep(lost: bool, due: bool, freeBuffer: bool, rotateDue: bool)
      requires Valid() && phase == Presenting && !wedged
      modifies this, presets, sw, surface
      ensures Valid() && phase == Presenting && (old(exitDecided) ==> exitDecided) && Onward(old(History()), History())
      ensures !exitDecided && presets.HighFrequencyOnScreen() ==> queued == None && sw.Pending()
      // With a buffer free, a frame waits unless none may be rendered.
      ensures !exitDecided && freeBuffer && !sw.Holding() && !presets.HighFrequencyOnScreen() ==> queued.Some?
      ensures lost && old(pending).Some? ==> exitDecided && submitted == old(submitted) && rendered == old(rendered)
    {
      hide BuffersHeld, HistorySafe, HungSkipped, PresetManager.Valid, PresetManager.Unskipped;
      if pending.Some? && lost {
        exitDecided := true;
        return;
      }
      hide Onward;
      GuardHighFrequency();
      var ok := SubmitQueued(due);
      if !ok || queued.Some? || !freeBuffer {
        return;
      }
      ghost var past := History();
      NextFrame(rotateDue);
      OnwardTrans(old(History()), past, History());
    }

    // The switch that is due, then a frame of what is on screen, unless none
    // may be rendered.
    method NextFrame(rotateDue: bool)
      requires Valid() && phase == Presenting && !wedged && queued == None
      modifies this, presets, sw, surface
      ensures Valid() && phase == Presenting && (old(exitDecided) ==> exitDecided) && Onward(old(History()), History())
      ensures !exitDecided && presets.HighFrequencyOnScreen() ==>
                queued == None && old(presets.HighFrequencyOnScreen()) && (old(sw.Pending()) ==> sw.Pending())
      ensures !exitDecided && !sw.Holding() && !presets.HighFrequencyOnScreen() ==> queued.Some?
    {
      OnwardItself(History());
      hide App.Valid, Core, Onward, PresetManager.HighFrequencyOnScreen;
      if !presets.locked && current.Some? && !sw.Pending() && rotateDue {
        RequestSwitch(Rotate);
      }
      if sw.Pending() {
        ApplySwitch();
      }
      WedgedExits();
      if exitDecided || sw.Holding() || presets.HighFrequencyOnScreen() {
        return;
      }
      ghost var past := History();
      var _ := RenderFrame();
      OnwardTrans(old(History()), past, History());
    }

    // One round while not presenting: a selection batch while frames are held,
    // then a `take` that waited for it.
    method RecoverStep()
      requires Valid() && phase != Presenting && !wedged
      modifies this, presets, sw, surface
      ensures Valid() && (old(exitDecided) ==> exitDecided) && Onward(old(History()), History())
      ensures phase == old(phase) || (phase == Presenting && old(sw.takePending) && !sw.Holding() && !sw.takePending)
      ensures old(sw.Holding()) ==>
                || exitDecided || !sw.Holding()
                || (presets.Unskipped() < old(presets.Unskipped()) && phase == old(phase))
      ensures presets.Unskipped() <= old(presets.Unskipped())
    {
      hide BuffersHeld, HistorySafe, HungSkipped, PresetManager.Valid, PresetManager.Unskipped;
      OnwardItself(History());
      hide Onward;
      if sw.Holding() {
        ApplySwitch();
      }
      if !exitDecided {
        var due := sw.TakeDue();
        if due {
          ghost var past := History();
          TakeDisplay();
          OnwardTrans(old(History()), past, History());
        }
      }
    }

    // Rounds with nothing else happening end the recovery: a replacement is
    // shown, or the exit is decided.
    method RecoverFully()
      requires Valid() && phase != Presenting && !exitDecided
      modifies this, presets, sw, surface
      ensures Valid() && (exitDecided || !sw.Holding())
    {
      while sw.Holding() && !exitDecided && phase != Presenting
        invariant Valid() && (phase == Presenting ==> exitDecided || !sw.Holding())
        decreases sw.Holding() && !exitDecided && phase != Presenting, presets.Unskipped()
      {
        RecoverStep();
      }
    }

    // ---------------------------------------------------------- hand-over

    method TakeDisplay()
      requires Valid() && !wedged
      modifies this, presets, sw, surface
      ensures Valid() && (old(exitDecided) ==> exitDecided) && Onward(old(History()), History())
      // The pending switch stays as it is, unless an excluded preset had to be
      // cut away first: then the switch is made or put off, or the exit decided.
      ensures old(sw.Holding()) || !old(presets.HighFrequencyOnScreen()) ==> sw.requested == old(sw.requested)
      ensures CutEnded(old(sw.requested))
      ensures old(sw.Holding()) ==>
                sw.Holding() && phase == old(phase) && (phase != Presenting ==> sw.takePending)
      ensures phase != old(phase) ==> phase == Presenting && !sw.Holding()
      ensures !old(sw.Holding()) && !old(presets.HighFrequencyOnScreen()) ==> !sw.Holding()
      ensures !old(sw.takePending) && phase != old(phase) ==> !sw.takePending
      ensures presets.Unskipped() <= old(presets.Unskipped())
    {
      OnwardItself(History());
      WedgedExits();
      hide App.Valid, Core, Onward, PresetManager.Unskipped, PresetManager.HighFrequencyOnScreen;
      if phase == Presenting {
        return;
      }
      var now := sw.RequestTake();
      if !now {
        return;
      }
      ghost var past := History();
      TakeNow();
      OnwardTrans(old(History()), past, History());
    }

    // The `take` itself: an excluded preset is cut away, a frame rendered if
    // none waits, and the display taken with it.
    method TakeNow()
      requires Valid() && !wedged && !sw.Holding() && phase != Presenting
      modifies this, presets, surface, sw`forceCut, sw`requested
      ensures Valid() && (old(exitDecided) ==> exitDecided) && Onward(old(History()), History())
      ensures !old(presets.HighFrequencyOnScreen()) ==> sw.requested == old(sw.requested) && !sw.Holding()
      ensures CutEnded(old(sw.requested))
      ensures phase != old(phase) ==> phase == Presenting && !sw.Holding()
      ensures presets.Unskipped() <= old(presets.Unskipped())
    {
      hide App.Valid, Core, Onward, PresetManager.Unskipped, PresetManager.HighFrequencyOnScreen;
      CutHighFrequency();
      WedgedExits();
      if exitDecided || presets.HighFrequencyOnScreen() {
        return;
      }
      ghost var past := History();
      if queued == None {
        var ok := RenderFrame();
        OnwardTrans(old(History()), past, History());
        if !ok {
          return;
        }
        past := History();
      }
      HandOver();
      OnwardTrans(old(History()), past, History());
    }

    // What becomes of the switch `was` when excluded presets are cut away.
    ghost predicate CutEnded(was: Switch)
      reads this`exitDecided, sw`requested, presets`highFrequency, presets`showing, presets`outgoing
    {
      || exitDecided || sw.requested == was || sw.requested == Retry
      || (sw.requested == NoSwitch && !presets.HighFrequencyOnScreen())
    }

    // While an excluded preset is on screen, cut: each failed batch skips its
    // candidates, so this ends.
    method CutHighFrequency()
      requires Valid() && !wedged && !sw.Holding() && phase != Presenting
      modifies this`current, this`playing, this`fading, this`rendered, this`failures, this`exitDecided, this`wedged, this`queued
      modifies presets, sw`forceCut, sw`requested, surface`locked
      ensures Valid() && (old(exitDecided) ==> exitDecided) && Onward(old(History()), History())
      ensures CutEnded(old(sw.requested))
      ensures exitDecided || presets.HighFrequencyOnScreen() || !sw.Holding()
      ensures !old(presets.HighFrequencyOnScreen()) ==> !sw.Holding() && !wedged && sw.requested == old(sw.requested)
      ensures presets.Unskipped() <= old(presets.Unskipped())
    {
      hide BuffersHeld, HistorySafe, HungSkipped, PresetManager.Valid, PresetManager.Unskipped;
      OnwardItself(History());
      hide Onward;
      while presets.HighFrequencyOnScreen() && !exitDecided
        invariant Valid() && (old(exitDecided) ==> exitDecided) && Onward(old(History()), History())
        invariant CutEnded(old(sw.requested))
        invariant exitDecided || presets.HighFrequencyOnScreen() || !sw.Holding()
        invariant !old(presets.HighFrequencyOnScreen()) ==>
                    && !presets.HighFrequencyOnScreen() && !sw.Holding() && !wedged && sw.requested == old(sw.requested)
        invariant presets.Unskipped() <= old(presets.Unskipped())
        decreases presets.HighFrequencyOnScreen() && !exitDecided, presets.Unskipped()
      {
        var signalled: bool := *;
        if signalled {
          return;
        }
        ghost var past := History();
        GuardHighFrequency();
        ApplySwitch();
        OnwardTrans(old(History()), past, History());
      }
    }

    // The waiting frame takes the display; what it replaces is given back.
    method HandOver()
      requires Valid() && phase != Presenting && queued.Some?
      modifies this`phase, this`front, this`queued, this`scanoutLeft, this`submitted, surface
      ensures Valid() && Onward(old(History()), History())
      ensures phase == old(phase) || (phase == Presenting && front == old(queued) && queued == None
                && submitted == old(submitted) + [Now(old(queued).value.shows)] && surface.locked == Id(front))
    {
      ShownNowIsSafe();
      HeldWhileWaiting();
      OnwardItself(History());
      hide BuffersHeld, HistorySafe, SafeShown, Core, App.Valid, Excluded, Onward;
      hide PresetManager.Valid, PresetManager.HighFrequencyOnScreen, OnScreen;
      var took := surface.TakeDisplay(queued.value.id);
      if took {
        Present();
      } else {
        TakeFailed();
      }
      OnlyBuffersMoved();
    }

    // The display shows the waiting frame.
    method Present()
      requires queued.Some? && HistorySafe() && SafeShown(Now(queued.value.shows)) && pending == None
      requires surface.locked == {queued.value.id} + Ids(scanoutLeft)
      requires queued.value.id !in Ids(scanoutLeft) && Distinct(scanoutLeft)
      requires surface.displayed == {queued.value.id} && surface.flight == None
      modifies this`phase, this`front, this`queued, this`scanoutLeft, this`submitted, surface`locked
      ensures BuffersHeld() && HistorySafe() && Onward(old(History()), History())
      ensures phase == Presenting && front == old(queued) && queued == None && surface.locked == Id(front)
      ensures submitted == old(submitted) + [Now(old(queued).value.shows)]
    {
      hide BuffersHeld, HistorySafe, SafeShown, Excluded, Onward;
      RecordSubmitted(queued.value.shows);
      front := queued;
      queued := None;
      GiveBack(front.value.id);
      phase := Presenting;
      HeldOnScreen();
    }

    // Buffers changed hands, and nothing else.
    twostate lemma OnlyBuffersMoved()
      requires old(Valid()) && BuffersHeld() && HistorySafe()
      requires unchanged(presets) && unchanged(sw) && unchanged(`current, `playing, `fading, `hung, `wedged, `failures)
      requires old(exitDecided) ==> exitDecided
      requires queued == None || queued == old(queued)
      ensures Valid()
    {
      hide BuffersHeld, HistorySafe, HungSkipped, PresetManager.Valid, PresetManager.Unskipped;
    }

    // Who holds what before a take, and after it.
    lemma HeldWhileWaiting()
      requires BuffersHeld() && phase != Presenting && queued.Some?
      ensures front == None && pending == None && Distinct(scanoutLeft)
      ensures surface.locked == {queued.value.id} + Ids(scanoutLeft) && queued.value.id !in Ids(scanoutLeft)
    {
    }

    lemma HeldOnScreen()
      requires phase == Presenting && front.Some? && pending == None && queued == None && scanoutLeft == []
      requires surface.locked == Id(front) == surface.displayed && surface.flight == None
      ensures BuffersHeld()
    {
    }

    twostate lemma TakeFailed()
      requires old(BuffersHeld()) && unchanged(this) && unchanged(surface`locked)
      requires surface.displayed == old(surface.displayed) && surface.flight == old(surface.flight)
      ensures BuffersHeld()
    {
    }

    // Releases the buffers left to the display, `kept` being on screen now.
    method GiveBack(kept: nat)
      requires surface.locked == {kept} + Ids(scanoutLeft) && kept !in Ids(scanoutLeft) && Distinct(scanoutLeft)
      requires surface.displayed == {kept}
      modifies this`scanoutLeft, surface`locked
      ensures scanoutLeft == [] && surface.locked == {kept} && Ids(scanoutLeft) == {} && Distinct(scanoutLeft)
    {
      while scanoutLeft != []
        invariant surface.locked == {kept} + Ids(scanoutLeft) && kept !in scanoutLeft && Distinct(scanoutLeft)
        decreases |scanoutLeft|
      {
        ghost var left := scanoutLeft;
        surface.Unlock(scanoutLeft[0]);
        scanoutLeft := scanoutLeft[1..];
        assert left == [left[0]] + scanoutLeft;
      }
    }

    // Stops presenting. A flip in flight is given a while to land; what may be
    // on screen stays locked.
    method ReleaseDisplay()
      requires Valid()
      modifies this`phase, this`front, this`pending, this`queued, this`scanoutLeft, surface, sw`takePending
      ensures Valid() && !sw.takePending && phase != Presenting
    {
      sw.CancelTake();
      if phase == Presenting {
        var tries: nat := *;
        while pending.Some? && tries > 0
          invariant Valid() && phase == Presenting && !sw.takePending
        {
          var landed: bool := *;
          if landed {
            Land();
          }
          tries := tries - 1;
        }
        LeaveOnScreen();
      }
    }

    method LeaveOnScreen()
      requires Valid() && phase == Presenting
      modifies this`phase, this`front, this`pending, this`queued, this`scanoutLeft, surface`locked
      ensures Valid() && phase == Released && queued == None
      ensures Ids(scanoutLeft) == old(Id(front)) + old(Id(pending))
    {
      DropWaiting();
      HeldWhilePresenting();
      hide BuffersHeld, HistorySafe, Core, App.Valid;
      KeepLocked(front);
      KeepLocked(pending);
      front, pending := None, None;
      phase := Released;
      HeldByDisplay();
      OnlyBuffersMoved();
    }

    method DropWaiting()
      requires Valid()
      modifies this`queued, surface`locked
      ensures Valid() && queued == None && HistorySafe()
    {
      hide BuffersHeld, HistorySafe, HungSkipped, PresetManager.Valid, PresetManager.Unskipped;
      DropQueued();
    }

    lemma HeldWhilePresenting()
      requires BuffersHeld() && phase == Presenting && queued == None
      ensures Distinct(scanoutLeft) && Ids(scanoutLeft) == {} && Id(front) !! Id(pending)
      ensures surface.locked == Id(front) + Id(pending) == surface.displayed
    {
    }

    lemma HeldByDisplay()
      requires phase == Released && front == None && pending == None && queued == None && Distinct(scanoutLeft)
      requires surface.locked == Ids(scanoutLeft) == surface.displayed
      ensures BuffersHeld()
    {
    }

    // Leaves a buffer to the display.
    method KeepLocked(b: Option<Buffer>)
      requires Distinct(scanoutLeft) && Id(b) !! Ids(scanoutLeft)
      modifies this`scanoutLeft
      ensures Distinct(scanoutLeft) && Ids(scanoutLeft) == old(Ids(scanoutLeft)) + Id(b)
    {
      if b.Some? {
        scanoutLeft := scanoutLeft + [b.value.id];
      }
    }

    // ---------------------------------------------------------- commands

    method SetHighFrequencyFilter(on: bool)
      requires Valid()
      modifies this`queued, surface`locked, sw`requested, presets`highFrequency, presets`bag, presets`round, presets`dealt
      ensures Valid() && presets.highFrequency == on
      ensures old(sw.Holding()) ==> sw.Holding()
      ensures Urgent(old(sw.requested)) ==> Urgent(sw.requested)
      // From here on, a frame showing an excluded preset is not even waiting.
      ensures presets.HighFrequencyOnScreen() ==> queued == None && sw.Pending()
    {
      var cut := presets.SetHighFrequency(on);
      FilterKeepsCore(old(presets.highFrequency));
      if cut {
        GuardHighFrequency();
      }
    }

    twostate lemma FilterKeepsCore(was: bool)
      requires old(Valid()) && presets.Valid()
      requires unchanged(this) && unchanged(sw) && unchanged(surface)
      requires unchanged(presets`skipped) && unchanged(presets`showing) && unchanged(presets`outgoing)
      ensures Valid0()
    {
    }

    // No command, whatever it is, drops a pending eject or lets a frame through
    // while frames are held; only a `take` that must cut an excluded preset away
    // makes the pending switch itself.
    method HandleCommand(c: Command)
      requires Valid() && !wedged
      modifies this, presets, sw, surface
      ensures Valid() && (old(exitDecided) ==> exitDecided) && Onward(old(History()), History())
      ensures old(sw.Holding()) ==> sw.Holding() && (phase == Presenting ==> old(phase) == Presenting)
      ensures Urgent(old(sw.requested)) && (c != Take || !old(presets.HighFrequencyOnScreen())) ==> Urgent(sw.requested)
      ensures c == Take && !old(presets.HighFrequencyOnScreen()) ==> sw.requested == old(sw.requested)
      ensures c == Take ==> CutEnded(old(sw.requested))
      ensures c == Take && old(phase) != Presenting && old(sw.Holding()) ==> sw.takePending
      ensures c == Release ==> phase != Presenting && !sw.takePending
      ensures c == Exit ==> exitDecided
      ensures c == SetHighFrequency(false) && presets.HighFrequencyOnScreen() ==> queued == None && sw.Pending()
    {
      hide BuffersHeld, HistorySafe, HungSkipped, PresetManager.Valid, PresetManager.Unskipped;
      OnwardItself(History());
      hide Onward;
      match c {
        case Take => TakeDisplay();
        case Release => ReleaseDisplay();
        case Exit => exitDecided := true;
        case NextPreset => RequestSwitch(Next);
        case PrevPreset => RequestSwitch(Prev);
        case Lock(on) => presets.SetLocked(on);
        case SetRotate =>
        case SetHighFrequency(on) => SetHighFrequencyFilter(on);
        case SetMinFps => SetMinimumRate();
      }
    }

    method RequestSwitch(s: Switch)
      requires Valid() && s != NoSwitch
      modifies sw`requested
      ensures Valid() && (old(sw.Holding()) ==> sw.Holding())
      ensures sw.requested == if Urgent(old(sw.requested)) then old(sw.requested) else s
    {
      sw.Request(s);
    }

    method SetMinimumRate()
      requires Valid()
      modifies presets`skipped, sw`requested
      ensures Valid() && (old(sw.Holding()) ==> sw.Holding())
      ensures sw.requested == old(sw.requested) || sw.requested == Eject
    {
      var skip: bool := *;
      if !skip || current == None || sw.Holding() {
        return;
      }
      SkipCurrent();
    }

    // ---------------------------------------------------------- whole runs

    // A round of the loop: the flip first and only while it is awaited, then
    // the GPU resets, then the commands, then a step of presenting or recovery.
    // A reset `logged` when the round began comes before its commands: no frame
    // rendered or submitted in the round shows the preset that hung.
    method Round(logged: bool)
      requires Valid() && !exitDecided
      modifies this, presets, sw, surface
      ensures Valid() && Onward(old(History()), History())
      ensures logged && old(current).Some? ==>
                && old(current).value in hung
                && NotShown(old(current).value, old(rendered), rendered)
                && NotShown(old(current).value, old(submitted), submitted)
    {
      OnwardItself(History());
      hide App.Valid, Onward, NotShown;
      var flipReady: bool := *;
      flipReady := flipReady && FlipAwaited();
      WedgedExits();
      if flipReady && FlipAwaited() {
        OnFlip();
      }
      CheckGpuResets(logged);
      ghost var checked := History();
      HungGrows(old(History()), checked);
      Rest();
      OnwardTrans(old(History()), checked, History());
      if logged && old(current).Some? {
        HungIsNotShown(old(current).value, checked);
      }
    }

    lemma HungIsNotShown(i: nat, checked: Past)
      requires Valid() && i in checked.hung && Onward(checked, History())
      ensures i in hung && NotShown(i, checked.rendered, rendered) && NotShown(i, checked.submitted, submitted)
    {
    }

    // The commands of a round and its step, after the first look for resets.
    method Rest()
      requires Valid() && (wedged ==> exitDecided)
      modifies this, presets, sw, surface
      ensures Valid() && Onward(old(History()), History())
    {
      OnwardItself(History());
      hide App.Valid, Onward;
      if exitDecided {
        return;
      }
      ReadCommands();
      WedgedExits();
      if exitDecided {
        return;
      }
      ghost var past := History();
      var logged: bool := *;
      CheckGpuResets(logged);
      HungGrows(past, History());
      OnwardTrans(old(History()), past, History());
      Housekeeping();
      past := History();
      if phase == Presenting {
        var lost: bool, due: bool, freeBuffer: bool, rotateDue: bool := *, *, *, *;
        PresentStep(lost, due, freeBuffer, rotateDue);
      } else {
        RecoverStep();
      }
      OnwardTrans(old(History()), past, History());
    }

    lemma WedgedExits()
      requires Valid()
      ensures wedged ==> exitDecided
    {
    }

    // A thermal exit, or a level change for a new rung that fails.
    method Housekeeping()
      requires Valid()
      modifies this`exitDecided
      ensures Valid() && (old(exitDecided) ==> exitDecided)
    {
      hide BuffersHeld, HistorySafe, HungSkipped, PresetManager.Valid, PresetManager.Unskipped;
      var fails: bool := *;
      if fails {
        exitDecided := true;
      }
    }

    predicate FlipAwaited()
      reads this`phase, this`pending
    {
      phase == Presenting && pending.Some?
    }

    // Any number of commands, none after an exit was decided.
    method ReadCommands()
      requires Valid() && !wedged
      modifies this, presets, sw, surface
      ensures Valid() && (old(exitDecided) ==> exitDecided) && Onward(old(History()), History())
      ensures old(sw.Holding()) ==> sw.Holding()
    {
      hide BuffersHeld, HistorySafe, HungSkipped, PresetManager.Valid, PresetManager.Unskipped;
      OnwardItself(History());
      hide Onward;
      var n: nat := *;
      while n > 0 && !exitDecided
        invariant Valid() && (old(exitDecided) ==> exitDecided)
        invariant old(sw.Holding()) ==> sw.Holding()
        invariant (wedged ==> exitDecided) && Onward(old(History()), History())
        decreases n
      {
        var c: Command := *;
        ghost var past := History();
        HandleCommand(c);
        OnwardTrans(old(History()), past, History());
        n := n - 1;
      }
    }

    // Loads the first preset and renders the frame a `take` will show.
    method Prepare(lockedFile: string) returns (ok: bool)
      requires Valid() && phase == Prepared && !wedged && queued == None && !sw.forceCut && sw.requested == NoSwitch
      requires !presets.hasCurrent && presets.bag == []
      modifies this, presets, sw`forceCut, surface`locked
      ensures Valid() && phase == Prepared
      ensures ok <==> queued.Some?
      ensures !ok ==> exitDecided
    {
      assert Core();
      CoreIsValid();
      hide App.Valid, Core, Onward, PresetManager.Valid, PresetManager.Unskipped, PresetManager.NoneEligible;
      hide PresetManager.HighFrequencyOnScreen;
      label picking:
      var first := presets.Start(lockedFile);
      PickKeepsCore@picking();
      var loaded := LoadFirst(first);
      if !loaded {
        GiveUp();
        return false;
      }
      ReadyToRender();
      ok := RenderFrame();
    }

    lemma ReadyToRender()
      requires Core() && !wedged && queued == None && !sw.forceCut
      ensures Valid() && !sw.Holding()
    {
    }

    // No preset could be loaded, or the exit interrupted it.
    method GiveUp()
      requires Core() && queued == None
      modifies this`wedged, this`exitDecided
      ensures Valid() && exitDecided
    {
      hide BuffersHeld, HistorySafe, HungSkipped, PresetManager.Valid, PresetManager.Unskipped;
      wedged := true;
      exitDecided := true;
    }

    // Selection batches until one loads; only an exit interrupts them.
    method LoadFirst(first: Option<nat>) returns (loaded: bool)
      requires Core() && !wedged && queued == None && phase == Prepared && sw.requested == NoSwitch
      requires first.Some? ==> presets.Eligible(first.value)
      requires first.None? ==> presets.NoneEligible()
      modifies this`current, this`playing, this`fading, this`rendered, this`failures, this`exitDecided, this`wedged
      modifies presets, sw`forceCut
      ensures Core() && sw.requested == NoSwitch
      ensures loaded ==> !wedged && !sw.forceCut && !presets.HighFrequencyOnScreen()
    {
      hide Core, Onward, PresetManager.Valid, PresetManager.DealtFrom, PresetManager.Unskipped, PresetManager.NoneEligible;
      var sel := SwitchTo(first, false);
      while sel == Deferred
        invariant Core() && queued == None && sw.requested == NoSwitch
        invariant wedged <==> sel == Exhausted || sel == Aborted
        invariant sel == Switched ==>
                    && !sw.forceCut && presets.showing.Some? && presets.Eligible(presets.showing.value)
                    && presets.outgoing == None
        decreases sel == Deferred, presets.Unskipped()
      {
        var interrupted: bool := *;
        if interrupted {
          return false;
        }
        CoreIsValid();
        label picking:
        var next := presets.Rotate();
        PickKeepsCore@picking();
        sel := SwitchTo(next, false);
      }
      loaded := sel == Switched;
    }

    // Every frame of every run is safe, and every buffer locked in it is given
    // back by its end.
    method Run(lockedFile: string, rounds: nat)
      requires Valid() && phase == Prepared && !wedged && queued == None && !sw.forceCut && sw.requested == NoSwitch
      requires !presets.hasCurrent && presets.bag == []
      modifies this, presets, sw, surface
      ensures surface.locked == {}
      ensures forall k :: 0 <= k < |rendered| ==> SafeShown(rendered[k])
      ensures forall k :: 0 <= k < |submitted| ==> SafeShown(submitted[k])
      ensures failures <= |presets.entries|
    {
      hide App.Valid, Core, Onward, NotShown;
      var ok := Prepare(lockedFile);
      var n := rounds;
      while n > 0 && !exitDecided
        invariant Valid()
      {
        var logged: bool := *;
        Round(logged);
        n := n - 1;
      }
      ReleaseDisplay();
      ValidIsSafe();
      Teardown();
    }

    lemma ValidIsSafe()
      requires Valid()
      ensures forall k :: 0 <= k < |rendered| ==> SafeShown(rendered[k])
      ensures forall k :: 0 <= k < |submitted| ==> SafeShown(submitted[k])
      ensures failures <= |presets.entries|
    {
    }

    method Teardown()
      requires Valid() && phase != Presenting
      modifies this`queued, this`scanoutLeft, surface`locked
      ensures surface.locked == {} && queued == None && scanoutLeft == []
    {
      if queued.Some? {
        surface.UnlockAtTeardown(queued.value.id);
      }
      queued := None;
      while scanoutLeft != []
        invariant surface.locked == Ids(scanoutLeft) && Distinct(scanoutLeft) && queued == None
        decreases |scanoutLeft|
      {
        ghost var left := scanoutLeft;
        surface.UnlockAtTeardown(scanoutLeft[0]);
        scanoutLeft := scanoutLeft[1..];
        assert left == [left[0]] + scanoutLeft;
      }
    }
  }

  ghost function UpTo(n: nat): (r: set<nat>)
    ensures |r| == n
    ensures forall i: nat :: i in r <==> i < n
  {
    if n == 0 then {} else UpTo(n - 1) + {n - 1}
  }

  lemma UnskippedFits(presets: PresetManager)
    ensures |presets.Unskipped()| <= |presets.entries|
  {
    SubsetCount(presets.Unskipped(), UpTo(|presets.entries|));
  }

  lemma {:induction false} SubsetCount(a: set<nat>, b: set<nat>)
    requires a <= b
    ensures |a| <= |b|
  {
    if a != {} {
      var x :| x in a;
      SubsetCount(a - {x}, b - {x});
    }
  }

  lemma StrictSubsetCount(a: set<nat>, b: set<nat>, x: nat)
    requires a <= b && x in b && x !in a
    ensures |a| < |b|
  {
    SubsetCount(a, b - {x});
  }
}
