/**
  Which preset plays: the filters, the shuffle bag, the history with its
  cursor, and what the renderer reports as playing and blending out.
*/
module Presets {
  import opened Wrappers

  datatype Entry = Entry(file: string, highFrequency: bool, rpi3Skip: bool)

  // Why a start did not lock on the file it was given.
  datatype Refusal = NotRefused | Unknown | Skipped | HighFrequency | Rpi3Skip

  ghost predicate Distinct(s: seq<nat>) {
    forall i, j :: 0 <= i < j < |s| ==> s[i] != s[j]
  }

  function Elements(s: seq<nat>): set<nat> { set i | i in s }

  class PresetManager {
    const entries: seq<Entry>
    const gles2: bool
    const historyLimit: nat

    var skipped: set<string>
    var highFrequency: bool
    var bag: seq<nat>      // remaining picks, the last one next
    var history: seq<nat>  // played, oldest first
    var cursor: nat        // index into history of the current preset
    var hasCurrent: bool
    var locked: bool
    var refusedLock: Refusal
    var showing: Option<nat>
    var outgoing: Option<nat>

    // What the last refill put in the bag, and what has been dealt from it.
    ghost var round: set<nat>
    ghost var dealt: set<nat>

    constructor (entries: seq<Entry>, skipped: set<string>, gles2: bool, highFrequency: bool, historyLimit: nat)
      requires historyLimit > 0
      ensures Valid() && Fresh()
      ensures this.entries == entries && this.skipped == skipped && this.highFrequency == highFrequency
      ensures this.gles2 == gles2 && showing == None && outgoing == None && !hasCurrent
    {
      this.entries, this.skipped, this.gles2, this.highFrequency := entries, skipped, gles2, highFrequency;
      this.historyLimit := historyLimit;
      bag, history, cursor, hasCurrent, locked, refusedLock := [], [], 0, false, false, NotRefused;
      showing, outgoing := None, None;
      round, dealt := {}, {};
    }

    // ---------------------------------------------------------- invariant

    ghost predicate Valid()
      reads this
    {
      && historyLimit > 0
      && Distinct(bag)
      && (forall k :: 0 <= k < |bag| ==> bag[k] < |entries|)
      && (forall k :: 0 <= k < |history| ==> history[k] < |entries|)
      && (hasCurrent ==> cursor < |history|)
      && (showing.Some? ==> showing.value < |entries|)
      && (outgoing.Some? ==> outgoing.value < |entries|)
      // A round deals each of its presets exactly once.
      && dealt !! Elements(bag) && round == dealt + Elements(bag)
    }

    // The current preset is not waiting in the bag: what a start and any
    // rotations, skips and filter changes keep (next and prev may not).
    ghost predicate Fresh()
      reads `hasCurrent, `cursor, `history, `bag
    {
      hasCurrent && cursor < |history| ==> history[cursor] !in bag
    }

    predicate ExcludedHighFrequency(i: nat)
      reads `highFrequency
    {
      i < |entries| && entries[i].highFrequency && !highFrequency
    }

    predicate Eligible(i: nat)
      reads `skipped, `highFrequency
    {
      && i < |entries|
      && entries[i].file !in skipped
      && !(entries[i].highFrequency && !highFrequency)
      && !(gles2 && entries[i].rpi3Skip)
    }

    ghost predicate NoneEligible()
      reads `skipped, `highFrequency
    {
      forall i: nat :: !Eligible(i)
    }

    ghost function EligibleSet(): set<nat>
      reads `skipped, `highFrequency
    {
      set i: nat | i < |entries| && Eligible(i)
    }

    // Presets not skipped so far: each failed attempt removes at least one.
    ghost function Unskipped(): set<nat>
      reads `skipped
    {
      set i: nat | i < |entries| && entries[i].file !in skipped
    }

    function Current(): Option<nat>
      reads `hasCurrent, `cursor, `history
      requires hasCurrent ==> cursor < |history|
    {
      if hasCurrent then Some(history[cursor]) else None
    }

    // Entry `i` is the first one of that file.
    ghost predicate FirstNamed(i: nat, file: string) {
      i < |entries| && entries[i].file == file && forall k :: 0 <= k < i ==> entries[k].file != file
    }

    // Why a start does not lock on entry `i`.
    function RefusalOf(i: nat): Refusal
      requires i < |entries|
      reads `skipped, `highFrequency
    {
      if Eligible(i) then NotRefused
      else if entries[i].file in skipped then Skipped
      else if ExcludedHighFrequency(i) then HighFrequency
      else Rpi3Skip
    }

    ghost predicate Refused(file: string, reason: Refusal)
      reads `skipped, `highFrequency
    {
      if file == "" then reason == NotRefused
      else
        && (forall i: nat :: FirstNamed(i, file) ==> reason == RefusalOf(i))
        && ((forall i: nat :: !FirstNamed(i, file)) ==> reason == Unknown)
    }

    predicate Excluded(t: Option<nat>)
      reads `highFrequency
    {
      t.Some? && ExcludedHighFrequency(t.value)
    }

    predicate HighFrequencyOnScreen()
      reads `highFrequency, `showing, `outgoing
    {
      Excluded(showing) || Excluded(outgoing)
    }

    // The history has an eligible entry after, or before, the current one.
    ghost predicate HasLater()
      reads `hasCurrent, `cursor, `history, `skipped, `highFrequency
    {
      hasCurrent && exists c: nat :: cursor < c < |history| && Eligible(history[c])
    }

    ghost predicate HasEarlier()
      reads `hasCurrent, `cursor, `history, `skipped, `highFrequency
    {
      hasCurrent && exists c: nat :: c < cursor && c < |history| && Eligible(history[c])
    }

    // `i` is what the bag `before` gave: its last eligible entry, what lay
    // behind it dropped; or, with none eligible, the first of a new round that
    // holds every eligible preset.
    ghost predicate DealtFrom(before: seq<nat>, roundBefore: set<nat>, i: nat)
      reads `bag, `round, `dealt, `skipped, `highFrequency
    {
      if NoneIn(before) then
        Eligible(i) && round == EligibleSet() && dealt == {i}
      else
        && |bag| < |before| && bag == before[..|bag|] && before[|bag|] == i
        && Eligible(i) && NoneIn(before[|bag| + 1..]) && round == roundBefore
    }

    ghost predicate NoneIn(s: seq<nat>)
      reads `skipped, `highFrequency
    {
      forall i :: i in s ==> !Eligible(i)
    }

    // ---------------------------------------------------------- queries

    method EligibleCount() returns (n: nat)
      requires Valid()
      ensures n == 0 <==> NoneEligible()
      ensures n == |EligibleSet()|
    {
      n := 0;
      ghost var seen: set<nat> := {};
      for i := 0 to |entries|
        invariant seen == (set k: nat | k < i && Eligible(k)) && n == |seen|
      {
        if Eligible(i) {
          n := n + 1;
          seen := seen + {i};
        }
      }
      assert seen == EligibleSet();
      if n > 0 {
        ghost var i :| i in seen;
        assert Eligible(i);
      } else {
        forall i: nat
          ensures !Eligible(i)
        {
          assert i !in seen;
        }
      }
    }

    // ---------------------------------------------------------- the bag

    // An arbitrary permutation of the eligible presets: the random weights only
    // change its odds.
    method ShuffledEligible() returns (keyed: seq<nat>)
      ensures Distinct(keyed)
      ensures forall k: nat :: k in keyed <==> k < |entries| && Eligible(k)
    {
      keyed := [];
      for i := 0 to |entries|
        invariant Distinct(keyed)
        invariant forall k: nat :: k in keyed <==> k < i && Eligible(k)
      {
        if Eligible(i) {
          var at: nat := *;
          if at > |keyed| {
            at := |keyed|;
          }
          keyed := Insert(keyed, at, i);
        }
      }
    }

    // Refills the bag with a permutation that does not start with the current
    // preset, unless it is alone.
    method RefillBag()
      requires Valid()
      modifies this`bag, this`round, this`dealt
      ensures Valid()
      ensures forall i: nat :: i in bag <==> Eligible(i)
      ensures round == Elements(bag) && dealt == {}
      ensures hasCurrent && |bag| > 1 ==> bag[|bag| - 1] != history[cursor]
    {
      bag := ShuffledEligible();
      if hasCurrent && |bag| > 1 && bag[|bag| - 1] == history[cursor] {
        bag := SwapEnds(bag);
      }
      assert forall k :: 0 <= k < |bag| ==> bag[k] in bag && Eligible(bag[k]);
      round, dealt := Elements(bag), {};
    }

    // The next eligible preset from the bag, or |entries| when none is.
    method Draw() returns (i: nat)
      requires Valid()
      modifies this`bag, this`round, this`dealt
      ensures Valid()
      ensures i <= |entries| && (i == |entries| <==> NoneEligible())
      ensures i == |entries| ==> bag == []
      ensures i < |entries| ==> Eligible(i) && i !in bag && i in dealt
      ensures i < |entries| ==> DealtFrom(old(bag), old(round), i)
      ensures i < |entries| && old(Fresh()) && hasCurrent && i == history[cursor] ==>
                forall k: nat :: Eligible(k) ==> k == i
    {
      hide Valid;
      while true
        invariant Valid()
        invariant bag <= old(bag)
        invariant NoneIn(old(bag)[|bag|..]) && round == old(round)
        decreases |bag|
      {
        if bag == [] {
          i := DrawAnew();
          return;
        }
        LastIsEntry();
        i := bag[|bag| - 1];
        Pop();
        if Eligible(i) {
          assert i in old(bag);
          return;
        }
        OneMoreNone(old(bag), |bag|);
      }
    }

    // The first preset of a new round.
    method DrawAnew() returns (i: nat)
      requires Valid() && bag == []
      modifies this`bag, this`round, this`dealt
      ensures Valid() && i <= |entries| && (i == |entries| <==> NoneEligible())
      ensures i == |entries| ==> bag == []
      ensures i < |entries| ==> Eligible(i) && i !in bag && round == EligibleSet() && dealt == {i}
      ensures i < |entries| && hasCurrent && i == history[cursor] ==> forall k: nat :: Eligible(k) ==> k == i
    {
      RefillBag();
      if bag == [] {
        assert forall k: nat :: Eligible(k) ==> k in bag;
        return |entries|;
      }
      i := bag[|bag| - 1];
      assert i in bag && Eligible(i);
      assert |bag| == 1 ==> forall k: nat :: Eligible(k) ==> k in bag && k == bag[0];
      assert round == EligibleSet();
      Pop();
    }

    lemma LastIsEntry()
      requires Valid() && bag != []
      ensures bag[|bag| - 1] < |entries| && bag[|bag| - 1] !in bag[..|bag| - 1]
    {
    }

    lemma OneMoreNone(s: seq<nat>, k: nat)
      requires k < |s| && !Eligible(s[k]) && NoneIn(s[k + 1..])
      ensures NoneIn(s[k..])
    {
      assert s[k..] == [s[k]] + s[k + 1..];
    }

    method Pop()
      requires Valid() && bag != []
      modifies this`bag, this`dealt
      ensures Valid() && bag == old(bag)[..|old(bag)| - 1]
      ensures dealt == old(dealt) + {old(bag)[|old(bag)| - 1]}
      ensures old(bag)[|old(bag)| - 1] !in bag
    {
      ghost var before, last := bag, bag[|bag| - 1];
      bag := bag[..|bag| - 1];
      dealt := dealt + {last};
      assert before == bag + [last];
    }

    // ---------------------------------------------------------- picks

    method PushHistory(i: nat)
      requires Valid() && i < |entries|
      modifies this`history, this`cursor, this`hasCurrent
      ensures Valid() && hasCurrent && history[cursor] == i && cursor == |history| - 1
      ensures 1 <= |history| && (old(|history|) <= historyLimit ==> |history| <= historyLimit)
      // The forward part is gone; what was played before is kept, newest last.
      ensures var past := if old(hasCurrent) then old(history[..cursor + 1]) else old(history);
        && |past| <= |history| <= |past| + 1
        && history == (past + [i])[|past| + 1 - |history|..]
    {
      if hasCurrent {
        history := history[..cursor + 1];
      }
      history := history + [i];
      if |history| > historyLimit {
        history := history[1..];
      }
      cursor := |history| - 1;
      hasCurrent := true;
    }

    // The timer's pick. It repeats the current preset only when that is the
    // sole eligible one.
    method Rotate() returns (pick: Option<nat>)
      requires Valid()
      modifies this`bag, this`round, this`dealt, this`history, this`cursor, this`hasCurrent
      ensures Valid()
      ensures pick == None <==> NoneEligible()
      ensures pick.Some? ==> Eligible(pick.value) && Current() == pick && Fresh()
      ensures pick.None? ==> Current() == old(Current())
      ensures pick.Some? ==> DealtFrom(old(bag), old(round), pick.value)
      ensures old(Fresh()) ==> Fresh()
      ensures old(Fresh()) && pick.Some? && pick == old(Current()) ==>
                forall k: nat :: Eligible(k) ==> k == pick.value
    {
      var i := Draw();
      if i >= |entries| {
        return None;
      }
      PushHistory(i);
      return Some(i);
    }

    // Forward in history, or a new pick at its end.
    method Next() returns (pick: Option<nat>)
      requires Valid()
      modifies this`bag, this`round, this`dealt, this`history, this`cursor, this`hasCurrent
      ensures Valid()
      ensures pick == None <==> NoneEligible()
      ensures pick.Some? ==> Eligible(pick.value) && Current() == pick
      // A later history entry is taken if any is eligible, the first of them.
      ensures old(HasLater()) ==>
                && pick.Some? && history == old(history) && old(cursor) < cursor && bag == old(bag)
                && forall c: nat :: old(cursor) < c < cursor ==> !Eligible(history[c])
      ensures !old(HasLater()) && pick.Some? ==> DealtFrom(old(bag), old(round), pick.value)
    {
      if hasCurrent {
        for c := cursor + 1 to |history|
          invariant forall k: nat :: cursor < k < c ==> !Eligible(history[k])
        {
          if Eligible(history[c]) {
            assert history[c] in history;
            cursor := c;
            return Some(history[c]);
          }
        }
      }
      pick := Rotate();
    }

    // Back in history to the newest eligible earlier preset, or nothing.
    method Prev() returns (pick: Option<nat>)
      requires Valid()
      modifies this`cursor
      ensures Valid()
      ensures pick.Some? <==> old(HasEarlier())
      ensures pick.Some? ==>
                && Eligible(pick.value) && Current() == pick && cursor < old(cursor)
                && forall c: nat :: cursor < c < old(cursor) ==> !Eligible(history[c])
      ensures pick.None? ==>
                && cursor == old(cursor)
                && (hasCurrent ==> forall c: nat :: c < cursor ==> !Eligible(history[c]))
    {
      if !hasCurrent {
        return None;
      }
      var c := cursor;
      while c > 0
        invariant c <= cursor
        invariant forall k: nat :: c <= k < cursor ==> !Eligible(history[k])
      {
        c := c - 1;
        if Eligible(history[c]) {
          cursor := c;
          return Some(history[c]);
        }
      }
      return None;
    }

    // The preset to start on: `lockedFile`, locked, if it is eligible, else a
    // random one with the reason it was refused.
    method Start(lockedFile: string) returns (pick: Option<nat>)
      requires Valid() && !hasCurrent && bag == []
      modifies this`bag, this`round, this`dealt, this`history, this`cursor, this`hasCurrent, this`locked, this`refusedLock
      ensures Valid() && Fresh()
      ensures pick == None <==> NoneEligible()
      ensures pick.Some? ==> Eligible(pick.value) && Current() == pick
      ensures locked ==> lockedFile != "" && pick.Some? && FirstNamed(pick.value, lockedFile) && refusedLock == NotRefused
      ensures !locked && lockedFile != "" ==> forall i: nat :: FirstNamed(i, lockedFile) ==> !Eligible(i)
      ensures Refused(lockedFile, refusedLock)
    {
      hide FirstNamed;
      pick := StartLocked(lockedFile);
      locked := pick.Some?;
      if pick == None {
        pick := Rotate();
      }
    }

    method StartLocked(lockedFile: string) returns (pick: Option<nat>)
      requires Valid()
      modifies this`history, this`cursor, this`hasCurrent, this`refusedLock
      ensures Valid() && Refused(lockedFile, refusedLock)
      ensures pick.None? && lockedFile != "" ==> forall i: nat :: FirstNamed(i, lockedFile) ==> !Eligible(i)
      ensures pick.Some? ==> lockedFile != "" && FirstNamed(pick.value, lockedFile) && Eligible(pick.value) && Current() == pick
      ensures pick.None? ==> history == old(history) && cursor == old(cursor) && hasCurrent == old(hasCurrent)
    {
      hide FirstNamed, Refused, Distinct;
      var found;
      found, refusedLock := FindFile(lockedFile);
      if found.None? || refusedLock != NotRefused {
        return None;
      }
      PushHistory(found.value);
      return found;
    }

    // The first entry of `file`, and why a start does not lock on it.
    method FindFile(file: string) returns (found: Option<nat>, reason: Refusal)
      ensures Refused(file, reason)
      ensures file == "" ==> found.None?
      ensures found.Some? ==> found.value < |entries| && FirstNamed(found.value, file) && reason == RefusalOf(found.value)
      ensures file != "" ==> forall i: nat :: FirstNamed(i, file) ==> found == Some(i)
    {
      if file == "" {
        return None, NotRefused;
      }
      for i := 0 to |entries|
        invariant forall k :: 0 <= k < i ==> entries[k].file != file
      {
        if entries[i].file == file {
          assert FirstNamed(i, file);
          return Some(i), RefusalOf(i);
        }
      }
      return None, Unknown;
    }

    // ---------------------------------------------------------- filters

    // Never play `file` again this session. True if it is the current one.
    method Skip(file: string) returns (wasCurrent: bool)
      requires Valid()
      modifies this`skipped
      ensures Valid() && skipped == old(skipped) + {file}
      ensures wasCurrent == (hasCurrent && entries[history[cursor]].file == file)
      ensures forall i: nat :: Eligible(i) <==> old(Eligible(i)) && entries[i].file != file
    {
      skipped := skipped + {file};
      wasCurrent := hasCurrent && entries[history[cursor]].file == file;
    }

    // True if an excluded preset is now on screen: the caller must cut away.
    method SetHighFrequency(wanted: bool) returns (cut: bool)
      requires Valid()
      modifies this`highFrequency, this`bag, this`round, this`dealt
      ensures Valid() && highFrequency == wanted && cut == HighFrequencyOnScreen()
      ensures old(Fresh()) ==> Fresh()
      ensures wanted == old(highFrequency) ==> bag == old(bag)
      ensures wanted != old(highFrequency) ==> bag == []
    {
      if wanted != highFrequency {
        highFrequency := wanted;
        bag := [];
        round, dealt := {}, {};
      }
      cut := HighFrequencyOnScreen();
    }

    method SetLocked(on: bool)
      requires Valid()
      modifies this`locked
      ensures Valid() && locked == on
    {
      locked := on;
    }

    // ---------------------------------------------------------- on screen

    // A switch to entry `i` took effect, blended or cut.
    method OnShown(i: nat, blend: bool)
      requires Valid() && i < |entries|
      modifies this`showing, this`outgoing
      ensures Valid() && showing == Some(i) && outgoing == if blend then old(showing) else None
    {
      outgoing := if blend then showing else None;
      showing := Some(i);
    }

    method OnBlendDone()
      requires Valid()
      modifies this`outgoing
      ensures Valid() && outgoing == None
    {
      outgoing := None;
    }

    // Where the cut away from an excluded preset goes.
    method CutTarget() returns (pick: Option<nat>)
      requires Valid()
      modifies this`bag, this`round, this`dealt, this`history, this`cursor, this`hasCurrent
      ensures Valid()
      ensures pick == None <==> NoneEligible()
      ensures pick.Some? ==> Eligible(pick.value)
      ensures showing.Some? && Eligible(showing.value) ==> pick == showing && bag == old(bag) && history == old(history)
      ensures !(showing.Some? && Eligible(showing.value)) && pick.Some? ==> DealtFrom(old(bag), old(round), pick.value)
    {
      if showing.Some? && Eligible(showing.value) {
        return showing;
      }
      pick := Rotate();
    }
  }

  function Insert(s: seq<nat>, at: nat, x: nat): (r: seq<nat>)
    requires at <= |s| && Distinct(s) && x !in s
    ensures Distinct(r) && forall k: nat :: k in r <==> k == x || k in s
  {
    assert s == s[..at] + s[at..];
    s[..at] + [x] + s[at..]
  }

  function SwapEnds(s: seq<nat>): (r: seq<nat>)
    requires |s| > 1 && Distinct(s)
    ensures Distinct(r) && |r| == |s| && r[|r| - 1] == s[0]
    ensures forall k: nat :: k in r <==> k in s
  {
    var r := s[0 := s[|s| - 1]][|s| - 1 := s[0]];
    assert forall k :: 0 <= k < |s| ==> s[k] == r[if k == 0 then |s| - 1 else if k == |s| - 1 then 0 else k];
    r
  }
}
