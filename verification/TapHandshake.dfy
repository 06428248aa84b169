/**
  The handshake that hands the ring's writer to the playback thread: every load
  and store of with_tap, set_pcm_tap and handle_pcm_tap is one step, in any
  interleaving of the playback thread and the main thread.
*/
module TapHandshake {
  import opened Wrappers

  // Writers are told apart by a number, in the order they were made.
  type Tap = Option<nat>

  // with_tap: a first look at the pointer, then busy, the load that counts,
  // any number of stores through it, and busy cleared.
  datatype Playback = Away | Looked | Raised | Using(w: nat) | Lowering

  // set_pcm_tap: the exchange, the wait, the old writer's last epoch, and the
  // change of owner that frees it. Opening is the new writer writing its file.
  datatype Main =
    | Free
    | Opening(made: nat)
    | Exchanging(next: Tap)
    | Waiting(prev: Tap, next: Tap)
    | Ending(prev: Tap, next: Tap)

  datatype State = State(
    guarded: bool,  // calls come through handle_pcm_tap, which opens no second tap
    tap: Tap, busy: bool, owner: Tap,
    playback: Playback, main: Main,
    made: nat)

  datatype Step =
    | Look | Raise | Load | Use | Lower
    | TurnOn | Opened(ok: bool) | TurnOff | Exchange | PollBusy | Finish

  predicate Enabled(s: State, step: Step) {
    match step
    case Look => s.playback.Away?
    case Raise => s.playback.Looked?
    case Load => s.playback.Raised?
    case Use => s.playback.Using?
    case Lower => s.playback.Using? || s.playback.Lowering?
    case TurnOn => s.main.Free?
    case Opened(_) => s.main.Opening?
    case TurnOff => s.main.Free?
    case Exchange => s.main.Exchanging?
    case PollBusy => s.main.Waiting?
    case Finish => s.main.Ending?
  }

  function Apply(s: State, step: Step): State
    requires Enabled(s, step)
  {
    match step
    case Look => s.(playback := if s.tap.None? then Away else Looked)
    case Raise => s.(playback := Raised, busy := true)
    case Load => s.(playback := if s.tap.Some? then Using(s.tap.value) else Lowering)
    case Use => s
    case Lower => s.(playback := Away, busy := false)
    case TurnOn =>
      if s.guarded && s.tap.Some? then s
      else s.(main := Opening(s.made), made := s.made + 1)
    case Opened(ok) => s.(main := if ok then Exchanging(Some(s.main.made)) else Free)
    case TurnOff => s.(main := Exchanging(None))
    case Exchange => s.(main := Waiting(s.tap, s.main.next), tap := s.main.next)
    case PollBusy => if s.busy then s else s.(main := Ending(s.main.prev, s.main.next))
    case Finish => s.(main := Free, owner := s.main.next)
  }

  predicate Init(s: State) {
    s == State(s.guarded, None, false, None, Away, Free, 0)
  }

  // The writers that exist: the owner's, and one being made or handed over.
  function Alive(s: State): set<nat> {
    (if s.owner.Some? then {s.owner.value} else {}) +
    (match s.main
     case Free => {}
     case Opening(n) => {n}
     case Exchanging(next) => if next.Some? then {next.value} else {}
     case Waiting(_, next) => if next.Some? then {next.value} else {}
     case Ending(_, next) => if next.Some? then {next.value} else {})
  }

  // A writer the main thread is storing through: it is opening the file, or
  // ending the old tap's stream.
  predicate MainWrites(s: State, w: nat) {
    s.main == Opening(w) || (s.main.Ending? && s.main.prev == Some(w))
  }

  predicate PlaybackWrites(s: State, w: nat) { s.playback == Using(w) }

  // ------------------------------------------------------------ invariant

  ghost predicate Inv(s: State) {
    && s.busy == (s.playback.Raised? || s.playback.Using? || s.playback.Lowering?)
    && (s.tap.Some? ==> s.tap.value < s.made)
    && (s.owner.Some? ==> s.owner.value < s.made)
    && (match s.main
        case Free => s.tap == s.owner && InUse(s) <= Taps(s.tap)
        case Opening(n) =>
          && s.tap == s.owner && InUse(s) <= Taps(s.tap) && n < s.made && n !in Taps(s.tap)
          && (s.guarded ==> s.tap.None?)
        case Exchanging(next) =>
          && s.tap == s.owner && InUse(s) <= Taps(s.tap)
          && (next.Some? ==> next.value < s.made && next.value !in Taps(s.tap))
          && (s.guarded && next.Some? ==> s.tap.None?)
        case Waiting(prev, next) =>
          && s.tap == next && s.owner == prev && InUse(s) <= Taps(prev) + Taps(next)
          && Taps(prev) !! Taps(next)
          && (s.guarded && next.Some? ==> prev.None?)
        case Ending(prev, next) =>
          && s.tap == next && s.owner == prev && InUse(s) <= Taps(next)
          && Taps(prev) !! Taps(next)
          && (s.guarded && next.Some? ==> prev.None?))
  }

  function Taps(t: Tap): set<nat> { if t.Some? then {t.value} else {} }

  function InUse(s: State): set<nat> { if s.playback.Using? then {s.playback.w} else {} }

  lemma StepKeepsInv(s: State, step: Step)
    requires Inv(s) && Enabled(s, step)
    ensures Inv(Apply(s, step))
  {
    if step.Look? || step.Raise? || step.Load? || step.Use? || step.Lower? {
      PlaybackKeepsInv(s, step);
    } else {
      MainKeepsInv(s, step);
    }
  }

  lemma PlaybackKeepsInv(s: State, step: Step)
    requires Inv(s) && Enabled(s, step)
    requires step.Look? || step.Raise? || step.Load? || step.Use? || step.Lower?
    ensures Inv(Apply(s, step))
  {
  }

  lemma MainKeepsInv(s: State, step: Step)
    requires Inv(s) && Enabled(s, step)
    requires step.TurnOn? || step.Opened? || step.TurnOff? || step.Exchange? || step.PollBusy? || step.Finish?
    ensures Inv(Apply(s, step))
  {
  }

  ghost predicate Next(s: State, t: State) {
    exists step :: Enabled(s, step) && t == Apply(s, step)
  }

  ghost predicate IsRun(run: seq<State>) {
    && |run| > 0 && Init(run[0])
    && forall i: nat :: i + 1 < |run| ==> Next(run[i], run[i + 1])
  }

  lemma {:induction false} RunKeepsInv(run: seq<State>, j: nat)
    requires IsRun(run) && j < |run|
    ensures Inv(run[j])
    decreases j
  {
    if j > 0 {
      var i := j - 1;
      RunKeepsInv(run, i);
      assert Next(run[i], run[i + 1]);
      var step :| Enabled(run[i], step) && run[i + 1] == Apply(run[i], step);
      StepKeepsInv(run[i], step);
    }
  }

  // In every run, whoever calls set_pcm_tap: the writer the playback thread
  // uses exists and the main thread is not storing through it.
  lemma UsedWriterIsSafe(run: seq<State>, j: nat)
    requires IsRun(run) && j < |run| && run[j].playback.Using?
    ensures run[j].playback.w in Alive(run[j]) && !MainWrites(run[j], run[j].playback.w)
  {
    RunKeepsInv(run, j);
  }

  // In every run of handle_pcm_tap calls: the file has at most one writer, and
  // never two threads storing into it.
  lemma OneWriterPerFile(run: seq<State>, j: nat, v: nat, w: nat)
    requires IsRun(run) && j < |run| && run[j].guarded
    ensures v in Alive(run[j]) && w in Alive(run[j]) ==> v == w
    ensures !(MainWrites(run[j], v) && PlaybackWrites(run[j], w))
  {
    RunKeepsInv(run, j);
  }

  // A freed writer is one that is no longer alive: none is freed in use.
  lemma FreeingIsSafe(run: seq<State>, j: nat, w: nat)
    requires IsRun(run) && j + 1 < |run|
    requires w in Alive(run[j]) && w !in Alive(run[j + 1])
    ensures !PlaybackWrites(run[j], w) && !PlaybackWrites(run[j + 1], w)
  {
    RunKeepsInv(run, j);
    RunKeepsInv(run, j + 1);
    assert Next(run[j], run[j + 1]);
  }

  lemma StepIsNext(s: State, step: Step)
    requires Enabled(s, step)
    ensures Next(s, Apply(s, step))
  {
  }

  // Without the check in handle_pcm_tap a file can have two writers.
  lemma UnguardedHasTwoWriters()
    ensures exists run: seq<State> :: IsRun(run) && |Alive(run[|run| - 1])| == 2
  {
    var s0 := State(false, None, false, None, Away, Free, 0);
    var s1 := Apply(s0, TurnOn);
    var s2 := Apply(s1, Opened(true));
    var s3 := Apply(s2, Exchange);
    var s4 := Apply(s3, PollBusy);
    var s5 := Apply(s4, Finish);
    var s6 := Apply(s5, TurnOn);
    var run := [s0, s1, s2, s3, s4, s5, s6];
    assert Alive(s6) == {0, 1};
    StepIsNext(s0, TurnOn);
    StepIsNext(s1, Opened(true));
    StepIsNext(s2, Exchange);
    StepIsNext(s3, PollBusy);
    StepIsNext(s4, Finish);
    StepIsNext(s5, TurnOn);
    assert IsRun(run) by { hide Next; }
  }
}
