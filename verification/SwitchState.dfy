/**
  The pending preset switch: what the next switch is for, whether it must cut,
  whether frames may be rendered before it has happened, and whether a `take`
  waits for it.
*/
module Switching {
  datatype Switch = NoSwitch | Rotate | Next | Prev | Eject | Retry

  // How a selection ended.
  datatype Selection = Switched | Deferred | Exhausted | Aborted

  // A switch that no command and no timer may replace.
  predicate Urgent(s: Switch) { s == Eject || s == Retry }

  class SwitchState {
    var requested: Switch
    var forceCut: bool
    var takePending: bool

    constructor ()
      ensures requested == NoSwitch && !forceCut && !takePending
    {
      requested, forceCut, takePending := NoSwitch, false, false;
    }

    predicate Pending() reads `requested { requested != NoSwitch }

    // The renderer shows a hung or failed preset until the pending switch
    // replaces it: no frame may be rendered, none shown.
    predicate Holding() reads `forceCut, `requested { forceCut && requested != NoSwitch }

    predicate Smooth() reads `forceCut { !forceCut }

    method Request(s: Switch)
      modifies this`requested
      ensures requested == if Urgent(old(requested)) then old(requested) else s
      ensures old(Holding()) && s != NoSwitch ==> Holding()
    {
      if requested == Eject || requested == Retry {
        return;
      }
      requested := s;
    }

    method DoEject()
      modifies this`requested
      ensures requested == Eject
    {
      requested := Eject;
    }

    method EjectIfIdle()
      modifies this`requested
      ensures requested == if old(requested) == NoSwitch then Eject else old(requested)
    {
      if requested == NoSwitch {
        requested := Eject;
      }
    }

    // The preset showing hung the GPU.
    method Hang()
      modifies this`requested, this`forceCut
      ensures requested == Eject && forceCut && Holding()
    {
      requested := Eject;
      forceCut := true;
    }

    method Begin() returns (s: Switch)
      modifies this`requested
      ensures s == old(requested) && requested == NoSwitch
    {
      s := requested;
      requested := NoSwitch;
    }

    method Selected(sel: Selection, activatedFailure: bool)
      modifies this`forceCut
      ensures forceCut == match sel
                          case Switched => false
                          case Deferred => old(forceCut) || activatedFailure
                          case _ => old(forceCut)
    {
      if sel == Switched {
        forceCut := false;
      } else if sel == Deferred {
        forceCut := forceCut || activatedFailure;
      }
    }

    method DoRetry()
      modifies this`requested
      ensures requested == Retry
    {
      requested := Retry;
    }

    // A `take` arrived. False: it waits until a replacement has loaded.
    method RequestTake() returns (now: bool)
      modifies this`takePending
      ensures now == !Holding()
      ensures takePending == (old(takePending) || !now)
    {
      if !Holding() {
        return true;
      }
      takePending := true;
      return false;
    }

    // A `take` that waited and can run now, once.
    method TakeDue() returns (due: bool)
      modifies this`takePending
      ensures due == (old(takePending) && !Holding())
      ensures takePending == (old(takePending) && !due)
    {
      if !takePending || Holding() {
        return false;
      }
      takePending := false;
      return true;
    }

    method CancelTake()
      modifies this`takePending
      ensures !takePending
    {
      takePending := false;
    }
  }
}
