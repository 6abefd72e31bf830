/**
 The background worker of runtime/lifecycle/worker.go: a three-state machine whose fields
 change only inside lock-protected sections. Each section is a function on the fields; the
 class runs the same sections in place.
 */
module WorkerMachine {

  datatype Phase = Idle | Running | Stopped

  /** What Shutdown's locked section decides. */
  datatype Verdict = NothingToWaitFor | MustCancel

  /**
   The fields of one Worker: its state, whether a cancel function is stored, whether the
   loop's context has been canceled, and how often the done channel has been closed (a second
   close would panic).
   */
  datatype Fields = Fields(phase: Phase, cancelable: bool, canceled: bool, closes: nat) {

    /** Run's first locked section: false when Shutdown got there first. */
    function BeginRun(): (Fields, bool) {
      if phase == Stopped then (this, false)
      else (this.(phase := Running, cancelable := true), true)
    }

    /** Run's second locked section, after the loop returned. */
    function FinishRun(): Fields {
      this.(phase := Stopped)
    }

    function CloseDone(): Fields {
      this.(closes := closes + 1)
    }

    /** Shutdown's locked section. */
    function BeginShutdown(): (Fields, Verdict) {
      match phase
      case Idle => (this.(phase := Stopped), NothingToWaitFor)
      case Stopped => (this, NothingToWaitFor)
      case Running => (this, MustCancel)
    }

    function Cancel(): Fields {
      this.(canceled := true)
    }
  }

  const Fresh := Fields(Idle, false, false, 0)

  /**
   What holds of a worker between any two sections: a running one can be canceled, only a loop
   that ran is canceled or closes the channel, and it closes it once and after stopping.
   */
  predicate Consistent(f: Fields) {
    && (f.phase == Idle ==> !f.cancelable)
    && (f.phase == Running ==> f.cancelable)
    && (f.canceled ==> f.cancelable)
    && (f.closes > 0 ==> f.phase == Stopped && f.cancelable)
    && f.closes <= 1
  }

  /** What no section undoes: stopping, having been canceled, and having closed. */
  predicate Onward(f: Fields, f': Fields) {
    && (f.phase == Stopped ==> f'.phase == Stopped && f'.cancelable == f.cancelable)
    && (f.phase != Idle ==> f'.phase != Idle)
    && (f.canceled ==> f'.canceled)
    && f.closes <= f'.closes
  }

  // ----- any order of sections -----

  datatype Section = Begin | Finish | Close | Shut | Interrupt

  /**
   When the code can reach a section: the later sections of Run follow the loop, canceling needs a cancel
   function.
   */
  predicate Reachable(f: Fields, section: Section) {
    match section
    case Begin => f.phase != Running
    case Finish => f.phase == Running
    case Close => f.phase == Stopped && f.cancelable && f.closes == 0
    case Shut => true
    case Interrupt => f.cancelable
  }

  function After(f: Fields, section: Section): Fields {
    match section
    case Begin => f.BeginRun().0
    case Finish => f.FinishRun()
    case Close => f.CloseDone()
    case Shut => f.BeginShutdown().0
    case Interrupt => f.Cancel()
  }

  lemma SectionKeeps(f: Fields, section: Section)
    requires Consistent(f) && Reachable(f, section)
    ensures Consistent(After(f, section)) && Onward(f, After(f, section))
  {
  }

  function AfterAll(f: Fields, sections: seq<Section>): Fields
    decreases |sections|
  {
    if sections == [] then f else AfterAll(After(f, sections[0]), sections[1..])
  }

  predicate AllReachable(f: Fields, sections: seq<Section>)
    decreases |sections|
  {
    sections == [] || (Reachable(f, sections[0]) && AllReachable(After(f, sections[0]), sections[1..]))
  }

  /**
   Stopping is for good: whatever sections follow, in any order, the worker stays stopped and never enters its
   loop.
   */
  lemma {:induction false} StoppedForGood(f: Fields, sections: seq<Section>)
    requires Consistent(f) && AllReachable(f, sections)
    ensures Consistent(AfterAll(f, sections)) && Onward(f, AfterAll(f, sections))
    ensures f.phase == Stopped ==> AfterAll(f, sections).phase == Stopped && !AfterAll(f, sections).BeginRun().1
    decreases |sections|
  {
    if sections != [] {
      SectionKeeps(f, sections[0]);
      StoppedForGood(After(f, sections[0]), sections[1..]);
    }
  }

  class Worker {
    var state: Phase
    var cancelable: bool
    var canceled: bool
    var closes: nat

    function View(): Fields
      reads this
    {
      Fields(state, cancelable, canceled, closes)
    }

    predicate Valid()
      reads this
    {
      Consistent(View())
    }

    constructor ()
      ensures View() == Fresh && Valid()
    {
      state, cancelable, canceled, closes := Idle, false, false, 0;
    }

    method BeginRun() returns (enters: bool)
      requires Valid() && state != Running
      modifies this
      ensures Valid() && Onward(old(View()), View())
      ensures (View(), enters) == old(View()).BeginRun()
      ensures enters <==> old(state) != Stopped
      ensures !enters ==> View() == old(View())
    {
      if state == Stopped {
        return false;
      }
      state := Running;
      cancelable := true;
      return true;
    }

    method FinishRun()
      requires Valid() && state == Running
      modifies this`state
      ensures Valid() && Onward(old(View()), View())
      ensures View() == old(View()).FinishRun()
    {
      state := Stopped;
    }

    /** A second close would panic, so it must not happen. */
    method CloseDone()
      requires Valid() && state == Stopped && cancelable && closes == 0
      modifies this`closes
      ensures Valid() && Onward(old(View()), View())
      ensures View() == old(View()).CloseDone() && closes == 1
    {
      closes := closes + 1;
    }

    method BeginShutdown() returns (verdict: Verdict)
      requires Valid()
      modifies this`state
      ensures Valid() && Onward(old(View()), View())
      ensures (View(), verdict) == old(View()).BeginShutdown()
      ensures verdict == NothingToWaitFor <==> state == Stopped
      ensures verdict == MustCancel ==> cancelable
    {
      match state {
        case Idle =>
          state := Stopped;
          return NothingToWaitFor;
        case Stopped =>
          return NothingToWaitFor;
        case Running =>
          return MustCancel;
      }
    }

    method Cancel()
      requires Valid() && cancelable
      modifies this`canceled
      ensures Valid() && Onward(old(View()), View())
      ensures View() == old(View()).Cancel()
    {
      canceled := true;
    }

    /** Shutdown up to the wait: the worker is stopped, or its loop has been told to stop and is waited for. */
    method Shutdown() returns (waits: bool)
      requires Valid()
      modifies this
      ensures Valid() && Onward(old(View()), View())
      ensures waits <==> old(state) == Running
      ensures if waits then state == Running && canceled else state == Stopped && canceled == old(canceled)
      ensures closes == old(closes)
    {
      var verdict := BeginShutdown();
      if verdict == NothingToWaitFor {
        return false;
      }
      Cancel();
      return true;
    }

    /**
     Run's one call, around a loop during which Shutdown may come. The done channel is closed
     exactly when the loop was entered, and once; the worker is stopped either way.
     */
    method Run(interrupted: bool) returns (entered: bool)
      requires Valid() && state != Running
      modifies this
      ensures Valid() && Onward(old(View()), View())
      ensures state == Stopped
      ensures entered <==> old(state) == Idle
      ensures closes == old(closes) + if entered then 1 else 0
      ensures !entered ==> View() == old(View())
      ensures entered ==> canceled
    {
      entered := BeginRun();
      if !entered {
        return;
      }
      if interrupted {
        var waits := Shutdown();
        assert waits;
      }
      FinishRun();
      CloseDone();
      Cancel();
    }
  }
}
