/**
 The shutdown flag and its users (src/main.rs and the graceful-shutdown patch), over every
 interleaving of signals, guest threads and the main listener.

 A SIGINT runs two actions in order: exit at once if the flag is already set, then set the
 flag. Handlers of several signals may be in progress at the same time. Atomics are
 sequentially consistent.
 */
module Shutdown {
  import opened Common

  /** An instance of a SIGINT, from its arrival on. */
  type Signal = nat

  datatype Action = CheckNext | SetNext

  /** Where the main thread is: in the loop of `connection_event_loop`, or past it. */
  datatype Listener =
    | TestAborted
    | TestFlag
    | Polling
    | Polled(retval: int)
    | HandingOver
    | Closing

  datatype State = State(
    flag: bool,
    aborted: bool,
    forcedExit: bool,
    handlers: map<Signal, Action>,
    listener: Listener)

  const INIT := State(false, false, false, map[], TestAborted)

  datatype Event =
    | SigintArrives(sig: Signal)
    | SigintChecks(sig: Signal)
    | SigintSets(sig: Signal)
    | Sigterm
    | SqlShutdown
    | Abort
    | AbortTest
    | FlagTest
    | PollReturns(retval: int)
    | ListenReturns(accepted: bool)
    | ProcessConnection

  predicate Enabled(s: State, e: Event)
  {
    !s.forcedExit &&
    match e
    case SigintArrives(sig) => sig !in s.handlers
    case SigintChecks(sig) => sig in s.handlers && s.handlers[sig].CheckNext?
    case SigintSets(sig) => sig in s.handlers && s.handlers[sig].SetNext?
    case Sigterm => true
    case SqlShutdown => true
    case Abort => true
    case AbortTest => s.listener.TestAborted?
    case FlagTest => s.listener.TestFlag?
    case PollReturns(_) => s.listener.Polling?
    case ListenReturns(_) => s.listener.Polled?
    case ProcessConnection => s.listener.HandingOver?
  }

  function Request(s: State): State { s.(flag := true) }

  function Apply(s: State, e: Event): (r: State)
    requires Enabled(s, e)
  {
    match e
    case SigintArrives(sig) => s.(handlers := s.handlers[sig := CheckNext])
    case SigintChecks(sig) =>
      if s.flag then s.(forcedExit := true) else s.(handlers := s.handlers[sig := SetNext])
    case SigintSets(sig) => Request(s.(handlers := s.handlers - {sig}))
    case Sigterm => Request(s)
    case SqlShutdown => Request(s)
    case Abort => s.(aborted := true)
    case AbortTest => s.(listener := if s.aborted then Closing else TestFlag)
    case FlagTest => s.(listener := if s.flag then Closing else Polling)
    case PollReturns(retval) => s.(listener := Polled(retval))
    case ListenReturns(accepted) =>
      // A failed or timed-out poll, or an abort, yields no connection.
      if s.listener.retval < 0 || s.aborted || s.listener.retval == 0 || !accepted then s.(listener := TestAborted)
      else s.(listener := HandingOver)
    case ProcessConnection => s.(listener := TestAborted)
  }

  predicate Possible(s: State, run: seq<Event>)
    decreases |run|
  {
    run == [] || (Enabled(s, run[0]) && Possible(Apply(s, run[0]), run[1..]))
  }

  function After(s: State, run: seq<Event>): (r: State)
    requires Possible(s, run)
    decreases |run|
  {
    if run == [] then s else After(Apply(s, run[0]), run[1..])
  }

  // ---------- the flag ----------

  /** An event that records a request. */
  predicate Records(e: Event) { e.SigintSets? || e.Sigterm? || e.SqlShutdown? }

  /** The flag is set exactly when some event recorded a request, and it is never taken back. */
  lemma {:induction false} FlagIffRecorded(s: State, run: seq<Event>)
    requires Possible(s, run)
    ensures After(s, run).flag <==> s.flag || exists i :: 0 <= i < |run| && Records(run[i])
    decreases |run|
  {
    if run == [] {
    } else {
      FlagIffRecorded(Apply(s, run[0]), run[1..]);
      assert forall i :: 0 < i < |run| ==> run[i] == run[1..][i - 1];
      if i :| 0 <= i < |run[1..]| && Records(run[1..][i]) {
        assert Records(run[i + 1]);
      }
    }
  }

  // ---------- forced exits ----------

  /** Event `j` is a SIGINT's check, and a request was recorded before it. */
  ghost predicate LateCheck(flag: bool, run: seq<Event>, j: nat)
  {
    j < |run| && run[j].SigintChecks? && (flag || exists i :: 0 <= i < j && Records(run[i]))
  }

  lemma LateCheckShifts(flag: bool, run: seq<Event>, j: nat)
    requires run != []
    ensures LateCheck(flag || Records(run[0]), run[1..], j) <==> LateCheck(flag, run, j + 1)
  {
    if j + 1 < |run| {
      assert run[1..][j] == run[j + 1];
      if i :| 0 <= i < j && Records(run[1..][i]) {
        assert Records(run[i + 1]);
      }
      if i :| 0 <= i < j + 1 && Records(run[i]) {
        assert i > 0 ==> Records(run[1..][i - 1]);
      }
    }
  }

  lemma {:induction false} ForcedExitIffFrom(s: State, run: seq<Event>)
    requires Possible(s, run) && !s.forcedExit
    ensures After(s, run).forcedExit <==> exists j: nat :: LateCheck(s.flag, run, j)
    decreases |run|
  {
    if run == [] {
    } else {
      var r := Apply(s, run[0]);
      if r.forcedExit {
        assert LateCheck(s.flag, run, 0);
        assert run[1..] == [];
      } else {
        ForcedExitIffFrom(r, run[1..]);
        assert !LateCheck(s.flag, run, 0);
        if j: nat :| LateCheck(s.flag, run, j) {
          LateCheckShifts(s.flag, run, j - 1);
        }
        if j: nat :| LateCheck(r.flag, run[1..], j) {
          LateCheckShifts(s.flag, run, j);
        }
      }
    }
  }

  /**
   A run ends in a forced exit exactly when some SIGINT makes its check after a request was
   recorded. So a SIGTERM never forces one, nor does a SIGINT without an earlier request.
   */
  lemma ForcedExitIffLateCheck(run: seq<Event>)
    requires Possible(INIT, run)
    ensures After(INIT, run).forcedExit <==>
            exists i, j :: 0 <= i < j < |run| && Records(run[i]) && run[j].SigintChecks?
  {
    ForcedExitIffFrom(INIT, run);
    if j: nat :| LateCheck(false, run, j) {
      var i :| 0 <= i < j && Records(run[i]);
    }
    if i, j :| 0 <= i < j < |run| && Records(run[i]) && run[j].SigintChecks? {
      assert LateCheck(false, run, j);
    }
  }

  /** A single SIGINT, with no other request, never forces an exit. */
  lemma LoneSigintIsGraceful(run: seq<Event>, sig: Signal)
    requires Possible(INIT, run)
    requires forall i :: 0 <= i < |run| ==> !run[i].Sigterm? && !run[i].SqlShutdown?
    requires forall i :: 0 <= i < |run| && run[i].SigintArrives? ==> run[i].sig == sig
    requires forall i, j :: 0 <= i < j < |run| ==> !(run[i] == SigintArrives(sig) && run[j] == SigintArrives(sig))
    ensures !After(INIT, run).forcedExit
  {
    LoneSigintFrom(INIT, run, sig);
  }

  /** The stages of the only SIGINT of a run. */
  lemma {:induction false} LoneSigintFrom(s: State, run: seq<Event>, sig: Signal)
    requires Possible(s, run) && !s.forcedExit
    requires forall i :: 0 <= i < |run| ==> !run[i].Sigterm? && !run[i].SqlShutdown?
    requires forall i :: 0 <= i < |run| && run[i].SigintArrives? ==> run[i].sig == sig
    requires forall i, j :: 0 <= i < j < |run| ==> !(run[i] == SigintArrives(sig) && run[j] == SigintArrives(sig))
    requires s.handlers.Keys <= {sig}
    requires s.flag ==> s.handlers == map[]
    requires s.flag || s.handlers != map[] ==> forall i :: 0 <= i < |run| ==> !run[i].SigintArrives?
    ensures !After(s, run).forcedExit
    decreases |run|
  {
    if run == [] {
    } else {
      var r := Apply(s, run[0]);
      assert forall i :: 0 <= i < |run| - 1 ==> run[1..][i] == run[i + 1];
      if run[0].SigintArrives? {
        forall i | 0 <= i < |run[1..]| ensures !run[1..][i].SigintArrives? {
          assert run[0] == SigintArrives(sig);
          assert run[1..][i] == run[i + 1];
        }
      }
      LoneSigintFrom(r, run[1..], sig);
    }
  }

  /**
   The order of arrival alone does not protect a first SIGINT: one that arrives before a
   SIGTERM but checks after it exits at once.
   */
  lemma ArrivalBeforeRequestCanStillExit()
    ensures var run := [SigintArrives(0), Sigterm, SigintChecks(0)];
            Possible(INIT, run) && After(INIT, run).forcedExit
  {
    var run := [SigintArrives(0), Sigterm, SigintChecks(0)];
    var s1 := Apply(INIT, run[0]);
    var s2 := Apply(s1, run[1]);
    var s3 := Apply(s2, run[2]);
    assert run[1..][0] == run[1] && run[1..][1..][0] == run[2] && run[1..][1..][1..] == [];
    assert Possible(s3, []) && After(s3, []) == s3;
    assert Possible(s2, run[1..][1..]) && After(s2, run[1..][1..]) == s3;
    assert Possible(s1, run[1..]) && After(s1, run[1..]) == s3;
  }

  /** The last thing that happened to a SIGINT. */
  function LastOf(run: seq<Event>, sig: Signal): (e: Option<Event>)
    decreases |run|
  {
    if run == [] then None
    else
      var e := run[|run| - 1];
      if (e.SigintArrives? || e.SigintChecks? || e.SigintSets?) && e.sig == sig then Some(e)
      else LastOf(run[..|run| - 1], sig)
  }

  /**
   Every SIGINT goes its way: unless the process is gone, one that has arrived may check, and
   one that has checked may record its request, and nothing else ends its handler.
   */
  lemma {:induction false} HandlerReflectsHistory(run: seq<Event>, sig: Signal)
    requires Possible(INIT, run) && !After(INIT, run).forcedExit
    ensures Enabled(After(INIT, run), SigintChecks(sig)) <==> LastOf(run, sig) == Some(SigintArrives(sig))
    ensures Enabled(After(INIT, run), SigintSets(sig)) <==> LastOf(run, sig) == Some(SigintChecks(sig))
    decreases |run|
  {
    if run == [] {
    } else {
      LastStep(INIT, run);
      HandlerReflectsHistory(run[..|run| - 1], sig);
    }
  }

  // ---------- the main listener ----------

  /** The last step of a run. */
  lemma {:induction false} LastStep(s: State, run: seq<Event>)
    requires Possible(s, run) && run != []
    ensures var init := run[..|run| - 1];
            && Possible(s, init) && Enabled(After(s, init), run[|run| - 1])
            && After(s, run) == Apply(After(s, init), run[|run| - 1])
    decreases |run|
  {
    var init := run[..|run| - 1];
    if |run| == 1 {
      assert init == [] && run[1..] == [];
    } else {
      LastStep(Apply(s, run[0]), run[1..]);
      assert run[1..][..|run| - 2] == init[1..];
    }
  }

  lemma {:induction false} SplitRun(s: State, p: seq<Event>, q: seq<Event>)
    requires Possible(s, p + q)
    ensures Possible(s, p) && Possible(After(s, p), q) && After(s, p + q) == After(After(s, p), q)
    decreases |p|
  {
    if p == [] {
      assert p + q == q;
    } else {
      assert (p + q)[1..] == p[1..] + q;
      SplitRun(Apply(s, p[0]), p[1..], q);
    }
  }

  ghost predicate Recorded(run: seq<Event>) { exists i :: 0 <= i < |run| && Records(run[i]) }

  ghost predicate Aborted(run: seq<Event>) { exists i :: 0 <= i < |run| && run[i] == Abort }

  lemma {:induction false} AbortedIffAsked(s: State, run: seq<Event>)
    requires Possible(s, run)
    ensures After(s, run).aborted <==> s.aborted || Aborted(run)
    decreases |run|
  {
    if run == [] {
    } else {
      AbortedIffAsked(Apply(s, run[0]), run[1..]);
      assert forall i :: 0 < i < |run| ==> run[i] == run[1..][i - 1];
      if Aborted(run[1..]) {
        var i :| 0 <= i < |run[1..]| && run[1..][i] == Abort;
        assert run[i + 1] == Abort;
      }
    }
  }

  /** What the last poll of a run returned. */
  function LastPoll(run: seq<Event>): (retval: int)
    decreases |run|
  {
    if run == [] then 0
    else if run[|run| - 1].PollReturns? then run[|run| - 1].retval
    else LastPoll(run[..|run| - 1])
  }

  /**
   Where the main thread is, by the events alone: the loop head tests for an abort and then for
   a request, and leaves the loop on either; otherwise it polls, and hands over a connection
   that was accepted after a positive poll unless an abort came first.
   */
  ghost function Place(run: seq<Event>): (l: Listener)
    decreases |run|
  {
    if run == [] then TestAborted
    else
      var init := run[..|run| - 1];
      match run[|run| - 1]
      case AbortTest => if Aborted(init) then Closing else TestFlag
      case FlagTest => if Recorded(init) then Closing else Polling
      case PollReturns(retval) => Polled(retval)
      case ListenReturns(accepted) => if accepted && LastPoll(init) > 0 && !Aborted(init) then HandingOver else TestAborted
      case ProcessConnection => TestAborted
      case _ => Place(init)
  }

  lemma {:induction false} PlaceReflectsHistory(run: seq<Event>)
    requires Possible(INIT, run)
    ensures After(INIT, run).listener == Place(run)
    ensures After(INIT, run).listener.Polled? ==> After(INIT, run).listener.retval == LastPoll(run)
    decreases |run|
  {
    if run == [] {
    } else {
      var init := run[..|run| - 1];
      LastStep(INIT, run);
      PlaceReflectsHistory(init);
      FlagIffRecorded(INIT, init);
      AbortedIffAsked(INIT, init);
    }
  }

  /** Step `j` is a test of the loop head that finds what an earlier step `i` asked for. */
  ghost predicate EndsLoop(run: seq<Event>, i: int, j: int)
  {
    && 0 <= i < j < |run|
    && ((run[i] == Abort && run[j] == AbortTest) || (Records(run[i]) && run[j] == FlagTest))
  }

  /**
   `close_connections` is reached exactly if some test of the loop head came after an abort or a
   recorded request: the server goes on listening as long as nobody asked it to stop.
   */
  lemma {:induction false} ClosingIffAsked(run: seq<Event>)
    requires Possible(INIT, run)
    ensures After(INIT, run).listener.Closing? <==> exists i, j :: EndsLoop(run, i, j)
    decreases |run|
  {
    if run == [] {
    } else {
      var last := |run| - 1;
      var init := run[..last];
      LastStep(INIT, run);
      ClosingIffAsked(init);
      PlaceReflectsHistory(run);
      PlaceReflectsHistory(init);
      if i, j :| EndsLoop(run, i, j) {
        if j == last {
          assert init[i] == run[i];
        } else {
          assert EndsLoop(init, i, j);
        }
      }
      if i, j :| EndsLoop(init, i, j) {
        assert EndsLoop(run, i, j);
      }
      if run[last] == AbortTest && Aborted(init) {
        var i :| 0 <= i < last && init[i] == Abort;
        assert EndsLoop(run, i, last);
      }
      if run[last] == FlagTest && Recorded(init) {
        var i :| 0 <= i < last && Records(init[i]);
        assert EndsLoop(run, i, last);
      }
    }
  }

  /** A connection is handed over next exactly if it was accepted after a positive poll and no abort came before. */
  lemma AcceptedIsHandedOver(run: seq<Event>, accepted: bool)
    requires Possible(INIT, run) && Enabled(After(INIT, run), ListenReturns(accepted))
    ensures Enabled(Apply(After(INIT, run), ListenReturns(accepted)), ProcessConnection) <==>
            accepted && LastPoll(run) > 0 && forall i :: 0 <= i < |run| ==> run[i] != Abort
  {
    PlaceReflectsHistory(run);
    AbortedIffAsked(INIT, run);
  }

  /** How many connections a run hands over. */
  function HandOvers(run: seq<Event>): (n: nat)
    decreases |run|
  {
    if run == [] then 0 else (if run[0].ProcessConnection? then 1 else 0) + HandOvers(run[1..])
  }

  /** The listener will pass the loop head before it can hand over. */
  predicate BeforeLoopHead(l: Listener) { l.TestAborted? || l.TestFlag? || l.Closing? }

  lemma {:induction false} HandOversOnceAsked(s: State, run: seq<Event>)
    requires Possible(s, run) && s.flag
    ensures HandOvers(run) <= if BeforeLoopHead(s.listener) then 0 else 1
    decreases |run|
  {
    if run == [] {
    } else {
      HandOversOnceAsked(Apply(s, run[0]), run[1..]);
    }
  }

  /** After any recorded request at most one more connection is handed over. */
  lemma AtMostOneConnectionAfterRequest(run: seq<Event>, i: nat)
    requires Possible(INIT, run) && i < |run| && Records(run[i])
    ensures HandOvers(run[i + 1..]) <= 1
  {
    var p := run[..i + 1];
    assert run == p + run[i + 1..];
    SplitRun(INIT, p, run[i + 1..]);
    FlagIffRecorded(INIT, p);
    assert Records(p[i]);
    HandOversOnceAsked(After(INIT, p), run[i + 1..]);
  }

  predicate IsListenerStep(e: Event)
  {
    e.AbortTest? || e.FlagTest? || e.PollReturns? || e.ListenReturns? || e.ProcessConnection?
  }

  /** How many listener steps are left at most, once the flag is set. */
  function StepsLeft(l: Listener): nat
  {
    match l
    case Closing => 0
    case TestFlag => 1
    case TestAborted => 2
    case HandingOver => 3
    case Polled(_) => 4
    case Polling => 5
  }

  function ListenerSteps(run: seq<Event>): nat
  {
    if run == [] then 0 else (if IsListenerStep(run[0]) then 1 else 0) + ListenerSteps(run[1..])
  }

  /**
   Once a request is recorded the loop ends within five steps of the main thread, whatever
   else happens in between, and `close_connections` is entered and not left again.
   */
  lemma {:induction false} ListenerClosesWithinFiveSteps(s: State, run: seq<Event>)
    requires Possible(s, run) && s.flag
    ensures ListenerSteps(run) + StepsLeft(After(s, run).listener) <= StepsLeft(s.listener) <= 5
    ensures ListenerSteps(run) == StepsLeft(s.listener) ==> After(s, run).listener.Closing?
    decreases |run|
  {
    if run == [] {
    } else {
      ListenerClosesWithinFiveSteps(Apply(s, run[0]), run[1..]);
    }
  }

  /** Until then the main thread can always go on. */
  lemma ListenerCanGoOn(run: seq<Event>)
    requires Possible(INIT, run) && !After(INIT, run).forcedExit && !After(INIT, run).listener.Closing?
    ensures exists e :: IsListenerStep(e) && Enabled(After(INIT, run), e)
  {
    var s := After(INIT, run);
    match s.listener
    case TestAborted => assert Enabled(s, AbortTest);
    case TestFlag => assert Enabled(s, FlagTest);
    case Polling => assert Enabled(s, PollReturns(0));
    case Polled(_) => assert Enabled(s, ListenReturns(false));
    case HandingOver => assert Enabled(s, ProcessConnection);
  }
}
