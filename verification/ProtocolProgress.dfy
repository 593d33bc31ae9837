// How the experiment stops: when the manager gives up, how a worker leaves its heartbeat, and which
// workers miss the end. `more` is always an arbitrary continuation of a run.
module ProtocolProgress {
  import opened Protocol
  import opened ProtocolRuns

  function ManagerSteps(steps: seq<Step>): nat {
    if steps == [] then 0
    else ManagerSteps(steps[..|steps| - 1]) + if steps[|steps| - 1].ManagerStep? then 1 else 0
  }

  predicate IsOwn(step: Step, w: nat) { step.WorkerStep? && step.w == w }

  function OwnSteps(w: nat, steps: seq<Step>): nat {
    if steps == [] then 0
    else OwnSteps(w, steps[..|steps| - 1]) + if IsOwn(steps[|steps| - 1], w) then 1 else 0
  }

  // ------------------------------------------------------------ the manager gives up

  /** The manager gives up exactly on a missing health report and on poll number rounds + 1 of a
      wait in which some worker has not sent its ack. */
  lemma GivesUpExactly(s: State, steps: seq<Step>, health: HealthOutcome, ack: nat)
    requires Initial(s)
    ensures
      var t := After(s, steps);
      |t.workers| == s.n &&
      (NextManager(t, health, ack).mgr.Abort?
       <==> || (t.mgr.Health? && health.Missing?)
            || (t.mgr.ReadAcks? && PollsMade(s, steps) == s.rounds
                && exists w :: 0 <= w < s.n && !Acked(t.mgr.phase, t.workers[w])))
  {
    InvAlways(s, steps);
    if After(s, steps).mgr.ReadAcks? {
      TimeoutIsReal(s, steps, health, ack);
    } else {
      GivesUpElsewhere(After(s, steps), health, ack);
    }
  }

  lemma GivesUpElsewhere(t: State, health: HealthOutcome, ack: nat)
    requires Inv(t) && !t.mgr.ReadAcks?
    ensures NextManager(t, health, ack).mgr.Abort? <==> t.mgr.Health? && health.Missing?
  {
    hide InvWorker;
  }

  /** Having given up, the manager sets ERROR with its next step, and that is final. */
  lemma {:induction false} GivingUpIsFinal(t: State, more: seq<Step>)
    requires t.mgr.Abort? || (t.mgr.Raised? && t.status.Error?)
    ensures
      var u := After(t, more);
      if t.mgr.Raised? || ManagerSteps(more) > 0 then u.mgr.Raised? && u.status.Error? else u.mgr == t.mgr
  {
    if more != [] { GivingUpIsFinal(t, more[..|more| - 1]); }
  }

  /** Every poll of the continuation finds fewer or more acks than workers. */
  ghost predicate AckMissing(t: State, more: seq<Step>) {
    more == [] ||
    var front, last := more[..|more| - 1], more[|more| - 1];
    AckMissing(t, front) &&
    (last.ManagerStep? && After(t, front).mgr.ReadAcks? ==> |After(t, front).acks| != t.n)
  }

  lemma {:induction false} RoundsPass(t: State, more: seq<Step>)
    requires t.mgr.ReadAcks? && t.mgr.round <= t.rounds && AckMissing(t, more)
    ensures
      var u, round := After(t, more), t.mgr.round + ManagerSteps(more);
      && u.n == t.n && u.rounds == t.rounds
      && (round <= t.rounds ==> u.mgr == ReadAcks(t.mgr.phase, round))
      && (round == t.rounds + 1 ==> u.mgr == Abort(true))
      && (round > t.rounds + 1 ==> u.mgr == Raised(true) && u.status.Error?)
  {
    if more != [] {
      RoundsPass(t, more[..|more| - 1]);
      OneMoreStep(t, more);
    }
  }

  lemma OneMoreStep(t: State, more: seq<Step>)
    requires more != []
    ensures After(t, more) == Next(After(t, more[..|more| - 1]), more[|more| - 1])
    ensures ManagerSteps(more) == ManagerSteps(more[..|more| - 1]) + if more[|more| - 1].ManagerStep? then 1 else 0
  {}

  /** While acks are missing, the manager waits for exactly rounds + 1 polls, gives up on the last,
      and then sets ERROR, whatever the workers do in between. */
  lemma TimesOut(s: State, steps: seq<Step>, more: seq<Step>)
    requires Initial(s) && After(s, steps).mgr.ReadAcks? && AckMissing(After(s, steps), more)
    ensures
      var u, polls := After(s, steps + more), PollsMade(s, steps) + ManagerSteps(more);
      && (polls <= s.rounds ==> u.mgr.ReadAcks? && u.mgr.phase == After(s, steps).mgr.phase)
      && (polls == s.rounds + 1 ==> u.mgr == Abort(true))
      && (polls > s.rounds + 1 ==> u.mgr == Raised(true) && u.status.Error?)
  {
    RoundIsPolls(s, steps);
    Constant(s, steps);
    AfterConcat(s, steps, more);
    RoundsPass(After(s, steps), more);
  }

  predicate WorkersStarted(m: ManagerPc) { !m.CheckLast? && !m.Flush? && !m.SetInit? && !m.StartWorker? }

  lemma {:induction false} StandsStill(t: State, more: seq<Step>, w: nat)
    requires OwnSteps(w, more) == 0 && w < |t.workers| && WorkersStarted(t.mgr)
    ensures |After(t, more).workers| == |t.workers| && After(t, more).workers[w] == t.workers[w]
    ensures WorkersStarted(After(t, more).mgr)
  {
    if more != [] {
      StandsStill(t, more[..|more| - 1], w);
      hide WorkersStarted;
      StandsStep(After(t, more[..|more| - 1]), more[|more| - 1], w);
    }
  }

  lemma StandsStep(t: State, step: Step, w: nat)
    requires w < |t.workers| && WorkersStarted(t.mgr) && !IsOwn(step, w)
    ensures WorkersStarted(Next(t, step).mgr)
    ensures |Next(t, step).workers| == |t.workers| && Next(t, step).workers[w] == t.workers[w]
  {
    hide StepWorker;
  }

  lemma {:induction false} DeadLeavesAckMissing(s: State, steps: seq<Step>, more: seq<Step>, w: nat)
    requires Initial(s) && After(s, steps).mgr.ReadAcks?
    requires w < s.n && |After(s, steps).workers| == s.n && OwnSteps(w, more) == 0
    requires !Acked(After(s, steps).mgr.phase, After(s, steps).workers[w])
    ensures AckMissing(After(s, steps), more)
  {
    var t := After(s, steps);
    if more != [] {
      var front := more[..|more| - 1];
      DeadLeavesAckMissing(s, steps, front, w);
      InvAlways(s, steps);
      RoundsPass(t, front);
      var u := After(t, front);
      if u.mgr.ReadAcks? && |u.acks| == t.n {
        AfterConcat(s, steps, front);
        InvAlways(s, steps + front);
        AllAcked(u, u.mgr.phase);
        StandsStill(t, front, w);
      }
    }
  }

  /** A worker that dies before it has sent the awaited ack makes the experiment end in ERROR: at
      the latest rounds + 2 manager steps after the wait began. */
  lemma DeadWorkerTimesOut(s: State, steps: seq<Step>, more: seq<Step>, w: nat)
    requires Initial(s) && After(s, steps).mgr.ReadAcks?
    requires w < s.n && |After(s, steps).workers| == s.n && OwnSteps(w, more) == 0
    requires !Acked(After(s, steps).mgr.phase, After(s, steps).workers[w])
    requires PollsMade(s, steps) + ManagerSteps(more) >= s.rounds + 2
    ensures After(s, steps + more).mgr == Raised(true) && After(s, steps + more).status.Error?
  {
    DeadLeavesAckMissing(s, steps, more, w);
    TimesOut(s, steps, more);
  }

  // ------------------------------------------------------------ a worker stops

  /** The status says that the experiment is over, and will not say otherwise again. */
  predicate Over(t: State) {
    && (t.status.End? || t.status.Error?) && t.config == {}
    && match t.mgr
       case ReadAcks(phase, _) => phase.EndPhase?
       case DeleteAcks(phase, _) => phase.EndPhase?
       case AssertNoAcks(phase) => phase.EndPhase?
       case Done => true
       case Abort(_) => true
       case Raised(_) => true
       case AssertionFailed => true
       case _ => false
  }

  lemma StaysOver(t: State, step: Step)
    requires Over(t)
    ensures Over(Next(t, step)) && (t.status.Error? ==> Next(t, step).status.Error?)
    ensures |Next(t, step).workers| == |t.workers|
  {}

  lemma OthersStay(t: State, step: Step, w: nat)
    requires Over(t) && w < |t.workers| && !IsOwn(step, w)
    ensures |Next(t, step).workers| == |t.workers| && Next(t, step).workers[w] == t.workers[w]
  {}

  lemma OwnMoves(t: State, step: Step, w: nat)
    requires w < |t.workers| && IsOwn(step, w)
    ensures |Next(t, step).workers| == |t.workers|
    ensures Next(t, step).workers[w] == StepWorker(t, t.workers[w], step.entry)
  {}

  /** Stopped: the server is dead, and either the worker saw END and acked once, or it left without. */
  predicate Stopped(p: Worker) {
    && !p.server && p.pending == {}
    && if p.sawEnd then p.endAcks == 1 && (p.pc.NextEntry? || p.pc.Poll?) else p.endAcks == 0 && p.pc.Exited?
  }

  /** On the way there, after the last RUNNING was read. */
  predicate Stopping(p: Worker) {
    && p.pending == {} && p.endAcks == 0
    && (p.server <==> p.pc.Report? || p.pc.Heart? || p.pc.Kill?)
    && (p.sawEnd <==> p.pc.AckEnd?)
    && (p.pc.Report? || p.pc.Heart? || p.pc.Kill? || p.pc.CheckEnd? || p.pc.AckEnd?)
  }

  /** The own steps still to take. */
  function Remaining(p: Worker): nat {
    match p.pc case Report => 5 case Heart => 4 case Kill => 3 case CheckEnd => 2 case AckEnd => 1 case _ => 0
  }

  ghost predicate OnWay(status: Status, p: Worker) {
    (Stopping(p) || Stopped(p)) && (p.pc.Exited? ==> status.Error?)
  }

  /** It has not seen END. */
  predicate Unaware(p: Worker) { !p.sawEnd && p.endAcks == 0 }

  lemma StepStops(t: State, p: Worker, entry: Time)
    requires Over(t) && OnWay(t.status, p)
    ensures OnWay(t.status, StepWorker(t, p, entry))
    ensures t.status.Error? && Unaware(p) ==> Unaware(StepWorker(t, p, entry))
    ensures Remaining(StepWorker(t, p, entry)) <= if Remaining(p) == 0 then 0 else Remaining(p) - 1
  {}

  lemma {:induction false} Progresses(t: State, more: seq<Step>, w: nat)
    requires Over(t) && w < |t.workers| && OnWay(t.status, t.workers[w])
    ensures
      var u := After(t, more);
      && Over(u) && |u.workers| == |t.workers| && OnWay(u.status, u.workers[w])
      && (t.status.Error? ==> u.status.Error?)
      && (t.status.Error? && Unaware(t.workers[w]) ==> Unaware(u.workers[w]))
      && Remaining(u.workers[w]) <=
         if OwnSteps(w, more) <= Remaining(t.workers[w]) then Remaining(t.workers[w]) - OwnSteps(w, more) else 0
  {
    if more != [] {
      var front, step := more[..|more| - 1], more[|more| - 1];
      Progresses(t, front, w);
      hide StepWorker, Stopping, Stopped, Remaining, Over, Unaware;
      var u := After(t, front);
      StaysOver(u, step);
      if IsOwn(step, w) {
        OwnMoves(u, step, w);
        StepStops(u, u.workers[w], step.entry);
      } else {
        OthersStay(u, step, w);
      }
    }
  }

  predicate AtHeart(pc: WorkerPc) { pc.Heart? || pc.Report? }

  lemma OverAtHeart(s: State, steps: seq<Step>, w: nat)
    requires Initial(s) && |After(s, steps).workers| == s.n && w < s.n
    requires After(s, steps).status.End? || After(s, steps).status.Error?
    requires AtHeart(After(s, steps).workers[w].pc)
    ensures Over(After(s, steps)) && OnWay(After(s, steps).status, After(s, steps).workers[w])
    ensures Unaware(After(s, steps).workers[w])
  {
    InvAlways(s, steps);
    assert InvWorker(After(s, steps), w);
  }

  /** Once the status is END or ERROR, a worker at its heartbeat kills its server within three of its own
      steps. Within five it has sent its end ack, or it has exited without one because the status is
      ERROR: while the status is END it has acked, and if the status was ERROR from the start it exits. */
  lemma HeartStops(s: State, steps: seq<Step>, more: seq<Step>, w: nat)
    requires Initial(s) && |After(s, steps).workers| == s.n && w < s.n
    requires After(s, steps).status.End? || After(s, steps).status.Error?
    requires AtHeart(After(s, steps).workers[w].pc)
    ensures |After(s, steps + more).workers| == s.n
    ensures
      var u, p := After(s, steps + more), After(s, steps + more).workers[w];
      && (OwnSteps(w, more) >= 3 ==> !p.server)
      && (OwnSteps(w, more) >= 5 ==> Stopped(p) && (p.pc.Exited? ==> u.status.Error?))
      && (OwnSteps(w, more) >= 5 && After(s, steps).status.Error? ==> p.pc.Exited? && p.endAcks == 0)
  {
    OverAtHeart(s, steps, w);
    AfterConcat(s, steps, more);
    Progresses(After(s, steps), more, w);
  }

  // ------------------------------------------------------------ a worker too slow to see RUNNING

  /** Its server runs, and it has not yet read RUNNING. */
  predicate Late(p: Worker) {
    p.server && p.endAcks == 0 && (p.pc.WaitInit? || p.pc.AssertRunning? || p.pc.Crashed?)
  }

  function UntilCrash(p: Worker): nat {
    match p.pc case WaitInit => 2 case AssertRunning => 1 case _ => 0
  }

  lemma StepIsLate(t: State, p: Worker, entry: Time)
    requires Over(t) && Late(p)
    ensures Late(StepWorker(t, p, entry))
    ensures UntilCrash(StepWorker(t, p, entry)) == if UntilCrash(p) == 0 then 0 else UntilCrash(p) - 1
  {}

  lemma {:induction false} StaysLate(t: State, more: seq<Step>, w: nat)
    requires Over(t) && w < |t.workers| && Late(t.workers[w])
    ensures
      var u := After(t, more);
      && Over(u) && |u.workers| == |t.workers| && Late(u.workers[w])
      && UntilCrash(u.workers[w]) ==
         if OwnSteps(w, more) <= UntilCrash(t.workers[w]) then UntilCrash(t.workers[w]) - OwnSteps(w, more) else 0
  {
    if more != [] {
      var front, step := more[..|more| - 1], more[|more| - 1];
      StaysLate(t, front, w);
      hide StepWorker, Late, UntilCrash, Over;
      var u := After(t, front);
      StaysOver(u, step);
      if IsOwn(step, w) {
        OwnMoves(u, step, w);
        StepIsLate(u, u.workers[w], step.entry);
      } else {
        OthersStay(u, step, w);
      }
    }
  }

  predicate StillWaiting(pc: WorkerPc) { pc.WaitInit? || pc.AssertRunning? || pc.Crashed? }

  /** A worker that has not left worker_wait_exp_init when END is set crashes with its second own step at
      the latest. Its server runs for ever, and the manager never gets past the end barrier. */
  lemma LateWorkerNeverEnds(s: State, steps: seq<Step>, more: seq<Step>, w: nat)
    requires Initial(s) && After(s, steps).mgr.ReadAcks? && After(s, steps).mgr.phase.EndPhase?
    requires |After(s, steps).workers| == s.n && w < s.n && StillWaiting(After(s, steps).workers[w].pc)
    ensures |After(s, steps + more).workers| == s.n && After(s, steps + more).workers[w].server
    ensures OwnSteps(w, more) >= 2 ==> After(s, steps + more).workers[w].pc.Crashed?
    ensures !After(s, steps + more).mgr.Done?
  {
    InvAlways(s, steps);
    assert InvWorker(After(s, steps), w);
    AfterConcat(s, steps, more);
    StaysLate(After(s, steps), more, w);
    if After(s, steps + more).mgr.Done? { EndBarrier(s, steps + more); }
  }

  // ------------------------------------------------------------ and who does see it

  ghost predicate NoneLate(t: State) {
    forall w :: 0 <= w < |t.workers| ==> !StillWaiting(t.workers[w].pc)
  }

  lemma NextStop(t: State, w: nat)
    requires Inv(t) && t.mgr.ReadAcks? && t.mgr.phase.EndPhase?
    requires w < t.n && !StillWaiting(t.workers[w].pc) && t.workers[w].endAcks == 0
    ensures
      var p := StepWorker(t, t.workers[w], t.time);
      !StillWaiting(p.pc) && Remaining(p) < Remaining(t.workers[w]) && (p.endAcks == 0 || p.endAcks == 1)
  {
    assert InvWorker(t, w);
  }

  /** One worker goes on until it has sent its end ack. */
  lemma {:induction false} Drive(s: State, before: seq<Step>, w: nat) returns (steps: seq<Step>)
    requires Inv(After(s, before)) && After(s, before).mgr.ReadAcks? && After(s, before).mgr.phase.EndPhase?
    requires w < After(s, before).n && !StillWaiting(After(s, before).workers[w].pc)
    ensures Inv(After(s, steps)) && SameButWorkers(After(s, before), After(s, steps))
    ensures After(s, steps).workers[w].endAcks == 1
    ensures forall v :: 0 <= v < After(s, before).n && v != w ==>
      After(s, steps).workers[v] == After(s, before).workers[v]
    decreases Remaining(After(s, before).workers[w])
  {
    var t := After(s, before);
    assert InvWorker(t, w);
    if t.workers[w].endAcks == 1 {
      steps := before;
    } else {
      hide StepWorker, InvStore, InvWorker, Remaining, StillWaiting;
      NextStop(t, w);
      var step := WorkerStep(w, t.time);
      AfterConcat(s, before, [step]);
      AfterOne(t, step);
      WorkerKeepsInv(t, w, t.time);
      steps := Drive(s, before + [step], w);
    }
  }

  /** The first k workers go on until they have sent their end acks. */
  lemma {:induction false} DriveFirst(s: State, before: seq<Step>, k: nat) returns (steps: seq<Step>)
    requires Inv(After(s, before)) && After(s, before).mgr.ReadAcks? && After(s, before).mgr.phase.EndPhase?
    requires k <= After(s, before).n && NoneLate(After(s, before))
    ensures Inv(After(s, steps)) && SameButWorkers(After(s, before), After(s, steps))
    ensures forall v :: 0 <= v < k ==> After(s, steps).workers[v].endAcks == 1
    ensures forall v :: k <= v < After(s, before).n ==> After(s, steps).workers[v] == After(s, before).workers[v]
  {
    hide InvStore, InvWorker, StillWaiting;
    steps := before;
    if k > 0 {
      var first := DriveFirst(s, before, k - 1);
      steps := Drive(s, first, k - 1);
    }
  }

  /** When END has been set, the experiment can still reach its end exactly if no worker is left in
      worker_wait_exp_init. */
  lemma EndsIffNoneLate(s: State, steps: seq<Step>)
    requires Initial(s) && After(s, steps).mgr.ReadAcks? && After(s, steps).mgr.phase.EndPhase?
    ensures NoneLate(After(s, steps)) <==> exists more :: After(After(s, steps), more).mgr.Done?
  {
    InvAlways(s, steps);
    var t := After(s, steps);
    if NoneLate(t) {
      assert After(t, []) == t;
      var all := DriveFirst(t, [], t.n);
      all := PassBarrier(t, all);
      all := Manage(t, all, Fine);
      assert After(t, all).mgr.Done?;
    } else {
      var w :| 0 <= w < |t.workers| && StillWaiting(t.workers[w].pc);
      forall more ensures !After(t, more).mgr.Done? {
        LateWorkerNeverEnds(s, steps, more, w);
        AfterConcat(s, steps, more);
      }
    }
  }

  // ------------------------------------------------------------ the heartbeat

  /** The manager has set RUNNING and nothing else since. */
  predicate Runs(t: State) { t.status.Running? && (t.mgr.Health? || t.mgr.SetEnd? || t.mgr.Abort?) && t.config == {} }

  lemma RunsOrOver(t: State, step: Step)
    requires Runs(t)
    ensures Runs(Next(t, step)) || Over(Next(t, step))
  {}

  lemma {:induction false} Ran(t: State, more: seq<Step>)
    requires Runs(t)
    ensures Runs(After(t, more)) || Over(After(t, more))
  {
    if more != [] {
      Ran(t, more[..|more| - 1]);
      hide Runs, Over;
      var u := After(t, more[..|more| - 1]);
      if Runs(u) { RunsOrOver(u, more[|more| - 1]); } else { StaysOver(u, more[|more| - 1]); }
    }
  }

  lemma OneBeat(t: State, step: Step, w: nat)
    requires Runs(t) && Next(t, step).status.Running?
    requires w < |t.workers| && AtHeart(t.workers[w].pc)
    ensures Runs(Next(t, step)) && |Next(t, step).workers| == |t.workers|
    ensures
      var was := t.workers[w].pc;
      Next(t, step).workers[w].pc == if !IsOwn(step, w) then was else if was.Heart? then Report else Heart
  {}

  /** As long as the status is RUNNING, a worker at its heartbeat takes the check and the report in turns. */
  lemma {:induction false} Beats(t: State, more: seq<Step>, w: nat)
    requires Runs(t) && After(t, more).status.Running?
    requires w < |t.workers| && t.workers[w].pc.Heart?
    ensures Runs(After(t, more)) && |After(t, more).workers| == |t.workers|
    ensures After(t, more).workers[w].pc == if OwnSteps(w, more) % 2 == 0 then Heart else Report
  {
    if more != [] {
      var front, step := more[..|more| - 1], more[|more| - 1];
      if After(t, front).status.Running? {
        Beats(t, front, w);
        hide StepWorker;
        OneBeat(After(t, front), step, w);
      } else {
        Ran(t, front);
        hide Over;
        StaysOver(After(t, front), step);
      }
    }
  }
}
