// The normal run of the experiment protocol: for any number of workers, and whatever the store held
// before, some interleaving takes the experiment through both barriers to its end.
module ProtocolRuns {
  import opened Protocol

  lemma {:induction false} AfterConcat(s: State, a: seq<Step>, b: seq<Step>)
    ensures After(s, a + b) == After(After(s, a), b)
  {
    if b == [] {
      assert a + b == a;
    } else {
      var front, last := b[..|b| - 1], b[|b| - 1];
      AfterConcat(s, a, front);
      assert (a + b)[..|a + b| - 1] == a + front && (a + b)[|a + b| - 1] == last;
    }
  }

  lemma AfterOne(s: State, step: Step)
    ensures After(s, [step]) == Next(s, step)
  {
    assert [step][..0] == [] && After(s, []) == s;
  }

  /** t is s except for what workers change. */
  ghost predicate SameButWorkers(s: State, t: State) {
    && t.n == s.n && t.time == s.time && t.rounds == s.rounds
    && t.status == s.status && t.config == s.config && t.mgr == s.mgr
  }

  /** The first k workers take one step each. */
  lemma {:induction false} SweepFirst(s: State, k: nat) returns (steps: seq<Step>)
    requires Inv(s) && k <= s.n
    ensures Inv(After(s, steps)) && SameButWorkers(s, After(s, steps))
    ensures forall w :: 0 <= w < s.n ==>
      After(s, steps).workers[w] == if w < k then StepWorker(s, s.workers[w], s.time) else s.workers[w]
  {
    hide StepWorker;
    steps := [];
    if k > 0 {
      var before := SweepFirst(s, k - 1);
      var t, step := After(s, before), WorkerStep(k - 1, s.time);
      AfterConcat(s, before, [step]);
      AfterOne(t, step);
      WorkerKeepsInv(t, k - 1, s.time);
      SameStep(s, t, s.workers[k - 1]);
      steps := before + [step];
    }
  }

  lemma SameStep(s: State, t: State, p: Worker)
    requires SameButWorkers(s, t)
    ensures StepWorker(t, p, s.time) == StepWorker(s, p, s.time)
  {}

  ghost predicate AllAt(s: State, pc: WorkerPc) { forall w :: 0 <= w < |s.workers| ==> s.workers[w].pc == pc }

  /** Where a worker's step leads in the normal run, given the status. */
  function Onward(status: Status, pc: WorkerPc): WorkerPc {
    match pc
    case Poll => Scan
    case Scan => NextEntry
    case NextEntry => Launch
    case Launch => AckStart
    case AckStart => WaitInit
    case WaitInit => AssertRunning
    case AssertRunning => Heart
    case Heart => if status.End? then Kill else Report
    case Kill => CheckEnd
    case CheckEnd => AckEnd
    case AckEnd => NextEntry
    case _ => pc
  }

  /** Between the config and the start ack, while running, and between END and the end ack. */
  predicate OnTheWay(m: ManagerPc, pc: WorkerPc) {
    if m.ReadAcks? && m.phase.StartPhase? then pc.Poll? || pc.Scan? || pc.NextEntry? || pc.Launch? || pc.AckStart?
    else if m.Health? then pc.WaitInit? || pc.AssertRunning?
    else m.ReadAcks? && (pc.Heart? || pc.Kill? || pc.CheckEnd? || pc.AckEnd?)
  }

  lemma MovesOn(s: State, w: nat)
    requires Inv(s) && w < s.n && OnTheWay(s.mgr, s.workers[w].pc)
    ensures StepWorker(s, s.workers[w], s.time).pc == Onward(s.status, s.workers[w].pc)
  {
    assert InvWorker(s, w);
  }

  /** Every worker takes one step, all from the same place to the same place. */
  lemma Sweep(s: State, before: seq<Step>, pc: WorkerPc) returns (steps: seq<Step>)
    requires Inv(After(s, before)) && AllAt(After(s, before), pc) && OnTheWay(After(s, before).mgr, pc)
    ensures Inv(After(s, steps)) && SameButWorkers(After(s, before), After(s, steps))
    ensures AllAt(After(s, steps), Onward(After(s, before).status, pc))
  {
    hide StepWorker, InvWorker, InvStore, Onward, OnTheWay;
    var t := After(s, before);
    var sweep := SweepFirst(t, t.n);
    AfterConcat(s, before, sweep);
    steps := before + sweep;
    forall w | 0 <= w < t.n ensures After(s, steps).workers[w].pc == Onward(t.status, pc) {
      MovesOn(t, w);
    }
  }

  /** The manager takes one step. */
  lemma Manage(s: State, before: seq<Step>, health: HealthOutcome) returns (steps: seq<Step>)
    requires Inv(After(s, before))
    ensures Inv(After(s, steps)) && After(s, steps) == NextManager(After(s, before), health, 0)
  {
    var step := ManagerStep(health, 0);
    AfterConcat(s, before, [step]);
    AfterOne(After(s, before), step);
    ManagerKeepsInv(After(s, before), health, 0);
    steps := before + [step];
  }

  /** The manager starts the remaining workers. */
  lemma {:induction false} StartAll(s: State, before: seq<Step>) returns (steps: seq<Step>)
    requires Inv(After(s, before)) && After(s, before).mgr.StartWorker?
    ensures Inv(After(s, steps)) && After(s, steps).mgr.SetConfig? && After(s, steps).n == After(s, before).n
    decreases After(s, before).n - After(s, before).mgr.next
  {
    steps := Manage(s, before, Fine);
    if After(s, before).mgr.next < After(s, before).n { steps := StartAll(s, steps); }
  }

  /** The manager deletes the remaining acks. */
  lemma {:induction false} DeleteAll(s: State, before: seq<Step>) returns (steps: seq<Step>)
    requires Inv(After(s, before)) && After(s, before).mgr.DeleteAcks?
    ensures Inv(After(s, steps)) && After(s, steps).mgr == AssertNoAcks(After(s, before).mgr.phase)
    ensures After(s, steps).workers == After(s, before).workers
    decreases |After(s, before).mgr.todo|
  {
    var t := After(s, before);
    if t.mgr.todo == map[] {
      steps := Manage(s, before, Fine);
    } else {
      var ack :| ack in t.mgr.todo;
      var step := ManagerStep(Fine, ack);
      AfterConcat(s, before, [step]);
      AfterOne(t, step);
      ManagerKeepsInv(t, Fine, ack);
      RemoveOne(t.mgr.todo, ack);
      steps := DeleteAll(s, before + [step]);
    }
  }

  lemma RemoveOne<K, V>(m: map<K, V>, k: K)
    requires k in m
    ensures |m - {k}| < |m|
  {
    assert (m - {k}).Keys == m.Keys - {k};
    assert |(m - {k}).Keys| == |m - {k}| && |m.Keys| == |m|;
  }

  /** All acks of a phase are in: the manager reads them and deletes them. */
  lemma PassBarrier(s: State, before: seq<Step>) returns (steps: seq<Step>)
    requires Inv(After(s, before)) && After(s, before).mgr.ReadAcks?
    requires forall w :: 0 <= w < After(s, before).n ==> Acked(After(s, before).mgr.phase, After(s, before).workers[w])
    ensures Inv(After(s, steps)) && After(s, steps).mgr == AssertNoAcks(After(s, before).mgr.phase)
    ensures After(s, steps).workers == After(s, before).workers
  {
    AllIn(After(s, before), After(s, before).mgr.phase);
    AllAcked(After(s, before), After(s, before).mgr.phase);
    steps := Manage(s, before, Fine);
    steps := DeleteAll(s, steps);
  }

  lemma SetUp(s: State) returns (steps: seq<Step>)
    requires Initial(s)
    ensures Inv(After(s, steps)) && After(s, steps).mgr == StartWorker(0)
  {
    hide Inv;
    InitialInv(s);
    assert After(s, []) == s;
    steps := Manage(s, [], Fine);
    steps := Manage(s, steps, Fine);
    steps := Manage(s, steps, Fine);
  }

  lemma AllPolling(t: State)
    requires Inv(t) && t.mgr.SetConfig?
    ensures AllAt(t, Poll) && AllAt(NextManager(t, Fine, 0), Poll)
  {
    forall w | 0 <= w < t.n ensures t.workers[w].pc.Poll? {
      assert InvWorker(t, w);
    }
  }

  /** The manager sets the store up, starts the workers and publishes the config. */
  lemma Publish(s: State) returns (steps: seq<Step>)
    requires Initial(s)
    ensures Inv(After(s, steps)) && After(s, steps).mgr == ReadAcks(StartPhase, 0) && AllAt(After(s, steps), Poll)
  {
    hide Initial, Inv, After, AllAt;
    steps := SetUp(s);
    steps := StartAll(s, steps);
    AllPolling(After(s, steps));
    steps := Manage(s, steps, Fine);
  }

  /** Every worker launches its server and sends its start ack. */
  lemma Start(s: State) returns (steps: seq<Step>)
    requires Initial(s)
    ensures Inv(After(s, steps)) && After(s, steps).mgr == ReadAcks(StartPhase, 0) && AllAt(After(s, steps), WaitInit)
  {
    hide After, Inv, Initial, AllAt;
    steps := Publish(s);
    steps := Sweep(s, steps, Poll);
    steps := Sweep(s, steps, Scan);
    steps := Sweep(s, steps, NextEntry);
    steps := Sweep(s, steps, Launch);
    steps := Sweep(s, steps, AckStart);
  }

  /** The manager passes the start barrier and sets RUNNING; every worker sees it. */
  lemma StartRunning(s: State) returns (steps: seq<Step>)
    requires Initial(s)
    ensures Inv(After(s, steps)) && After(s, steps).mgr.Health? && AllAt(After(s, steps), Heart)
  {
    hide After, Initial;
    steps := Start(s);
    steps := PassBarrier(s, steps);
    steps := Manage(s, steps, Fine);
    steps := Manage(s, steps, Fine);
    steps := Manage(s, steps, Fine);
    steps := Manage(s, steps, Fine);
    hide Inv;
    steps := Sweep(s, steps, WaitInit);
    steps := Sweep(s, steps, AssertRunning);
  }

  /** The operator interrupts, and the manager sets END. */
  lemma StartEnding(s: State) returns (steps: seq<Step>)
    requires Initial(s)
    ensures Inv(After(s, steps)) && After(s, steps).mgr == ReadAcks(EndPhase, 0) && AllAt(After(s, steps), Heart)
    ensures After(s, steps).status.End?
  {
    hide After, Initial, Inv;
    steps := StartRunning(s);
    steps := Manage(s, steps, Interrupt);
    steps := Manage(s, steps, Interrupt);
  }

  /** Every worker sees END, kills its server and sends its end ack. */
  lemma Finish(s: State) returns (steps: seq<Step>)
    requires Initial(s)
    ensures Inv(After(s, steps)) && After(s, steps).mgr == ReadAcks(EndPhase, 0) && AllAt(After(s, steps), NextEntry)
  {
    hide After, Initial, Inv, AllAt;
    steps := StartEnding(s);
    steps := Sweep(s, steps, Heart);
    steps := Sweep(s, steps, Kill);
    steps := Sweep(s, steps, CheckEnd);
    steps := Sweep(s, steps, AckEnd);
  }

  /** For any number of workers, any allowed number of rounds and any earlier contents of the store,
      the experiment can run to its end. */
  lemma CanComplete(s: State) returns (steps: seq<Step>)
    requires Initial(s)
    ensures After(s, steps).mgr.Done?
  {
    hide After, Initial;
    steps := Finish(s);
    AllEnded(After(s, steps));
    steps := PassBarrier(s, steps);
    steps := Manage(s, steps, Fine);
  }

  lemma AllEnded(t: State)
    requires Inv(t) && t.mgr == ReadAcks(EndPhase, 0) && AllAt(t, NextEntry)
    ensures forall w :: 0 <= w < t.n ==> Acked(EndPhase, t.workers[w])
  {
    forall w | 0 <= w < t.n ensures Acked(EndPhase, t.workers[w]) {
      assert InvWorker(t, w);
    }
  }
}
