// The experiment protocol of exp_utils: one manager and N workers share a Redis store. Every Redis
// command is one atomic step, and the steps of the manager and of the workers interleave freely.
module Protocol {

  type Time = int  // the experiment's start timestamp, its key in the store

  datatype Status = Absent | Init | Running | End | Error

  /** Where a worker stands, by the command it will perform next. */
  datatype WorkerPc =
    | Off            // its process has not been started
    | Poll           // worker_run: hlen of the config group
    | Scan           // hscan_iter of the config group
    | NextEntry      // the for loop over the scanned entries
    | Launch         // worker_run_exp: Popen of the server
    | AckStart       // worker_ack
    | WaitInit       // worker_wait_exp_init: get, while "INIT"
    | AssertRunning  // worker_wait_exp_init: get, asserted to be "RUNNING"
    | Heart          // worker_check_exp_running
    | Report         // worker_report_health
    | Kill           // server_process.kill
    | CheckEnd       // get, compared with "END"
    | AckEnd         // worker_ack
    | Crashed        // an exception or a failed assertion
    | Exited         // exit(0)

  /** A worker process. launches, startAcks, endAcks and sawEnd record what it has done. */
  datatype Worker = Worker(pc: WorkerPc, pending: set<Time>, exp: Time, server: bool,
                           launches: nat, startAcks: nat, endAcks: nat, sawEnd: bool)

  datatype Phase = StartPhase | EndPhase

  datatype ManagerPc =
    | CheckLast                                       // init_exp: get
    | Flush                                           // init_exp: flushall
    | SetInit
    | StartWorker(next: nat)                          // the loop over the worker nodes
    | SetConfig
    | ReadAcks(phase: Phase, round: nat)              // manager_wait_ack: hgetall
    | DeleteAcks(phase: Phase, todo: map<nat, Time>)  // manager_wait_ack: one hdel per ack
    | AssertNoAcks(phase: Phase)                      // manager_wait_ack: hlen
    | DeleteConfig
    | AssertNoConfig                                  // hlen
    | SetRunning
    | Health                                          // manager_check_health and the sleep
    | SetEnd
    | Done                                            // past the end barrier
    | Abort(consistent: bool)                         // manager_abort_exp: set "ERROR"
    | Raised(consistent: bool)                        // RuntimeError
    | AssertionFailed

  /** n workers, the experiment's timestamp, the number of ack rounds allowed, the Redis store, the
      manager and the workers. */
  datatype State = State(n: nat, time: Time, rounds: nat,
                         status: Status, config: set<Time>, acks: map<nat, Time>,
                         mgr: ManagerPc, workers: seq<Worker>)

  // ------------------------------------------------------------ steps

  /** What the environment decides in manager_check_health: all reports are fine, one is missing
      for too long, or the operator interrupts. */
  datatype HealthOutcome = Fine | Missing | Interrupt

  /** One step. `ack` is the next entry of the dict the manager iterates over, `entry` the next
      scanned entry of the worker's loop. */
  datatype Step = ManagerStep(health: HealthOutcome, ack: nat) | WorkerStep(w: nat, entry: Time)

  /** The worker names. */
  function Workers(n: nat): (names: set<nat>)
    ensures forall w: nat :: w in names <==> w < n
  {
    if n == 0 then {} else Workers(n - 1) + {n - 1}
  }

  function NextManager(s: State, health: HealthOutcome, ack: nat): State {
    match s.mgr
    case CheckLast => s.(mgr := Flush)
    case Flush => s.(status := Absent, config := {}, acks := map[], mgr := SetInit)
    case SetInit => s.(status := Init, mgr := StartWorker(0))
    case StartWorker(i) =>
      if i < |s.workers| then s.(workers := s.workers[i := s.workers[i].(pc := Poll)], mgr := StartWorker(i + 1))
      else s.(mgr := SetConfig)
    case SetConfig => s.(config := s.config + {s.time}, mgr := ReadAcks(StartPhase, 0))
    case ReadAcks(phase, round) =>
      if |s.acks| == s.n then
        if s.acks.Keys != Workers(s.n) then s.(mgr := Abort(false)) else s.(mgr := DeleteAcks(phase, s.acks))
      else if round + 1 > s.rounds then s.(mgr := Abort(true))
      else s.(mgr := ReadAcks(phase, round + 1))
    case DeleteAcks(phase, todo) =>
      if todo == map[] then s.(mgr := AssertNoAcks(phase))
      else if ack !in todo then s
      else if todo[ack] != s.time then s.(mgr := Abort(false))
      else s.(acks := s.acks - {ack}, mgr := DeleteAcks(phase, todo - {ack}))
    case AssertNoAcks(phase) =>
      if s.acks != map[] then s.(mgr := AssertionFailed)
      else if phase.StartPhase? then s.(mgr := DeleteConfig)
      else s.(mgr := Done)
    case DeleteConfig => s.(config := s.config - {s.time}, mgr := AssertNoConfig)
    case AssertNoConfig => if s.config != {} then s.(mgr := AssertionFailed) else s.(mgr := SetRunning)
    case SetRunning => s.(status := Running, mgr := Health)
    case Health =>
      (match health
       case Fine => s
       case Missing => s.(mgr := Abort(true))
       case Interrupt => s.(mgr := SetEnd))
    case SetEnd => s.(status := End, mgr := ReadAcks(EndPhase, 0))
    case Abort(consistent) => s.(status := Error, mgr := Raised(consistent))
    case Done => s
    case Raised(_) => s
    case AssertionFailed => s
  }

  /** The worker's own change, reading the store. */
  function StepWorker(s: State, p: Worker, entry: Time): Worker {
    match p.pc
    case Poll => if |s.config| == 0 then p else if |s.config| == 1 then p.(pc := Scan) else p.(pc := Crashed)
    case Scan => p.(pending := s.config, pc := NextEntry)
    case NextEntry =>
      if p.pending == {} then p.(pc := Poll)
      else if entry in p.pending then p.(pending := p.pending - {entry}, exp := entry, pc := Launch)
      else p
    case Launch => p.(server := true, launches := p.launches + 1, pc := AckStart)
    case AckStart => p.(startAcks := p.startAcks + 1, pc := WaitInit)
    case WaitInit => if s.status.Init? then p else p.(pc := AssertRunning)
    case AssertRunning => p.(pc := if s.status.Running? then Heart else Crashed)
    case Heart => p.(pc := if s.status.Absent? then Crashed else if s.status.Running? then Report else Kill)
    case Report => p.(pc := Heart)
    case Kill => p.(server := false, pc := CheckEnd)
    case CheckEnd => if s.status.End? then p.(sawEnd := true, pc := AckEnd) else p.(pc := Exited)
    case AckEnd => p.(endAcks := p.endAcks + 1, pc := NextEntry)
    case Off => p
    case Crashed => p
    case Exited => p
  }

  function NextWorker(s: State, w: nat, entry: Time): State
    requires w < |s.workers|
  {
    var p := s.workers[w];
    var acks := if p.pc.AckStart? || p.pc.AckEnd? then s.acks[w := p.exp] else s.acks;
    s.(workers := s.workers[w := StepWorker(s, p, entry)], acks := acks)
  }

  function Next(s: State, step: Step): State {
    match step
    case ManagerStep(health, ack) => NextManager(s, health, ack)
    case WorkerStep(w, entry) => if w < |s.workers| then NextWorker(s, w, entry) else s
  }

  function After(s: State, steps: seq<Step>): State {
    if steps == [] then s else Next(After(s, steps[..|steps| - 1]), steps[|steps| - 1])
  }

  /** The store may hold anything before init_exp flushes it; no worker runs yet. */
  ghost predicate Initial(s: State) {
    && s.mgr.CheckLast? && |s.workers| == s.n
    && forall w :: 0 <= w < s.n ==> s.workers[w] == Worker(Off, {}, s.workers[w].exp, false, 0, 0, 0, false)
  }

  // ------------------------------------------------------------ what one worker may look like

  ghost predicate Unlaunched(p: Worker) {
    !p.server && p.launches == 0 && p.startAcks == 0 && p.endAcks == 0 && !p.sawEnd
  }

  /** Before the config is visible. */
  ghost predicate Waiting(p: Worker) { Unlaunched(p) && p.pending == {} }

  /** The config is visible and the status is INIT: on the way to the start ack. */
  ghost predicate Starting(time: Time, p: Worker) {
    match p.pc
    case Poll => Waiting(p)
    case Scan => Waiting(p)
    case NextEntry => Unlaunched(p) && p.pending == {time}
    case Launch => Waiting(p) && p.exp == time
    case AckStart =>
      && p.server && p.launches == 1 && p.startAcks == 0 && p.endAcks == 0 && !p.sawEnd
      && p.pending == {} && p.exp == time
    case WaitInit => Started(time, p)
    case _ => false
  }

  /** Server launched, start ack sent, nothing left to scan. */
  ghost predicate Started(time: Time, p: Worker) {
    && p.server && p.launches == 1 && p.startAcks == 1 && p.endAcks == 0 && !p.sawEnd
    && p.pending == {} && p.exp == time
  }

  /** The status is RUNNING. */
  ghost predicate Working(time: Time, p: Worker) {
    Started(time, p) && (p.pc.WaitInit? || p.pc.AssertRunning? || p.pc.Heart? || p.pc.Report?)
  }

  /** Server killed, END seen, end ack sent. */
  ghost predicate Ended(p: Worker) {
    && !p.server && p.launches == 1 && p.startAcks == 1 && p.endAcks == 1 && p.sawEnd && p.pending == {}
    && (p.pc.NextEntry? || p.pc.Poll?)
  }

  /** The status is END: on the way to the end ack, or crashed for being too slow. */
  ghost predicate Ending(time: Time, p: Worker) {
    || (Started(time, p)
        && (p.pc.WaitInit? || p.pc.AssertRunning? || p.pc.Heart? || p.pc.Report? || p.pc.Kill? || p.pc.Crashed?))
    || (!p.server && p.launches == 1 && p.startAcks == 1 && p.endAcks == 0 && p.pending == {} && p.exp == time
        && ((p.pc.CheckEnd? && !p.sawEnd) || (p.pc.AckEnd? && p.sawEnd)))
    || Ended(p)
  }

  /** What holds of a worker whatever became of the manager: it launches at most one server, which runs
      until the worker kills it, and can reach its polling loop again only when no config is left. */
  ghost predicate Orderly(time: Time, config: set<Time>, p: Worker) {
    && p.pending <= {time} && p.launches <= 1
    && (p.pc.Off? || p.pc.Poll? || p.pc.Scan? ==> p.pending == {})
    && (p.pc.Launch? || p.pc.Scan? ==> p.launches == 0 && p.pending == {})
    && (p.launches == 1 ==> p.pending == {})
    && (p.launches == 1 && (p.pc.Poll? || p.pc.NextEntry?) ==> config == {})
    && (p.pc.Heart? || p.pc.Report? || p.pc.Kill? || p.pc.CheckEnd? || p.pc.AckEnd? ==> p.launches == 1 && config == {})
    && (p.pc.AckStart? || p.pc.WaitInit? || p.pc.AssertRunning? ==> p.launches == 1)
    && (p.launches == 0 ==> Unlaunched(p))
    && (Serving(p.pc) ==> p.server && !p.sawEnd && p.endAcks == 0)
  }

  /** Between launching the server and killing it. */
  predicate Serving(pc: WorkerPc) {
    pc.AckStart? || pc.WaitInit? || pc.AssertRunning? || pc.Heart? || pc.Report? || pc.Kill?
  }

  // ------------------------------------------------------------ the invariant

  /** A worker has sent the ack of this phase. */
  ghost predicate Acked(phase: Phase, p: Worker) {
    if phase.StartPhase? then p.pc.WaitInit? else p.endAcks == 1
  }

  /** Exactly the workers that have sent the phase's ack are in the ack group, with the right time. */
  ghost predicate AcksMatch(s: State, phase: Phase)
    requires |s.workers| == s.n
  {
    && (forall w :: w in s.acks ==> w < s.n && Acked(phase, s.workers[w]) && s.acks[w] == s.time)
    && (forall w :: 0 <= w < s.n && Acked(phase, s.workers[w]) ==> w in s.acks)
  }

  ghost predicate InvStore(s: State)
    requires |s.workers| == s.n
  {
    match s.mgr
    case CheckLast => true
    case Flush => true
    case SetInit => s.status.Absent? && s.config == {} && s.acks == map[]
    case StartWorker(_) => s.status.Init? && s.config == {} && s.acks == map[]
    case SetConfig => s.status.Init? && s.config == {} && s.acks == map[]
    case ReadAcks(phase, _) =>
      if phase.StartPhase? then s.status.Init? && s.config == {s.time} && AcksMatch(s, StartPhase)
      else s.status.End? && s.config == {} && AcksMatch(s, EndPhase)
    case DeleteAcks(phase, todo) =>
      && s.acks == todo && (forall w :: w in todo ==> todo[w] == s.time)
      && (if phase.StartPhase? then s.status.Init? && s.config == {s.time} else s.status.End? && s.config == {})
    case AssertNoAcks(phase) =>
      && s.acks == map[]
      && (if phase.StartPhase? then s.status.Init? && s.config == {s.time} else s.status.End? && s.config == {})
    case DeleteConfig => s.acks == map[] && s.status.Init? && s.config == {s.time}
    case AssertNoConfig => s.acks == map[] && s.status.Init? && s.config == {}
    case SetRunning => s.acks == map[] && s.status.Init? && s.config == {}
    case Health => s.acks == map[] && s.status.Running? && s.config == {}
    case SetEnd => s.acks == map[] && s.status.Running? && s.config == {}
    case Done => s.acks == map[] && s.status.End? && s.config == {}
    case Abort(consistent) =>
      consistent && s.config <= {s.time} && (s.status.Running? || s.status.End? ==> s.config == {})
    case Raised(consistent) => consistent && s.config <= {s.time} && s.status.Error?
    case AssertionFailed => false
  }

  ghost predicate InvWorker(s: State, w: nat)
    requires w < |s.workers|
  {
    var p := s.workers[w];
    match s.mgr
    case CheckLast => p.pc.Off? && Waiting(p)
    case Flush => p.pc.Off? && Waiting(p)
    case SetInit => p.pc.Off? && Waiting(p)
    case StartWorker(i) => Waiting(p) && p.pc == if w < i then Poll else Off
    case SetConfig => Waiting(p) && p.pc.Poll?
    case ReadAcks(phase, _) => if phase.StartPhase? then Starting(s.time, p) else Ending(s.time, p)
    case DeleteAcks(phase, _) => if phase.StartPhase? then p.pc.WaitInit? && Started(s.time, p) else Ended(p)
    case AssertNoAcks(phase) => if phase.StartPhase? then p.pc.WaitInit? && Started(s.time, p) else Ended(p)
    case DeleteConfig => p.pc.WaitInit? && Started(s.time, p)
    case AssertNoConfig => p.pc.WaitInit? && Started(s.time, p)
    case SetRunning => p.pc.WaitInit? && Started(s.time, p)
    case Health => Working(s.time, p)
    case SetEnd => Working(s.time, p)
    case Done => Ended(p)
    case Abort(_) => Orderly(s.time, s.config, p) && (s.status.Running? ==> Working(s.time, p))
    case Raised(_) => Orderly(s.time, s.config, p)
    case AssertionFailed => false
  }

  ghost predicate Inv(s: State) {
    && |s.workers| == s.n
    && InvStore(s)
    && (forall w :: 0 <= w < s.n ==> InvWorker(s, w))
    && (s.mgr.ReadAcks? ==> s.mgr.round <= s.rounds)
  }

  // ------------------------------------------------------------ every step keeps it

  lemma InitialInv(s: State)
    requires Initial(s)
    ensures Inv(s)
  {}

  lemma {:induction false} WorkersSize(n: nat)
    ensures |Workers(n)| == n
  {
    if n > 0 {
      WorkersSize(n - 1);
      assert n - 1 !in Workers(n - 1);
    }
  }

  /** A set of n names below n is all of them. */
  lemma FullGroup(keys: set<nat>, n: nat)
    requires (forall w :: w in keys ==> w < n) && |keys| == n
    ensures keys == Workers(n)
  {
    WorkersSize(n);
    var rest := Workers(n) - keys;
    assert Workers(n) == keys + rest && keys !! rest;
  }

  /** When all acks of a phase are in, every worker is where that ack leaves it. */
  lemma AllAcked(s: State, phase: Phase)
    requires |s.workers| == s.n && AcksMatch(s, phase) && |s.acks| == s.n
    ensures s.acks.Keys == Workers(s.n)
    ensures forall w :: 0 <= w < s.n ==> Acked(phase, s.workers[w])
  {
    assert |s.acks.Keys| == |s.acks|;
    FullGroup(s.acks.Keys, s.n);
    forall w | 0 <= w < s.n ensures Acked(phase, s.workers[w]) {
      assert w in Workers(s.n);
    }
  }

  /** When a phase begins, no worker has sent its ack yet. */
  lemma NoneAcked(s: State)
    requires Inv(s) && (s.mgr.SetConfig? || s.mgr.SetEnd?)
    ensures forall w :: 0 <= w < s.n ==> !Acked(if s.mgr.SetConfig? then StartPhase else EndPhase, s.workers[w])
  {
    forall w | 0 <= w < s.n
      ensures !Acked(if s.mgr.SetConfig? then StartPhase else EndPhase, s.workers[w])
    {
      assert InvWorker(s, w);
    }
  }

  lemma ManagerKeepsStore(s: State, health: HealthOutcome, ack: nat)
    requires Inv(s)
    ensures InvStore(NextManager(s, health, ack))
  {
    hide InvWorker, Acked, Workers;
    if s.mgr.ReadAcks? && |s.acks| == s.n { AllAcked(s, s.mgr.phase); }
    if s.mgr.SetConfig? || s.mgr.SetEnd? { NoneAcked(s); }
  }

  lemma ManagerKeepsWorker(s: State, health: HealthOutcome, ack: nat, w: nat)
    requires Inv(s) && w < s.n
    ensures InvWorker(NextManager(s, health, ack), w)
  {
    hide Workers;
    assert InvWorker(s, w);
    if s.mgr.ReadAcks? {
      ReadAcksKeepsWorker(s, health, ack, w);
    } else if s.mgr.Health? {
      hide Working, Orderly;
      WorkingIsOrderly(s.time, s.workers[w]);
      assert s.config == {} by { StoreOf(s); }
    }
  }

  lemma StoreOf(s: State)
    requires Inv(s) && s.mgr.Health?
    ensures s.config == {} && s.status.Running?
  {}

  lemma WorkingIsOrderly(time: Time, p: Worker)
    requires Working(time, p)
    ensures Orderly(time, {}, p)
  {}

  lemma ReadAcksKeepsWorker(s: State, health: HealthOutcome, ack: nat, w: nat)
    requires Inv(s) && w < s.n && s.mgr.ReadAcks?
    ensures InvWorker(NextManager(s, health, ack), w)
  {
    hide Workers;
    assert InvWorker(s, w);
    if |s.acks| == s.n { AllAcked(s, s.mgr.phase); }
  }

  lemma ManagerKeepsInv(s: State, health: HealthOutcome, ack: nat)
    requires Inv(s)
    ensures Inv(NextManager(s, health, ack))
  {
    ManagerKeepsStore(s, health, ack);
    forall w | 0 <= w < s.n ensures InvWorker(NextManager(s, health, ack), w) {
      ManagerKeepsWorker(s, health, ack, w);
    }
  }

  /** A worker's own step, while the acks of the start phase are awaited. */
  lemma StartingStep(s: State, p: Worker, entry: Time)
    requires s.status.Init? && s.config == {s.time} && Starting(s.time, p)
    ensures Starting(s.time, StepWorker(s, p, entry))
    ensures p.pc.AckStart? ==> p.exp == s.time && Acked(StartPhase, StepWorker(s, p, entry))
    ensures !p.pc.AckStart? ==> !p.pc.AckEnd? && (Acked(StartPhase, StepWorker(s, p, entry)) <==> Acked(StartPhase, p))
  {}

  /** A worker's own step, while the acks of the end phase are awaited. */
  lemma EndingStep(s: State, p: Worker, entry: Time)
    requires s.status.End? && s.config == {} && Ending(s.time, p)
    ensures Ending(s.time, StepWorker(s, p, entry))
    ensures p.pc.AckEnd? ==> p.exp == s.time && Acked(EndPhase, StepWorker(s, p, entry))
    ensures !p.pc.AckEnd? ==> !p.pc.AckStart? && (Acked(EndPhase, StepWorker(s, p, entry)) <==> Acked(EndPhase, p))
  {}

  /** A worker's own step after the manager has given up. */
  lemma OrderlyStep(s: State, p: Worker, entry: Time)
    requires s.config <= {s.time} && (s.status.Running? ==> s.config == {}) && Orderly(s.time, s.config, p)
    ensures Orderly(s.time, s.config, StepWorker(s, p, entry))
  {
    if p.pc.NextEntry? && entry in p.pending { assert p.pending - {entry} == {}; }
  }

  /** A worker's own step while the experiment runs. */
  lemma WorkingStep(s: State, p: Worker, entry: Time)
    requires s.status.Running? && Working(s.time, p)
    ensures Working(s.time, StepWorker(s, p, entry))
  {}

  lemma WorkerKeepsStore(s: State, w: nat, entry: Time)
    requires Inv(s) && w < s.n
    ensures InvStore(NextWorker(s, w, entry))
  {
    hide StepWorker, Starting, Ending;
    assert InvWorker(s, w);
    if s.mgr.ReadAcks? {
      if s.mgr.phase.StartPhase? { StartingStep(s, s.workers[w], entry); } else { EndingStep(s, s.workers[w], entry); }
    }
  }

  lemma WorkerKeepsSelf(s: State, w: nat, entry: Time)
    requires Inv(s) && w < s.n
    ensures InvWorker(NextWorker(s, w, entry), w)
  {
    var p := s.workers[w];
    assert InvWorker(s, w);
    if s.mgr.ReadAcks? {
      hide StepWorker, Starting, Ending;
      if s.mgr.phase.StartPhase? { StartingStep(s, p, entry); } else { EndingStep(s, p, entry); }
    } else if s.mgr.Abort? || s.mgr.Raised? {
      hide StepWorker, Orderly, Working;
      OrderlyStep(s, p, entry);
      if s.status.Running? { WorkingStep(s, p, entry); }
    }
  }

  lemma WorkerKeepsInv(s: State, w: nat, entry: Time)
    requires Inv(s) && w < s.n
    ensures Inv(NextWorker(s, w, entry))
  {
    hide StepWorker;
    WorkerKeepsStore(s, w, entry);
    forall v | 0 <= v < s.n ensures InvWorker(NextWorker(s, w, entry), v) {
      assert InvWorker(s, v);
      if v == w { WorkerKeepsSelf(s, w, entry); }
    }
  }

  /** The invariant holds in every state of every run, for any number of workers and any
      interleaving of their steps. */
  lemma {:induction false} InvAlways(s: State, steps: seq<Step>)
    requires Initial(s)
    ensures Inv(After(s, steps)) && After(s, steps).n == s.n
  {
    if steps == [] {
      InitialInv(s);
    } else {
      var front, last := steps[..|steps| - 1], steps[|steps| - 1];
      InvAlways(s, front);
      hide Inv;
      match last
      case ManagerStep(health, ack) => ManagerKeepsInv(After(s, front), health, ack);
      case WorkerStep(w, entry) => if w < s.n { WorkerKeepsInv(After(s, front), w, entry); }
    }
  }

  // ------------------------------------------------------------ safety

  /** hlen is 0 at both asserts, and neither "inconsistent ack" branch is ever taken: the manager
      gives up only on a timeout or a missing health report. */
  lemma AssertsHold(s: State, steps: seq<Step>)
    requires Initial(s)
    ensures
      var m := After(s, steps).mgr;
      !m.AssertionFailed? && (m.Abort? || m.Raised? ==> m.consistent)
  {
    InvAlways(s, steps);
  }

  /** While the status is RUNNING, every worker has launched its server and sent its start ack. */
  lemma RunningAfterAllStarted(s: State, steps: seq<Step>)
    requires Initial(s) && After(s, steps).status.Running?
    requires !After(s, steps).mgr.CheckLast? && !After(s, steps).mgr.Flush?
    ensures |After(s, steps).workers| == s.n
    ensures forall w :: 0 <= w < s.n ==>
      var p := After(s, steps).workers[w]; p.server && p.launches == 1 && p.startAcks == 1
  {
    InvAlways(s, steps);
    forall w | 0 <= w < s.n ensures Working(s.time, After(s, steps).workers[w]) {
      assert InvWorker(After(s, steps), w);
      Constant(s, steps);
    }
  }

  lemma {:induction false} Constant(s: State, steps: seq<Step>)
    ensures After(s, steps).time == s.time && After(s, steps).n == s.n && After(s, steps).rounds == s.rounds
  {
    if steps != [] { Constant(s, steps[..|steps| - 1]); }
  }

  predicate PastEndBarrier(m: ManagerPc) {
    m.Done? || ((m.DeleteAcks? || m.AssertNoAcks?) && m.phase.EndPhase?)
  }

  /** Once manager_exp_end is past its wait for acks, every worker has seen END, killed its server
      and sent exactly one end ack. */
  lemma EndBarrier(s: State, steps: seq<Step>)
    requires Initial(s) && PastEndBarrier(After(s, steps).mgr)
    ensures |After(s, steps).workers| == s.n
    ensures forall w :: 0 <= w < s.n ==>
      var p := After(s, steps).workers[w]; !p.server && p.sawEnd && p.endAcks == 1
  {
    InvAlways(s, steps);
    forall w | 0 <= w < s.n ensures Ended(After(s, steps).workers[w]) {
      assert InvWorker(After(s, steps), w);
    }
  }

  /** While end acks are awaited, every ack in the group was sent after its worker killed its
      server: none is left over from the start phase. */
  lemma NoStaleAck(s: State, steps: seq<Step>, w: nat)
    requires Initial(s) && After(s, steps).mgr.ReadAcks? && After(s, steps).mgr.phase.EndPhase?
    ensures |After(s, steps).workers| == s.n
    ensures w in After(s, steps).acks ==>
      w < s.n && After(s, steps).workers[w].endAcks == 1 && !After(s, steps).workers[w].server
  {
    InvAlways(s, steps);
    if w in After(s, steps).acks { assert InvWorker(After(s, steps), w); }
  }

  /** No worker ever launches a second server, even when the manager gives up half way. */
  lemma AtMostOneLaunch(s: State, steps: seq<Step>)
    requires Initial(s)
    ensures |After(s, steps).workers| == s.n
    ensures forall w :: 0 <= w < s.n ==> After(s, steps).workers[w].launches <= 1
  {
    InvAlways(s, steps);
    forall w | 0 <= w < s.n ensures After(s, steps).workers[w].launches <= 1 {
      assert InvWorker(After(s, steps), w);
    }
  }

  /** How often the manager has polled the ack group since its wait began. */
  function PollsMade(s: State, steps: seq<Step>): nat {
    if steps == [] then 0
    else
      var front, last := steps[..|steps| - 1], steps[|steps| - 1];
      if last.WorkerStep? then PollsMade(s, front)
      else if After(s, front).mgr.ReadAcks? then PollsMade(s, front) + 1
      else 0
  }

  /** ack_now_round counts the polls: each that finds an ack missing raises it by one. */
  lemma {:induction false} RoundIsPolls(s: State, steps: seq<Step>)
    requires Initial(s) && After(s, steps).mgr.ReadAcks?
    ensures After(s, steps).mgr.round == PollsMade(s, steps) <= s.rounds
  {
    InvAlways(s, steps);
    Constant(s, steps);
    var front, last := steps[..|steps| - 1], steps[|steps| - 1];
    if After(s, front).mgr.ReadAcks? { RoundIsPolls(s, front); }
  }

  /** A wait for acks is given up exactly when the rounds are used up and some worker has not sent
      this phase's ack: at poll number rounds + 1. */
  lemma TimeoutIsReal(s: State, steps: seq<Step>, health: HealthOutcome, ack: nat)
    requires Initial(s) && After(s, steps).mgr.ReadAcks?
    ensures
      var t := After(s, steps);
      |t.workers| == s.n &&
      (NextManager(t, health, ack).mgr.Abort?
       <==> PollsMade(s, steps) == s.rounds && exists w :: 0 <= w < s.n && !Acked(t.mgr.phase, t.workers[w]))
  {
    InvAlways(s, steps);
    Constant(s, steps);
    RoundIsPolls(s, steps);
    var t := After(s, steps);
    if |t.acks| == t.n {
      AllAcked(t, t.mgr.phase);
    } else if forall w :: 0 <= w < t.n ==> Acked(t.mgr.phase, t.workers[w]) {
      AllIn(t, t.mgr.phase);
    }
  }

  lemma AllIn(s: State, phase: Phase)
    requires |s.workers| == s.n && AcksMatch(s, phase)
    requires forall w :: 0 <= w < s.n ==> Acked(phase, s.workers[w])
    ensures |s.acks| == s.n
  {
    WorkersSize(s.n);
    assert s.acks.Keys == Workers(s.n);
    assert |s.acks.Keys| == |s.acks|;
  }
}
