/** The queue between the event loop (watcher.cpp) and the worker thread (worker.cpp), one
    atomic step at a time: mutex, condition variable with spurious wake-ups, stop flag. */
module WorkerQueue {
  import opened Bytes

  type Path = seq<byte>

  datatype Thread = Main | Worker

  /** The event loop pushes paths and, after it returned, sets the stop flag. */
  datatype MainPc =
    | Polling                    // no lock held; may push or begin to stop
    | PushLocked(path: Path)     // holds the lock, about to push
    | Pushed                     // holds the lock, has pushed
    | PushNotify                 // released the lock, about to notify_one
    | StopLocked                 // holds the lock, about to set stop
    | StopSet                    // holds the lock, has set stop
    | StopNotify                 // released the lock, about to notify_one
    | Joining                    // blocked in join
    | Joined

  /** RunWorker: cv.wait with its predicate, the stop test, the pop, unlocked processing. */
  datatype WorkerPc =
    | Start                      // no lock held, about to lock
    | Testing                    // holds the lock, about to evaluate the wait predicate
    | Waiting                    // blocked on the condition variable, lock released
    | Woken                      // notified or woken spuriously, about to lock again
    | Leaving                    // holds the lock, wait has returned
    | Popped(path: Path)         // holds the lock, has popped
    | Processing(path: Path)     // no lock held
    | Returning                  // holds the lock, about to return
    | Exited

  datatype State = State(
    main: MainPc,
    worker: WorkerPc,
    owner: set<Thread>,          // who holds the mutex: at most one
    pending: seq<Path>,
    stop: bool,
    enqueued: seq<Path>,         // history of all pushes
    processed: seq<Path>)        // history of all processed paths

  function Init(): State {
    State(Polling, Start, {}, [], false, [], [])
  }

  datatype Step =
    | BeginPush(path: Path) | Push | UnlockPush | NotifyPush
    | BeginStop | SetStop | UnlockStop | NotifyStop | Join
    | Lock | Test | Spurious | Relock | Leave | UnlockPopped | Process | Return

  predicate WaitOver(s: State) {
    s.stop || s.pending != []
  }

  predicate Enabled(s: State, e: Step) {
    match e
    case BeginPush(_) => s.main.Polling? && s.owner == {}
    case Push => s.main.PushLocked?
    case UnlockPush => s.main.Pushed?
    case NotifyPush => s.main.PushNotify?
    case BeginStop => s.main.Polling? && s.owner == {}
    case SetStop => s.main.StopLocked?
    case UnlockStop => s.main.StopSet?
    case NotifyStop => s.main.StopNotify?
    case Join => s.main.Joining? && s.worker.Exited?
    case Lock => s.worker.Start? && s.owner == {}
    case Test => s.worker.Testing?
    case Spurious => s.worker.Waiting?
    case Relock => s.worker.Woken? && s.owner == {}
    case Leave => s.worker.Leaving? && WaitOver(s)
    case UnlockPopped => s.worker.Popped?
    case Process => s.worker.Processing?
    case Return => s.worker.Returning?
  }

  // Leave would pop an empty queue if the wait could end early: it is enabled only with work
  // or stop, and NeverStuck shows that the worker is never kept from it.

  /** notify_one wakes the worker if it is waiting and is lost otherwise. */
  function Notified(w: WorkerPc): WorkerPc {
    if w.Waiting? then Woken else w
  }

  function Next(s: State, e: Step): State
    requires Enabled(s, e)
  {
    match e
    case BeginPush(path) => s.(main := PushLocked(path), owner := s.owner + {Main})
    case Push => s.(main := Pushed, pending := s.pending + [s.main.path], enqueued := s.enqueued + [s.main.path])
    case UnlockPush => s.(main := PushNotify, owner := s.owner - {Main})
    case NotifyPush => s.(main := Polling, worker := Notified(s.worker))
    case BeginStop => s.(main := StopLocked, owner := s.owner + {Main})
    case SetStop => s.(main := StopSet, stop := true)
    case UnlockStop => s.(main := StopNotify, owner := s.owner - {Main})
    case NotifyStop => s.(main := Joining, worker := Notified(s.worker))
    case Join => s.(main := Joined)
    case Lock => s.(worker := Testing, owner := s.owner + {Worker})
    case Test => if WaitOver(s) then s.(worker := Leaving) else s.(worker := Waiting, owner := s.owner - {Worker})
    case Spurious => s.(worker := Woken)
    case Relock => s.(worker := Testing, owner := s.owner + {Worker})
    case Leave =>
      if s.stop && s.pending == [] then s.(worker := Returning)
      else s.(worker := Popped(s.pending[0]), pending := s.pending[1..])
    case UnlockPopped => s.(worker := Processing(s.worker.path), owner := s.owner - {Worker})
    case Process => s.(worker := Start, processed := s.processed + [s.worker.path])
    case Return => s.(worker := Exited, owner := s.owner - {Worker})
  }

  // ----- Runs

  /** `es` can be taken from `s`, one step after the other. */
  predicate Valid(s: State, es: seq<Step>)
    decreases es
  {
    es == [] || (Enabled(s, es[0]) && Valid(Next(s, es[0]), es[1..]))
  }

  function Run(s: State, es: seq<Step>): State
    requires Valid(s, es)
    decreases es
  {
    if es == [] then s else Run(Next(s, es[0]), es[1..])
  }

  // ----- The invariant of every interleaving

  predicate MainHolds(m: MainPc) {
    m.PushLocked? || m.Pushed? || m.StopLocked? || m.StopSet?
  }

  predicate WorkerHolds(w: WorkerPc) {
    w.Testing? || w.Leaving? || w.Popped? || w.Returning?
  }

  predicate Stopping(m: MainPc) {
    m.StopSet? || m.StopNotify? || m.Joining? || m.Joined?
  }

  /** The main thread still owes the notification for a change it has made. */
  predicate OwesNotify(m: MainPc) {
    m.Pushed? || m.PushNotify? || m.StopSet? || m.StopNotify?
  }

  /** The path the worker has taken off the queue and not finished. */
  function InFlight(w: WorkerPc): seq<Path> {
    if w.Popped? || w.Processing? then [w.path] else []
  }

  predicate Conserved(s: State) {
    s.enqueued == s.processed + InFlight(s.worker) + s.pending
  }

  predicate Inv(s: State) {
    && s.owner == (if MainHolds(s.main) then {Main} else {}) + (if WorkerHolds(s.worker) then {Worker} else {})
    && !(MainHolds(s.main) && WorkerHolds(s.worker))
    && s.stop == Stopping(s.main)
    && (s.worker.Leaving? ==> WaitOver(s))
    && (s.worker.Waiting? && WaitOver(s) ==> OwesNotify(s.main))
    && (s.worker.Returning? || s.worker.Exited? ==> s.stop && s.pending == [])
    && (s.main.Joined? ==> s.worker.Exited?)
    && Conserved(s)
  }

  lemma StepConserves(s: State, e: Step)
    requires Inv(s) && Enabled(s, e)
    ensures Conserved(Next(s, e))
  {
    var done := s.processed + InFlight(s.worker);
    match e
    case Push => assert done + s.pending + [s.main.path] == done + (s.pending + [s.main.path]);
    case Leave => assert s.pending != [] ==> s.pending == [s.pending[0]] + s.pending[1..];
    case _ =>
  }

  lemma StepKeepsInv(s: State, e: Step)
    requires Inv(s) && Enabled(s, e)
    ensures Inv(Next(s, e))
  {
    hide Conserved;
    StepConserves(s, e);
  }

  lemma {:induction false} RunKeepsInv(s: State, es: seq<Step>)
    requires Inv(s) && Valid(s, es)
    ensures Inv(Run(s, es))
    decreases es
  {
    if es != [] {
      StepKeepsInv(s, es[0]);
      RunKeepsInv(Next(s, es[0]), es[1..]);
    }
  }

  /** Conservation over whole runs: no path is lost, duplicated or reordered, whatever the
      interleaving; an exited worker has processed everything that was ever enqueued. */
  lemma QueueConservation(es: seq<Step>)
    requires Valid(Init(), es)
    ensures var s := Run(Init(), es);
      && s.enqueued == s.processed + InFlight(s.worker) + s.pending
      && (s.worker.Exited? ==> s.stop && s.processed == s.enqueued)
  {
    RunKeepsInv(Init(), es);
  }

  /** Mutual exclusion, and the predicate still holds when the worker acts on it. */
  lemma MutualExclusion(es: seq<Step>)
    requires Valid(Init(), es)
    ensures var s := Run(Init(), es);
      && !(MainHolds(s.main) && WorkerHolds(s.worker))
      && (s.worker.Leaving? ==> s.stop || s.pending != [])
  {
    RunKeepsInv(Init(), es);
  }

  /** Processing runs without the lock: the event loop can push and stop whenever the worker is
      processing, waiting or between two steps, and the worker can lock while the event loop is
      polling, notifying or joining. */
  lemma ThreadsRunIndependently(es: seq<Step>, path: Path)
    requires Valid(Init(), es)
    ensures var s := Run(Init(), es);
      && (s.main.Polling? && !s.worker.Testing? && !s.worker.Leaving? && !s.worker.Popped? && !s.worker.Returning? ==>
            Enabled(s, BeginPush(path)) && Enabled(s, BeginStop))
      && (s.main.Polling? || s.main.PushNotify? || s.main.StopNotify? || s.main.Joining? ==>
            (s.worker.Start? ==> Enabled(s, Lock)) && (s.worker.Woken? ==> Enabled(s, Relock)))
  {
    RunKeepsInv(Init(), es);
  }

  /** No lost wake-up: a worker blocked although there is work or stop is about to be notified,
      and its notification is the next thing the main thread does besides unlocking. */
  lemma NoLostWakeup(es: seq<Step>)
    requires Valid(Init(), es)
    ensures var s := Run(Init(), es);
      s.worker.Waiting? && (s.stop || s.pending != []) ==>
        && OwesNotify(s.main)
        && (s.main.PushNotify? || s.main.StopNotify? ==>
              var e := if s.main.PushNotify? then NotifyPush else NotifyStop;
              Enabled(s, e) && Next(s, e).worker.Woken?)
        && (s.main.Pushed? ==> Enabled(s, UnlockPush) && Next(s, UnlockPush).main.PushNotify?)
        && (s.main.StopSet? ==> Enabled(s, UnlockStop) && Next(s, UnlockStop).main.StopNotify?)
  {
    RunKeepsInv(Init(), es);
  }

  // ----- Progress

  /** A step that is neither spurious nor the event loop's own decision to push or stop. */
  predicate Obliged(e: Step) {
    !e.Spurious? && !e.BeginPush? && !e.BeginStop?
  }

  function ObligedStep(s: State): Step {
    match s.main
    case PushLocked(_) => Push
    case Pushed => UnlockPush
    case PushNotify => NotifyPush
    case StopLocked => SetStop
    case StopSet => UnlockStop
    case StopNotify => NotifyStop
    case _ =>
      match s.worker
      case Start => Lock
      case Testing => Test
      case Waiting => Spurious
      case Woken => Relock
      case Leaving => Leave
      case Popped(_) => UnlockPopped
      case Processing(_) => Process
      case Returning => Return
      case Exited => Join
  }

  /** No deadlock: an unfinished program can always take a step, and while there is work or
      stop it can take one that neither chance nor new input has to provide. */
  lemma NeverStuck(es: seq<Step>)
    requires Valid(Init(), es) && !Run(Init(), es).main.Joined?
    ensures var s := Run(Init(), es);
      && (exists e :: Enabled(s, e) && !e.Spurious?)
      && (s.stop || s.pending != [] ==> exists e :: Enabled(s, e) && Obliged(e))
  {
    var s := Run(Init(), es);
    RunKeepsInv(Init(), es);
    if s.main.Polling? && s.worker.Waiting? {
      assert Enabled(s, BeginStop);
    } else {
      assert Enabled(s, ObligedStep(s)) && Obliged(ObligedStep(s));
    }
  }

  function WorkerRank(w: WorkerPc): nat {
    match w
    case Popped(_) => 6
    case Processing(_) => 5
    case Waiting => 5
    case Start => 4
    case Woken => 4
    case Testing => 3
    case Leaving => 2
    case Returning => 1
    case Exited => 0
  }

  function MainRank(m: MainPc): nat {
    match m
    case StopSet => 3
    case StopNotify => 2
    case Joining => 1
    case _ => 0
  }

  function Measure(s: State): nat {
    5 * |s.pending| + WorkerRank(s.worker) + MainRank(s.main)
  }

  lemma StopStepDecreases(s: State, e: Step)
    requires Inv(s) && s.stop && Enabled(s, e)
    ensures Next(s, e).stop && Measure(Next(s, e)) < Measure(s)
    ensures Next(s, e).enqueued == s.enqueued
  {
  }

  lemma {:induction false} StoppedRunIsShort(s: State, es: seq<Step>)
    requires Inv(s) && s.stop && Valid(s, es)
    ensures |es| + Measure(Run(s, es)) <= Measure(s)
    ensures Run(s, es).stop && Run(s, es).enqueued == s.enqueued
    decreases es
  {
    if es != [] {
      StepKeepsInv(s, es[0]);
      StopStepDecreases(s, es[0]);
      StoppedRunIsShort(Next(s, es[0]), es[1..]);
    }
  }

  lemma {:induction false} RunAppend(s: State, es: seq<Step>, more: seq<Step>)
    requires Valid(s, es) && Valid(Run(s, es), more)
    ensures Valid(s, es + more) && Run(s, es + more) == Run(Run(s, es), more)
    decreases es
  {
    if es == [] {
      assert es + more == more;
    } else {
      assert (es + more)[0] == es[0] && (es + more)[1..] == es[1..] + more;
      RunAppend(Next(s, es[0]), es[1..], more);
    }
  }

  /** Shutdown: once stop is set every schedule, fair or not, takes at most Measure more steps,
      and when nothing can step any more the program has joined a worker that has processed
      every path ever enqueued. */
  lemma ShutdownDrains(es: seq<Step>, more: seq<Step>)
    requires Valid(Init(), es) && Run(Init(), es).stop && Valid(Run(Init(), es), more)
    ensures |more| <= Measure(Run(Init(), es))
    ensures var s := Run(Run(Init(), es), more);
      (forall e :: !Enabled(s, e)) ==>
        s.main.Joined? && s.worker.Exited? && s.processed == s.enqueued == Run(Init(), es).enqueued
  {
    RunKeepsInv(Init(), es);
    StoppedRunIsShort(Run(Init(), es), more);
    RunAppend(Init(), es, more);
    RunKeepsInv(Init(), es + more);
    var s := Run(Init(), es + more);
    if !s.main.Joined? {
      NeverStuck(es + more);
    }
  }

  // ----- Progress in normal operation

  function WorkerWork(w: WorkerPc): nat {
    if w.Waiting? then 0 else WorkerRank(w)
  }

  function MainWork(m: MainPc): nat {
    match m
    case PushLocked(_) => 12
    case Pushed => 6
    case PushNotify => 5
    case StopLocked => 8
    case StopSet => 7
    case StopNotify => 6
    case Joining => 1
    case _ => 0
  }

  /** What is left to do, counting the wake-up that a notification may cause. */
  function Work(s: State): nat {
    5 * |s.pending| + WorkerWork(s.worker) + MainWork(s.main)
  }

  /** What a step that nothing obliges brings with it, itself included. */
  function Brings(e: Step): nat {
    match e
    case BeginPush(_) => 13
    case BeginStop => 9
    case Spurious => 5
    case _ => 0
  }

  function BroughtBy(es: seq<Step>): nat {
    if es == [] then 0 else Brings(es[0]) + BroughtBy(es[1..])
  }

  lemma StepDoesWork(s: State, e: Step)
    requires Inv(s) && Enabled(s, e)
    ensures 1 + Work(Next(s, e)) <= Work(s) + Brings(e)
  {
  }

  lemma {:induction false} RunDoesWork(s: State, es: seq<Step>)
    requires Inv(s) && Valid(s, es)
    ensures |es| + Work(Run(s, es)) <= Work(s) + BroughtBy(es)
    decreases es
  {
    if es != [] {
      StepKeepsInv(s, es[0]);
      StepDoesWork(s, es[0]);
      RunDoesWork(Next(s, es[0]), es[1..]);
    }
  }

  lemma {:induction false} ObligedBringNothing(es: seq<Step>)
    requires forall e :: e in es ==> Obliged(e)
    ensures BroughtBy(es) == 0
  {
    if es != [] {
      assert es[0] in es;
      ObligedBringNothing(es[1..]);
    }
  }

  /** At rest the queue is empty and everything enqueued is processed. */
  lemma RestIsDone(s: State)
    requires Inv(s) && forall e :: Obliged(e) ==> !Enabled(s, e)
    ensures s.pending == [] && s.processed == s.enqueued
    ensures (s.main.Polling? && s.worker.Waiting?) || (s.main.Joined? && s.worker.Exited?)
  {
    if !(s.main.Polling? && s.worker.Waiting?) && !s.main.Joined? {
      assert Obliged(ObligedStep(s)) && Enabled(s, ObligedStep(s));
    }
  }

  /** Progress at any time, stop or not, under every schedule: without new pushes, a stop or
      spurious wake-ups the program comes to rest after at most Work steps, each of those adds a
      fixed number, and at rest every path ever enqueued has been processed, in order. */
  lemma EnqueuedIsProcessed(es: seq<Step>, more: seq<Step>)
    requires Valid(Init(), es) && Valid(Run(Init(), es), more)
    ensures |more| <= Work(Run(Init(), es)) + BroughtBy(more)
    ensures (forall e :: e in more ==> Obliged(e)) ==> |more| <= Work(Run(Init(), es))
    ensures var s := Run(Run(Init(), es), more);
      (forall e :: Obliged(e) ==> !Enabled(s, e)) ==> s.pending == [] && s.processed == s.enqueued
  {
    var from := Run(Init(), es);
    RunKeepsInv(Init(), es);
    RunDoesWork(from, more);
    if forall e :: e in more ==> Obliged(e) {
      ObligedBringNothing(more);
    }
    RunKeepsInv(from, more);
    if forall e :: Obliged(e) ==> !Enabled(Run(from, more), e) {
      RestIsDone(Run(from, more));
    }
  }
}
