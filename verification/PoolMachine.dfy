/** The thread pool of projects/Server/src/ThreadPool_singleton as a machine of atomic steps: any
    number of workers in worker_loop, any number of threads in submit, one in shut_down, one mutex and
    one condition variable, with spurious wake-ups and notifications after the unlock. */
module PoolMachine {
  import opened Counting

  type Task = nat

  datatype WorkerPc =
    | LoopTop         // about to read stop without the lock
    | Wanting         // at the lock, on the way in or woken from the wait
    | Testing         // holds the lock, about to evaluate the wait's predicate
    | Dozing          // found it false: holds the lock, about to release it and sleep
    | Asleep          // in the wait, not notified
    | Taking          // found it true: holds the lock, about to take a task or leave
    | Running(task: Task)
    | Exited

  datatype ClientPc =
    | Outside
    | Calling(task: Task)  // in submit, at the lock
    | Holding(task: Task)  // holds the lock
    | Owing                // has pushed and unlocked, has not notified yet

  datatype ShutPc =
    | NotCalled
    | AtLock
    | Locked
    | Stored          // stop is set, the lock still held
    | OwesAll         // unlocked, has not called notify_all yet
    | Joining(next: nat)
    | Done

  datatype Owner = Free | ByWorker(w: nat) | ByClient(c: nat) | ByShutdown

  datatype Start = Start(worker: nat, task: Task)

  /** The pool's own fields, where every thread is, and the history. */
  datatype Pool = Pool(
    tasks: seq<Task>, stop: bool, owner: Owner,
    workers: seq<WorkerPc>, clients: seq<ClientPc>, shut: ShutPc,
    submitted: seq<Task>, started: seq<Start>)

  function Initial(workers: nat, clients: nat): Pool {
    Pool([], false, Free, seq(workers, _ => LoopTop), seq(clients, _ => Outside), NotCalled, [], [])
  }

  datatype Action =
    | ReadStop(w: nat)
    | WorkerLock(w: nat)
    | TestPredicate(w: nat)
    | Sleep(w: nat)
    | WakeSpuriously(w: nat)
    | Take(w: nat)
    | Finish(w: nat)
    | CallSubmit(c: nat, task: Task)
    | ClientLock(c: nat)
    | Push(c: nat)
    | NotifyOne(c: nat, w: nat)  // w is the sleeper that wakes, if there is any
    | CallShutDown
    | ShutLock
    | StoreStop
    | ShutUnlock
    | NotifyAll
    | Join

  predicate AnyAsleep(s: Pool) {
    exists w :: 0 <= w < |s.workers| && s.workers[w] == Asleep
  }

  predicate WorkerAt(s: Pool, w: nat, pc: WorkerPc) {
    w < |s.workers| && s.workers[w] == pc
  }

  predicate Enabled(s: Pool, a: Action) {
    match a
    case ReadStop(w) => WorkerAt(s, w, LoopTop)
    case WorkerLock(w) => WorkerAt(s, w, Wanting) && s.owner == Free
    case TestPredicate(w) => WorkerAt(s, w, Testing)
    case Sleep(w) => WorkerAt(s, w, Dozing)
    case WakeSpuriously(w) => WorkerAt(s, w, Asleep)
    case Take(w) => WorkerAt(s, w, Taking) && (s.stop || s.tasks != [])
    case Finish(w) => w < |s.workers| && s.workers[w].Running?
    case CallSubmit(c, _) => c < |s.clients| && s.clients[c] == Outside
    case ClientLock(c) => c < |s.clients| && s.clients[c].Calling? && s.owner == Free
    case Push(c) => c < |s.clients| && s.clients[c].Holding?
    case NotifyOne(c, w) => c < |s.clients| && s.clients[c] == Owing && (AnyAsleep(s) ==> WorkerAt(s, w, Asleep))
    case CallShutDown => s.shut == NotCalled
    case ShutLock => s.shut == AtLock && s.owner == Free
    case StoreStop => s.shut == Locked
    case ShutUnlock => s.shut == Stored
    case NotifyAll => s.shut == OwesAll
    case Join => s.shut.Joining? && (s.shut.next < |s.workers| ==> s.workers[s.shut.next] == Exited)
  }

  function MoveWorker(s: Pool, w: nat, pc: WorkerPc, owner: Owner): Pool
    requires w < |s.workers|
  {
    s.(workers := s.workers[w := pc], owner := owner)
  }

  function MoveClient(s: Pool, c: nat, pc: ClientPc, owner: Owner): Pool
    requires c < |s.clients|
  {
    s.(clients := s.clients[c := pc], owner := owner)
  }

  function Wake(pc: WorkerPc): WorkerPc {
    if pc == Asleep then Wanting else pc
  }

  function WakeAll(workers: seq<WorkerPc>): seq<WorkerPc> {
    seq(|workers|, w requires 0 <= w < |workers| => Wake(workers[w]))
  }

  function Apply(s: Pool, a: Action): Pool
    requires Enabled(s, a)
  {
    match a
    case ReadStop(w) => MoveWorker(s, w, if s.stop then Exited else Wanting, s.owner)
    case WorkerLock(w) => MoveWorker(s, w, Testing, ByWorker(w))
    case TestPredicate(w) => MoveWorker(s, w, if s.stop || s.tasks != [] then Taking else Dozing, s.owner)
    case Sleep(w) => MoveWorker(s, w, Asleep, Free)
    case WakeSpuriously(w) => MoveWorker(s, w, Wanting, s.owner)
    case Take(w) =>
      if s.stop && s.tasks == [] then MoveWorker(s, w, Exited, Free)
      else MoveWorker(s, w, Running(s.tasks[0]), Free)
           .(tasks := s.tasks[1..], started := s.started + [Start(w, s.tasks[0])])
    case Finish(w) => MoveWorker(s, w, LoopTop, s.owner)
    case CallSubmit(c, task) => MoveClient(s, c, Calling(task), s.owner)
    case ClientLock(c) => MoveClient(s, c, Holding(s.clients[c].task), ByClient(c))
    case Push(c) =>
      if s.stop then MoveClient(s, c, Outside, Free)  // throws
      else MoveClient(s, c, Owing, Free)
           .(tasks := s.tasks + [s.clients[c].task], submitted := s.submitted + [s.clients[c].task])
    case NotifyOne(c, w) =>
      var t := MoveClient(s, c, Outside, s.owner);
      if AnyAsleep(s) then MoveWorker(t, w, Wanting, s.owner) else t
    case CallShutDown => s.(shut := AtLock)
    case ShutLock => s.(shut := Locked, owner := ByShutdown)
    case StoreStop => s.(shut := Stored, stop := true)
    case ShutUnlock => s.(shut := OwesAll, owner := Free)
    case NotifyAll =>
      s.(shut := Joining(0), workers := WakeAll(s.workers))
    case Join => s.(shut := if s.shut.next < |s.workers| then Joining(s.shut.next + 1) else Done)
  }

  // ---------- runs ----------

  predicate Legal(s: Pool, acts: seq<Action>)
    decreases |acts|
  {
    acts == [] || (Enabled(s, acts[0]) && Legal(Apply(s, acts[0]), acts[1..]))
  }

  function Run(s: Pool, acts: seq<Action>): Pool
    requires Legal(s, acts)
    decreases |acts|
  {
    if acts == [] then s else Run(Apply(s, acts[0]), acts[1..])
  }

  // ---------- the invariant ----------

  predicate HoldsLock(pc: WorkerPc) {
    pc in {Testing, Dozing, Taking}
  }

  /** At most one thread is inside the lock, and owner says which. */
  ghost predicate Exclusive(s: Pool) {
    && (forall w :: 0 <= w < |s.workers| ==> (HoldsLock(s.workers[w]) <==> s.owner == ByWorker(w)))
    && (forall c :: 0 <= c < |s.clients| ==> (s.clients[c].Holding? <==> s.owner == ByClient(c)))
    && (s.shut in {Locked, Stored} <==> s.owner == ByShutdown)
    && (s.owner.ByWorker? ==> s.owner.w < |s.workers|)
    && (s.owner.ByClient? ==> s.owner.c < |s.clients|)
  }

  /** What a worker has seen under the lock still holds while it keeps the lock. */
  ghost predicate SeenHolds(s: Pool) {
    forall w :: 0 <= w < |s.workers| ==>
      && (s.workers[w] == Dozing ==> s.tasks == [] && !s.stop)
      && (s.workers[w] == Taking ==> s.tasks != [] || s.stop)
      && (s.workers[w] == Exited ==> s.stop)
  }

  ghost predicate Phases(s: Pool) {
    && (s.stop <==> s.shut in {Stored, OwesAll, Done} || s.shut.Joining?)
    && (s.shut.Joining? ==> s.shut.next <= |s.workers| && forall w :: 0 <= w < s.shut.next ==> s.workers[w] == Exited)
    && (s.shut == Done ==> forall w :: 0 <= w < |s.workers| ==> s.workers[w] == Exited)
  }

  /** Awake inside worker_loop and not busy with a task: on the way to look at the queue. */
  predicate Trying(pc: WorkerPc) {
    pc in {LoopTop, Wanting, Testing, Taking}
  }

  predicate Owes(pc: ClientPc) {
    pc == Owing
  }

  function OwingCount(s: Pool): nat {
    Count(s.clients, Owes)
  }

  function TryingCount(s: Pool): nat {
    Count(s.workers, Trying)
  }

  /** While anyone sleeps, each queued task has a notification of its own still to come, or a worker
      of its own on the way; and a sleeper can only outlive stop until notify_all. */
  ghost predicate NoLostWakeup(s: Pool) {
    AnyAsleep(s) ==>
      if s.stop then s.shut in {Stored, OwesAll} else |s.tasks| <= OwingCount(s) + TryingCount(s)
  }

  function TasksOf(started: seq<Start>): seq<Task> {
    seq(|started|, k requires 0 <= k < |started| => started[k].task)
  }

  /** Tasks are started in the order submitted, and none is lost or started twice. */
  ghost predicate Fifo(s: Pool) {
    s.submitted == TasksOf(s.started) + s.tasks
  }

  ghost predicate Inv(s: Pool) {
    Exclusive(s) && SeenHolds(s) && Phases(s) && NoLostWakeup(s) && Fifo(s)
  }

  // ---------- every step keeps it ----------

  predicate WorkerOnly(a: Action) {
    a.ReadStop? || a.WorkerLock? || a.TestPredicate? || a.Sleep? || a.WakeSpuriously? || a.Take? || a.Finish?
  }

  predicate ClientOnly(a: Action) {
    a.CallSubmit? || a.ClientLock? || a.Push? || a.NotifyOne?
  }

  lemma StepExclusive(s: Pool, a: Action)
    requires Exclusive(s) && Enabled(s, a)
    ensures Exclusive(Apply(s, a))
  {
    hide Exclusive, Enabled, Apply;
    if WorkerOnly(a) {
      WorkerStepExclusive(s, a);
    } else if ClientOnly(a) {
      ClientStepExclusive(s, a);
    } else {
      ShutStepExclusive(s, a);
    }
  }

  lemma WorkerStepExclusive(s: Pool, a: Action)
    requires Exclusive(s) && Enabled(s, a) && WorkerOnly(a)
    ensures Exclusive(Apply(s, a))
  {
  }

  lemma ClientStepExclusive(s: Pool, a: Action)
    requires Exclusive(s) && Enabled(s, a) && ClientOnly(a)
    ensures Exclusive(Apply(s, a))
  {
  }

  lemma ShutStepExclusive(s: Pool, a: Action)
    requires Exclusive(s) && Enabled(s, a) && !WorkerOnly(a) && !ClientOnly(a)
    ensures Exclusive(Apply(s, a))
  {
  }

  lemma StepSeenHolds(s: Pool, a: Action)
    requires Exclusive(s) && SeenHolds(s) && Enabled(s, a)
    ensures SeenHolds(Apply(s, a))
  {
  }

  lemma StepPhases(s: Pool, a: Action)
    requires Exclusive(s) && Phases(s) && Enabled(s, a)
    ensures Phases(Apply(s, a))
  {
  }

  lemma StepFifo(s: Pool, a: Action)
    requires Fifo(s) && SeenHolds(s) && Enabled(s, a)
    ensures Fifo(Apply(s, a))
  {
  }

  lemma StepNoLostWakeup(s: Pool, a: Action)
    requires Exclusive(s) && SeenHolds(s) && Phases(s) && NoLostWakeup(s) && Enabled(s, a)
    ensures NoLostWakeup(Apply(s, a))
  {
    if WorkerOnly(a) {
      WorkerStepWakeup(s, a);
    } else if ClientOnly(a) {
      ClientStepWakeup(s, a);
    } else {
      assert a.StoreStop? || a.NotifyAll? || Apply(s, a).stop == s.stop;
    }
  }

  lemma WorkerStepWakeup(s: Pool, a: Action)
    requires SeenHolds(s) && NoLostWakeup(s) && Enabled(s, a) && WorkerOnly(a)
    ensures NoLostWakeup(Apply(s, a))
  {
    hide TryingCount, OwingCount;
    WorkerMoved(s, Apply(s, a), a.w);
  }

  lemma ClientStepWakeup(s: Pool, a: Action)
    requires NoLostWakeup(s) && Enabled(s, a) && ClientOnly(a)
    ensures NoLostWakeup(Apply(s, a))
  {
    hide TryingCount, OwingCount;
    var t := Apply(s, a);
    ClientMoved(s, t, a.c);
    if a.NotifyOne? && AnyAsleep(s) {
      WorkerMoved(s, t, a.w);
    }
  }

  lemma WorkerMoved(s: Pool, t: Pool, w: nat)
    requires w < |s.workers| && |t.workers| == |s.workers| && t.workers == s.workers[w := t.workers[w]]
    ensures TryingCount(t) + One(Trying(s.workers[w])) == TryingCount(s) + One(Trying(t.workers[w]))
    ensures t.clients == s.clients ==> OwingCount(t) == OwingCount(s)
  {
    CountMove(s.workers, w, t.workers[w], Trying);
  }

  lemma ClientMoved(s: Pool, t: Pool, c: nat)
    requires c < |s.clients| && |t.clients| == |s.clients| && t.clients == s.clients[c := t.clients[c]]
    ensures OwingCount(t) + One(Owes(s.clients[c])) == OwingCount(s) + One(Owes(t.clients[c]))
    ensures t.workers == s.workers ==> TryingCount(t) == TryingCount(s)
  {
    CountMove(s.clients, c, t.clients[c], Owes);
  }

  lemma StepKeepsInv(s: Pool, a: Action)
    requires Inv(s) && Enabled(s, a)
    ensures Inv(Apply(s, a))
  {
    hide Exclusive, SeenHolds, Phases, NoLostWakeup, Fifo, Apply;
    StepExclusive(s, a);
    StepSeenHolds(s, a);
    StepPhases(s, a);
    StepNoLostWakeup(s, a);
    StepFifo(s, a);
  }

  lemma {:induction false} RunKeepsInv(s: Pool, acts: seq<Action>)
    requires Inv(s) && Legal(s, acts)
    ensures Inv(Run(s, acts))
    decreases |acts|
  {
    hide Inv, Enabled, Apply;
    if acts != [] {
      StepKeepsInv(s, acts[0]);
      RunKeepsInv(Apply(s, acts[0]), acts[1..]);
    }
  }

  lemma InitialInv(workers: nat, clients: nat)
    ensures Inv(Initial(workers, clients))
  {
  }
}
