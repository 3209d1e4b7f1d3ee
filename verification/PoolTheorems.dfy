/** What the thread pool's machine promises about all its runs. */
module PoolTheorems {
  import opened Counting
  import opened PoolMachine

  /** A state that some schedule of some number of workers and submitting threads can reach. */
  ghost predicate Reachable(s: Pool) {
    exists workers: nat, clients: nat, acts: seq<Action> ::
      Legal(Initial(workers, clients), acts) && Run(Initial(workers, clients), acts) == s
  }

  lemma ReachableInv(s: Pool)
    requires Reachable(s)
    ensures Inv(s)
  {
    var workers: nat, clients: nat, acts: seq<Action> :|
      Legal(Initial(workers, clients), acts) && Run(Initial(workers, clients), acts) == s;
    InitialInv(workers, clients);
    RunKeepsInv(Initial(workers, clients), acts);
  }

  /** Nobody is about to notify: no submitter between its unlock and its notify_one, and shut_down
      not between its store and its notify_all. */
  ghost predicate NothingOwed(s: Pool) {
    && (forall c :: 0 <= c < |s.clients| ==> s.clients[c] != Owing)
    && s.shut !in {Stored, OwesAll}
  }

  ghost predicate NobodyTrying(s: Pool) {
    forall w :: 0 <= w < |s.workers| ==> !Trying(s.workers[w])
  }

  /** No wake-up is lost, whatever the schedule. While some worker sleeps un-notified: (1) queued
      tasks mean that a notification is still to come or a worker is on its way to the queue, even if
      all others stay busy for ever; (2) stop means that notify_all is still to come; (3) before stop,
      there are never more queued tasks than notifications to come and workers on their way. */
  lemma NoWakeupIsLost(s: Pool)
    requires Reachable(s) && AnyAsleep(s)
    ensures s.tasks != [] && NobodyTrying(s) ==> !NothingOwed(s)
    ensures s.stop ==> s.shut in {Stored, OwesAll}
    ensures !s.stop ==> |s.tasks| <= Count(s.clients, Owes) + Count(s.workers, Trying)
  {
    ReachableInv(s);
    if s.tasks != [] && NobodyTrying(s) && !s.stop {
      CountNone(s.workers, Trying);
      CountSome(s.clients, Owes);
    }
  }

  /** Submitted is started followed by queued, in that order: first in, first out, nothing lost,
      nothing started twice. */
  lemma TasksStartInOrder(s: Pool)
    requires Reachable(s)
    ensures |s.started| + |s.tasks| == |s.submitted|
    ensures forall k :: 0 <= k < |s.started| ==> s.started[k].task == s.submitted[k]
    ensures forall k :: 0 <= k < |s.tasks| ==> s.tasks[k] == s.submitted[|s.started| + k]
  {
    ReachableInv(s);
    assert forall k :: 0 <= k < |s.started| ==> TasksOf(s.started)[k] == s.started[k].task;
  }

  // ---------- after stop ----------

  /** Tasks that worker w has started in this part of the history. */
  function StartsOf(started: seq<Start>, w: nat): nat {
    if started == [] then 0 else StartsOf(started[..|started| - 1], w) + One(started[|started| - 1].worker == w)
  }

  lemma {:induction false} StartsOfAppend(a: seq<Start>, b: seq<Start>, w: nat)
    ensures StartsOf(a + b, w) == StartsOf(a, w) + StartsOf(b, w)
  {
    if b == [] {
      assert a + b == a;
    } else {
      assert (a + b)[..|a + b| - 1] == a + b[..|b| - 1];
      StartsOfAppend(a, b[..|b| - 1], w);
    }
  }

  /** Once stop is set, a worker may start one more task only if it has already passed the test at the
      top of its loop. */
  function MayStart(s: Pool, w: nat): nat {
    if w < |s.workers| && s.workers[w] in {Asleep, Wanting, Testing, Dozing, Taking} then 1 else 0
  }

  lemma StepAfterStop(s: Pool, a: Action, w: nat)
    requires Inv(s) && s.stop && Enabled(s, a)
    ensures var t := Apply(s, a);
            && t.stop && t.submitted == s.submitted && s.started <= t.started
            && StartsOf(t.started, w) + MayStart(t, w) <= StartsOf(s.started, w) + MayStart(s, w)
  {
    hide NoLostWakeup, Phases, Exclusive, Fifo;
    if a.Take? && s.tasks != [] {
      assert Apply(s, a).started[..|s.started|] == s.started;
    }
  }

  lemma {:induction false} RunAfterStop(s: Pool, acts: seq<Action>, w: nat)
    requires Inv(s) && s.stop && Legal(s, acts)
    ensures var t := Run(s, acts);
            && t.stop && t.submitted == s.submitted && s.started <= t.started
            && StartsOf(t.started, w) + MayStart(t, w) <= StartsOf(s.started, w) + MayStart(s, w)
    decreases |acts|
  {
    hide Inv, Enabled, Apply, StartsOf, MayStart;
    if acts != [] {
      StepAfterStop(s, acts[0], w);
      StepKeepsInv(s, acts[0]);
      RunAfterStop(Apply(s, acts[0]), acts[1..], w);
    }
  }

  /** From the moment stop is set, however the run goes on: no submit is accepted, and each worker
      starts at most one further task, none at all if it was busy or at the top of its loop. */
  lemma AtMostOneMoreTaskEach(s: Pool, acts: seq<Action>, w: nat)
    requires Reachable(s) && s.stop && Legal(s, acts)
    ensures var t := Run(s, acts);
            && t.submitted == s.submitted
            && |s.started| <= |t.started|
            && StartsOf(t.started[|s.started|..], w) <= MayStart(s, w) <= 1
  {
    ReachableInv(s);
    RunAfterStop(s, acts, w);
    var t := Run(s, acts);
    assert t.started == s.started + t.started[|s.started|..];
    StartsOfAppend(s.started, t.started[|s.started|..], w);
  }

  // ---------- shut_down finishes ----------

  /** Steps that a worker has left at most, once stop is set. */
  function Rank(pc: WorkerPc): nat {
    match pc
    case Exited => 0
    case LoopTop => 1
    case Running(_) => 2
    case Taking => 3
    case Testing => 4
    case Wanting => 5
    case Asleep => 6
    case Dozing => 7
  }

  function Ranks(workers: seq<WorkerPc>): nat {
    if workers == [] then 0 else Ranks(workers[..|workers| - 1]) + Rank(workers[|workers| - 1])
  }

  lemma {:induction false} RanksMove(workers: seq<WorkerPc>, w: nat, pc: WorkerPc)
    requires w < |workers|
    ensures Ranks(workers[w := pc]) + Rank(workers[w]) == Ranks(workers) + Rank(pc)
  {
    var last := |workers| - 1;
    if w == last {
      assert workers[w := pc][..last] == workers[..last];
    } else {
      assert workers[w := pc][..last] == workers[..last][w := pc];
      RanksMove(workers[..last], w, pc);
    }
  }

  lemma {:induction false} RanksWake(workers: seq<WorkerPc>)
    ensures Ranks(WakeAll(workers)) <= Ranks(workers)
  {
    if workers != [] {
      var last := |workers| - 1;
      var woken := WakeAll(workers);
      assert woken[..last] == WakeAll(workers[..last]);
      RanksWake(workers[..last]);
    }
  }

  /** Steps that shut_down has left at most. */
  function ShutRank(s: Pool): nat {
    match s.shut
    case NotCalled => |s.workers| + 7
    case AtLock => |s.workers| + 6
    case Locked => |s.workers| + 5
    case Stored => |s.workers| + 4
    case OwesAll => |s.workers| + 3
    case Joining(next) => if next <= |s.workers| then |s.workers| - next + 1 else 1
    case Done => 0
  }

  function Work(s: Pool): nat {
    Ranks(s.workers) + ShutRank(s)
  }

  /** A step of the pool's own threads, as opposed to those that submit. */
  predicate Internal(a: Action) {
    !(a.CallSubmit? || a.ClientLock? || a.Push? || a.NotifyOne?)
  }

  lemma WorkerWork(s: Pool, t: Pool, w: nat)
    requires w < |s.workers| == |t.workers| && t.workers == s.workers[w := t.workers[w]] && t.shut == s.shut
    ensures Work(t) + Rank(s.workers[w]) == Work(s) + Rank(t.workers[w])
  {
    RanksMove(s.workers, w, t.workers[w]);
  }

  /** After stop every internal step uses up some of a bounded amount of work, and no step of a
      submitter ever gives any back. */
  lemma WorkDecreases(s: Pool, a: Action)
    requires Inv(s) && s.stop && Enabled(s, a)
    ensures Work(Apply(s, a)) <= Work(s)
    ensures Internal(a) ==> Work(Apply(s, a)) < Work(s)
  {
    var t := Apply(s, a);
    if t.shut == s.shut {
      WorkersWork(s, a);
    } else {
      ShutDownWork(s, a);
    }
  }

  lemma WorkersWork(s: Pool, a: Action)
    requires SeenHolds(s) && s.stop && Enabled(s, a) && Apply(s, a).shut == s.shut
    ensures Work(Apply(s, a)) <= Work(s) && (Internal(a) ==> Work(Apply(s, a)) < Work(s))
  {
    hide Work;
    var t := Apply(s, a);
    match a
    case ReadStop(w) => WorkerWork(s, t, w);
    case WorkerLock(w) => WorkerWork(s, t, w);
    case TestPredicate(w) => WorkerWork(s, t, w);
    case Sleep(w) => WorkerWork(s, t, w);
    case WakeSpuriously(w) => WorkerWork(s, t, w);
    case Take(w) => WorkerWork(s, t, w);
    case Finish(w) => WorkerWork(s, t, w);
    case CallSubmit(_, _) => SameWork(s, t);
    case ClientLock(_) => SameWork(s, t);
    case Push(_) => SameWork(s, t);
    case NotifyOne(c, w) =>
      if AnyAsleep(s) {
        WorkerWork(s, t, w);
      } else {
        SameWork(s, t);
      }
    case _ =>
  }

  lemma SameWork(s: Pool, t: Pool)
    requires t.workers == s.workers && t.shut == s.shut
    ensures Work(t) == Work(s)
  {
  }

  lemma ShutDownWork(s: Pool, a: Action)
    requires Phases(s) && s.stop && Enabled(s, a) && Apply(s, a).shut != s.shut
    ensures Work(Apply(s, a)) < Work(s)
  {
    RanksWake(s.workers);
  }

  /** How many steps of a run are the pool's own. */
  function InternalSteps(acts: seq<Action>): nat {
    if acts == [] then 0 else One(Internal(acts[0])) + InternalSteps(acts[1..])
  }

  lemma {:induction false} RunUsesUpWork(s: Pool, acts: seq<Action>)
    requires Inv(s) && s.stop && Legal(s, acts)
    ensures InternalSteps(acts) + Work(Run(s, acts)) <= Work(s)
    decreases |acts|
  {
    hide Inv, Enabled, Apply, Work, Internal;
    if acts != [] {
      WorkDecreases(s, acts[0]);
      StepAfterStop(s, acts[0], 0);
      StepKeepsInv(s, acts[0]);
      RunUsesUpWork(Apply(s, acts[0]), acts[1..]);
    }
  }

  lemma {:induction false} RanksBound(workers: seq<WorkerPc>)
    ensures Ranks(workers) <= 7 * |workers|
  {
    if workers != [] {
      RanksBound(workers[..|workers| - 1]);
    }
  }

  /** However the run goes on after stop, the pool's own threads take at most eight steps a worker and
      four more, spurious wake-ups included, before they are all done. */
  lemma InternalStepsAreBounded(s: Pool, acts: seq<Action>)
    requires Reachable(s) && s.stop && Legal(s, acts)
    ensures InternalSteps(acts) <= Work(s) <= 8 * |s.workers| + 4
  {
    hide Legal, Run, Ranks;
    ReachableInv(s);
    RunUsesUpWork(s, acts);
    RanksBound(s.workers);
  }

  /** After stop and until shut_down is done, somebody can always go on: an internal step, or the
      submitter that holds the lock, which can only leave it. No spurious wake-up is needed. */
  lemma SomeoneCanGoOn(s: Pool) returns (a: Action)
    requires Inv(s) && s.stop && s.shut != Done
    ensures Enabled(s, a) && !a.WakeSpuriously? && (Internal(a) || (a.Push? && s.owner == ByClient(a.c)))
  {
    match s.owner
    case ByWorker(w) => a := if s.workers[w] == Testing then TestPredicate(w) else Take(w);
    case ByClient(c) => a := Push(c);
    case ByShutdown => a := ShutUnlock;
    case Free =>
      if s.shut == OwesAll {
        a := NotifyAll;
      } else {
        var n := s.shut.next;
        if n == |s.workers| || s.workers[n] == Exited {
          a := Join;
        } else {
          match s.workers[n]
          case LoopTop => a := ReadStop(n);
          case Wanting => a := WorkerLock(n);
          case Asleep => assert false;  // notify_all has been called
          case Running(_) => a := Finish(n);
        }
      }
  }

  /** So from every reachable state with stop set, shut_down can be brought to its end. */
  lemma {:induction false} ShutDownCompletes(s: Pool) returns (acts: seq<Action>)
    requires Inv(s) && s.stop
    ensures Legal(s, acts) && Run(s, acts).shut == Done
    ensures forall w :: 0 <= w < |Run(s, acts).workers| ==> Run(s, acts).workers[w] == Exited
    decreases Work(s), s.owner.ByClient?
  {
    hide Exclusive, SeenHolds, NoLostWakeup, Fifo, Work;
    if s.shut == Done {
      acts := [];
    } else {
      var a := SomeoneCanGoOn(s);
      WorkDecreases(s, a);
      StepKeepsInv(s, a);
      var rest := ShutDownCompletes(Apply(s, a));
      acts := [a] + rest;
      assert acts[1..] == rest;
    }
  }
}
