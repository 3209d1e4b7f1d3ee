/** What the callers of the thread pool get: the task that submit is called with is the task that is
    queued, and the task that a worker starts is the task that it runs. */
module PoolCalls {
  import opened PoolMachine

  // ---------- submitters ----------

  /** The task that a thread in submit still carries. */
  function Carried(pc: ClientPc): seq<Task> {
    match pc
    case Calling(task) => [task]
    case Holding(task) => [task]
    case _ => []
  }

  function CallOf(a: Action, c: nat): seq<Task> {
    if a.CallSubmit? && a.c == c then [a.task] else []
  }

  /** The tasks of c's calls of submit, in order. */
  function Calls(acts: seq<Action>, c: nat): seq<Task> {
    if acts == [] then [] else CallOf(acts[0], c) + Calls(acts[1..], c)
  }

  /** How a call ends: its task is queued, or refused with an exception. */
  datatype Answer = Answer(client: nat, task: Task, accepted: bool)

  function AnswerOf(s: Pool, a: Action): seq<Answer>
    requires Enabled(s, a)
  {
    if a.Push? then [Answer(a.c, s.clients[a.c].task, |Apply(s, a).submitted| > |s.submitted|)] else []
  }

  function Answers(s: Pool, acts: seq<Action>): seq<Answer>
    requires Legal(s, acts)
    decreases |acts|
  {
    if acts == [] then [] else AnswerOf(s, acts[0]) + Answers(Apply(s, acts[0]), acts[1..])
  }

  /** The tasks of c's answered calls. */
  function By(answers: seq<Answer>, c: nat): seq<Task> {
    if answers == [] then []
    else (if answers[0].client == c then [answers[0].task] else []) + By(answers[1..], c)
  }

  /** The tasks that were accepted, from whichever submitter. */
  function Accepted(answers: seq<Answer>): seq<Task> {
    if answers == [] then []
    else (if answers[0].accepted then [answers[0].task] else []) + Accepted(answers[1..])
  }

  lemma {:induction false} AnswersAppend(a: seq<Answer>, b: seq<Answer>, c: nat)
    ensures By(a + b, c) == By(a, c) + By(b, c) && Accepted(a + b) == Accepted(a) + Accepted(b)
  {
    if a == [] {
      assert a + b == b;
    } else {
      var mine := if a[0].client == c then [a[0].task] else [];
      var ok := if a[0].accepted then [a[0].task] else [];
      assert (a + b)[1..] == a[1..] + b;
      AnswersAppend(a[1..], b, c);
      assert By(a + b, c) == mine + (By(a[1..], c) + By(b, c));
      assert Accepted(a + b) == ok + (Accepted(a[1..]) + Accepted(b));
    }
  }

  lemma FewAnswers(x: Answer, c: nat)
    ensures By([], c) == [] && Accepted([]) == []
    ensures By([x], c) == (if x.client == c then [x.task] else [])
    ensures Accepted([x]) == if x.accepted then [x.task] else []
  {
    assert [x][1..] == [];
  }

  /** One step of anybody: c's task stays what it is until c itself pushes it, which fails exactly when
      the pool has been stopped. */
  lemma StepCarries(s: Pool, a: Action, c: nat)
    requires Enabled(s, a) && c < |s.clients|
    ensures c < |Apply(s, a).clients|
    ensures Carried(s.clients[c]) + CallOf(a, c) == By(AnswerOf(s, a), c) + Carried(Apply(s, a).clients[c])
    ensures Apply(s, a).submitted == s.submitted + Accepted(AnswerOf(s, a))
    ensures forall x :: x in AnswerOf(s, a) ==> x.accepted == !s.stop
    ensures s.stop ==> Apply(s, a).stop
  {
    hide By, Accepted, AnyAsleep;
    FewAnswers(Answer(0, 0, true), c);
    if a.Push? {
      FewAnswers(Answer(a.c, s.clients[a.c].task, !s.stop), c);
      assert AnswerOf(s, a) == [Answer(a.c, s.clients[a.c].task, !s.stop)];
    }
  }

  /** Over every run: the tasks a submitter called with are, in order, those of its answered calls and
      the one it still carries; the tasks that the pool records as submitted are the accepted ones; and
      nothing is refused unless the pool has been stopped. */
  lemma {:induction false} CallersTasksAreSubmitted(s: Pool, acts: seq<Action>, c: nat)
    requires Legal(s, acts) && c < |s.clients|
    ensures c < |Run(s, acts).clients|
    ensures Carried(s.clients[c]) + Calls(acts, c) == By(Answers(s, acts), c) + Carried(Run(s, acts).clients[c])
    ensures Run(s, acts).submitted == s.submitted + Accepted(Answers(s, acts))
    ensures !Run(s, acts).stop ==> !s.stop && forall x :: x in Answers(s, acts) ==> x.accepted
    ensures s.stop ==> forall x :: x in Answers(s, acts) ==> !x.accepted
    decreases |acts|
  {
    hide Enabled, Apply, Carried, CallOf, AnswerOf;
    if acts != [] {
      var a := acts[0];
      var t, now, later := Apply(s, a), AnswerOf(s, a), Answers(Apply(s, a), acts[1..]);
      StepCarries(s, a, c);
      CallersTasksAreSubmitted(t, acts[1..], c);
      AnswersAppend(now, later, c);
      Regroup(Carried(s.clients[c]), CallOf(a, c), Calls(acts[1..], c), By(now, c), Carried(t.clients[c]),
              By(later, c), Carried(Run(s, acts).clients[c]));
    }
  }

  lemma Regroup(hand: seq<Task>, call: seq<Task>, calls: seq<Task>, done: seq<Task>, next: seq<Task>,
                later: seq<Task>, last: seq<Task>)
    requires hand + call == done + next && next + calls == later + last
    ensures hand + (call + calls) == done + later + last
  {
    assert hand + (call + calls) == (hand + call) + calls;
    assert (done + next) + calls == done + (next + calls);
  }

  /** As long as the pool is not stopped, then, every call that has ended has its task submitted. */
  lemma {:induction false} EndedCallsAreSubmitted(answers: seq<Answer>, c: nat, task: Task)
    requires task in By(answers, c) && forall x :: x in answers ==> x.accepted
    ensures task in Accepted(answers)
  {
    if !(answers[0].client == c && answers[0].task == task) {
      EndedCallsAreSubmitted(answers[1..], c, task);
    }
  }

  /** From the start: what c's calls were given is what they ended with, and the task c still carries;
      without stop, all of it but that last one has been submitted. */
  lemma SubmittersTasks(workers: nat, clients: nat, acts: seq<Action>, c: nat)
    requires Legal(Initial(workers, clients), acts) && c < clients
    ensures var start := Initial(workers, clients);
            var t := Run(start, acts);
            && |t.workers| == workers && |t.clients| == clients
            && Calls(acts, c) == By(Answers(start, acts), c) + Carried(t.clients[c])
            && t.submitted == Accepted(Answers(start, acts))
            && (!t.stop ==> forall task :: task in By(Answers(start, acts), c) ==> task in t.submitted)
  {
    hide Calls, By, Accepted, Answers, Run, Legal;
    var start := Initial(workers, clients);
    var t := Run(start, acts);
    CallersTasksAreSubmitted(start, acts, c);
    RunKeepsThreads(start, acts);
    assert Carried(start.clients[c]) + Calls(acts, c) == Calls(acts, c);
    assert start.submitted + Accepted(Answers(start, acts)) == Accepted(Answers(start, acts));
    if !t.stop {
      forall task | task in By(Answers(start, acts), c) ensures task in t.submitted {
        EndedCallsAreSubmitted(Answers(start, acts), c, task);
      }
    }
  }

  lemma {:induction false} RunKeepsThreads(s: Pool, acts: seq<Action>)
    requires Legal(s, acts)
    ensures |Run(s, acts).workers| == |s.workers| && |Run(s, acts).clients| == |s.clients|
    decreases |acts|
  {
    if acts != [] {
      RunKeepsThreads(Apply(s, acts[0]), acts[1..]);
    }
  }

  // ---------- workers ----------

  /** The task that a worker is busy with. */
  function Busy(pc: WorkerPc): seq<Task> {
    match pc
    case Running(task) => [task]
    case _ => []
  }

  /** What a worker has run to its end at this step. */
  function RanOf(s: Pool, a: Action, w: nat): seq<Task>
    requires Enabled(s, a)
  {
    if a.Finish? && a.w == w then Busy(s.workers[w]) else []
  }

  /** The tasks that w runs to their end in the run, in order. */
  function Ran(s: Pool, acts: seq<Action>, w: nat): seq<Task>
    requires Legal(s, acts)
    decreases |acts|
  {
    if acts == [] then [] else RanOf(s, acts[0], w) + Ran(Apply(s, acts[0]), acts[1..], w)
  }

  /** The tasks that w has started, in order. */
  function StartedBy(started: seq<Start>, w: nat): seq<Task> {
    if started == [] then []
    else
      StartedBy(started[..|started| - 1], w)
      + (if started[|started| - 1].worker == w then [started[|started| - 1].task] else [])
  }

  lemma OneStart(started: seq<Start>, x: Start, w: nat)
    ensures StartedBy(started + [x], w) == StartedBy(started, w) + if x.worker == w then [x.task] else []
  {
    assert (started + [x])[..|started|] == started;
  }

  lemma StepRuns(s: Pool, a: Action, w: nat)
    requires Enabled(s, a) && w < |s.workers|
    ensures w < |Apply(s, a).workers|
    ensures var t := Apply(s, a);
            exists more :: StartedBy(t.started, w) == StartedBy(s.started, w) + more
                          && Busy(s.workers[w]) + more == RanOf(s, a, w) + Busy(t.workers[w])
  {
    hide AnyAsleep, StartedBy;
    var t := Apply(s, a);
    var more: seq<Task> := [];
    if a.Take? && t.started != s.started {
      OneStart(s.started, Start(a.w, s.tasks[0]), w);
      more := if a.w == w then [s.tasks[0]] else [];
    }
    assert StartedBy(t.started, w) == StartedBy(s.started, w) + more;
  }

  /** Over every run: the tasks that a worker starts are, in order, those that it runs to their end and
      the one it is still busy with. */
  lemma {:induction false} WorkersRunWhatTheyStart(s: Pool, acts: seq<Action>, w: nat)
    requires Legal(s, acts) && w < |s.workers|
    ensures w < |Run(s, acts).workers|
    ensures exists more :: StartedBy(Run(s, acts).started, w) == StartedBy(s.started, w) + more
                          && Busy(s.workers[w]) + more == Ran(s, acts, w) + Busy(Run(s, acts).workers[w])
    decreases |acts|
  {
    hide Enabled, Apply, Busy, RanOf, StartedBy;
    if acts == [] {
      assert StartedBy(s.started, w) == StartedBy(s.started, w) + [];
    } else {
      var t := Apply(s, acts[0]);
      StepRuns(s, acts[0], w);
      WorkersRunWhatTheyStart(t, acts[1..], w);
      var now :| StartedBy(t.started, w) == StartedBy(s.started, w) + now
                 && Busy(s.workers[w]) + now == RanOf(s, acts[0], w) + Busy(t.workers[w]);
      var later :| StartedBy(Run(s, acts).started, w) == StartedBy(t.started, w) + later
                   && Busy(t.workers[w]) + later == Ran(t, acts[1..], w) + Busy(Run(s, acts).workers[w]);
      Regroup(Busy(s.workers[w]), now, later, RanOf(s, acts[0], w), Busy(t.workers[w]),
              Ran(t, acts[1..], w), Busy(Run(s, acts).workers[w]));
      assert StartedBy(Run(s, acts).started, w) == StartedBy(s.started, w) + (now + later);
    }
  }

  lemma StartedAreRun(workers: nat, clients: nat, acts: seq<Action>, w: nat)
    requires Legal(Initial(workers, clients), acts) && w < workers
    ensures var start := Initial(workers, clients);
            var t := Run(start, acts);
            w < |t.workers| && StartedBy(t.started, w) == Ran(start, acts, w) + Busy(t.workers[w])
  {
    hide Ran, Run, Legal;
    var start := Initial(workers, clients);
    WorkersRunWhatTheyStart(start, acts, w);
    assert StartedBy(start.started, w) == [] && Busy(start.workers[w]) == [];
  }
}
