/** What the bounded queue's machine promises about all its runs. */
module RingTheorems {
  import opened Counting
  import opened RingMachine

  /** A state that some schedule of so many readers and writers on such a queue can reach. */
  ghost predicate Reachable(s: Ring) {
    exists capacity: nat, readers: nat, writers: nat, acts: seq<Action> ::
      Legal(Initial(capacity, readers, writers), acts) && Run(Initial(capacity, readers, writers), acts) == s
  }

  lemma ReachableInv(s: Ring)
    requires Reachable(s)
    ensures Inv(s)
  {
    var capacity: nat, readers: nat, writers: nat, acts: seq<Action> :|
      Legal(Initial(capacity, readers, writers), acts) && Run(Initial(capacity, readers, writers), acts) == s;
    InitialInv(capacity, readers, writers);
    RunKeepsInv(Initial(capacity, readers, writers), acts);
  }

  lemma LegalStep(s: Ring, a: Action, rest: seq<Action>)
    requires Enabled(s, a) && Legal(Apply(s, a), rest)
    ensures Legal(s, [a] + rest) && Run(s, [a] + rest) == Run(Apply(s, a), rest)
  {
    assert ([a] + rest)[1..] == rest;
  }

  lemma EmptyRun(s: Ring) returns (acts: seq<Action>)
    ensures acts == [] && Legal(s, acts) && Run(s, acts) == s
  {
    acts := [];
  }

  lemma PrependStep(s: Ring, a: Action, t: Ring, rest: seq<Action>) returns (acts: seq<Action>)
    requires Enabled(s, a) && Apply(s, a) == t && Legal(t, rest)
    ensures acts == [a] + rest && Legal(s, acts) && Run(s, acts) == Run(t, rest)
  {
    acts := [a] + rest;
    LegalStep(s, a, rest);
  }

  ghost predicate NoReaderOnTheWay(s: Ring) {
    forall r :: 0 <= r < |s.readers| ==> !RTrying(s.readers[r])
  }

  ghost predicate NoWriterOnTheWay(s: Ring) {
    forall w :: 0 <= w < |s.writers| ==> !WTrying(s.writers[w])
  }

  ghost predicate SomeWriterOwes(s: Ring) {
    exists w :: 0 <= w < |s.writers| && WOwes(s.writers[w])
  }

  ghost predicate SomeReaderOwes(s: Ring) {
    exists r :: 0 <= r < |s.readers| && ROwes(s.readers[r])
  }

  /** No wake-up is lost between any number of readers and writers: with a reader asleep, items queued
      and no reader on the way, some writer still owes its notification; with a writer asleep, room
      left and no writer on the way, some reader does. */
  lemma NoWakeupIsLost(s: Ring)
    requires Reachable(s)
    ensures ReaderAsleep(s) && s.buf != [] && NoReaderOnTheWay(s) ==> SomeWriterOwes(s)
    ensures WriterAsleep(s) && |s.buf| < s.capacity && NoWriterOnTheWay(s) ==> SomeReaderOwes(s)
  {
    ReachableInv(s);
    if ReaderAsleep(s) && s.buf != [] && NoReaderOnTheWay(s) {
      CountNone(s.readers, RTrying);
      CountSome(s.writers, WOwes);
    }
    if WriterAsleep(s) && |s.buf| < s.capacity && NoWriterOnTheWay(s) {
      CountNone(s.writers, WTrying);
      CountSome(s.readers, ROwes);
    }
  }

  /** With one reader and one writer, the sleeper's peer is the one that owes. */
  lemma OneReaderOneWriter(s: Ring)
    requires Reachable(s) && |s.readers| == 1 && |s.writers| == 1
    ensures s.readers[0] == RAsleep && s.buf != [] ==> s.writers[0] == WOwing
    ensures s.writers[0].WAsleep? && |s.buf| < s.capacity ==> s.readers[0].ROwing?
  {
    NoWakeupIsLost(s);
  }

  /** A queue with room for one item never puts all its readers and all its writers to sleep. */
  lemma NeverAllAsleep(s: Ring)
    requires Reachable(s) && s.capacity >= 1 && |s.readers| >= 1 && |s.writers| >= 1
    ensures !((forall r :: 0 <= r < |s.readers| ==> s.readers[r] == RAsleep)
              && (forall w :: 0 <= w < |s.writers| ==> s.writers[w].WAsleep?))
  {
    NoWakeupIsLost(s);
    assert s.readers[0] == RAsleep ==> ReaderAsleep(s);
    assert s.writers[0].WAsleep? ==> WriterAsleep(s);
  }

  /** What the thread that holds the lock does next. */
  function HoldersStep(s: Ring): Action
    requires match s.owner
             case ByReader(r) => r < |s.readers|
             case ByWriter(w) => w < |s.writers|
             case Free => false
  {
    match s.owner
    case ByReader(r) => (
      match s.readers[r]
      case RTesting => ReaderTest(r)
      case RDozing => ReaderSleep(r)
      case _ => TakeItem(r)
    )
    case ByWriter(w) =>
      match s.writers[w]
      case WTesting(_) => WriterTest(w)
      case WDozing(_) => WriterSleep(w)
      case WPutting(_) => PutItem(w)
      case _ => ClearAll(w)
  }

  /** The holder is about to evaluate its wait's predicate, and keeps the lock over that step. */
  predicate HolderTests(s: Ring) {
    match s.owner
    case ByReader(r) => r < |s.readers| && s.readers[r] == RTesting
    case ByWriter(w) => w < |s.writers| && s.writers[w].WTesting?
    case Free => false
  }

  lemma HolderCanStep(s: Ring)
    requires Inv(s) && s.owner != Free
    ensures (s.owner.ByReader? ==> s.owner.r < |s.readers|) && (s.owner.ByWriter? ==> s.owner.w < |s.writers|)
    ensures Enabled(s, HoldersStep(s))
    ensures if HolderTests(s) then Apply(s, HoldersStep(s)).owner != Free && !HolderTests(Apply(s, HoldersStep(s)))
            else Apply(s, HoldersStep(s)).owner == Free
  {
    hide Fifo, ReadersWoken, WritersWoken;
  }

  /** The lock is always given up by its holder's own next one or two steps; no step of a holder
      waits for anything. */
  lemma LockIsGivenUp(s: Ring) returns (acts: seq<Action>)
    requires Reachable(s) && s.owner != Free
    ensures 1 <= |acts| <= 2 && Legal(s, acts) && Run(s, acts).owner == Free
  {
    hide Inv, Apply, Enabled, HoldersStep, HolderTests, Legal, Run;
    ReachableInv(s);
    HolderCanStep(s);
    var a := HoldersStep(s);
    StepKeepsInv(s, a);
    var t := Apply(s, a);
    var rest := EmptyRun(t);
    if HolderTests(s) {
      HolderCanStep(t);
      var u := Apply(t, HoldersStep(t));
      rest := EmptyRun(u);
      LegalStep(t, HoldersStep(t), rest);
      rest := [HoldersStep(t)] + rest;
    }
    LegalStep(s, a, rest);
    acts := [a] + rest;
  }

  // ---------- history ----------

  /** The queue is never over its capacity, size_ is its length, and the items taken or cleared,
      followed by those queued, are the items written, in order: each written item is exactly once
      taken, cleared or still there. */
  lemma EveryItemOnce(s: Ring)
    requires Reachable(s)
    ensures s.size == |s.buf| <= s.capacity && |s.gone| + |s.buf| == |s.written|
    ensures forall k :: 0 <= k < |s.gone| ==> s.gone[k].item == s.written[k]
    ensures forall k :: 0 <= k < |s.buf| ==> s.buf[k] == s.written[|s.gone| + k]
  {
    ReachableInv(s);
    assert forall k :: 0 <= k < |s.gone| ==> Items(s.gone)[k] == s.gone[k].item;
  }

  /** write never returns false: whenever it gets to its body there is room, and the item goes in. */
  lemma WriteNeverFails(s: Ring, w: nat)
    requires Reachable(s) && Enabled(s, PutItem(w))
    ensures var t := Apply(s, PutItem(w));
            t.writers[w] == WOwing && t.buf == s.buf + [s.writers[w].item] && |t.buf| <= s.capacity
  {
    ReachableInv(s);
  }

  /** A read past its wait is never held up. It fails exactly when the queue has been stopped and every
      item ever written has been taken or cleared; otherwise it takes the oldest item that has not. */
  lemma ReadFailsOnlyWhenDrained(s: Ring, r: nat)
    requires Reachable(s) && ReaderAt(s, r, RTaking)
    ensures Enabled(s, TakeItem(r))
    ensures var t := Apply(s, TakeItem(r));
            && (t.readers[r] == RAway <==> s.stopped && |s.gone| == |s.written|)
            && (t.readers[r] == RAway ==> t.gone == s.gone && Items(t.gone) == t.written)
            && (t.readers[r] != RAway ==>
                && |s.gone| < |s.written| && t.gone == s.gone + [Taken(s.written[|s.gone|])]
                && t.readers[r] == ROwing(s.written[|s.gone|]))
  {
    hide Exclusive, ReadersWoken, WritersWoken;
    ReachableInv(s);
    assert s.buf == [] ==> Items(s.gone) + s.buf == Items(s.gone);
  }

  predicate Drains(acts: seq<Action>) {
    forall a :: a in acts ==> !a.PutItem? && !a.ClearAll?
  }

  function AllTaken(buf: seq<Item>): seq<Fate> {
    seq(|buf|, k requires 0 <= k < |buf| => Taken(buf[k]))
  }

  /** After stop, as long as nothing is put in or cleared, any run takes a beginning of what was
      queued, in order, and leaves the rest. */
  lemma {:induction false} RemainingItemsDrain(s: Ring, acts: seq<Action>)
    requires Inv(s) && s.stopped && Legal(s, acts) && Drains(acts)
    ensures var t := Run(s, acts);
            && t.stopped && |t.buf| <= |s.buf| && t.written == s.written
            && t.buf == s.buf[|s.buf| - |t.buf|..]
            && t.gone == s.gone + AllTaken(s.buf[..|s.buf| - |t.buf|])
    decreases |acts|
  {
    hide Inv, Enabled, Apply;
    if acts == [] {
      assert s.gone + AllTaken(s.buf[..0]) == s.gone;
    } else {
      var u := Apply(s, acts[0]);
      assert acts[0] in acts;
      StepKeepsInv(s, acts[0]);
      DrainStep(s, acts[0]);
      assert Drains(acts[1..]);
      RemainingItemsDrain(u, acts[1..]);
      var t := Run(u, acts[1..]);
      if u.buf != s.buf {
        assert AllTaken(s.buf[..|s.buf| - |t.buf|]) == [Taken(s.buf[0])] + AllTaken(u.buf[..|u.buf| - |t.buf|]);
      }
    }
  }

  lemma DrainStep(s: Ring, a: Action)
    requires Inv(s) && s.stopped && Enabled(s, a) && !a.PutItem? && !a.ClearAll?
    ensures var t := Apply(s, a);
            && t.stopped && t.written == s.written
            && ((t.buf == s.buf && t.gone == s.gone)
                || (s.buf != [] && t.buf == s.buf[1..] && t.gone == s.gone + [Taken(s.buf[0])]))
  {
    hide Exclusive, Fifo, ReadersWoken, WritersWoken;
  }

  /** This step is the end of a read that answers false. */
  predicate ReadFails(s: Ring, a: Action)
    requires Enabled(s, a)
  {
    a.TakeItem? && Apply(s, a).readers[a.r] == RAway
  }

  predicate SomeReadFails(s: Ring, acts: seq<Action>)
    requires Legal(s, acts)
    decreases |acts|
  {
    acts != [] && (ReadFails(s, acts[0]) || SomeReadFails(Apply(s, acts[0]), acts[1..]))
  }

  lemma FailureMeansEmpty(s: Ring, a: Action)
    requires Inv(s) && Enabled(s, a) && ReadFails(s, a)
    ensures s.buf == []
  {
    hide Exclusive, Fifo, ReadersWoken, WritersWoken;
  }

  /** After stop, once any read has failed, all that was queued has been taken, in order, and nothing
      is left for a later read. */
  lemma {:induction false} FailedReadMeansDrained(s: Ring, acts: seq<Action>)
    requires Inv(s) && s.stopped && Legal(s, acts) && Drains(acts) && SomeReadFails(s, acts)
    ensures Run(s, acts).buf == [] && Run(s, acts).gone == s.gone + AllTaken(s.buf)
    decreases |acts|
  {
    hide Inv, Enabled, Apply, ReadFails;
    RemainingItemsDrain(s, acts);
    if ReadFails(s, acts[0]) {
      FailureMeansEmpty(s, acts[0]);
    } else {
      assert acts[0] in acts && Drains(acts[1..]);
      StepKeepsInv(s, acts[0]);
      DrainStep(s, acts[0]);
      FailedReadMeansDrained(Apply(s, acts[0]), acts[1..]);
    }
    assert s.buf[..|s.buf|] == s.buf;
  }

  lemma FailsLater(s: Ring, a: Action, rest: seq<Action>) returns (acts: seq<Action>)
    requires Enabled(s, a) && Legal(Apply(s, a), rest) && (ReadFails(s, a) || SomeReadFails(Apply(s, a), rest))
    ensures acts == [a] + rest && Legal(s, acts) && Run(s, acts) == Run(Apply(s, a), rest) && SomeReadFails(s, acts)
  {
    acts := PrependStep(s, a, Apply(s, a), rest);
    assert acts[1..] == rest;
  }

  /** Steps until the reader's read is over, after stop. */
  function ReadSteps(pc: ReaderPc): nat {
    match pc
    case RTaking => 1
    case RTesting => 2
    case RWanting => 3
    case RAway => 4
    case RAsleep => 5
    case ROwing(_) => 5
    case RDozing => 6
  }

  /** The reader's own next step; w is a sleeping writer that its notification wakes, if there is any. */
  function ReadersStep(s: Ring, r: nat, w: nat): Action
    requires r < |s.readers|
  {
    match s.readers[r]
    case RAway => CallRead(r)
    case RWanting => ReaderLock(r)
    case RTesting => ReaderTest(r)
    case RDozing => ReaderSleep(r)
    case RAsleep => ReaderWakeSpuriously(r)
    case RTaking => TakeItem(r)
    case ROwing(_) => NotifyWriter(r, w)
  }

  lemma ReaderGoesOn(s: Ring, r: nat, w: nat)
    requires Inv(s) && s.stopped && r < |s.readers| && s.owner in {Free, ByReader(r)} && PicksWriter(s, w)
    ensures var a := ReadersStep(s, r, w);
            && Enabled(s, a) && !a.PutItem? && !a.ClearAll?
            && Apply(s, a).owner in {Free, ByReader(r)} && |Apply(s, a).readers| == |s.readers|
            && (ReadFails(s, a)
                || |Apply(s, a).buf| < |s.buf|
                || (Apply(s, a).buf == s.buf && ReadSteps(Apply(s, a).readers[r]) < ReadSteps(s.readers[r])))
  {
    hide Fifo, ReadersWoken, WritersWoken;
  }

  /** One reader alone, when the lock is free for it, takes everything that is queued and then fails;
      it needs no spurious wake-up unless it sleeps already or is about to. */
  lemma {:induction false} DrainBy(s: Ring, r: nat) returns (acts: seq<Action>)
    requires Inv(s) && s.stopped && r < |s.readers| && s.owner in {Free, ByReader(r)}
    ensures Legal(s, acts) && Drains(acts) && SomeReadFails(s, acts)
    ensures s.readers[r] !in {RAsleep, RDozing} ==> forall a :: a in acts ==> !a.ReaderWakeSpuriously?
    decreases |s.buf|, ReadSteps(s.readers[r])
  {
    hide Inv, Enabled, Apply, ReadFails, PicksWriter;
    var w := PickWriter(s);
    var a := ReadersStep(s, r, w);
    ReaderGoesOn(s, r, w);
    var t, rest := Apply(s, a), [];
    if ReadFails(s, a) {
      rest := EmptyRun(t);
    } else {
      StepKeepsInv(s, a);
      DrainStep(s, a);
      NoNewSleep(s, r, w);
      rest := DrainBy(t, r);
    }
    acts := FailsLater(s, a, rest);
  }

  lemma NoNewSleep(s: Ring, r: nat, w: nat)
    requires s.stopped && r < |s.readers| && Enabled(s, ReadersStep(s, r, w))
    ensures s.readers[r] !in {RAsleep, RDozing} ==>
              Apply(s, ReadersStep(s, r, w)).readers[r] !in {RAsleep, RDozing}
  {
  }

  /** The holder of the lock writes at most one more item on its way out. */
  lemma HolderWrites(s: Ring)
    requires Inv(s) && s.stopped && s.owner != Free && Enabled(s, HoldersStep(s))
    ensures var t := Apply(s, HoldersStep(s));
            && t.stopped && |t.readers| == |s.readers|
            && |t.written| + One(t.owner.ByWriter?) <= |s.written| + One(s.owner.ByWriter?)
            && (s.owner.ByReader? ==> !HoldersStep(s).PutItem? && !HoldersStep(s).ClearAll? && !t.owner.ByWriter?)
  {
    hide Fifo, ReadersWoken, WritersWoken;
  }

  /** So from every state with stop set, any reader can bring the queue to its end: everything that is
      queued, and the item of a writer that holds the lock at the time, is taken or cleared, and a read
      fails. If no writer holds the lock all that is queued is taken, in order. */
  lemma {:induction false} DrainCompletes(s: Ring, r: nat) returns (acts: seq<Action>)
    requires Inv(s) && s.stopped && r < |s.readers|
    ensures Legal(s, acts) && SomeReadFails(s, acts)
    ensures var t := Run(s, acts);
            && t.buf == [] && Items(t.gone) == t.written
            && |t.written| <= |s.written| + One(s.owner.ByWriter?)
            && (!s.owner.ByWriter? ==> Drains(acts) && t.gone == s.gone + AllTaken(s.buf))
    decreases s.owner != Free, HolderTests(s)
  {
    hide Inv, Enabled, Apply, ReadFails, SomeReadFails, HolderTests, HoldersStep;
    if s.owner in {Free, ByReader(r)} {
      acts := DrainBy(s, r);
    } else {
      HolderCanStep(s);
      HolderWrites(s);
      var a := HoldersStep(s);
      StepKeepsInv(s, a);
      var rest := DrainCompletes(Apply(s, a), r);
      acts := FailsLater(s, a, rest);
    }
    RunKeepsInv(s, acts);
    EmptyMeansGone(Run(s, acts));
    if Drains(acts) {
      FailedReadMeansDrained(s, acts);
      RemainingItemsDrain(s, acts);
    }
  }

  lemma EmptyMeansGone(s: Ring)
    requires Inv(s)
    ensures s.buf == [] ==> Items(s.gone) == s.written
  {
  }

  // ---------- what stop does not do for writers ----------

  predicate InWrite(pc: WriterPc) {
    pc.WWanting? || pc.WTesting? || pc.WDozing? || pc.WAsleep?
  }

  lemma FullStep(s: Ring, a: Action, w: nat)
    requires Inv(s) && s.size == s.capacity && w < |s.writers| && InWrite(s.writers[w])
    requires Enabled(s, a) && !a.TakeItem?
    ensures var t := Apply(s, a);
            t.buf == s.buf && t.size == t.capacity && |t.writers| == |s.writers| && InWrite(t.writers[w])
  {
    hide Exclusive, Fifo, ReadersWoken, WritersWoken;
  }

  /** write waits for room alone: on a full queue no step of anybody, and no stop, brings a writer out
      of write as long as nothing is taken. */
  lemma {:induction false} BlockedWritersStay(s: Ring, acts: seq<Action>, w: nat)
    requires Inv(s) && s.size == s.capacity && w < |s.writers| && InWrite(s.writers[w])
    requires Legal(s, acts) && forall a :: a in acts ==> !a.TakeItem?
    ensures var t := Run(s, acts);
            t.buf == s.buf && w < |t.writers| && InWrite(t.writers[w])
    decreases |acts|
  {
    hide Inv, Enabled, Apply, InWrite;
    if acts != [] {
      assert acts[0] in acts;
      FullStep(s, acts[0], w);
      StepKeepsInv(s, acts[0]);
      BlockedWritersStay(Apply(s, acts[0]), acts[1..], w);
    }
  }

  // ---------- what stop does not promise ----------

  predicate Sleeps(pc: ReaderPc) {
    pc == RAsleep
  }

  predicate SomeReaderDozes(s: Ring) {
    exists r :: 0 <= r < |s.readers| && s.readers[r] == RDozing
  }

  /** stop sets its flag without the mutex and notifies one reader: its wake-up misses a reader that
      is between its test and its sleep, and all sleepers but one. */
  predicate StopMayMiss(s: Ring) {
    SomeReaderDozes(s) || Count(s.readers, Sleeps) >= 2
  }

  /** stop has run to its end and a reader sleeps on. */
  ghost predicate LeftAsleep(s: Ring) {
    s.stopper == StopDone && ReaderAsleep(s)
  }

  /** Exactly when stop sets its flag in such a state can the run go on so that stop returns and a
      reader sleeps on. */
  lemma StopIsMissedExactlyThen(s: Ring)
    requires s.stopper == NotStopped
    ensures (exists acts :: Legal(Apply(s, SetStopped), acts) && LeftAsleep(Run(Apply(s, SetStopped), acts)))
            <==> StopMayMiss(s)
  {
    hide Apply, Legal, Run, LeftAsleep, Count;
    var t := Apply(s, SetStopped);
    if StopMayMiss(s) {
      var acts := MissedRun(s);
    } else {
      SafeAtFlag(s);
      forall acts | Legal(t, acts) ensures !LeftAsleep(Run(t, acts)) {
        SafeRun(t, acts);
        SafeMeansAwake(Run(t, acts));
      }
    }
  }

  /** The flag is set, nobody is about to sleep, and stop's notification is enough for the sleepers. */
  ghost predicate SafelyStopped(s: Ring) {
    && s.stopped && !SomeReaderDozes(s) && s.stopper != NotStopped
    && Count(s.readers, Sleeps) <= if s.stopper == FlagSet then 1 else 0
  }

  lemma SafeAtFlag(s: Ring)
    requires s.stopper == NotStopped && !StopMayMiss(s)
    ensures SafelyStopped(Apply(s, SetStopped))
  {
  }

  lemma SafeMeansAwake(s: Ring)
    requires SafelyStopped(s)
    ensures !LeftAsleep(s)
  {
    if s.stopper == StopDone && ReaderAsleep(s) {
      var r :| 0 <= r < |s.readers| && s.readers[r] == RAsleep;
      CountMove(s.readers, r, RAway, Sleeps);
    }
  }

  lemma SafeStep(s: Ring, a: Action)
    requires SafelyStopped(s) && Enabled(s, a)
    ensures SafelyStopped(Apply(s, a))
  {
    hide Count;
    var t := Apply(s, a);
    if ReaderOnly(a) || a.NotifyWriter? {
      CountMove(s.readers, a.r, t.readers[a.r], Sleeps);
    } else if (a.NotifyReader? || a.StopNotifiesReader?) && ReaderAsleep(s) {
      CountMove(s.readers, a.r, t.readers[a.r], Sleeps);
    } else if a.StopNotifiesReader? {
      CountNone(s.readers, Sleeps);
    }
  }

  lemma {:induction false} SafeRun(s: Ring, acts: seq<Action>)
    requires SafelyStopped(s) && Legal(s, acts)
    ensures SafelyStopped(Run(s, acts))
    decreases |acts|
  {
    hide SafelyStopped, Apply, Enabled;
    if acts != [] {
      SafeStep(s, acts[0]);
      SafeRun(Apply(s, acts[0]), acts[1..]);
    }
  }

  /** The other direction: stop runs through while one reader stays dozing, or a second one asleep. */
  lemma MissedRun(s: Ring) returns (acts: seq<Action>)
    requires s.stopper == NotStopped && StopMayMiss(s)
    ensures Legal(Apply(s, SetStopped), acts) && LeftAsleep(Run(Apply(s, SetStopped), acts))
  {
    hide Legal, Run, Count, LeftAsleep;
    var t := Apply(s, SetStopped);
    var r := PickReader(t);
    var u := Apply(t, StopNotifiesReader(r));
    var w := PickWriter(u);
    var v := Apply(u, StopNotifiesWriter(w));
    StillMissing(s, t, r, u);
    acts := SleepsOn(s, u, v);
    acts := PrependStep(u, StopNotifiesWriter(w), v, acts);
    acts := PrependStep(t, StopNotifiesReader(r), u, acts);
  }

  /** Once stop is through, a reader that dozed goes to sleep, unless one sleeps already. */
  lemma SleepsOn(s: Ring, u: Ring, v: Ring) returns (acts: seq<Action>)
    requires |u.readers| == |s.readers| && v.readers == u.readers && v.stopper == StopDone
    requires forall d :: 0 <= d < |s.readers| && s.readers[d] == RDozing ==> u.readers[d] == RDozing
    requires !SomeReaderDozes(s) ==> ReaderAsleep(u)
    ensures Legal(v, acts) && LeftAsleep(Run(v, acts))
  {
    hide Legal, Run;
    acts := EmptyRun(v);
    if SomeReaderDozes(s) {
      var d :| 0 <= d < |s.readers| && s.readers[d] == RDozing;
      var x := Apply(v, ReaderSleep(d));
      assert x.readers[d] == RAsleep;
      acts := EmptyRun(x);
      acts := PrependStep(v, ReaderSleep(d), x, acts);
    }
  }

  lemma PickReader(s: Ring) returns (r: nat)
    ensures PicksReader(s, r)
  {
    r := 0;
    if ReaderAsleep(s) {
      r :| r < |s.readers| && s.readers[r] == RAsleep;
    }
  }

  lemma PickWriter(s: Ring) returns (w: nat)
    ensures PicksWriter(s, w)
  {
    w := 0;
    if WriterAsleep(s) {
      w :| w < |s.writers| && s.writers[w].WAsleep?;
    }
  }

  /** After stop's notification of reader r, the dozing reader still dozes, or one still sleeps. */
  lemma StillMissing(s: Ring, t: Ring, r: nat, u: Ring)
    requires s.stopper == NotStopped && StopMayMiss(s) && t == Apply(s, SetStopped)
    requires PicksReader(t, r) && u == Apply(t, StopNotifiesReader(r))
    ensures |u.readers| == |s.readers|
    ensures forall d :: 0 <= d < |s.readers| && s.readers[d] == RDozing ==> u.readers[d] == RDozing
    ensures !SomeReaderDozes(s) ==> ReaderAsleep(u)
  {
    if !SomeReaderDozes(s) {
      CountSome(s.readers, Sleeps);
      assert ReaderAsleep(t);
      CountMove(t.readers, r, u.readers[r], Sleeps);
      CountSome(u.readers, Sleeps);
    }
  }

  /** Such a run exists from the start, with one reader on an empty queue of any capacity. */
  lemma StopCanBeMissed(capacity: nat) returns (acts: seq<Action>)
    ensures Legal(Initial(capacity, 1, 1), acts) && LeftAsleep(Run(Initial(capacity, 1, 1), acts))
  {
    hide Legal, Run, LeftAsleep;
    var s0 := Initial(capacity, 1, 1);
    var s1 := Apply(s0, CallRead(0));
    var s2 := Apply(s1, ReaderLock(0));
    var s3 := Apply(s2, ReaderTest(0));
    assert s3.readers[0] == RDozing;
    acts := MissedRun(s3);
    acts := PrependStep(s3, SetStopped, Apply(s3, SetStopped), acts);
    acts := PrependStep(s2, ReaderTest(0), s3, acts);
    acts := PrependStep(s1, ReaderLock(0), s2, acts);
    acts := PrependStep(s0, CallRead(0), s1, acts);
  }
}
