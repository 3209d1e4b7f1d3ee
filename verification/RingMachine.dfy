/** The bounded queue of projects/龙卷风播放器/src/utils/RingBuffer/RingBuffer.h as a machine of
    atomic steps: any number of reading and writing threads, one mutex, two condition variables,
    spurious wake-ups, notifications after the unlock, stop without the mutex, and clear, which only a
    sole producer calls. */
module RingMachine {
  import opened Counting

  type Item = nat

  datatype ReaderPc =
    | RAway
    | RWanting   // at the lock, on the way into read or woken from the wait
    | RTesting   // holds the lock, about to evaluate the wait's predicate
    | RDozing    // found it false: holds the lock, about to release it and sleep
    | RAsleep    // waits on `full`, not notified
    | RTaking    // found it true: holds the lock
    | ROwing(item: Item)  // has taken it and unlocked, has not notified `not_full` yet

  datatype WriterPc =
    | WAway
    | WWanting(item: Item)
    | WTesting(item: Item)
    | WDozing(item: Item)
    | WAsleep(item: Item)   // waits on `not_full`, not notified
    | WPutting(item: Item)
    | WOwing                // has put and unlocked, has not notified `full` yet
    | WantingClear
    | Clearing              // holds the lock in clear

  /** stop sets the flag, then notifies one waiter on each side. */
  datatype StopPc = NotStopped | FlagSet | ReaderNotified | StopDone

  datatype Owner = Free | ByReader(r: nat) | ByWriter(w: nat)

  /** How an item left the queue. */
  datatype Fate = Taken(item: Item) | Cleared(item: Item)

  datatype Ring = Ring(
    buf: seq<Item>, size: nat, capacity: nat, stopped: bool, owner: Owner,
    readers: seq<ReaderPc>, writers: seq<WriterPc>, stopper: StopPc,
    written: seq<Item>, gone: seq<Fate>)

  function Initial(capacity: nat, readers: nat, writers: nat): Ring {
    Ring([], 0, capacity, false, Free, seq(readers, _ => RAway), seq(writers, _ => WAway), NotStopped, [], [])
  }

  datatype Action =
    | CallRead(r: nat)
    | ReaderLock(r: nat)
    | ReaderTest(r: nat)
    | ReaderSleep(r: nat)
    | ReaderWakeSpuriously(r: nat)
    | TakeItem(r: nat)
    | NotifyWriter(r: nat, w: nat)  // w is the sleeper that wakes, if there is any
    | CallWrite(w: nat, item: Item)
    | WriterLock(w: nat)
    | WriterTest(w: nat)
    | WriterSleep(w: nat)
    | WriterWakeSpuriously(w: nat)
    | PutItem(w: nat)
    | NotifyReader(w: nat, r: nat)
    | CallClear(w: nat)
    | ClearAll(w: nat)
    | SetStopped
    | StopNotifiesReader(r: nat)
    | StopNotifiesWriter(w: nat)

  predicate ReaderAsleep(s: Ring) {
    exists r :: 0 <= r < |s.readers| && s.readers[r] == RAsleep
  }

  predicate WriterAsleep(s: Ring) {
    exists w :: 0 <= w < |s.writers| && s.writers[w].WAsleep?
  }

  predicate ReaderAt(s: Ring, r: nat, pc: ReaderPc) {
    r < |s.readers| && s.readers[r] == pc
  }

  /** r is the reader a notify_one wakes, if any reader sleeps. */
  predicate PicksReader(s: Ring, r: nat) {
    ReaderAsleep(s) ==> ReaderAt(s, r, RAsleep)
  }

  predicate PicksWriter(s: Ring, w: nat) {
    WriterAsleep(s) ==> w < |s.writers| && s.writers[w].WAsleep?
  }

  /** Where a step under the lock reads the queue, the condition names what the invariant below
      guarantees, so it never blocks a thread (see RingTheorems.LockIsGivenUp). */
  predicate Enabled(s: Ring, a: Action) {
    match a
    case CallRead(r) => ReaderAt(s, r, RAway)
    case ReaderLock(r) => ReaderAt(s, r, RWanting) && s.owner == Free
    case ReaderTest(r) => ReaderAt(s, r, RTesting)
    case ReaderSleep(r) => ReaderAt(s, r, RDozing)
    case ReaderWakeSpuriously(r) => ReaderAt(s, r, RAsleep)
    case TakeItem(r) => ReaderAt(s, r, RTaking) && s.size == |s.buf| && (s.size > 0 || s.stopped)
    case NotifyWriter(r, w) => r < |s.readers| && s.readers[r].ROwing? && PicksWriter(s, w)
    case CallWrite(w, _) => w < |s.writers| && s.writers[w] == WAway
    case WriterLock(w) => w < |s.writers| && (s.writers[w].WWanting? || s.writers[w] == WantingClear) && s.owner == Free
    case WriterTest(w) => w < |s.writers| && s.writers[w].WTesting?
    case WriterSleep(w) => w < |s.writers| && s.writers[w].WDozing?
    case WriterWakeSpuriously(w) => w < |s.writers| && s.writers[w].WAsleep?
    case PutItem(w) => w < |s.writers| && s.writers[w].WPutting?
    case NotifyReader(w, r) => w < |s.writers| && s.writers[w] == WOwing && PicksReader(s, r)
    case CallClear(w) => w < |s.writers| && s.writers[w] == WAway && |s.writers| == 1
    case ClearAll(w) => w < |s.writers| && s.writers[w] == Clearing && s.size == |s.buf|
    case SetStopped => s.stopper == NotStopped
    case StopNotifiesReader(r) => s.stopper == FlagSet && PicksReader(s, r)
    case StopNotifiesWriter(w) => s.stopper == ReaderNotified && PicksWriter(s, w)
  }

  function MoveReader(s: Ring, r: nat, pc: ReaderPc, owner: Owner): Ring
    requires r < |s.readers|
  {
    s.(readers := s.readers[r := pc], owner := owner)
  }

  function MoveWriter(s: Ring, w: nat, pc: WriterPc, owner: Owner): Ring
    requires w < |s.writers|
  {
    s.(writers := s.writers[w := pc], owner := owner)
  }

  function WakeReader(s: Ring, r: nat): Ring
    requires PicksReader(s, r)
  {
    if ReaderAsleep(s) then MoveReader(s, r, RWanting, s.owner) else s
  }

  function WakeWriter(s: Ring, w: nat): Ring
    requires PicksWriter(s, w)
  {
    if WriterAsleep(s) then MoveWriter(s, w, WWanting(s.writers[w].item), s.owner) else s
  }

  function AllCleared(buf: seq<Item>): seq<Fate> {
    seq(|buf|, k requires 0 <= k < |buf| => Cleared(buf[k]))
  }

  function Apply(s: Ring, a: Action): Ring
    requires Enabled(s, a)
  {
    match a
    case CallRead(r) => MoveReader(s, r, RWanting, s.owner)
    case ReaderLock(r) => MoveReader(s, r, RTesting, ByReader(r))
    case ReaderTest(r) => MoveReader(s, r, if s.size > 0 || s.stopped then RTaking else RDozing, s.owner)
    case ReaderSleep(r) => MoveReader(s, r, RAsleep, Free)
    case ReaderWakeSpuriously(r) => MoveReader(s, r, RWanting, s.owner)
    case TakeItem(r) =>
      if s.size == 0 && s.stopped then MoveReader(s, r, RAway, Free)  // read returns false
      else MoveReader(s, r, ROwing(s.buf[0]), Free)
           .(buf := s.buf[1..], size := s.size - 1, gone := s.gone + [Taken(s.buf[0])])
    case NotifyWriter(r, w) => WakeWriter(MoveReader(s, r, RAway, s.owner), w)
    case CallWrite(w, item) => MoveWriter(s, w, WWanting(item), s.owner)
    case WriterLock(w) =>
      MoveWriter(s, w, if s.writers[w].WWanting? then WTesting(s.writers[w].item) else Clearing, ByWriter(w))
    case WriterTest(w) =>
      var item := s.writers[w].item;
      MoveWriter(s, w, if s.capacity > s.size then WPutting(item) else WDozing(item), s.owner)
    case WriterSleep(w) => MoveWriter(s, w, WAsleep(s.writers[w].item), Free)
    case WriterWakeSpuriously(w) => MoveWriter(s, w, WWanting(s.writers[w].item), s.owner)
    case PutItem(w) =>
      if s.capacity <= s.size && s.stopped then MoveWriter(s, w, WAway, Free)  // write returns false
      else MoveWriter(s, w, WOwing, Free)
           .(buf := s.buf + [s.writers[w].item], size := s.size + 1, written := s.written + [s.writers[w].item])
    case NotifyReader(w, r) => WakeReader(MoveWriter(s, w, WAway, s.owner), r)
    case CallClear(w) => MoveWriter(s, w, WantingClear, s.owner)
    case ClearAll(w) =>
      MoveWriter(s, w, WAway, Free)
      .(buf := [], size := s.size - |s.buf|, gone := s.gone + AllCleared(s.buf))
    case SetStopped => s.(stopped := true, stopper := FlagSet)
    case StopNotifiesReader(r) => WakeReader(s.(stopper := ReaderNotified), r)
    case StopNotifiesWriter(w) => WakeWriter(s.(stopper := StopDone), w)
  }

  // ---------- runs ----------

  predicate Legal(s: Ring, acts: seq<Action>)
    decreases |acts|
  {
    acts == [] || (Enabled(s, acts[0]) && Legal(Apply(s, acts[0]), acts[1..]))
  }

  function Run(s: Ring, acts: seq<Action>): Ring
    requires Legal(s, acts)
    decreases |acts|
  {
    if acts == [] then s else Run(Apply(s, acts[0]), acts[1..])
  }

  // ---------- the invariant ----------

  predicate ReaderHolds(pc: ReaderPc) {
    pc in {RTesting, RDozing, RTaking}
  }

  predicate WriterHolds(pc: WriterPc) {
    pc.WTesting? || pc.WDozing? || pc.WPutting? || pc.Clearing?
  }

  ghost predicate Exclusive(s: Ring) {
    && (forall r :: 0 <= r < |s.readers| ==> (ReaderHolds(s.readers[r]) <==> s.owner == ByReader(r)))
    && (forall w :: 0 <= w < |s.writers| ==> (WriterHolds(s.writers[w]) <==> s.owner == ByWriter(w)))
    && (s.owner.ByReader? ==> s.owner.r < |s.readers|)
    && (s.owner.ByWriter? ==> s.owner.w < |s.writers|)
  }

  /** What a thread has seen under the lock still holds while it keeps the lock; only stopped may
      change under it, because stop does not take the lock. */
  ghost predicate SeenHolds(s: Ring) {
    && (forall r :: 0 <= r < |s.readers| ==>
          && (s.readers[r] == RDozing ==> s.size == 0)
          && (s.readers[r] == RTaking ==> s.size > 0 || s.stopped))
    && (forall w :: 0 <= w < |s.writers| ==>
          && (s.writers[w].WDozing? ==> s.capacity <= s.size)
          && (s.writers[w].WPutting? ==> s.capacity > s.size)
          && (s.writers[w] in {WantingClear, Clearing} ==> |s.writers| == 1))
  }

  /** size_ is the length of the queue and never exceeds the capacity. */
  ghost predicate Sized(s: Ring) {
    s.size == |s.buf| <= s.capacity && (s.stopped <==> s.stopper != NotStopped)
  }

  function Items(gone: seq<Fate>): seq<Item> {
    seq(|gone|, k requires 0 <= k < |gone| => gone[k].item)
  }

  /** Every written item is exactly once taken, cleared or still queued, in the order written. */
  ghost predicate Fifo(s: Ring) {
    s.written == Items(s.gone) + s.buf
  }

  predicate RTrying(pc: ReaderPc) {
    pc in {RWanting, RTesting, RTaking}
  }

  predicate ROwes(pc: ReaderPc) {
    pc.ROwing?
  }

  predicate WTrying(pc: WriterPc) {
    pc.WWanting? || pc.WTesting? || pc.WPutting?
  }

  predicate WOwes(pc: WriterPc) {
    pc == WOwing
  }

  /** While a reader sleeps, each queued item has a notification of its own to come or a reader of its
      own on the way. */
  ghost predicate ReadersWoken(s: Ring) {
    ReaderAsleep(s) ==> s.size <= Count(s.writers, WOwes) + Count(s.readers, RTrying)
  }

  /** While a writer sleeps, so has each free place. */
  ghost predicate WritersWoken(s: Ring) {
    WriterAsleep(s) ==> s.capacity <= s.size + Count(s.readers, ROwes) + Count(s.writers, WTrying)
  }

  ghost predicate Inv(s: Ring) {
    Exclusive(s) && SeenHolds(s) && Sized(s) && Fifo(s) && ReadersWoken(s) && WritersWoken(s)
  }

  // ---------- every step keeps it ----------

  predicate ReaderOnly(a: Action) {
    a.CallRead? || a.ReaderLock? || a.ReaderTest? || a.ReaderSleep? || a.ReaderWakeSpuriously? || a.TakeItem?
  }

  predicate WriterOnly(a: Action) {
    a.CallWrite? || a.WriterLock? || a.WriterTest? || a.WriterSleep? || a.WriterWakeSpuriously? || a.PutItem?
    || a.CallClear? || a.ClearAll?
  }

  lemma StepExclusive(s: Ring, a: Action)
    requires Exclusive(s) && Enabled(s, a)
    ensures Exclusive(Apply(s, a))
  {
    hide Enabled, Apply, Exclusive;
    if ReaderOnly(a) {
      ReaderStepExclusive(s, a);
    } else if WriterOnly(a) {
      WriterStepExclusive(s, a);
    } else {
      NotifyStepExclusive(s, a);
    }
  }

  lemma ReaderStepExclusive(s: Ring, a: Action)
    requires Exclusive(s) && Enabled(s, a) && ReaderOnly(a)
    ensures Exclusive(Apply(s, a))
  {
  }

  lemma WriterStepExclusive(s: Ring, a: Action)
    requires Exclusive(s) && Enabled(s, a) && WriterOnly(a)
    ensures Exclusive(Apply(s, a))
  {
  }

  lemma NotifyStepExclusive(s: Ring, a: Action)
    requires Exclusive(s) && Enabled(s, a) && !ReaderOnly(a) && !WriterOnly(a)
    ensures Exclusive(Apply(s, a))
  {
    hide Exclusive, WakeReader, WakeWriter;
    match a
    case NotifyWriter(r, w) =>
      LeavesExclusive(s, r, 0);
      WakeExclusive(MoveReader(s, r, RAway, s.owner), 0, w);
    case NotifyReader(w, r) =>
      LeavesExclusive(s, 0, w);
      WakeExclusive(MoveWriter(s, w, WAway, s.owner), r, 0);
    case SetStopped =>
      StopperMoves(s, s.(stopped := true, stopper := FlagSet));
    case StopNotifiesReader(r) =>
      StopperMoves(s, s.(stopper := ReaderNotified));
      WakeExclusive(s.(stopper := ReaderNotified), r, 0);
    case StopNotifiesWriter(w) =>
      StopperMoves(s, s.(stopper := StopDone));
      WakeExclusive(s.(stopper := StopDone), 0, w);
  }

  lemma LeavesExclusive(s: Ring, r: nat, w: nat)
    requires Exclusive(s)
    ensures r < |s.readers| && s.readers[r].ROwing? ==> Exclusive(MoveReader(s, r, RAway, s.owner))
    ensures w < |s.writers| && s.writers[w] == WOwing ==> Exclusive(MoveWriter(s, w, WAway, s.owner))
  {
  }

  lemma WakeExclusive(s: Ring, r: nat, w: nat)
    requires Exclusive(s)
    ensures PicksReader(s, r) ==> Exclusive(WakeReader(s, r))
    ensures PicksWriter(s, w) ==> Exclusive(WakeWriter(s, w))
  {
  }

  lemma StopperMoves(s: Ring, t: Ring)
    requires Exclusive(s) && t.readers == s.readers && t.writers == s.writers && t.owner == s.owner
    ensures Exclusive(t)
  {
  }

  lemma StepSeenHolds(s: Ring, a: Action)
    requires Exclusive(s) && SeenHolds(s) && Sized(s) && Enabled(s, a)
    ensures SeenHolds(Apply(s, a))
  {
    hide Enabled, Apply, Exclusive, SeenHolds, Sized;
    if ReaderOnly(a) {
      ReaderStepSeen(s, a);
    } else if WriterOnly(a) {
      WriterStepSeen(s, a);
    } else {
      NotifyStepSeen(s, a);
    }
  }

  lemma ReaderStepSeen(s: Ring, a: Action)
    requires Exclusive(s) && SeenHolds(s) && Sized(s) && Enabled(s, a) && ReaderOnly(a)
    ensures SeenHolds(Apply(s, a))
  {
  }

  lemma WriterStepSeen(s: Ring, a: Action)
    requires Exclusive(s) && SeenHolds(s) && Sized(s) && Enabled(s, a) && WriterOnly(a)
    ensures SeenHolds(Apply(s, a))
  {
  }

  lemma NotifyStepSeen(s: Ring, a: Action)
    requires SeenHolds(s) && Enabled(s, a) && !ReaderOnly(a) && !WriterOnly(a)
    ensures SeenHolds(Apply(s, a))
  {
  }

  lemma StepSized(s: Ring, a: Action)
    requires SeenHolds(s) && Sized(s) && Enabled(s, a)
    ensures Sized(Apply(s, a)) && Apply(s, a).capacity == s.capacity
  {
  }

  lemma StepFifo(s: Ring, a: Action)
    requires Fifo(s) && Enabled(s, a)
    ensures Fifo(Apply(s, a))
  {
    if a.ClearAll? {
      assert Items(s.gone + AllCleared(s.buf)) == Items(s.gone) + s.buf;
    }
  }

  /** Moving one reader (or none) shifts the counts by that reader alone. */
  lemma ReaderMoved(s: Ring, t: Ring, r: nat)
    requires r < |s.readers| && |t.readers| == |s.readers| && t.readers == s.readers[r := t.readers[r]]
    ensures Count(t.readers, RTrying) + One(RTrying(s.readers[r]))
            == Count(s.readers, RTrying) + One(RTrying(t.readers[r]))
    ensures Count(t.readers, ROwes) + One(ROwes(s.readers[r])) == Count(s.readers, ROwes) + One(ROwes(t.readers[r]))
  {
    CountMove(s.readers, r, t.readers[r], RTrying);
    CountMove(s.readers, r, t.readers[r], ROwes);
  }

  lemma WriterMoved(s: Ring, t: Ring, w: nat)
    requires w < |s.writers| && |t.writers| == |s.writers| && t.writers == s.writers[w := t.writers[w]]
    ensures Count(t.writers, WTrying) + One(WTrying(s.writers[w]))
            == Count(s.writers, WTrying) + One(WTrying(t.writers[w]))
    ensures Count(t.writers, WOwes) + One(WOwes(s.writers[w])) == Count(s.writers, WOwes) + One(WOwes(t.writers[w]))
  {
    CountMove(s.writers, w, t.writers[w], WTrying);
    CountMove(s.writers, w, t.writers[w], WOwes);
  }

  lemma ReaderStepWoken(s: Ring, a: Action)
    requires Inv(s) && Enabled(s, a) && ReaderOnly(a)
    ensures ReadersWoken(Apply(s, a)) && WritersWoken(Apply(s, a))
  {
    hide Exclusive, Fifo, Count;
    ReaderMoved(s, Apply(s, a), a.r);
  }

  lemma WriterStepWoken(s: Ring, a: Action)
    requires Inv(s) && Enabled(s, a) && WriterOnly(a)
    ensures ReadersWoken(Apply(s, a)) && WritersWoken(Apply(s, a))
  {
    hide Exclusive, Fifo, Count;
    WriterMoved(s, Apply(s, a), a.w);
  }

  lemma NotifyStepWoken(s: Ring, a: Action)
    requires Inv(s) && Enabled(s, a) && !ReaderOnly(a) && !WriterOnly(a)
    ensures ReadersWoken(Apply(s, a)) && WritersWoken(Apply(s, a))
  {
    hide Inv, Enabled, Apply, ReadersWoken, WritersWoken;
    if a.NotifyWriter? || a.StopNotifiesWriter? {
      WakesAWriter(s, a);
    } else {
      WakesAReader(s, a);
    }
  }

  lemma WakesAWriter(s: Ring, a: Action)
    requires Inv(s) && Enabled(s, a) && (a.NotifyWriter? || a.StopNotifiesWriter?)
    ensures ReadersWoken(Apply(s, a)) && WritersWoken(Apply(s, a))
  {
    hide Exclusive, Fifo, Count;
    var t := Apply(s, a);
    if WriterAsleep(s) {
      WriterMoved(s, t, a.w);
    }
    if a.NotifyWriter? {
      ReaderMoved(s, t, a.r);
    }
  }

  lemma WakesAReader(s: Ring, a: Action)
    requires Inv(s) && Enabled(s, a) && (a.NotifyReader? || a.StopNotifiesReader? || a.SetStopped?)
    ensures ReadersWoken(Apply(s, a)) && WritersWoken(Apply(s, a))
  {
    hide Exclusive, Fifo, Count;
    var t := Apply(s, a);
    if !a.SetStopped? && ReaderAsleep(s) {
      ReaderMoved(s, t, a.r);
    }
    if a.NotifyReader? {
      WriterMoved(s, t, a.w);
    }
  }

  lemma StepKeepsInv(s: Ring, a: Action)
    requires Inv(s) && Enabled(s, a)
    ensures Inv(Apply(s, a))
  {
    hide Exclusive, SeenHolds, Sized, Fifo, ReadersWoken, WritersWoken, Apply, Enabled;
    StepExclusive(s, a);
    StepSeenHolds(s, a);
    StepSized(s, a);
    StepFifo(s, a);
    if ReaderOnly(a) {
      ReaderStepWoken(s, a);
    } else if WriterOnly(a) {
      WriterStepWoken(s, a);
    } else {
      NotifyStepWoken(s, a);
    }
  }

  lemma StepKeepsThreads(s: Ring, a: Action)
    requires Enabled(s, a)
    ensures Apply(s, a).capacity == s.capacity
    ensures |Apply(s, a).readers| == |s.readers| && |Apply(s, a).writers| == |s.writers|
  {
  }

  lemma {:induction false} RunKeepsInv(s: Ring, acts: seq<Action>)
    requires Inv(s) && Legal(s, acts)
    ensures Inv(Run(s, acts)) && Run(s, acts).capacity == s.capacity
    ensures |Run(s, acts).readers| == |s.readers| && |Run(s, acts).writers| == |s.writers|
    decreases |acts|
  {
    hide Inv, Enabled, Apply;
    if acts != [] {
      StepKeepsInv(s, acts[0]);
      StepKeepsThreads(s, acts[0]);
      RunKeepsInv(Apply(s, acts[0]), acts[1..]);
    }
  }

  lemma InitialInv(capacity: nat, readers: nat, writers: nat)
    ensures Inv(Initial(capacity, readers, writers))
  {
  }
}
