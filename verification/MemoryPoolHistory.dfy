/** In which order the object pool hands out its slots, and what its peak counts. */
module MemoryPoolHistory {
  import opened Basics
  import opened MemoryPoolSpec

  // ---------- first in, first out ----------

  /** The slots that an operation queues: fresh ones when get refills, the slot that goes back when it
      fails, the slot that is returned. */
  ghost function Entering<S>(p: Pool<S>, op: Op<S>): seq<S>
    requires Legal(p, op)
  {
    match op
    case DoGet(news, outcome) =>
      var slot := Refilled(p, news).free[0];
      (if p.free == [] then news else [])
      + (match outcome
         case Succeeds => []
         case ConstructorThrows => [slot]
         case ControlBlockThrows => [slot, slot])
    case DoRelease(slot) => [slot]
    case DoReleaseMemo => []
  }

  /** The slots that an operation takes off the queue. */
  ghost function Leaving<S>(p: Pool<S>, op: Op<S>): seq<S>
    requires Legal(p, op)
  {
    match op
    case DoGet(news, _) => [Refilled(p, news).free[0]]
    case DoRelease(_) => []
    case DoReleaseMemo => p.free[..|p.free| - |Do(p, op).free|]
  }

  /** A slot that leaves is handed out by a get that succeeds, and given back to the system by
      release_memo. */
  lemma WhereItGoes<S>(p: Pool<S>, op: Op<S>)
    requires Legal(p, op)
    ensures op.DoGet? ==>
              Do(p, op).live == if op.outcome == Succeeds then p.live + ToSet(Leaving(p, op)) else p.live
    ensures op.DoReleaseMemo? ==> Do(p, op).freed == p.freed + ToSet(Leaving(p, op)) && Do(p, op).live == p.live
    ensures op.DoRelease? ==> Do(p, op).live == p.live - ToSet(Entering(p, op))
  {
    hide Surplus, ToSet;
    match op
    case DoGet(news, _) => SetOfOne(Refilled(p, news).free[0]);
    case DoRelease(slot) => SetOfOne(slot);
    case DoReleaseMemo =>
  }

  lemma OpIsFifo<S>(p: Pool<S>, op: Op<S>)
    requires Legal(p, op)
    ensures p.free + Entering(p, op) == Leaving(p, op) + Do(p, op).free
  {
    hide Surplus, FreshFor, FrontOut;
    match op
    case DoGet(news, outcome) => GetIsFifo(p, news, outcome);
    case DoRelease(slot) =>
    case DoReleaseMemo =>
  }

  lemma GetIsFifo<S>(p: Pool<S>, news: seq<S>, outcome: Outcome)
    requires Refilled(p, news).free != []
    ensures var slot := Refilled(p, news).free[0];
            var back := match outcome
                        case Succeeds => []
                        case ConstructorThrows => [slot]
                        case ControlBlockThrows => [slot, slot];
            p.free + ((if p.free == [] then news else []) + back) == [slot] + Get(p, news, outcome).free
  {
    var q := Refilled(p, news);
    assert q.free == [q.free[0]] + q.free[1..];
    assert p.free + (if p.free == [] then news else []) == q.free;
  }

  ghost function Entered<S>(p: Pool<S>, ops: seq<Op<S>>): seq<S>
    requires LegalRun(p, ops)
    decreases |ops|
  {
    if ops == [] then [] else Entering(p, ops[0]) + Entered(Do(p, ops[0]), ops[1..])
  }

  ghost function Left<S>(p: Pool<S>, ops: seq<Op<S>>): seq<S>
    requires LegalRun(p, ops)
    decreases |ops|
  {
    if ops == [] then [] else Leaving(p, ops[0]) + Left(Do(p, ops[0]), ops[1..])
  }

  /** Over every run, whatever fails in it: the slots leave the queue in the order in which they were
      queued. */
  lemma {:induction false} SlotsAreReusedInOrder<S>(p: Pool<S>, ops: seq<Op<S>>)
    requires LegalRun(p, ops)
    ensures p.free + Entered(p, ops) == Left(p, ops) + Run(p, ops).free
    decreases |ops|
  {
    hide Do, Legal, Entering, Leaving;
    if ops != [] {
      var q := Do(p, ops[0]);
      OpIsFifo(p, ops[0]);
      SlotsAreReusedInOrder(q, ops[1..]);
      Regroup(p.free, Entering(p, ops[0]), Entered(q, ops[1..]), Leaving(p, ops[0]), q.free,
              Left(q, ops[1..]), Run(p, ops).free);
    }
  }

  lemma Regroup<S>(free: seq<S>, entering: seq<S>, entered: seq<S>, leaving: seq<S>, next: seq<S>,
                   left: seq<S>, last: seq<S>)
    requires free + entering == leaving + next && next + entered == left + last
    ensures free + (entering + entered) == leaving + left + last
  {
    assert free + (entering + entered) == (free + entering) + entered;
    assert (leaving + next) + entered == leaving + (next + entered);
  }

  /** So a slot that is returned is the last of the free ones to be handed out again. */
  lemma ReturnedGoesLast<S>(p: Pool<S>, slot: S, n: nat)
    requires slot in p.live && p.initSize >= 1 && n <= |p.free|
    ensures var q := Release(p, slot);
            && LegalRun(q, Gets(n))
            && Run(q, Gets(n)).free == p.free[n..] + [slot]
            && Run(q, Gets(n)).live == p.live - {slot} + ToSet(p.free[..n])
  {
    hide Legal, LegalRun, Run, Gets;
    var q := Release(p, slot);
    GetsTakeTheFront(q, n);
    assert q.free[n..] == p.free[n..] + [slot];
    assert q.free[..n] == p.free[..n];
  }

  // ---------- the peak ----------

  /** The most slots out of the queue at once in the run, counting one under construction. */
  ghost function MostOut<S>(p: Pool<S>, ops: seq<Op<S>>): nat
    requires LegalRun(p, ops)
    decreases |ops|
  {
    if ops == [] then 0
    else Max(if ops[0].DoGet? then |p.live| + 1 else 0, MostOut(Do(p, ops[0]), ops[1..]))
  }

  lemma {:induction false} PeakIsMostOut<S>(p: Pool<S>, ops: seq<Op<S>>)
    requires LegalRun(p, ops)
    ensures Run(p, ops).peak == Max(p.peak, MostOut(p, ops))
    decreases |ops|
  {
    hide FreshFor, Surplus, ToSet;
    if ops != [] {
      PeakIsMostOut(Do(p, ops[0]), ops[1..]);
    }
  }
}
