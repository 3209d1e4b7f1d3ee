/** The doubling object pool of projects/龙卷风播放器/src/utils/MemoryPool/MemoryPool.h
    (MemoryPool_shared) as a value, and what holds over all its runs. */
module MemoryPoolSpec {
  import opened Basics

  /** free is the queue of slots; live, freed, peak and released are history: the slots handed out and
      not returned, those given back to the system, the most that were ever out of the queue at once
      (counting one under construction), and whether release_memo has run. */
  datatype Pool<S> = Pool(
    free: seq<S>, live: set<S>, freed: set<S>, size: int, initSize: int, peak: nat, released: bool)

  function ToSet<S>(s: seq<S>): set<S> {
    set x | x in s
  }

  /** Every slot ever allocated. */
  function Allocated<S>(p: Pool<S>): set<S> {
    ToSet(p.free) + p.live + p.freed
  }

  ghost predicate NoDup<S>(s: seq<S>) {
    forall i, j :: 0 <= i < j < |s| ==> s[i] != s[j]
  }

  // ---------- operations ----------

  /** What operator new may give allocate_memo: as many slots as asked for, all different, none seen
      before. */
  ghost predicate FreshFor<S>(p: Pool<S>, news: seq<S>) {
    |news| == Max(p.size, 0) && NoDup(news) && ToSet(news) !! Allocated(p)
  }

  function AllocateMemo<S>(p: Pool<S>, news: seq<S>): Pool<S> {
    p.(free := p.free + news, size := 2 * p.size)
  }

  /** The constructor. */
  function NewPool<S>(initSize: int, news: seq<S>): Pool<S> {
    AllocateMemo(Pool([], {}, {}, initSize, initSize, 0, false), news)
  }

  /** The queue is refilled when a get finds it empty. */
  function Refilled<S>(p: Pool<S>, news: seq<S>): Pool<S> {
    if p.free == [] then AllocateMemo(p, news) else p
  }

  /** How a get ends: the object's constructor may throw, and so may the shared_ptr around the object,
      when it cannot have its control block. */
  datatype Outcome = Succeeds | ConstructorThrows | ControlBlockThrows

  /** The slot at the front goes out, or back to the end when the constructor throws. When the
      shared_ptr throws it calls the deleter, which queues the slot, and the handler queues it again. */
  function FrontOut<S>(q: Pool<S>, outcome: Outcome): Pool<S>
    requires q.free != []
  {
    var slot, out := q.free[0], q.(free := q.free[1..], peak := Max(q.peak, |q.live| + 1));
    match outcome
    case Succeeds => out.(live := out.live + {slot})
    case ConstructorThrows => out.(free := out.free + [slot])
    case ControlBlockThrows => out.(free := out.free + [slot, slot])
  }

  function Get<S>(p: Pool<S>, news: seq<S>, outcome: Outcome): Pool<S>
    requires Refilled(p, news).free != []
  {
    FrontOut(Refilled(p, news), outcome)
  }

  /** The deleter of a handed-out pointer, and return_obj. */
  function Release<S>(p: Pool<S>, slot: S): Pool<S> {
    p.(free := p.free + [slot], live := p.live - {slot})
  }

  /** How many slots release_memo gives back. */
  function Surplus<S>(p: Pool<S>): (n: nat)
    ensures n <= |p.free|
  {
    var half := if p.size >= 0 then p.size / 2 else -(-p.size / 2);
    var count := |p.free| - half;
    if count < 0 then 0 else if count > |p.free| then |p.free| else count
  }

  function ReleaseMemo<S>(p: Pool<S>): Pool<S> {
    var n := Surplus(p);
    p.(free := p.free[n..], freed := p.freed + ToSet(p.free[..n]), released := true)
  }

  // ---------- the invariant ----------

  /** The queue has no duplicates, and no slot is in two places. */
  ghost predicate Parted<S>(free: seq<S>, live: set<S>, freed: set<S>) {
    NoDup(free) && ToSet(free) !! live !! freed
  }

  /** size accounts for all allocations, and without release_memo the space is bounded by the peak
      use. */
  ghost predicate Accounted<S>(p: Pool<S>) {
    && |Allocated(p)| == Max(p.size - p.initSize, 0)
    && (p.initSize >= 1 ==> p.size >= p.initSize)
    && |p.live| <= p.peak
    && (!p.released ==> p.freed == {} && |Allocated(p)| <= Max(p.initSize, 0) + 2 * Max(p.peak - 1, 0))
  }

  /** Besides, free, live and freed slots partition the allocated ones and no slot is queued twice. */
  ghost predicate Inv<S>(p: Pool<S>) {
    Parted(p.free, p.live, p.freed) && Accounted(p)
  }

  // ---------- moving slots about ----------

  lemma {:induction false} SetOfDistinct<S>(s: seq<S>)
    requires NoDup(s)
    ensures |ToSet(s)| == |s|
  {
    if s == [] {
      assert ToSet(s) == {};
    } else {
      var last := |s| - 1;
      SetOfDistinct(s[..last]);
      assert ToSet(s) == ToSet(s[..last]) + {s[last]};
    }
  }

  lemma SetOfSum<S>(a: seq<S>, b: seq<S>)
    ensures ToSet(a + b) == ToSet(a) + ToSet(b)
  {
  }

  lemma SetOfOne<S>(x: S)
    ensures ToSet([x]) == {x}
  {
  }

  lemma SplitParted<S>(front: seq<S>, back: seq<S>, live: set<S>, freed: set<S>)
    requires Parted(front + back, live, freed)
    ensures Parted(back, live, freed + ToSet(front)) && Parted(back, live + ToSet(front), freed)
    ensures NoDup(front) && ToSet(front) !! live && ToSet(front) !! freed && ToSet(front) !! ToSet(back)
  {
    SetOfSum(front, back);
    forall i, j | 0 <= i < j < |front| ensures front[i] != front[j] {
      assert (front + back)[i] == front[i] && (front + back)[j] == front[j];
    }
    forall i, j | 0 <= i < j < |back| ensures back[i] != back[j] {
      assert (front + back)[|front| + i] == back[i] && (front + back)[|front| + j] == back[j];
    }
    forall i, j | 0 <= i < |front| && 0 <= j < |back| ensures front[i] != back[j] {
      assert (front + back)[i] == front[i] && (front + back)[|front| + j] == back[j];
    }
  }

  lemma AppendParted<S>(free: seq<S>, x: S, live: set<S>, freed: set<S>)
    requires Parted(free, live, freed) && x !in ToSet(free) && x !in freed
    ensures Parted(free + [x], live - {x}, freed)
  {
    SetOfSum(free, [x]);
    SetOfOne(x);
  }

  // ---------- every operation keeps it ----------

  lemma NewPoolInv<S>(initSize: int, news: seq<S>)
    requires FreshFor(Pool([], {}, {}, initSize, initSize, 0, false), news)
    ensures Inv(NewPool(initSize, news))
  {
    SetOfDistinct(news);
    assert [] + news == news;
    assert Allocated(NewPool(initSize, news)) == ToSet(news);
  }

  /** The step of get that refills an empty queue: 2T + S slots when T were out. */
  lemma RefillInv<S>(p: Pool<S>, news: seq<S>)
    requires Accounted(p) && p.initSize >= 1 && (p.free == [] ==> FreshFor(p, news))
    ensures var q := Refilled(p, news);
            && q.free != [] && q == p.(free := q.free, size := q.size)
            && (Parted(p.free, p.live, p.freed) ==> Parted(q.free, q.live, q.freed))
            && |Allocated(q)| == q.size - q.initSize && q.size >= q.initSize && Allocated(p) <= Allocated(q)
            && (!q.released ==> q == p || |Allocated(q)| <= q.initSize + 2 * |q.live|)
  {
    hide Allocated, Parted, ToSet, NoDup;
    if p.free == [] {
      SetOfDistinct(news);
      assert Refilled(p, news).free == news;
      RefillAdds(p, news);
    }
  }

  lemma RefillAdds<S>(p: Pool<S>, news: seq<S>)
    requires p.free == [] && FreshFor(p, news)
    ensures var q := Refilled(p, news);
            && (Parted(p.free, p.live, p.freed) ==> Parted(news, q.live, q.freed))
            && Allocated(p) <= Allocated(q) && |Allocated(q)| == |Allocated(p)| + |ToSet(news)|
            && (p.freed == {} ==> |Allocated(p)| == |p.live|)
  {
    var q := Refilled(p, news);
    assert q.free == news;
    assert ToSet(p.free) == {};
    assert Allocated(q) == Allocated(p) + ToSet(news);
    if p.freed == {} {
      assert Allocated(p) == p.live;
    }
  }

  /** Taking the slot off the front, and handing it out or putting it back. */
  lemma OutOrBack<S>(q: Pool<S>)
    requires q.free != [] && Parted(q.free, q.live, q.freed)
    ensures var slot, rest := q.free[0], q.free[1..];
            && slot !in q.live && slot !in q.freed && slot !in rest
            && Parted(rest, q.live + {slot}, q.freed) && Parted(rest + [slot], q.live, q.freed)
            && !Parted(rest + [slot, slot], q.live, q.freed)
  {
    hide ToSet, NoDup, Parted;
    var slot, rest := q.free[0], q.free[1..];
    assert q.free == [slot] + rest;
    SetOfOne(slot);
    SplitParted([slot], rest, q.live, q.freed);
    NotInRest(slot, rest);
    AppendParted(rest, slot, q.live, q.freed);
    assert q.live - {slot} == q.live;
    TwiceIsDup(rest, slot, q.live, q.freed);
  }

  lemma TwiceIsDup<S>(rest: seq<S>, slot: S, live: set<S>, freed: set<S>)
    ensures !Parted(rest + [slot, slot], live, freed)
  {
    var free := rest + [slot, slot];
    assert free[|rest|] == free[|rest| + 1];
  }

  /** Whatever becomes of the front slot, it is not forgotten. */
  lemma FrontMoves<S>(q: Pool<S>)
    requires q.free != []
    ensures var slot, rest := q.free[0], q.free[1..];
            && Allocated(q.(free := rest, live := q.live + {slot})) == Allocated(q)
            && Allocated(q.(free := rest + [slot])) == Allocated(q)
            && Allocated(q.(free := rest + [slot, slot])) == Allocated(q)
  {
    hide ToSet;
    var slot, rest := q.free[0], q.free[1..];
    assert q.free == [slot] + rest && rest + [slot, slot] == rest + [slot] + [slot];
    SetOfSum([slot], rest);
    SetOfSum(rest, [slot]);
    SetOfSum(rest + [slot], [slot]);
    SetOfOne(slot);
  }

  lemma NotInRest<S>(x: S, rest: seq<S>)
    requires ToSet([x]) !! ToSet(rest)
    ensures x !in rest
  {
    SetOfOne(x);
  }

  lemma GetAccounted<S>(p: Pool<S>, news: seq<S>, outcome: Outcome)
    requires Accounted(p) && p.initSize >= 1 && (p.free == [] ==> FreshFor(p, news))
    ensures Refilled(p, news).free != [] && Accounted(Get(p, news, outcome))
    ensures Allocated(p) <= Allocated(Get(p, news, outcome)) == Allocated(Refilled(p, news))
  {
    hide Allocated, Parted, FreshFor, Refilled;
    RefillInv(p, news);
    var q, r := Refilled(p, news), Get(p, news, outcome);
    FrontMoves(q);
    PeakIrrelevant(r, q.peak);
    assert |q.live + {q.free[0]}| <= |q.live| + 1;
  }

  /** get keeps the invariant unless the shared_ptr throws: then the queue holds a slot twice. */
  lemma GetInv<S>(p: Pool<S>, news: seq<S>, outcome: Outcome)
    requires Inv(p) && p.initSize >= 1 && (p.free == [] ==> FreshFor(p, news))
    ensures Refilled(p, news).free != []
    ensures Inv(Get(p, news, outcome)) <==> outcome != ControlBlockThrows
  {
    hide Allocated, Accounted, Parted, FreshFor, Refilled;
    RefillInv(p, news);
    OutOrBack(Refilled(p, news));
    GetAccounted(p, news, outcome);
  }

  lemma PeakIrrelevant<S>(p: Pool<S>, peak: nat)
    ensures Allocated(p.(peak := peak)) == Allocated(p)
  {
  }

  lemma ElsewhereNot<S>(p: Pool<S>, slot: S)
    requires Parted(p.free, p.live, p.freed) && slot in p.live
    ensures slot !in ToSet(p.free) && slot !in p.freed
  {
  }

  lemma ReleaseMoves<S>(p: Pool<S>, slot: S)
    requires slot in p.live
    ensures Allocated(Release(p, slot)) == Allocated(p)
  {
    hide ToSet;
    SetOfSum(p.free, [slot]);
    SetOfOne(slot);
  }

  lemma ReleaseAccounted<S>(p: Pool<S>, slot: S)
    requires Accounted(p) && slot in p.live
    ensures Accounted(Release(p, slot)) && Allocated(Release(p, slot)) == Allocated(p)
  {
    ReleaseMoves(p, slot);
    hide Allocated;
  }

  lemma ReleaseInv<S>(p: Pool<S>, slot: S)
    requires Inv(p) && slot in p.live
    ensures Inv(Release(p, slot)) && Allocated(Release(p, slot)) == Allocated(p)
  {
    hide Accounted, Allocated, ToSet, NoDup;
    ElsewhereNot(p, slot);
    ReleaseAccounted(p, slot);
    AppendParted(p.free, slot, p.live, p.freed);
  }

  lemma MemoMoves<S>(p: Pool<S>)
    ensures Allocated(ReleaseMemo(p)) == Allocated(p)
  {
    hide ToSet, Surplus;
    var n := Surplus(p);
    assert p.free == p.free[..n] + p.free[n..];
    SetOfSum(p.free[..n], p.free[n..]);
    var given, kept := ToSet(p.free[..n]), ToSet(p.free[n..]);
    assert (given + kept) + p.live + p.freed == kept + p.live + (p.freed + given);
  }

  lemma ReleaseMemoAccounted<S>(p: Pool<S>)
    requires Accounted(p)
    ensures Accounted(ReleaseMemo(p)) && Allocated(ReleaseMemo(p)) == Allocated(p)
    ensures ReleaseMemo(p).initSize == p.initSize
  {
    MemoMoves(p);
    hide Allocated, ToSet;
  }

  lemma ReleaseMemoInv<S>(p: Pool<S>)
    requires Inv(p)
    ensures Inv(ReleaseMemo(p)) && Allocated(ReleaseMemo(p)) == Allocated(p)
  {
    hide Accounted, Allocated, ToSet, NoDup, Parted, Surplus;
    var n := Surplus(p);
    assert p.free == p.free[..n] + p.free[n..];
    SplitParted(p.free[..n], p.free[n..], p.live, p.freed);
    ReleaseMemoAccounted(p);
  }

  // ---------- what the operations promise ----------

  /** As long as the invariant holds, get hands out a slot that nobody has and that has not been given
      back, and takes it off the queue; a failing constructor leaves every slot where it can be had
      again, and a failing shared_ptr leaves one there twice. */
  lemma GetNeverAliases<S>(p: Pool<S>, news: seq<S>, outcome: Outcome)
    requires Inv(p) && p.initSize >= 1 && (p.free == [] ==> FreshFor(p, news))
    ensures var q := Refilled(p, news);
            q.free != [] &&
            var slot, r := q.free[0], Get(p, news, outcome);
            && slot !in p.live && slot !in p.freed
            && (outcome == Succeeds ==> slot in r.live && slot !in r.free && r.live == p.live + {slot})
            && (outcome != Succeeds ==> r.live == p.live && multiset(q.free) <= multiset(r.free))
            && (outcome == ConstructorThrows ==> multiset(r.free) == multiset(q.free))
            && (outcome == ControlBlockThrows ==> multiset(r.free)[slot] == 2)
  {
    hide Allocated, Parted, FreshFor, Refilled;
    RefillInv(p, news);
    var q := Refilled(p, news);
    OutOrBack(q);
    assert q.free == [q.free[0]] + q.free[1..];
  }

  /** release_memo gives back free slots only, from the front, until at most half of size is free. */
  lemma ReleaseMemoFreesTheSurplus<S>(p: Pool<S>)
    requires Inv(p) && p.initSize >= 1
    ensures var r := ReleaseMemo(p);
            && r.live == p.live && r.freed - p.freed <= ToSet(p.free)
            && 2 * |r.free| <= p.size
            && (r.free == p.free || 2 * |r.free| >= p.size - 1)
            && |r.free| + |r.freed| == |p.free| + |p.freed|
  {
    hide ToSet, NoDup, Parted;
    var n := Surplus(p);
    assert p.free == p.free[..n] + p.free[n..];
    SetOfSum(p.free[..n], p.free[n..]);
    SplitParted(p.free[..n], p.free[n..], p.live, p.freed);
    SetOfDistinct(p.free[..n]);
    if n == 0 {
      assert p.free[0..] == p.free;
    }
  }

  // ---------- runs ----------

  datatype Op<S> = DoGet(news: seq<S>, outcome: Outcome) | DoRelease(slot: S) | DoReleaseMemo

  /** get needs a pool that was created with room for something, and fresh memory when it refills;
      only a live slot can be released. */
  ghost predicate Legal<S>(p: Pool<S>, op: Op<S>) {
    match op
    case DoGet(news, _) => p.initSize >= 1 && Refilled(p, news).free != [] && (p.free == [] ==> FreshFor(p, news))
    case DoRelease(slot) => slot in p.live
    case DoReleaseMemo => true
  }

  ghost function Do<S>(p: Pool<S>, op: Op<S>): Pool<S>
    requires Legal(p, op)
  {
    match op
    case DoGet(news, outcome) => Get(p, news, outcome)
    case DoRelease(slot) => Release(p, slot)
    case DoReleaseMemo => ReleaseMemo(p)
  }

  ghost predicate LegalRun<S>(p: Pool<S>, ops: seq<Op<S>>)
    decreases |ops|
  {
    ops == [] || (Legal(p, ops[0]) && LegalRun(Do(p, ops[0]), ops[1..]))
  }

  ghost function Run<S>(p: Pool<S>, ops: seq<Op<S>>): Pool<S>
    requires LegalRun(p, ops)
    decreases |ops|
  {
    if ops == [] then p else Run(Do(p, ops[0]), ops[1..])
  }

  /** Conservation over every run, whatever fails in it: no slot is ever forgotten, and size accounts
      for all of them. */
  lemma {:induction false} RunConserves<S>(p: Pool<S>, ops: seq<Op<S>>)
    requires Accounted(p) && LegalRun(p, ops)
    ensures Accounted(Run(p, ops)) && Allocated(p) <= Allocated(Run(p, ops)) && Run(p, ops).initSize == p.initSize
    decreases |ops|
  {
    hide Accounted, Allocated, Do, Legal;
    if ops != [] {
      OpConserves(p, ops[0]);
      RunConserves(Do(p, ops[0]), ops[1..]);
    }
  }

  lemma OpConserves<S>(p: Pool<S>, op: Op<S>)
    requires Accounted(p) && Legal(p, op)
    ensures Accounted(Do(p, op)) && Allocated(p) <= Allocated(Do(p, op)) && Do(p, op).initSize == p.initSize
    ensures !op.DoReleaseMemo? ==> Do(p, op).released == p.released
  {
    hide Accounted, Allocated, ReleaseMemo, FreshFor;
    match op
    case DoGet(news, outcome) => GetAccounted(p, news, outcome);
    case DoRelease(slot) => ReleaseAccounted(p, slot);
    case DoReleaseMemo => ReleaseMemoAccounted(p);
  }

  /** This operation is a get whose shared_ptr throws. */
  predicate Duplicates<S>(op: Op<S>) {
    op.DoGet? && op.outcome == ControlBlockThrows
  }

  ghost predicate InvThroughout<S>(p: Pool<S>, ops: seq<Op<S>>)
    requires LegalRun(p, ops)
    decreases |ops|
  {
    Inv(p) && (ops == [] || InvThroughout(Do(p, ops[0]), ops[1..]))
  }

  /** The partition holds throughout a run exactly when no get in it loses its shared_ptr. */
  lemma {:induction false} PartedExactlyUntilThen<S>(p: Pool<S>, ops: seq<Op<S>>)
    requires Inv(p) && LegalRun(p, ops)
    ensures InvThroughout(p, ops) <==> forall i :: 0 <= i < |ops| ==> !Duplicates(ops[i])
    decreases |ops|
  {
    hide Inv, Do, Legal, Duplicates;
    if ops != [] {
      OpInv(p, ops[0]);
      var next := Do(p, ops[0]);
      if Inv(next) {
        PartedExactlyUntilThen(next, ops[1..]);
        assert forall i :: 0 < i < |ops| ==> ops[i] == ops[1..][i - 1];
      } else {
        assert !InvThroughout(next, ops[1..]);
      }
    }
  }

  lemma OpInv<S>(p: Pool<S>, op: Op<S>)
    requires Inv(p) && Legal(p, op)
    ensures Inv(Do(p, op)) <==> !Duplicates(op)
  {
    hide Inv;
    match op
    case DoGet(news, outcome) => GetIsLegal(p, news, outcome);
    case DoRelease(slot) => ReleaseInv(p, slot);
    case DoReleaseMemo => ReleaseMemoInv(p);
  }

  lemma GetIsLegal<S>(p: Pool<S>, news: seq<S>, outcome: Outcome)
    requires Inv(p) && Legal(p, DoGet(news, outcome))
    ensures Inv(Get(p, news, outcome)) <==> outcome != ControlBlockThrows
  {
    GetInv(p, news, outcome);
  }

  function Gets<S>(n: nat): seq<Op<S>> {
    seq(n, _ => DoGet([], Succeeds))
  }

  lemma OneGet<S>(p: Pool<S>)
    requires p.initSize >= 1 && p.free != []
    ensures var op := DoGet([], Succeeds);
            && Legal(p, op) && Do(p, op).free == p.free[1..]
            && Do(p, op).live == p.live + {p.free[0]} && Do(p, op).initSize == p.initSize
  {
  }

  lemma {:induction false} GetsTakeTheFront<S>(p: Pool<S>, n: nat)
    requires p.initSize >= 1 && n <= |p.free|
    ensures LegalRun(p, Gets(n))
    ensures var t := Run(p, Gets(n));
            t.free == p.free[n..] && t.live == p.live + ToSet(p.free[..n]) && t.initSize == p.initSize
    decreases n
  {
    hide Legal, Do, ToSet;
    if n == 0 {
      NoneOf(p);
    } else {
      OneGet(p);
      var q := Do(p, DoGet([], Succeeds));
      assert Gets<S>(n)[0] == DoGet([], Succeeds) && Gets<S>(n)[1..] == Gets(n - 1);
      GetsTakeTheFront(q, n - 1);
      assert p.free[..n] == [p.free[0]] + q.free[..n - 1];
      SetOfSum([p.free[0]], q.free[..n - 1]);
      SetOfOne(p.free[0]);
    }
  }

  lemma NoneOf<S>(p: Pool<S>)
    ensures p.live + ToSet(p.free[..0]) == p.live && p.free[0..] == p.free
  {
  }

  /** What the duplicate leads to: once the slots in front of it have been handed out, and the slot
      itself, the next get hands out a slot that is already somebody's. */
  lemma DuplicateIsHandedOutTwice<S>(p: Pool<S>, news: seq<S>)
    requires Inv(p) && Legal(p, DoGet(news, ControlBlockThrows))
    ensures var slot, r := Refilled(p, news).free[0], Get(p, news, ControlBlockThrows);
            var gets := Gets(|r.free| - 1);
            && LegalRun(r, gets)
            && var t, again := Run(r, gets), DoGet([], Succeeds);
               && t.free == [slot] && slot in t.live
               && Legal(t, again) && Do(t, again).free == [] && Do(t, again).live == t.live
  {
    assert p.initSize >= 1 && Refilled(p, news).free != [];
    hide Inv, Legal, Do, LegalRun, Run, Gets;
    var slot, r := Refilled(p, news).free[0], Get(p, news, ControlBlockThrows);
    var n := |r.free| - 1;
    GetsTakeTheFront(r, n);
    assert r.free[n - 1] == slot == r.free[n];
    assert r.free[..n][n - 1] == slot;
    assert r.free[n..] == [slot];
    OneGet(Run(r, Gets(n)));
  }

  ghost predicate NoReleaseMemo<S>(ops: seq<Op<S>>) {
    forall i :: 0 <= i < |ops| ==> !ops[i].DoReleaseMemo?
  }

  lemma {:induction false} StaysUnreleased<S>(p: Pool<S>, ops: seq<Op<S>>)
    requires Accounted(p) && LegalRun(p, ops) && !p.released && NoReleaseMemo(ops)
    ensures !Run(p, ops).released
    decreases |ops|
  {
    hide Accounted, Allocated, Do, Legal;
    if ops != [] {
      OpConserves(p, ops[0]);
      StaysUnreleased(Do(p, ops[0]), ops[1..]);
    }
  }

  /** In every run of a new pool without release_memo, whatever fails in it, the slots ever allocated number at most
      S + 2 (P - 1), S being the initial size and P >= 1 the peak of slots in use at once. */
  lemma SpaceBound<S>(initSize: int, news: seq<S>, ops: seq<Op<S>>)
    requires initSize >= 1 && FreshFor(Pool([], {}, {}, initSize, initSize, 0, false), news)
    requires LegalRun(NewPool(initSize, news), ops) && NoReleaseMemo(ops)
    ensures var p := Run(NewPool(initSize, news), ops);
            && (p.peak >= 1 ==> |Allocated(p)| <= initSize + 2 * (p.peak - 1))
            && (p.peak == 0 ==> |Allocated(p)| <= initSize)
  {
    NewPoolInv(initSize, news);
    RunConserves(NewPool(initSize, news), ops);
    StaysUnreleased(NewPool(initSize, news), ops);
  }
}
