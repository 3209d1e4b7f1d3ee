/** The object pool on the heap: slots are objects, the queue holds references to them, and View()
    ties the fields to the value that MemoryPoolSpec's operations work on. */
module MemoryPool {
  import opened Basics
  import opened MemoryPoolSpec

  class Slot {
    var constructed: bool

    constructor ()
      ensures !constructed
    {
      constructed := false;
    }
  }

  class MemoryPoolShared {
    var pool: seq<Slot>
    var size: int
    ghost const initSize: int
    ghost var live: set<Slot>
    ghost var freed: set<Slot>
    ghost var peak: nat
    ghost var released: bool

    ghost function View(): Pool<Slot>
      reads this
    {
      Pool(pool, live, freed, size, initSize, peak, released)
    }

    /** The invariant, and an object is alive in exactly the handed-out slots. */
    ghost predicate Valid()
      reads this, live, pool
    {
      && Inv(View())
      && (forall s :: s in live ==> s.constructed)
      && (forall s :: s in pool ==> !s.constructed)
    }

    constructor (initSize: int)
      ensures Valid() && fresh(ToSet(pool))
      ensures pool != [] <==> initSize >= 1
      ensures View() == NewPool(initSize, pool)
    {
      pool, size, this.initSize := [], initSize, initSize;
      live, freed, peak, released := {}, {}, 0, false;
      new;
      hide Inv, NewPool, NoDup, ToSet;
      var news := AllocateMemo();
      assert pool == news;
      NewPoolIs(initSize, news);
      assert View() == NewPool(initSize, pool);
    }

    /** size new slots at the end of the queue; then size doubles. */
    method AllocateMemo() returns (ghost news: seq<Slot>)
      modifies this`pool, this`size
      ensures |news| == Max(old(size), 0) && NoDup(news) && fresh(ToSet(news))
      ensures forall s :: s in news ==> fresh(s) && !s.constructed
      ensures pool == old(pool) + news && size == 2 * old(size)
    {
      news := [];
      var i := 0;
      while i < size
        invariant size == old(size) && 0 <= i && |news| == i <= Max(size, 0)
        invariant NoDup(news) && forall k :: 0 <= k < |news| ==> fresh(news[k]) && !news[k].constructed
        invariant pool == old(pool) + news
      {
        var slot := new Slot();
        pool := pool + [slot];
        news := news + [slot];
        i := i + 1;
      }
      size := size * 2;
    }

    /** outcome tells what the object's constructor and the shared_ptr do; null stands for the rethrown
        exception. After a failing shared_ptr, and only then, the pool is no longer valid. */
    method Get(outcome: Outcome) returns (slot: Slot?, ghost news: seq<Slot>)
      requires Valid() && initSize >= 1
      modifies this, pool
      ensures Valid() <==> outcome != ControlBlockThrows
      ensures old(pool) == [] ==> FreshFor(old(View()), news) && forall s :: s in news ==> fresh(s)
      ensures Refilled(old(View()), news).free != [] && View() == MemoryPoolSpec.Get(old(View()), news, outcome)
      ensures slot != null <==> outcome == Succeeds
      ensures slot != null ==> slot == Refilled(old(View()), news).free[0] && slot.constructed
    {
      hide FrontOut, Inv, Accounted, Allocated, Parted, FreshFor, Refilled, NoDup, ToSet;
      ghost var before := View();
      news := Refill();
      InvIs(before);
      RefillInv(before, news);
      GetInv(before, news, outcome);
      OutOrBack(View());
      assert pool[0] in pool;
      slot := TakeFront(outcome);
    }

    /** The refill at the start of get. */
    method Refill() returns (ghost news: seq<Slot>)
      requires Valid()
      modifies this`pool, this`size
      ensures old(pool) == [] ==> FreshFor(old(View()), news) && forall s :: s in news ==> fresh(s)
      ensures View() == Refilled(old(View()), news)
      ensures forall s :: s in pool ==> (s in old(pool) || fresh(s)) && !s.constructed
      ensures live == old(live) && forall s :: s in live ==> s.constructed
    {
      hide Inv, Parted;
      news := [];
      if pool == [] {
        news := AllocateMemo();
        assert [] + news == news;
      }
    }

    /** get, once the queue is not empty: the front slot goes out, or back if anything fails. */
    method TakeFront(outcome: Outcome) returns (slot: Slot?)
      requires pool != [] && pool[0] !in pool[1..] && pool[0] !in live
      requires (forall s :: s in live ==> s.constructed) && (forall s :: s in pool ==> !s.constructed)
      modifies this`pool, this`live, this`peak, pool[0]
      ensures View() == FrontOut(old(View()), outcome)
      ensures slot == if outcome == Succeeds then old(pool[0]) else null
      ensures slot != null ==> slot.constructed
      ensures (forall s :: s in live ==> s.constructed) && (forall s :: s in pool ==> !s.constructed)
    {
      var first := pool[0];
      pool := pool[1..];
      peak := Max(peak, |live| + 1);
      if outcome != ConstructorThrows {
        first.constructed := true;
        if outcome == Succeeds {
          live := live + {first};
          return first;
        }
        first.constructed := false;  // the deleter
        pool := pool + [first];
      }
      pool := pool + [first];  // the handler
      return null;
    }

    /** The deleter of a handed-out pointer; return_obj does the same. */
    method ReturnObj(slot: Slot)
      requires Valid() && slot in live
      modifies this`pool, this`live, slot
      ensures Valid() && View() == Release(old(View()), slot)
    {
      hide Inv;
      ReleaseInv(View(), slot);
      slot.constructed := false;
      pool := pool + [slot];
      live := live - {slot};
    }

    method ReleaseMemo()
      requires Valid()
      modifies this`pool, this`freed, this`released
      ensures Valid() && View() == MemoryPoolSpec.ReleaseMemo(old(View()))
    {
      hide MemoryPoolSpec.ReleaseMemo, Inv, Allocated, Parted, NoDup, ToSet;
      ghost var before := View();
      ReleaseMemoInv(before);
      var half := if size >= 0 then size / 2 else -(-size / 2);
      var count := |pool| - half;
      var i := 0;
      NothingGiven(before);
      while i < count && pool != []
        invariant 0 <= i <= |before.free| && pool == before.free[i..] && (i <= count || i == 0)
        invariant freed == before.freed + ToSet(before.free[..i])
        decreases |pool|
      {
        OneMoreGiven(before, i);
        freed := freed + {pool[0]};
        pool := pool[1..];
        i := i + 1;
      }
      released := true;
      MemoIs(before, i);
    }
  }

  lemma NewPoolIs<S>(initSize: int, news: seq<S>)
    requires |news| == Max(initSize, 0) && NoDup(news)
    ensures Inv(NewPool(initSize, news))
    ensures NewPool(initSize, news) == Pool(news, {}, {}, 2 * initSize, initSize, 0, false)
  {
    hide Inv;
    var none: Pool<S> := Pool([], {}, {}, initSize, initSize, 0, false);
    assert Allocated(none) == {};
    NewPoolInv(initSize, news);
    assert [] + news == news;
  }

  lemma InvIs<S>(p: Pool<S>)
    requires Inv(p)
    ensures Parted(p.free, p.live, p.freed) && Accounted(p)
  {
  }

  lemma NothingGiven<S>(p: Pool<S>)
    ensures p.free == p.free[0..] && p.freed == p.freed + ToSet(p.free[..0])
  {
  }

  lemma OneMoreGiven<S>(p: Pool<S>, i: nat)
    requires i < |p.free|
    ensures ToSet(p.free[..i + 1]) == ToSet(p.free[..i]) + {p.free[i]}
  {
    assert p.free[..i + 1] == p.free[..i] + [p.free[i]];
    SetOfSum(p.free[..i], [p.free[i]]);
    SetOfOne(p.free[i]);
  }

  lemma MemoIs<S>(p: Pool<S>, n: nat)
    requires n == Surplus(p)
    ensures MemoryPoolSpec.ReleaseMemo(p)
            == p.(free := p.free[n..], freed := p.freed + ToSet(p.free[..n]), released := true)
  {
  }
}
