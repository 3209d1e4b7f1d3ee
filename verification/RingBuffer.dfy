/** The queue object's own critical sections over buf_, size_ and stopped, each one the step of
    RingMachine that carries its name. */
module RingBuffer {
  import opened Basics
  import opened RingMachine

  class RingBuffer {
    var buf: seq<Item>
    var size: nat
    var stopped: bool
    const capacity: nat
    ghost var machine: Ring  // these fields together with all threads and the history

    ghost predicate Valid()
      reads this
    {
      && machine.buf == buf && machine.size == size && machine.capacity == capacity && machine.stopped == stopped
      && Inv(machine)
    }

    constructor (capacity: nat, ghost readers: nat, ghost writers: nat)
      ensures Valid() && machine == Initial(capacity, readers, writers) && this.capacity == capacity
    {
      buf, size, stopped, this.capacity := [], 0, false, capacity;
      machine := Initial(capacity, readers, writers);
      new;
      InitialInv(capacity, readers, writers);
    }

    /** read after its wait, up to the unlock; None stands for false. */
    method ReadLocked(ghost r: nat) returns (data: Option<Item>)
      requires Valid() && ReaderAt(machine, r, RTaking)
      modifies this
      ensures Valid() && old(Enabled(machine, TakeItem(r))) && machine == Apply(old(machine), TakeItem(r))
      ensures data == None <==> old(stopped) && old(buf) == []
      ensures machine.readers[r] == if data.Some? then ROwing(data.value) else RAway
      ensures if data.Some? then old(buf) == [data.value] + buf && size == old(size) - 1 else buf == [] && size == 0
    {
      TakeIsEnabled(machine, r);
      StepKeepsInv(machine, TakeItem(r));
      machine := Apply(machine, TakeItem(r));
      if size == 0 && stopped {
        return None;
      }
      data := Some(buf[0]);
      buf := buf[1..];
      size := size - 1;
    }

    /** write after its wait, up to the unlock; it never answers false. */
    method WriteLocked(ghost w: nat, d: Item) returns (ok: bool)
      requires Valid() && w < |machine.writers| && machine.writers[w] == WPutting(d)
      modifies this
      ensures Valid() && machine == Apply(old(machine), PutItem(w))
      ensures ok && buf == old(buf) + [d] && size == |buf| <= capacity
    {
      StepKeepsInv(machine, PutItem(w));
      machine := Apply(machine, PutItem(w));
      if capacity <= size && stopped {
        return false;
      }
      buf := buf + [d];
      size := size + 1;
      return true;
    }

    /** clear, under its lock: pops until nothing is left. */
    method ClearLocked(ghost w: nat)
      requires Valid() && w < |machine.writers| && machine.writers[w] == Clearing
      modifies this
      ensures Valid() && old(Enabled(machine, ClearAll(w))) && machine == Apply(old(machine), ClearAll(w))
      ensures buf == [] && size == 0
    {
      StepKeepsInv(machine, ClearAll(w));
      machine := Apply(machine, ClearAll(w));
      while buf != []
        invariant size == |buf|
        invariant stopped == old(stopped) && machine == Apply(old(machine), ClearAll(w))
        decreases |buf|
      {
        buf := buf[1..];
        size := size - 1;
      }
    }

    /** The first of stop's three steps, without the lock. */
    method SetStopFlag()
      requires Valid() && machine.stopper == NotStopped
      modifies this
      ensures Valid() && machine == Apply(old(machine), SetStopped)
      ensures stopped && buf == old(buf) && size == old(size)
    {
      StepKeepsInv(machine, SetStopped);
      machine := Apply(machine, SetStopped);
      stopped := true;
    }
  }

  lemma TakeIsEnabled(s: Ring, r: nat)
    requires Inv(s) && ReaderAt(s, r, RTaking)
    ensures Enabled(s, TakeItem(r))
  {
  }
}
