/** What the callers of the bounded queue get: the items that write was called with are the items that
    enter the queue, and the items that leave it are those that read hands to its callers. */
module RingCalls {
  import opened RingMachine
  import opened RingTheorems

  // ---------- writers ----------

  /** The item that a thread in write still has to put. */
  function InHand(pc: WriterPc): seq<Item> {
    match pc
    case WWanting(item) => [item]
    case WTesting(item) => [item]
    case WDozing(item) => [item]
    case WAsleep(item) => [item]
    case WPutting(item) => [item]
    case _ => []
  }

  function CallOf(a: Action, w: nat): seq<Item> {
    if a.CallWrite? && a.w == w then [a.item] else []
  }

  /** The items of w's calls of write, in order. */
  function Calls(acts: seq<Action>, w: nat): seq<Item> {
    if acts == [] then [] else CallOf(acts[0], w) + Calls(acts[1..], w)
  }

  datatype Put = Put(writer: nat, item: Item)

  /** What a step adds to the history of written items, and who does it. */
  function PutOf(s: Ring, a: Action): seq<Put>
    requires Enabled(s, a)
  {
    var t := Apply(s, a);
    if a.PutItem? && |t.written| == |s.written| + 1 then [Put(a.w, t.written[|s.written|])] else []
  }

  function Puts(s: Ring, acts: seq<Action>): seq<Put>
    requires Legal(s, acts)
    decreases |acts|
  {
    if acts == [] then [] else PutOf(s, acts[0]) + Puts(Apply(s, acts[0]), acts[1..])
  }

  function ItemsOf(puts: seq<Put>): seq<Item> {
    seq(|puts|, k requires 0 <= k < |puts| => puts[k].item)
  }

  /** The items that w put. */
  function By(puts: seq<Put>, w: nat): seq<Item> {
    if puts == [] then [] else (if puts[0].writer == w then [puts[0].item] else []) + By(puts[1..], w)
  }

  lemma {:induction false} ByAppend(a: seq<Put>, b: seq<Put>, w: nat)
    ensures By(a + b, w) == By(a, w) + By(b, w)
  {
    if a == [] {
      assert a + b == b;
    } else {
      var first := if a[0].writer == w then [a[0].item] else [];
      assert (a + b)[1..] == a[1..] + b;
      ByAppend(a[1..], b, w);
      assert By(a + b, w) == first + (By(a[1..], w) + By(b, w));
    }
  }

  /** One step of anybody: w's item stays what it is until w itself puts it. */
  lemma StepCarries(s: Ring, a: Action, w: nat)
    requires SeenHolds(s) && Enabled(s, a) && w < |s.writers|
    ensures w < |Apply(s, a).writers|
    ensures InHand(s.writers[w]) + CallOf(a, w) == By(PutOf(s, a), w) + InHand(Apply(s, a).writers[w])
  {
    hide By, ReaderAsleep, WriterAsleep;
    ByFew(w);
    if a.PutItem? {
      var item := s.writers[a.w].item;
      assert PutOf(s, a) == [Put(a.w, item)];
      ByOne(a.w, item, w);
    } else if !a.CallWrite? {
      hide *;
      OthersCarry(s, a, w);
    }
  }

  lemma OthersCarry(s: Ring, a: Action, w: nat)
    requires Enabled(s, a) && w < |s.writers| && !a.PutItem? && !a.CallWrite?
    ensures w < |Apply(s, a).writers| && InHand(s.writers[w]) == InHand(Apply(s, a).writers[w])
    ensures CallOf(a, w) == [] && PutOf(s, a) == []
  {
    hide ReaderAsleep;
  }

  lemma ByFew(w: nat)
    ensures By([], w) == []
  {
  }

  lemma ByOne(writer: nat, item: Item, w: nat)
    ensures By([Put(writer, item)], w) == if writer == w then [item] else []
  {
    assert [Put(writer, item)][1..] == [];
  }

  /** Only writers that put add to the history, and they add exactly that. */
  lemma StepWrites(s: Ring, a: Action)
    requires SeenHolds(s) && Enabled(s, a)
    ensures Apply(s, a).written == s.written + ItemsOf(PutOf(s, a))
  {
  }

  /** Over every run: the items a writer was called with are, in order, those it has put and the one it
      is still in write with; and the items written are the items put. */
  lemma {:induction false} CallersItemsArePut(s: Ring, acts: seq<Action>, w: nat)
    requires Inv(s) && Legal(s, acts) && w < |s.writers|
    ensures w < |Run(s, acts).writers|
    ensures InHand(s.writers[w]) + Calls(acts, w) == By(Puts(s, acts), w) + InHand(Run(s, acts).writers[w])
    ensures Run(s, acts).written == s.written + ItemsOf(Puts(s, acts))
    decreases |acts|
  {
    hide Exclusive, SeenHolds, Sized, Fifo, ReadersWoken, WritersWoken, Enabled, Apply, InHand, CallOf, PutOf;
    if acts != [] {
      var a := acts[0];
      var t, now, later := Apply(s, a), PutOf(s, a), Puts(Apply(s, a), acts[1..]);
      StepKeepsInv(s, a);
      StepCarries(s, a, w);
      StepWrites(s, a);
      CallersItemsArePut(t, acts[1..], w);
      ByAppend(now, later, w);
      assert ItemsOf(now + later) == ItemsOf(now) + ItemsOf(later);
      Regroup(InHand(s.writers[w]), CallOf(a, w), Calls(acts[1..], w), By(now, w), InHand(t.writers[w]),
              By(later, w), InHand(Run(s, acts).writers[w]));
    }
  }

  lemma Regroup(hand: seq<Item>, call: seq<Item>, calls: seq<Item>, put: seq<Item>, next: seq<Item>,
                puts: seq<Item>, last: seq<Item>)
    requires hand + call == put + next && next + calls == puts + last
    ensures hand + (call + calls) == put + puts + last
  {
    assert hand + (call + calls) == (hand + call) + calls;
    assert (put + next) + calls == put + (next + calls);
  }

  /** From the start, then, what w has put is a beginning of what its callers gave it, short of at most
      the item it is still in write with. */
  lemma WritersItems(capacity: nat, readers: nat, writers: nat, acts: seq<Action>, w: nat)
    requires Legal(Initial(capacity, readers, writers), acts) && w < writers
    ensures var start := Initial(capacity, readers, writers);
            var t := Run(start, acts);
            && w < |t.writers|
            && Calls(acts, w) == By(Puts(start, acts), w) + InHand(t.writers[w])
            && t.written == ItemsOf(Puts(start, acts))
  {
    hide Calls, By, Puts, Inv, Run, Legal;
    var start := Initial(capacity, readers, writers);
    InitialInv(capacity, readers, writers);
    CallersItemsArePut(start, acts, w);
    assert InHand(start.writers[w]) + Calls(acts, w) == Calls(acts, w);
    assert start.written + ItemsOf(Puts(start, acts)) == ItemsOf(Puts(start, acts));
  }

  // ---------- readers ----------

  /** What a read answers with at this step, if it ends its wait with an item. */
  function ReadOf(s: Ring, a: Action): seq<Item>
    requires Enabled(s, a)
  {
    if a.TakeItem? && Apply(s, a).readers[a.r].ROwing? then [Apply(s, a).readers[a.r].item] else []
  }

  /** The items that read hands out in the run, to whichever reader. */
  function Reads(s: Ring, acts: seq<Action>): seq<Item>
    requires Legal(s, acts)
    decreases |acts|
  {
    if acts == [] then [] else ReadOf(s, acts[0]) + Reads(Apply(s, acts[0]), acts[1..])
  }

  /** The items that were taken, as opposed to cleared. */
  function TakenOf(gone: seq<Fate>): seq<Item> {
    if gone == [] then [] else (if gone[0].Taken? then [gone[0].item] else []) + TakenOf(gone[1..])
  }

  lemma {:induction false} TakenAppend(a: seq<Fate>, b: seq<Fate>)
    ensures TakenOf(a + b) == TakenOf(a) + TakenOf(b)
  {
    if a == [] {
      assert a + b == b;
    } else {
      var first := if a[0].Taken? then [a[0].item] else [];
      assert (a + b)[1..] == a[1..] + b;
      TakenAppend(a[1..], b);
      assert TakenOf(a + b) == first + (TakenOf(a[1..]) + TakenOf(b));
    }
  }

  lemma {:induction false} NoneTaken(buf: seq<Item>)
    ensures TakenOf(AllCleared(buf)) == []
  {
    if buf != [] {
      assert AllCleared(buf)[1..] == AllCleared(buf[1..]);
      NoneTaken(buf[1..]);
    }
  }

  lemma StepReads(s: Ring, a: Action)
    requires Enabled(s, a)
    ensures TakenOf(Apply(s, a).gone) == TakenOf(s.gone) + ReadOf(s, a)
  {
    if a.TakeItem? && s.buf != [] {
      TakenAppend(s.gone, [Taken(s.buf[0])]);
      assert [Taken(s.buf[0])][1..] == [];
    } else if a.ClearAll? {
      TakenAppend(s.gone, AllCleared(s.buf));
      NoneTaken(s.buf);
    }
  }

  /** Over every run: the items that read hands out are, in order, the items that were taken. */
  lemma {:induction false} ReadersGetWhatIsTaken(s: Ring, acts: seq<Action>)
    requires Legal(s, acts)
    ensures TakenOf(Run(s, acts).gone) == TakenOf(s.gone) + Reads(s, acts)
    decreases |acts|
  {
    hide Enabled, Apply, ReadOf, TakenOf;
    if acts != [] {
      StepReads(s, acts[0]);
      ReadersGetWhatIsTaken(Apply(s, acts[0]), acts[1..]);
    }
  }

  // ---------- how many fit ----------

  /** A queue made for so many items, readers and writers: no run ever holds more. */
  lemma NeverMoreThanCapacity(capacity: nat, readers: nat, writers: nat, acts: seq<Action>)
    requires Legal(Initial(capacity, readers, writers), acts)
    ensures var t := Run(Initial(capacity, readers, writers), acts);
            |t.buf| <= capacity && |t.readers| == readers && |t.writers| == writers
  {
    InitialInv(capacity, readers, writers);
    RunKeepsInv(Initial(capacity, readers, writers), acts);
  }

  /** The state in which writer 0 is there with this item and the rest is as in s. */
  function WriterIs(s: Ring, pc: WriterPc, owner: Owner): Ring
    requires s.writers != []
  {
    s.(writers := s.writers[0 := pc], owner := owner)
  }

  function WithOneMore(s: Ring, item: Item): Ring {
    s.(buf := s.buf + [item], size := s.size + 1, written := s.written + [item])
  }

  /** Nobody is on the way or asleep. */
  predicate Quiet(s: Ring) {
    s.owner == Free && s.writers != [] && s.writers[0] == WAway && !ReaderAsleep(s)
  }

  lemma IntoWrite(s: Ring, item: Item)
    requires Quiet(s) && s.size < s.capacity
    ensures var s1 := WriterIs(s, WWanting(item), Free);
            var s2 := WriterIs(s, WTesting(item), ByWriter(0));
            var s3 := WriterIs(s, WPutting(item), ByWriter(0));
            && Enabled(s, CallWrite(0, item)) && Apply(s, CallWrite(0, item)) == s1
            && Enabled(s1, WriterLock(0)) && Apply(s1, WriterLock(0)) == s2
            && Enabled(s2, WriterTest(0)) && Apply(s2, WriterTest(0)) == s3
  {
    hide ReaderAsleep;
  }

  lemma OutOfWrite(s: Ring, item: Item)
    requires Quiet(s) && s.size < s.capacity
    ensures var s3 := WriterIs(s, WPutting(item), ByWriter(0));
            var s4, t := WriterIs(WithOneMore(s, item), WOwing, Free), WithOneMore(s, item);
            && Enabled(s3, PutItem(0)) && Apply(s3, PutItem(0)) == s4
            && Enabled(s4, NotifyReader(0, 0)) && Apply(s4, NotifyReader(0, 0)) == t && Quiet(t)
  {
    assert s.writers[0 := WAway] == s.writers;
  }

  /** Writer 0 alone puts one item and is back. */
  lemma PutsOne(s: Ring, item: Item, rest: seq<Action>) returns (acts: seq<Action>)
    requires Quiet(s) && s.size < s.capacity && Legal(WithOneMore(s, item), rest)
    ensures Legal(s, acts) && Run(s, acts) == Run(WithOneMore(s, item), rest)
  {
    hide Apply, Enabled, Legal, Run, Quiet;
    IntoWrite(s, item);
    OutOfWrite(s, item);
    var s1 := WriterIs(s, WWanting(item), Free);
    var s2 := WriterIs(s, WTesting(item), ByWriter(0));
    var s3 := WriterIs(s, WPutting(item), ByWriter(0));
    var s4, t := WriterIs(WithOneMore(s, item), WOwing, Free), WithOneMore(s, item);
    acts := PrependStep(s4, NotifyReader(0, 0), t, rest);
    acts := PrependStep(s3, PutItem(0), s4, acts);
    acts := PrependStep(s2, WriterTest(0), s3, acts);
    acts := PrependStep(s1, WriterLock(0), s2, acts);
    acts := PrependStep(s, CallWrite(0, item), s1, acts);
  }

  lemma {:induction false} FillsFrom(s: Ring) returns (acts: seq<Action>)
    requires Quiet(s) && s.size == |s.buf| <= s.capacity
    ensures Legal(s, acts) && |Run(s, acts).buf| == s.capacity
    decreases s.capacity - s.size
  {
    hide Legal, Run, Apply, Enabled;
    if s.size == s.capacity {
      acts := EmptyRun(s);
    } else {
      var rest := FillsFrom(WithOneMore(s, 0));
      acts := PutsOne(s, 0, rest);
    }
  }

  /** And it can really be filled with that many. */
  lemma HoldsItsCapacity(capacity: nat, readers: nat, writers: nat) returns (acts: seq<Action>)
    requires writers >= 1
    ensures Legal(Initial(capacity, readers, writers), acts)
    ensures |Run(Initial(capacity, readers, writers), acts).buf| == capacity
  {
    acts := FillsFrom(Initial(capacity, readers, writers));
  }
}
