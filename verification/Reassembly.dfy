/** Server to client, receiving side as a value: what handle_packet and merge_packets of
    socket/Socket/Client_Socket.cpp do with one packet after the other. */
module Reassembly {
  import opened Basics
  import opened Bytes
  import opened Framing
  import opened Ordered

  /** What is kept for one message id: its JSON size and its fragments by number. */
  datatype Store = Store(jsonSize: uint32, fragments: map<uint32, seq<byte>>)

  /** One call of handle_data, tagged with the message it is for. */
  datatype Delivery = Delivery(id: uint32, jsonSize: uint32, data: seq<byte>)

  datatype Inbox = Inbox(stores: map<uint32, Store>, delivered: seq<Delivery>)

  /** The fragment numbers 0 to n-1. */
  function Below(n: nat): (r: set<uint32>)
    requires n <= TWO_32
    ensures forall k: uint32 :: k in r <==> k < n
    ensures |r| == n
  {
    if n == 0 then {} else Below(n - 1) + {n - 1}
  }

  /** Fragments 0 to n-1, end to end. */
  function Joined(fragments: map<uint32, seq<byte>>, n: nat): seq<byte>
    requires HasAll(fragments.Keys, n)
  {
    if n == 0 then [] else Joined(fragments, n - 1) + fragments[n - 1]
  }

  /** What merge_packets means: the keys must be exactly 0 to n-1. */
  function Merge(fragments: map<uint32, seq<byte>>): Option<seq<byte>> {
    if HasAll(fragments.Keys, |fragments|) then Some(Joined(fragments, |fragments|)) else None
  }

  function StoreOf(i: Inbox, p: Packet): Store {
    var old0 := if p.header.id in i.stores then i.stores[p.header.id] else Store(p.header.jsonSize, map[]);
    old0.(fragments := old0.fragments[p.header.fragment := p.body])
  }

  /** A store that has just been filled is handed on, if it merges; it is never removed. */
  function Handed(id: uint32, s: Store, count: uint32): seq<Delivery> {
    if |s.fragments| == count && Merge(s.fragments).Some?
    then [Delivery(id, s.jsonSize, Merge(s.fragments).value)] else []
  }

  function Handle(i: Inbox, p: Packet): Inbox {
    var s := StoreOf(i, p);
    Inbox(i.stores[p.header.id := s], i.delivered + Handed(p.header.id, s, p.header.count))
  }

  function HandleAll(i: Inbox, ps: seq<Packet>): Inbox {
    if ps == [] then i else Handle(HandleAll(i, ps[..|ps| - 1]), ps[|ps| - 1])
  }

  lemma {:induction false} HandleAllAppend(i: Inbox, a: seq<Packet>, b: seq<Packet>)
    ensures HandleAll(i, a + b) == HandleAll(HandleAll(i, a), b)
  {
    if b == [] {
      assert a + b == a;
    } else {
      assert (a + b)[..|a + b| - 1] == a + b[..|b| - 1];
      HandleAllAppend(i, a, b[..|b| - 1]);
    }
  }

  // ---------- finite sets of fragment numbers ----------

  /** As many numbers below n as there are: all of them. */
  lemma FullSet(keys: set<uint32>, n: nat)
    requires n <= TWO_32 && keys <= Below(n) && |keys| == n
    ensures keys == Below(n)
  {
    if keys != Below(n) {
      var k :| k in Below(n) && k !in keys;
      assert keys <= Below(n) - {k};
      SmallerSet(keys, Below(n) - {k});
    }
  }

  lemma SmallerSet<T>(a: set<T>, b: set<T>)
    requires a <= b
    ensures |a| <= |b|
  {
    if a != {} {
      var x :| x in a;
      SmallerSet(a - {x}, b - {x});
    }
  }

  /** merge_packets succeeds exactly on the keys 0 to n-1. */
  lemma MergeSucceeds(fragments: map<uint32, seq<byte>>)
    ensures |fragments| <= TWO_32
    ensures Merge(fragments).Some? <==> fragments.Keys == Below(|fragments|)
  {
    var n := |fragments|;
    assert n == |fragments.Keys|;
    AllBelow(fragments.Keys);
    if HasAll(fragments.Keys, n) {
      assert Below(n) <= fragments.Keys;
      if fragments.Keys != Below(n) {
        var k :| k in fragments.Keys && k !in Below(n);
        SmallerSet(Below(n), fragments.Keys - {k});
      }
    }
  }

  lemma AllBelow(keys: set<uint32>)
    ensures |keys| <= TWO_32
  {
    SmallerSet(keys, Below(TWO_32));
  }

  // ---------- one message among many ----------

  function OnlyId(ps: seq<Packet>, id: uint32): seq<Packet> {
    if ps == [] then []
    else OnlyId(ps[..|ps| - 1], id) + (if ps[|ps| - 1].header.id == id then [ps[|ps| - 1]] else [])
  }

  function DeliveredFor(ds: seq<Delivery>, id: uint32): seq<Delivery> {
    if ds == [] then []
    else DeliveredFor(ds[..|ds| - 1], id) + (if ds[|ds| - 1].id == id then [ds[|ds| - 1]] else [])
  }

  lemma DeliveredForMore(ds: seq<Delivery>, more: seq<Delivery>, id: uint32)
    requires |more| <= 1
    ensures DeliveredFor(ds + more, id) == DeliveredFor(ds, id) + (if more != [] && more[0].id == id then more else [])
  {
    if more == [] {
      assert ds + more == ds;
    } else {
      assert (ds + more)[..|ds + more| - 1] == ds;
    }
  }

  /** The part of an inbox that concerns one id. */
  datatype Lane = Lane(store: Option<Store>, delivered: seq<Delivery>)

  function LaneOf(i: Inbox, id: uint32): Lane {
    Lane(if id in i.stores then Some(i.stores[id]) else None, DeliveredFor(i.delivered, id))
  }

  function Fill(l: Lane, p: Packet): Store {
    var old0 := if l.store.Some? then l.store.value else Store(p.header.jsonSize, map[]);
    old0.(fragments := old0.fragments[p.header.fragment := p.body])
  }

  function LaneStep(l: Lane, p: Packet): Lane {
    var s := Fill(l, p);
    Lane(Some(s), l.delivered + Handed(p.header.id, s, p.header.count))
  }

  function LaneRun(l: Lane, ps: seq<Packet>): Lane {
    if ps == [] then l else LaneStep(LaneRun(l, ps[..|ps| - 1]), ps[|ps| - 1])
  }

  /** Packets of different messages do not disturb each other: an id's store and deliveries are
      what its own packets alone would have produced. */
  lemma {:induction false} LanesAreIndependent(i: Inbox, ps: seq<Packet>, id: uint32)
    ensures LaneOf(HandleAll(i, ps), id) == LaneRun(LaneOf(i, id), OnlyId(ps, id))
  {
    if ps != [] {
      var front, p := ps[..|ps| - 1], ps[|ps| - 1];
      LanesAreIndependent(i, front, id);
      var before := HandleAll(i, front);
      var s := StoreOf(before, p);
      DeliveredForMore(before.delivered, Handed(p.header.id, s, p.header.count), id);
      if p.header.id == id {
        assert OnlyId(ps, id)[..|OnlyId(ps, id)| - 1] == OnlyId(front, id);
      } else {
        assert OnlyId(ps, id) == OnlyId(front, id);
      }
    }
  }

  // ---------- what a lane holds and hands on ----------

  const NEW_LANE: Lane := Lane(None, [])

  /** The fragment numbers that have come. */
  function Numbers(ps: seq<Packet>): set<uint32> {
    set j | 0 <= j < |ps| :: ps[j].header.fragment
  }

  /** What the last packet with this number brought. */
  function Latest(ps: seq<Packet>, k: uint32): seq<byte>
    requires k in Numbers(ps)
  {
    var last := ps[|ps| - 1];
    if last.header.fragment == k then last.body
    else
      NumbersBefore(ps, k);
      Latest(ps[..|ps| - 1], k)
  }

  lemma NumbersBefore(ps: seq<Packet>, k: uint32)
    requires ps != []
    ensures k in Numbers(ps) <==> ps[|ps| - 1].header.fragment == k || k in Numbers(ps[..|ps| - 1])
  {
    var front := ps[..|ps| - 1];
    if k in Numbers(front) {
      var j :| 0 <= j < |front| && front[j].header.fragment == k;
      assert ps[j].header.fragment == k;
    }
    if k in Numbers(ps) && ps[|ps| - 1].header.fragment != k {
      var j :| 0 <= j < |ps| && ps[j].header.fragment == k;
      assert front[j].header.fragment == k;
    }
  }

  /** Packets of one id, whatever they are: the JSON size is that of the first, and under each number
      that has come lies the body that came last. */
  lemma {:induction false} StoreMeans(ps: seq<Packet>)
    requires ps != []
    ensures var s := LaneRun(NEW_LANE, ps).store;
            && s.Some? && s.value.jsonSize == ps[0].header.jsonSize
            && (forall k :: k in s.value.fragments <==> k in Numbers(ps))
            && forall k :: k in s.value.fragments ==> s.value.fragments[k] == Latest(ps, k)
  {
    hide Numbers, Handed;
    var front, p := ps[..|ps| - 1], ps[|ps| - 1];
    if front == [] {
      assert Numbers(front) == {} by {
        NoNumbers();
      }
    } else {
      StoreMeans(front);
    }
    forall k ensures k in Numbers(ps) <==> p.header.fragment == k || k in Numbers(front) {
      NumbersBefore(ps, k);
    }
  }

  lemma NoNumbers()
    ensures Numbers([]) == {}
  {
  }

  lemma {:induction false} JoinedMeans(fragments: map<uint32, seq<byte>>, n: nat)
    requires HasAll(fragments.Keys, n)
    ensures Joined(fragments, n)
            == Flatten(seq(n, i requires 0 <= i < n && HasAll(fragments.Keys, n) => fragments[i]))
  {
    if n > 0 {
      JoinedMeans(fragments, n - 1);
      var front := seq(n - 1, i requires 0 <= i < n - 1 && HasAll(fragments.Keys, n - 1) => fragments[i]);
      assert n - 1 in fragments;
      FlattenOneMore(front, fragments[n - 1]);
      assert seq(n, i requires 0 <= i < n && HasAll(fragments.Keys, n) => fragments[i]) == front + [fragments[n - 1]];
    }
  }

  /** A packet hands something on exactly when the numbers that have come, its own among them, are 0 to
      n-1 for the count n that it announces itself: the latest bodies, end to end, with the first
      packet's JSON size. */
  lemma HandedOnMeans(front: seq<Packet>, p: Packet)
    ensures var ps, n := front + [p], p.header.count;
            LaneRun(NEW_LANE, ps).delivered
            == LaneRun(NEW_LANE, front).delivered
               + if Numbers(ps) != Below(n) then []
                 else [Delivery(p.header.id, ps[0].header.jsonSize,
                                Flatten(seq(n, k requires 0 <= k < n && k in Numbers(ps) => Latest(ps, k))))]
  {
    hide Numbers, Latest, Below, Merge, Fill;
    var ps, n := front + [p], p.header.count;
    assert ps[..|ps| - 1] == front;
    StoreMeans(ps);
    var s := LaneRun(NEW_LANE, ps).store.value;
    MergeSucceeds(s.fragments);
    SameKeys(s.fragments, Numbers(ps));
    if Numbers(ps) == Below(n) {
      MergeIsJoined(s.fragments, n);
      JoinedMeans(s.fragments, n);
      assert seq(n, i requires 0 <= i < n && HasAll(s.fragments.Keys, n) => s.fragments[i])
             == seq(n, k requires 0 <= k < n && k in Numbers(ps) => Latest(ps, k));
    }
  }

  lemma SameKeys<V>(m: map<uint32, V>, keys: set<uint32>)
    requires forall k :: k in m <==> k in keys
    ensures m.Keys == keys && |m| == |keys|
  {
    assert m.Keys == keys;
    assert |m| == |m.Keys|;
  }

  lemma MergeIsJoined(fragments: map<uint32, seq<byte>>, n: nat)
    requires n <= TWO_32 && fragments.Keys == Below(n)
    ensures |fragments| == n && HasAll(fragments.Keys, n) && Merge(fragments) == Some(Joined(fragments, n))
  {
    assert |fragments| == |fragments.Keys|;
  }
}
