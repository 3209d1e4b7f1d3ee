/** Server to client, end to end: what the client hands on of the messages the server sent. */
module ChatDelivery {
  import opened Basics
  import opened Bytes
  import opened Framing
  import opened Ordered
  import opened ServerSend
  import opened Reassembly

  /** What the client hands on for a message when the first `slices` slices of it were joined. */
  function Prefix(m: Message, slices: nat): seq<byte> {
    m.Text()[..Min(slices * PAYLOAD, |m.Text()|)]
  }

  function DeliveryOf(m: Message, slices: nat): Delivery {
    Delivery(m.id, U32(|m.header|), Prefix(m, slices))
  }

  ghost predicate HoldsSlices(m: Message, fragments: map<uint32, seq<byte>>) {
    forall k :: k in fragments ==> fragments[k] == Slice(m.Text(), k)
  }

  lemma {:induction false} JoinedSlices(m: Message, fragments: map<uint32, seq<byte>>, n: nat)
    requires HoldsSlices(m, fragments) && HasAll(fragments.Keys, n)
    ensures Joined(fragments, n) == Prefix(m, n)
  {
    hide Prefix, Slice;
    if n == 0 {
      NoPrefix(m);
    } else {
      JoinedSlices(m, fragments, n - 1);
      assert n - 1 in fragments;
      PrefixGrows(m, n - 1);
    }
  }

  lemma NoPrefix(m: Message)
    ensures Prefix(m, 0) == []
  {
  }

  lemma PrefixGrows(m: Message, n: nat)
    ensures Prefix(m, n + 1) == Prefix(m, n) + Slice(m.Text(), n)
  {
  }

  // ---------- fragments in the order they were sent ----------

  /** The fragments kept after n arrivals: complete up to the announced count, overfull beyond. */
  ghost predicate KeptAfter(m: Message, n: nat, fragments: map<uint32, seq<byte>>) {
    var count := Announced(|m.Text()|);
    && (n <= count ==> HoldsSlices(m, fragments) && fragments.Keys == Below(n))
    && (n > count ==> |fragments| > count)
  }

  ghost predicate StoreAfter(m: Message, n: nat, s: Option<Store>) {
    if n == 0 then s == None
    else s.Some? && s.value.jsonSize == U32(|m.header|) && KeptAfter(m, n, s.value.fragments)
  }

  /** In-order arrival: one delivery, at the announced count, of the slices up to it; none when the
      announced count is zero in 32 bits. */
  lemma {:induction false} InOrderLane(m: Message, n: nat)
    requires n <= Sent(|m.Text()|)
    ensures var count, l := Announced(|m.Text()|), LaneRun(NEW_LANE, Fragments(m, n));
            && StoreAfter(m, n, l.store)
            && l.delivered == if 1 <= count <= n then [DeliveryOf(m, count)] else []
  {
    hide Fragment, LaneStep, KeptAfter, Announced, Sent;
    var ps := Fragments(m, n);
    if n > 0 {
      InOrderLane(m, n - 1);
      assert ps[..n - 1] == Fragments(m, n - 1);
      InOrderStep(m, n - 1, LaneRun(NEW_LANE, Fragments(m, n - 1)));
    }
  }

  lemma InOrderStep(m: Message, n: nat, l: Lane)
    requires n < Sent(|m.Text()|) && StoreAfter(m, n, l.store)
    ensures var count, after := Announced(|m.Text()|), LaneStep(l, Fragment(m, n));
            && StoreAfter(m, n + 1, after.store)
            && after.delivered == l.delivered + (if count == n + 1 then [DeliveryOf(m, count)] else [])
  {
    hide Slice, Announced, KeptAfter, Handed, U32;
    var before := if l.store.Some? then l.store.value.fragments else map[];
    NothingKept(m);
    KeepOneMore(m, n, before);
    assert Fill(l, Fragment(m, n)) == Store(U32(|m.header|), before[U32(n) := Slice(m.Text(), n)]);
  }

  lemma NothingKept(m: Message)
    ensures KeptAfter(m, 0, map[])
  {
  }

  lemma KeepOneMore(m: Message, n: nat, before: map<uint32, seq<byte>>)
    requires n < Sent(|m.Text()|) && KeptAfter(m, n, before)
    ensures var count := Announced(|m.Text()|);
            var after := before[U32(n) := Slice(m.Text(), n)];
            && KeptAfter(m, n + 1, after)
            && Handed(m.id, Store(U32(|m.header|), after), count)
               == if count == n + 1 then [DeliveryOf(m, count)] else []
  {
    hide Slice, Announced, Sent, U32, Merge, HoldsSlices, Below;
    var count, after := Announced(|m.Text()|), before[U32(n) := Slice(m.Text(), n)];
    MapGrows(before, U32(n), Slice(m.Text(), n));
    if n <= count {
      SmallU32(n, count);
      if n < count {
        KeepNext(m, n, before);
        if n + 1 == count {
          CompleteMerges(m, after, count);
        }
      }
    }
  }

  lemma SmallU32(n: nat, count: uint32)
    requires n <= count
    ensures U32(n) == n
  {
  }

  lemma MapGrows<K, V>(before: map<K, V>, k: K, v: V)
    ensures var after := before[k := v];
            |after| == if k in before then |before| else |before| + 1
  {
    var after := before[k := v];
    assert after.Keys == before.Keys + {k};
    assert |after| == |after.Keys| && |before| == |before.Keys|;
  }

  lemma KeepNext(m: Message, n: nat, before: map<uint32, seq<byte>>)
    requires n < Sent(|m.Text()|) && n < TWO_32 && HoldsSlices(m, before) && before.Keys == Below(n)
    ensures var after := before[n := Slice(m.Text(), n)];
            HoldsSlices(m, after) && after.Keys == Below(n + 1) && |after| == n + 1
  {
    hide Slice, Sent;
    var after := before[n := Slice(m.Text(), n)];
    assert after.Keys == before.Keys + {n};
    assert |after| == |after.Keys|;
  }

  /** With all the announced fragments there, the slices are joined and handed on. */
  lemma CompleteMerges(m: Message, fragments: map<uint32, seq<byte>>, count: uint32)
    requires HoldsSlices(m, fragments) && fragments.Keys == Below(count) && |fragments| == count
    ensures Merge(fragments) == Some(Prefix(m, count))
  {
    assert HasAll(fragments.Keys, count);
    JoinedSlices(m, fragments, count);
  }

  // ---------- fragments in any order, with repeats ----------

  /** Only fragment numbers below n. */
  predicate InRange(order: seq<uint32>, n: nat) {
    forall j :: 0 <= j < |order| ==> order[j] < n
  }

  function Arrivals(m: Message, order: seq<uint32>): seq<Packet>
    requires InRange(order, Sent(|m.Text()|))
  {
    seq(|order|, j requires 0 <= j < |order| => Fragment(m, order[j]))
  }

  function Seen(order: seq<uint32>): set<uint32> {
    set k | k in order
  }

  /** How many arrivals leave the store with n different fragments. */
  function Completions(order: seq<uint32>, n: nat): nat {
    if order == [] then 0
    else Completions(order[..|order| - 1], n) + (if |Seen(order)| == n then 1 else 0)
  }

  function Repeat<T>(x: T, n: nat): seq<T> {
    seq(n, _ => x)
  }

  function Whole(m: Message): Delivery {
    Delivery(m.id, U32(|m.header|), m.Text())
  }

  ghost predicate StoreSeen(m: Message, order: seq<uint32>, s: Option<Store>) {
    if order == [] then s == None
    else
      && s.Some? && s.value.jsonSize == U32(|m.header|)
      && HoldsSlices(m, s.value.fragments) && s.value.fragments.Keys == Seen(order)
  }

  /** Reassembly in full: when the count matches, every arrival that finds (or makes) the fragments
      complete hands on the whole text; no other does. */
  lemma {:induction false} ArrivalLaw(m: Message, order: seq<uint32>)
    requires |m.Text()| >= 1 && Fits(|m.Text()|) && InRange(order, Sent(|m.Text()|))
    ensures var l := LaneRun(NEW_LANE, Arrivals(m, order));
            && StoreSeen(m, order, l.store)
            && l.delivered == Repeat(Whole(m), Completions(order, Sent(|m.Text()|)))
  {
    hide Fragment, Sent, Fits, HoldsSlices, Seen, LaneStep, Whole;
    if order != [] {
      var front, last := order[..|order| - 1], order[|order| - 1];
      ArrivalLaw(m, front);
      assert Arrivals(m, order)[..|order| - 1] == Arrivals(m, front);
      assert order == front + [last];
      ArrivalStep(m, front, last, LaneRun(NEW_LANE, Arrivals(m, front)));
      RepeatMore(Whole(m), Completions(front, Sent(|m.Text()|)));
    }
  }

  lemma RepeatMore<T>(x: T, n: nat)
    ensures Repeat(x, n + 1) == Repeat(x, n) + [x]
  {
  }

  lemma ArrivalStep(m: Message, front: seq<uint32>, last: uint32, l: Lane)
    requires |m.Text()| >= 1 && Fits(|m.Text()|) && InRange(front, Sent(|m.Text()|)) && last < Sent(|m.Text()|)
    requires StoreSeen(m, front, l.store)
    ensures var after := LaneStep(l, Fragment(m, last));
            && StoreSeen(m, front + [last], after.store)
            && after.delivered == l.delivered + if |Seen(front + [last])| == Sent(|m.Text()|) then [Whole(m)] else []
  {
    hide Slice, Announced, Sent, Fits, U32, Seen, HoldsSlices, Prefix, Merge;
    FragmentCount(|m.Text()|);
    SmallU32(last, Announced(|m.Text()|));
    var n, s := Sent(|m.Text()|), Fill(l, Fragment(m, last));
    var before := if l.store.Some? then l.store.value.fragments else map[];
    SeenMore(front, last);
    assert s.fragments == before[last := Slice(m.Text(), last)];
    KeepSlice(m, before, last);
    if |s.fragments| == n {
      SeenInRange(front + [last], n);
      FullSet(s.fragments.Keys, n);
      CompleteMerges(m, s.fragments, n);
      WholePrefix(m);
    }
  }

  lemma SeenMore(front: seq<uint32>, last: uint32)
    ensures Seen([]) == {} && Seen(front + [last]) == Seen(front) + {last}
  {
  }

  lemma SeenInRange(order: seq<uint32>, n: nat)
    requires InRange(order, n) && n <= TWO_32
    ensures Seen(order) <= Below(n)
  {
  }

  lemma KeepSlice(m: Message, before: map<uint32, seq<byte>>, k: uint32)
    requires before == map[] || HoldsSlices(m, before)
    ensures var after := before[k := Slice(m.Text(), k)];
            HoldsSlices(m, after) && after.Keys == before.Keys + {k} && |after| == |after.Keys|
  {
  }

  /** The announced slices make up the whole text exactly when the message fits. */
  lemma WholePrefix(m: Message)
    requires |m.Text()| >= 1
    ensures Prefix(m, Sent(|m.Text()|)) == m.Text()
    ensures Prefix(m, Announced(|m.Text()|)) == m.Text() <==> Fits(|m.Text()|)
  {
    hide Fits, Announced;
    var len := |m.Text()|;
    FragmentCount(len);
    if Announced(len) < Sent(len) {
      assert |Prefix(m, Announced(len))| < len;
    }
  }

  lemma {:induction false} NotYetComplete(order: seq<uint32>, n: nat)
    requires |Seen(order)| < n
    ensures Completions(order, n) == 0
  {
    if order != [] {
      var front := order[..|order| - 1];
      SmallerSet(Seen(front), Seen(order));
      NotYetComplete(front, n);
    }
  }

  /** Handed on exactly once: the last arrival is the one that brings the last missing fragment. */
  lemma OnceExactlyWhenLastIsNew(order: seq<uint32>, n: nat)
    requires n >= 1 && InRange(order, n)
    ensures Completions(order, n) == 1 <==> order != [] && |Seen(order)| == n && |Seen(order[..|order| - 1])| < n
  {
    if order != [] {
      var front := order[..|order| - 1];
      AtMostBelow(order, n);
      AtMostBelow(front, n);
      SmallerSet(Seen(front), Seen(order));
      if |Seen(order)| < n {
        NotYetComplete(order, n);
      } else if |Seen(front)| < n {
        NotYetComplete(front, n);
      } else {
        CompletedBefore(front, n);
      }
    }
  }

  lemma AtMostBelow(order: seq<uint32>, n: nat)
    requires InRange(order, n)
    ensures |Seen(order)| <= n
  {
    if n <= TWO_32 {
      SmallerSet(Seen(order), Below(n));
    } else {
      AllBelow(Seen(order));
    }
  }

  lemma CompletedBefore(order: seq<uint32>, n: nat)
    requires n >= 1 && |Seen(order)| == n
    ensures Completions(order, n) >= 1
  {
    assert Seen([]) == {};
  }

  // ---------- many messages, one stream ----------

  /** The fragments of m arrive among the packets in the order they were sent. */
  ghost predicate InOrder(packets: seq<Packet>, m: Message) {
    OnlyId(packets, m.id) == AllFragments(m)
  }

  /** They arrive in any order, each once. */
  ghost predicate Shuffled(packets: seq<Packet>, m: Message) {
    multiset(OnlyId(packets, m.id)) == multiset(AllFragments(m))
  }

  const EMPTY_INBOX: Inbox := Inbox(map[], [])

  /** What a fresh client holds after receiving these packets. */
  function Received(packets: seq<Packet>): Inbox {
    HandleAll(EMPTY_INBOX, packets)
  }

  /** A message of any length, its fragments in order but interleaved at will with others: handed on
      exactly once, cut off after the announced slices (never, if there is nothing to send or the
      announced count is zero in 32 bits). */
  lemma InOrderDelivery(packets: seq<Packet>, m: Message)
    requires InOrder(packets, m)
    ensures var len := |m.Text()|;
            DeliveredFor(Received(packets).delivered, m.id)
            == if len >= 1 && Announced(len) >= 1 then [DeliveryOf(m, Announced(len))] else []
  {
    LanesAreIndependent(EMPTY_INBOX, packets, m.id);
    InOrderLane(m, Sent(|m.Text()|));
    if |m.Text()| >= 1 {
      FragmentCount(|m.Text()|);
    }
  }

  /** The length of what arrives, written out: 1004 bytes for each full 1024 bytes of the message and
      1004 more, or all of it if that is enough. */
  lemma DeliveredBytes(packets: seq<Packet>, m: Message)
    requires InOrder(packets, m) && 1 <= |m.Text()| && |m.Text()| / 1024 + 1 < 0x1_0000_0000
    ensures var text := m.header + m.data;
            DeliveredFor(Received(packets).delivered, m.id)
            == [Delivery(m.id, |m.header| % 0x1_0000_0000, text[..Min(|text|, 1004 * (|text| / 1024 + 1))])]
  {
    hide DeliveredFor, Received, InOrder, Announced;
    InOrderDelivery(packets, m);
    CountsByLength(|m.Text()|, |m.Text()| / 1024);
  }

  /** So, sent and received in order, a non-empty message arrives whole exactly when it fits. */
  lemma WholeExactlyWhenItFits(packets: seq<Packet>, m: Message)
    requires |m.Text()| >= 1 && InOrder(packets, m)
    ensures DeliveredFor(Received(packets).delivered, m.id) == [Whole(m)] <==> Fits(|m.Text()|)
  {
    hide Received, InOrder, Fits;
    InOrderDelivery(packets, m);
    FragmentCount(|m.Text()|);
    WholePrefix(m);
  }

  /** A message that fits, its fragments in any order among others: handed on exactly once, whole. */
  lemma ShuffledDelivery(packets: seq<Packet>, m: Message)
    requires |m.Text()| >= 1 && Fits(|m.Text()|) && Shuffled(packets, m)
    ensures DeliveredFor(Received(packets).delivered, m.id) == [Delivery(m.id, U32(|m.header|), m.Text())]
  {
    var lane, n := OnlyId(packets, m.id), Sent(|m.Text()|);
    var order := ShuffledOrder(m, lane);
    LanesAreIndependent(EMPTY_INBOX, packets, m.id);
    ArrivalLaw(m, order);
    OnceExactlyWhenLastIsNew(order, n);
  }

  /** A shuffle of all fragments is an arrival order whose last fragment is new. */
  lemma ShuffledOrder(m: Message, lane: seq<Packet>) returns (order: seq<uint32>)
    requires |m.Text()| >= 1 && Fits(|m.Text()|) && multiset(lane) == multiset(AllFragments(m))
    ensures var n := Sent(|m.Text()|);
            && InRange(order, n) && lane == Arrivals(m, order)
            && order != [] && |Seen(order)| == n && |Seen(order[..|order| - 1])| < n
  {
    hide Fragment, Fits, Announced, Sent, Seen;
    var all, n := AllFragments(m), Sent(|m.Text()|);
    FragmentCount(|m.Text()|);
    assert |lane| == |multiset(lane)| == |multiset(all)| == n;
    order := seq(|lane|, j requires 0 <= j < |lane| => lane[j].header.fragment);
    forall j | 0 <= j < n ensures order[j] < n && lane[j] == Fragment(m, order[j]) {
      assert lane[j] in multiset(lane);
      assert lane[j] in all;
      var k :| 0 <= k < n && all[k] == lane[j];
      FragmentNumber(m, k);
    }
    EachIsSeen(m, lane, order);
    FewSeen(order[..n - 1]);
  }

  lemma FragmentNumber(m: Message, k: nat)
    requires |m.Text()| >= 1 && Fits(|m.Text()|) && k < Sent(|m.Text()|)
    ensures Fragment(m, k).header.fragment == k
  {
    FragmentCount(|m.Text()|);
  }

  lemma EachIsSeen(m: Message, lane: seq<Packet>, order: seq<uint32>)
    requires |m.Text()| >= 1 && Fits(|m.Text()|) && multiset(lane) == multiset(AllFragments(m))
    requires |order| == |lane| && forall j :: 0 <= j < |lane| ==> order[j] == lane[j].header.fragment
    requires InRange(order, Sent(|m.Text()|))
    ensures |Seen(order)| == Sent(|m.Text()|)
  {
    hide Fragment, Fits, Announced, Sent;
    var all, n := AllFragments(m), Sent(|m.Text()|);
    FragmentCount(|m.Text()|);
    forall k: uint32 | k < n ensures k in Seen(order) {
      assert all[k] in multiset(all);
      assert all[k] in multiset(lane);
      var j :| 0 <= j < |lane| && lane[j] == all[k];
      FragmentNumber(m, k);
      assert order[j] == k;
    }
    assert Seen(order) == Below(n);
  }

  lemma {:induction false} FewSeen(order: seq<uint32>)
    ensures |Seen(order)| <= |order|
  {
    if order == [] {
      assert Seen(order) == {};
    } else {
      var front := order[..|order| - 1];
      FewSeen(front);
      assert Seen(order) == Seen(front) + {order[|order| - 1]};
    }
  }

  // ---------- messages that do not fit ----------

  /** Whatever arrives for m's id is one of its fragments: in any order, lost or repeated at will. */
  ghost predicate OnlyFragmentsOf(packets: seq<Packet>, m: Message) {
    forall j :: 0 <= j < |OnlyId(packets, m.id)| ==> OnlyId(packets, m.id)[j] in AllFragments(m)
  }

  ghost predicate ShortBodies(fragments: map<uint32, seq<byte>>) {
    forall k :: k in fragments ==> |fragments[k]| <= PAYLOAD
  }

  lemma {:induction false} JoinedIsShort(fragments: map<uint32, seq<byte>>, n: nat)
    requires ShortBodies(fragments) && HasAll(fragments.Keys, n)
    ensures |Joined(fragments, n)| <= n * PAYLOAD
  {
    if n > 0 {
      JoinedIsShort(fragments, n - 1);
      assert n - 1 in fragments;
    }
  }

  /** What packets with short bodies and one announced count hand on is no longer than the count
      allows. */
  lemma {:induction false} LaneIsShort(ps: seq<Packet>, count: uint32)
    requires forall j :: 0 <= j < |ps| ==> ps[j].header.count == count && |ps[j].body| <= PAYLOAD
    ensures var l := LaneRun(NEW_LANE, ps);
            && (l.store.Some? ==> ShortBodies(l.store.value.fragments))
            && forall j :: 0 <= j < |l.delivered| ==> |l.delivered[j].data| <= count * PAYLOAD
  {
    if ps != [] {
      var p := ps[|ps| - 1];
      var l := LaneRun(NEW_LANE, ps[..|ps| - 1]);
      LaneIsShort(ps[..|ps| - 1], count);
      var s := Fill(l, p);
      assert ShortBodies(s.fragments);
      if Handed(p.header.id, s, count) != [] {
        JoinedIsShort(s.fragments, count);
      }
    }
  }

  /** A message that does not fit is never handed on whole, in whatever order and however often its
      fragments arrive: every delivery under its id is shorter than the message. */
  lemma NeverWholeUnlessItFits(packets: seq<Packet>, m: Message)
    requires |m.Text()| >= 1 && !Fits(|m.Text()|) && OnlyFragmentsOf(packets, m)
    ensures var ds := DeliveredFor(Received(packets).delivered, m.id);
            forall j :: 0 <= j < |ds| ==> |ds[j].data| < |m.Text()|
  {
    hide Fits, Announced, DeliveredFor, OnlyId, LaneRun;
    var lane, count := OnlyId(packets, m.id), Announced(|m.Text()|);
    FragmentCount(|m.Text()|);
    LanesAreIndependent(EMPTY_INBOX, packets, m.id);
    NothingDelivered(m.id);
    LaneIsShort(lane, count);
    assert count * PAYLOAD < |m.Text()|;
  }

  lemma NothingDelivered(id: uint32)
    ensures LaneOf(EMPTY_INBOX, id) == NEW_LANE
  {
  }

  /** So all fragments in any order, each once, deliver the whole message exactly when it fits. */
  lemma ShuffledExactlyWhenItFits(packets: seq<Packet>, m: Message)
    requires |m.Text()| >= 1 && Shuffled(packets, m)
    ensures DeliveredFor(Received(packets).delivered, m.id) == [Whole(m)] <==> Fits(|m.Text()|)
  {
    hide Fits, DeliveredFor, Received, OnlyId, AllFragments;
    if Fits(|m.Text()|) {
      ShuffledDelivery(packets, m);
    } else {
      forall j | 0 <= j < |OnlyId(packets, m.id)| ensures OnlyId(packets, m.id)[j] in AllFragments(m) {
        assert OnlyId(packets, m.id)[j] in multiset(OnlyId(packets, m.id));
      }
      NeverWholeUnlessItFits(packets, m);
      assert |[Whole(m)][0].data| == |m.Text()|;
    }
  }

  /** The shortest message that does not fit: one byte more than a fragment holds is announced as one
      fragment, sent as two, and arrives without its last byte. */
  lemma LastByteLost(packets: seq<Packet>, m: Message)
    requires 1 <= |m.Text()| <= PAYLOAD + 1 && InOrder(packets, m)
    ensures DeliveredFor(Received(packets).delivered, m.id)
            == if |m.Text()| <= PAYLOAD then [Whole(m)]
               else [Delivery(m.id, U32(|m.header|), m.Text()[..PAYLOAD])]
  {
    hide DeliveredFor, Received, InOrder;
    InOrderDelivery(packets, m);
    assert Announced(|m.Text()|) == 1;
    assert m.Text()[..|m.Text()|] == m.Text();
  }

  // ---------- end to end ----------

  /** Cutting a whole delivery at its JSON size gives back the header and the data. */
  lemma CutGivesBack(m: Message)
    requires |m.Text()| >= 1 && Fits(|m.Text()|)
    ensures var d := DeliveryOf(m, Announced(|m.Text()|));
            && d.jsonSize == |m.header| <= |d.data|
            && d.data[..d.jsonSize] == m.header && d.data[d.jsonSize..] == m.data
  {
    hide Fits, Announced, Sent;
    FragmentCount(|m.Text()|);
    WholePrefix(m);
  }

  /** End to end: fragments of messages with distinct ids, shuffled and mixed at will, printed to a
      byte stream and received in chunks of any size. Every message that fits is handed on exactly
      once and splits into its header and data, nothing else is handed on, no byte is left. */
  lemma EndToEnd(messages: seq<Message>, packets: seq<Packet>, chunks: seq<seq<byte>>)
    requires DistinctIds(messages)
    requires forall m :: m in messages ==> |m.Text()| >= 1 && Fits(|m.Text()|) && Shuffled(packets, m)
    requires forall p :: p in packets ==> Sized(p) && exists m :: m in messages && m.id == p.header.id
    requires Flatten(chunks) == PrintAll(Host, packets)
    ensures PacketsOfChunks(Host, [], chunks) == packets && LeftoverOfChunks(Host, [], chunks) == []
    ensures forall m :: m in messages ==>
              && DeliveredFor(Received(packets).delivered, m.id) == [Delivery(m.id, U32(|m.header|), m.header + m.data)]
              && U32(|m.header|) == |m.header|
    ensures forall d :: d in Received(packets).delivered ==> exists m :: m in messages && m.id == d.id
  {
    StreamIsPackets(packets, chunks);
    forall m | m in messages
      ensures DeliveredFor(Received(packets).delivered, m.id) == [Delivery(m.id, U32(|m.header|), m.header + m.data)]
              && U32(|m.header|) == |m.header|
    {
      ShuffledDelivery(packets, m);
      CutGivesBack(m);
    }
    OnlyReceivedIds(packets);
    forall d | d in Received(packets).delivered ensures exists m :: m in messages && m.id == d.id {
      var p :| p in packets && p.header.id == d.id;
    }
  }

  lemma StreamIsPackets(packets: seq<Packet>, chunks: seq<seq<byte>>)
    requires forall p :: p in packets ==> Sized(p)
    requires Flatten(chunks) == PrintAll(Host, packets)
    ensures PacketsOfChunks(Host, [], chunks) == packets && LeftoverOfChunks(Host, [], chunks) == []
  {
    var s := PrintAll(Host, packets);
    ChunkingInvariance(Host, [], chunks);
    CutInvertsPrint(Host, packets, []);
    assert [] + s == s + [] == s;
    assert Packets(Host, []) == [] && packets + [] == packets;
  }

  lemma {:induction false} OnlyReceivedIds(packets: seq<Packet>)
    ensures forall d :: d in Received(packets).delivered ==> exists p :: p in packets && p.header.id == d.id
  {
    if packets != [] {
      var front, last := packets[..|packets| - 1], packets[|packets| - 1];
      OnlyReceivedIds(front);
      assert Received(packets) == Handle(Received(front), last);
      forall d | d in Received(packets).delivered ensures exists p :: p in packets && p.header.id == d.id {
        if d in Received(front).delivered {
          var p :| p in front && p.header.id == d.id;
          assert p in packets;
        } else {
          assert last in packets;
        }
      }
    }
  }

  // ---------- one message after the other ----------

  /** What a server that sends the messages in turn puts on the wire. */
  function InTurn(messages: seq<Message>): seq<Packet> {
    if messages == [] then [] else InTurn(messages[..|messages| - 1]) + AllFragments(messages[|messages| - 1])
  }

  lemma {:induction false} OnlyIdAppend(a: seq<Packet>, b: seq<Packet>, id: uint32)
    ensures OnlyId(a + b, id) == OnlyId(a, id) + OnlyId(b, id)
  {
    if b == [] {
      assert a + b == a;
    } else {
      assert (a + b)[..|a + b| - 1] == a + b[..|b| - 1];
      OnlyIdAppend(a, b[..|b| - 1], id);
    }
  }

  lemma {:induction false} OnlyIdOfOne(ps: seq<Packet>, from: uint32, id: uint32)
    requires forall p :: p in ps ==> p.header.id == from
    ensures OnlyId(ps, id) == if from == id then ps else []
  {
    if ps != [] {
      assert ps[|ps| - 1] in ps;
      OnlyIdOfOne(ps[..|ps| - 1], from, id);
    }
  }

  lemma OneMoreInTurn(messages: seq<Message>, id: uint32)
    requires messages != []
    ensures var front, last := messages[..|messages| - 1], messages[|messages| - 1];
            OnlyId(InTurn(messages), id)
            == OnlyId(InTurn(front), id) + (if last.id == id then AllFragments(last) else [])
  {
    var front, last := messages[..|messages| - 1], messages[|messages| - 1];
    OnlyIdAppend(InTurn(front), AllFragments(last), id);
    OnlyIdOfOne(AllFragments(last), last.id, id);
  }

  predicate DistinctIds(messages: seq<Message>) {
    forall i, j :: 0 <= i < j < |messages| ==> messages[i].id != messages[j].id
  }

  /** Messages with distinct ids that are sent in turn each arrive in order. */
  lemma {:induction false} InTurnIsInOrder(messages: seq<Message>, i: nat)
    requires DistinctIds(messages) && i < |messages|
    ensures InOrder(InTurn(messages), messages[i])
  {
    hide OnlyId, AllFragments;
    var front, last := messages[..|messages| - 1], messages[|messages| - 1];
    OneMoreInTurn(messages, messages[i].id);
    if i < |front| {
      InTurnIsInOrder(front, i);
      assert front[i] == messages[i];
    } else {
      NoneOf(front, last.id);
    }
  }

  lemma {:induction false} NoneOf(messages: seq<Message>, id: uint32)
    requires forall i :: 0 <= i < |messages| ==> messages[i].id != id
    ensures OnlyId(InTurn(messages), id) == []
  {
    if messages != [] {
      NoneOf(messages[..|messages| - 1], id);
      OneMoreInTurn(messages, id);
    }
  }

  lemma {:induction false} InTurnIsSized(messages: seq<Message>)
    ensures forall p :: p in InTurn(messages) ==> Sized(p)
  {
    if messages != [] {
      InTurnIsSized(messages[..|messages| - 1]);
    }
  }

  /** Any texts sent in turn under distinct ids, in chunks of any size: every one that fits arrives
      whole and splits back into header and data; of a longer one exactly the announced slices do. */
  lemma SentInTurn(messages: seq<Message>, chunks: seq<seq<byte>>)
    requires DistinctIds(messages)
    requires Flatten(chunks) == PrintAll(Host, InTurn(messages))
    ensures PacketsOfChunks(Host, [], chunks) == InTurn(messages) && LeftoverOfChunks(Host, [], chunks) == []
    ensures forall m :: m in messages ==>
              var len := |m.Text()|;
              DeliveredFor(Received(InTurn(messages)).delivered, m.id)
              == if len >= 1 && Announced(len) >= 1 then [DeliveryOf(m, Announced(len))] else []
    ensures forall m :: m in messages && |m.Text()| >= 1 && Fits(|m.Text()|) ==>
              DeliveredFor(Received(InTurn(messages)).delivered, m.id) == [Whole(m)]
  {
    hide InOrder, Received, Fits, Announced;
    InTurnIsSized(messages);
    forall m | m in messages ensures InOrder(InTurn(messages), m) {
      var i :| 0 <= i < |messages| && messages[i] == m;
      InTurnIsInOrder(messages, i);
    }
    StreamIsPackets(InTurn(messages), chunks);
    forall m | m in messages
      ensures var len := |m.Text()|;
              DeliveredFor(Received(InTurn(messages)).delivered, m.id)
              == if len >= 1 && Announced(len) >= 1 then [DeliveryOf(m, Announced(len))] else []
    {
      InOrderDelivery(InTurn(messages), m);
    }
    forall m | m in messages && |m.Text()| >= 1 && Fits(|m.Text()|)
      ensures DeliveredFor(Received(InTurn(messages)).delivered, m.id) == [Whole(m)]
    {
      WholeExactlyWhenItFits(InTurn(messages), m);
    }
  }
}
