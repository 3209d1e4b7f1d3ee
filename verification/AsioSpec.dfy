/** The Asio transport as values: the frames Client::send_to emits
    (projects/Client/src/client/client.cpp) and what Session::process_data does with each frame it
    cuts (projects/Server/src/Session/Session.cpp). */
module AsioSpec {
  import opened Basics
  import opened Bytes
  import opened Framing
  import opened Ordered

  // ---------- sending ----------

  const MAX_FRAGMENT_SIZE: nat := 4096

  /** One call of send_to with the id it draws. */
  datatype Outgoing = Outgoing(id: uint32, jsonSize: nat, text: seq<byte>)

  function FrameCount(len: nat): uint32 {
    U32((len + MAX_FRAGMENT_SIZE) / MAX_FRAGMENT_SIZE)
  }

  /** Size of frame k: full frames, and a last one with the rest, which may be empty. */
  function FrameSize(len: nat, k: nat): (r: nat)
    requires k <= len / MAX_FRAGMENT_SIZE
    ensures r <= MAX_FRAGMENT_SIZE && r <= len
  {
    var remaining := len - k * MAX_FRAGMENT_SIZE;
    if remaining < MAX_FRAGMENT_SIZE then remaining else MAX_FRAGMENT_SIZE
  }

  /** Every frame carries the beginning of the text, whatever its number. */
  function Frame(m: Outgoing, k: nat): (p: Packet)
    requires k <= |m.text| / MAX_FRAGMENT_SIZE
    ensures Sized(p)
  {
    var size := FrameSize(|m.text|, k);
    Packet(Header(m.id, U32(k), size, FrameCount(|m.text|), U32(m.jsonSize)), m.text[..size])
  }

  function Frames(m: Outgoing, n: nat): (ps: seq<Packet>)
    requires n <= |m.text| / MAX_FRAGMENT_SIZE + 1
    ensures |ps| == n && forall p :: p in ps ==> Sized(p)
  {
    if n == 0 then [] else Frames(m, n - 1) + [Frame(m, n - 1)]
  }

  function AllFrames(m: Outgoing): (ps: seq<Packet>)
    ensures |ps| == FrameCount(|m.text|) && forall p :: p in ps ==> Sized(p)
  {
    FrameCountBound(|m.text|);
    Frames(m, FrameCount(|m.text|))
  }

  function FramesOf(ms: seq<Outgoing>): (ps: seq<Packet>)
    ensures forall p :: p in ps ==> Sized(p)
  {
    if ms == [] then [] else FramesOf(ms[..|ms| - 1]) + AllFrames(ms[|ms| - 1])
  }

  lemma FrameCountBound(len: nat)
    ensures FrameCount(len) <= len / MAX_FRAGMENT_SIZE + 1
    ensures FrameCount(len) == len / MAX_FRAGMENT_SIZE + 1 <==> len / MAX_FRAGMENT_SIZE + 1 < TWO_32
  {
    assert (len + 4096) / 4096 == len / 4096 + 1;
  }

  /** A frame on the wire, byte by byte: the five numbers highest byte first, then the beginning of the
      text, of this frame's size. */
  lemma FrameOnWire(m: Outgoing, k: nat)
    requires k <= |m.text| / 4096
    ensures var s, len := Print(Network, Frame(m, k)), |m.text|;
            var size := Min(len - 4096 * k, 4096);
            && |s| >= 20 && BigAt(s, 0) == m.id && BigAt(s, 4) == k % 0x1_0000_0000
            && BigAt(s, 8) == size && BigAt(s, 12) == (len / 4096 + 1) % 0x1_0000_0000
            && BigAt(s, 16) == m.jsonSize % 0x1_0000_0000 && s[20..] == m.text[..size]
  {
    hide PrintHeader, BigAt;
    var p := Frame(m, k);
    NetworkHeaderOnWire(p.header, p.body);
    assert (|m.text| + 4096) / 4096 == |m.text| / 4096 + 1;
  }

  function TotalSize(ps: seq<Packet>): nat {
    if ps == [] then 0 else TotalSize(ps[..|ps| - 1]) + ps[|ps| - 1].header.size
  }

  lemma {:induction false} SizesSoFar(m: Outgoing, n: nat)
    requires n <= |m.text| / MAX_FRAGMENT_SIZE + 1
    ensures TotalSize(Frames(m, n)) == if n <= |m.text| / MAX_FRAGMENT_SIZE then n * MAX_FRAGMENT_SIZE else |m.text|
  {
    if n > 0 {
      SizesSoFar(m, n - 1);
      assert Frames(m, n)[..n - 1] == Frames(m, n - 1);
    }
  }

  /** The frames announce sizes that add up to the message, unless their number overflows 32 bits;
      there is one frame more than there are full ones. */
  lemma FrameSizesAddUp(m: Outgoing)
    ensures var q := |m.text| / MAX_FRAGMENT_SIZE;
            && (|AllFrames(m)| == q + 1 <==> q + 1 < TWO_32)
            && (TotalSize(AllFrames(m)) == |m.text| <==> q + 1 < TWO_32)
  {
    FrameCountBound(|m.text|);
    SizesSoFar(m, FrameCount(|m.text|));
  }

  // ---------- handling frames ----------

  /** uint32_t to int. */
  function Int32(n: uint32): int {
    if n < 0x8000_0000 then n else n - TWO_32
  }

  lemma Int32ByValue(n: uint32)
    ensures -0x8000_0000 <= Int32(n) < 0x8000_0000 && Int32(n) % 0x1_0000_0000 == n
  {
  }

  /** A FragmentMap: a std::map keyed by int. */
  type FragmentMap = map<int, seq<byte>>

  /** merge_fragments puts every fragment in front of the ones before it. */
  function JoinedBackwards(fragments: FragmentMap, n: nat): seq<byte>
    requires HasAll(fragments.Keys, n)
  {
    if n == 0 then [] else fragments[n - 1] + JoinedBackwards(fragments, n - 1)
  }

  /** The last fragment comes first. */
  lemma {:induction false} BackwardsMeans(fragments: FragmentMap, n: nat)
    requires HasAll(fragments.Keys, n)
    ensures JoinedBackwards(fragments, n)
            == Flatten(seq(n, i requires 0 <= i < n && HasAll(fragments.Keys, n) => fragments[n - 1 - i]))
  {
    if n > 0 {
      BackwardsMeans(fragments, n - 1);
      var all := seq(n, i requires 0 <= i < n && HasAll(fragments.Keys, n) => fragments[n - 1 - i]);
      assert all[1..] == seq(n - 1, i requires 0 <= i < n - 1 && HasAll(fragments.Keys, n - 1) => fragments[n - 2 - i]);
    }
  }

  function MergeBackwards(fragments: FragmentMap): Option<seq<byte>> {
    if HasAll(fragments.Keys, |fragments|) then Some(JoinedBackwards(fragments, |fragments|)) else None
  }

  /** What is posted for the data handler: the JSON size and the merged message. */
  datatype Posted = Posted(jsonSize: uint32, message: Option<seq<byte>>)

  datatype Desk = Desk(segments: map<int, FragmentMap>, posted: seq<Posted>)

  /** operator[] makes the entry; the fragment goes into a copy of it. */
  function Touched(d: Desk, id: int): map<int, FragmentMap> {
    if id in d.segments then d.segments else d.segments[id := map[]]
  }

  function WithFragment(fragments: FragmentMap, k: int, body: seq<byte>): FragmentMap {
    if k in fragments then fragments else fragments[k := body]
  }

  /** emplace: a fragment that is there stays, another is added. */
  lemma EmplaceKeeps(fragments: FragmentMap, k: int, body: seq<byte>)
    ensures var after := WithFragment(fragments, k, body);
            && after.Keys == fragments.Keys + {k} && (k !in fragments ==> after[k] == body)
            && forall j :: j in fragments ==> after[j] == fragments[j]
  {
  }

  function Process(d: Desk, p: Packet): Desk {
    var id := Int32(p.header.id);
    var segments := Touched(d, id);
    var fragments := WithFragment(segments[id], Int32(p.header.fragment), p.body);
    if |fragments| == p.header.count
    then Desk(segments - {id}, d.posted + [Posted(p.header.jsonSize, MergeBackwards(fragments))])
    else Desk(segments, d.posted)
  }

  function ProcessAll(d: Desk, ps: seq<Packet>): Desk {
    if ps == [] then d else Process(ProcessAll(d, ps[..|ps| - 1]), ps[|ps| - 1])
  }

  lemma {:induction false} ProcessAllAppend(d: Desk, a: seq<Packet>, b: seq<Packet>)
    ensures ProcessAll(d, a + b) == ProcessAll(ProcessAll(d, a), b)
  {
    if b == [] {
      assert a + b == a;
    } else {
      assert (a + b)[..|a + b| - 1] == a + b[..|b| - 1];
      ProcessAllAppend(d, a, b[..|b| - 1]);
    }
  }

  // ---------- what is posted ----------

  /** No fragment is ever kept: they all went into copies. */
  predicate KeepsNothing(d: Desk) {
    forall id :: id in d.segments ==> d.segments[id] == map[]
  }

  /** A frame is posted exactly when it announces itself as the only one. */
  lemma OneFrame(d: Desk, p: Packet)
    requires KeepsNothing(d)
    ensures KeepsNothing(Process(d, p))
    ensures Process(d, p).posted
            == d.posted +
               if p.header.count != 1 then []
               else [Posted(p.header.jsonSize, if p.header.fragment == 0 then Some(p.body) else None)]
  {
    var id, k := Int32(p.header.id), Int32(p.header.fragment);
    var segments := Touched(d, id);
    assert segments[id] == map[];
    var fragments := WithFragment(segments[id], k, p.body);
    assert fragments == map[k := p.body];
    assert |fragments| == 1;
    if k == 0 {
      assert JoinedBackwards(fragments, 0) == [];
      assert JoinedBackwards(fragments, 1) == p.body + [] == p.body;
      assert HasAll(fragments.Keys, 1);
      assert MergeBackwards(fragments) == Some(p.body);
    } else {
      assert 0 !in fragments;
      assert MergeBackwards(fragments) == None;
    }
  }

  /** A posted frame takes its segment away; any other leaves an empty one behind. */
  lemma SegmentsAfter(d: Desk, p: Packet)
    requires KeepsNothing(d)
    ensures var id := Int32(p.header.id);
            Process(d, p).segments.Keys
            == if p.header.count == 1 then d.segments.Keys - {id} else d.segments.Keys + {id}
  {
    hide MergeBackwards, Int32;
    var segments := Touched(d, Int32(p.header.id));
    var fragments := WithFragment(segments[Int32(p.header.id)], Int32(p.header.fragment), p.body);
    assert fragments == map[Int32(p.header.fragment) := p.body];
    assert |fragments| == 1;
  }

  function PostedFor(m: Outgoing): seq<Posted> {
    if FrameCount(|m.text|) == 1 then [Posted(U32(m.jsonSize), Some(m.text[..FrameSize(|m.text|, 0)]))] else []
  }

  function PostedForAll(ms: seq<Outgoing>): seq<Posted> {
    if ms == [] then [] else PostedForAll(ms[..|ms| - 1]) + PostedFor(ms[|ms| - 1])
  }

  /** One more frame of m; only a frame that stands alone counts. */
  lemma FramePosts(d: Desk, m: Outgoing, k: nat)
    requires KeepsNothing(d) && k < FrameCount(|m.text|) && k <= |m.text| / MAX_FRAGMENT_SIZE
    ensures var r := Process(d, Frame(m, k));
            KeepsNothing(r) && r.posted == d.posted + if k == 0 then PostedFor(m) else []
  {
    hide Process, KeepsNothing, FrameCount;
    OneFrame(d, Frame(m, k));
  }

  lemma {:induction false} FramesPost(d: Desk, m: Outgoing, n: nat)
    requires KeepsNothing(d) && n <= FrameCount(|m.text|) && FrameCount(|m.text|) <= |m.text| / MAX_FRAGMENT_SIZE + 1
    ensures KeepsNothing(ProcessAll(d, Frames(m, n)))
    ensures ProcessAll(d, Frames(m, n)).posted == d.posted + if n == 0 then [] else PostedFor(m)
  {
    hide Process, KeepsNothing, FrameCount, Frame, PostedFor;
    if n > 0 {
      assert Frames(m, n)[..n - 1] == Frames(m, n - 1);
      FramesPost(d, m, n - 1);
      FramePosts(ProcessAll(d, Frames(m, n - 1)), m, n - 1);
    }
  }

  lemma MessagePosts(d: Desk, m: Outgoing)
    requires KeepsNothing(d)
    ensures KeepsNothing(ProcessAll(d, AllFrames(m)))
    ensures ProcessAll(d, AllFrames(m)).posted == d.posted + PostedFor(m)
  {
    FrameCountBound(|m.text|);
    FramesPost(d, m, FrameCount(|m.text|));
  }

  lemma {:induction false} MessagesPost(d: Desk, ms: seq<Outgoing>)
    requires KeepsNothing(d)
    ensures KeepsNothing(ProcessAll(d, FramesOf(ms)))
    ensures ProcessAll(d, FramesOf(ms)).posted == d.posted + PostedForAll(ms)
  {
    hide Process, Frames, FrameCount, PostedFor, KeepsNothing;
    if ms != [] {
      var front, last := ms[..|ms| - 1], ms[|ms| - 1];
      MessagesPost(d, front);
      ProcessAllAppend(d, FramesOf(front), AllFrames(last));
      MessagePosts(ProcessAll(d, FramesOf(front)), last);
      assert (d.posted + PostedForAll(front)) + PostedFor(last) == d.posted + (PostedForAll(front) + PostedFor(last));
    }
  }

  const NEW_DESK: Desk := Desk(map[], [])

  /** Any messages, their frames one after the other, in any chunks: the session cuts exactly the
      frames sent, keeps nothing over, and posts exactly the messages that went out as one frame,
      in order, once each. */
  lemma AsioDelivery(ms: seq<Outgoing>, chunks: seq<seq<byte>>)
    requires Flatten(chunks) == PrintAll(Network, FramesOf(ms))
    ensures PacketsOfChunks(Network, [], chunks) == FramesOf(ms)
    ensures LeftoverOfChunks(Network, [], chunks) == []
    ensures ProcessAll(NEW_DESK, FramesOf(ms)).posted == PostedForAll(ms)
  {
    var ps := FramesOf(ms);
    var s := PrintAll(Network, ps);
    ChunkingInvariance(Network, [], chunks);
    CutInvertsPrint(Network, ps, []);
    assert [] + s == s + [] == s;
    assert ps + Packets(Network, []) == ps;
    MessagesPost(NEW_DESK, ms);
  }

  /** A message below 4096 bytes is posted whole; a longer one never is (up to the length whose
      frame count overflows 32 bits). */
  lemma PostedWholeExactlyWhenShort(m: Outgoing)
    requires |m.text| / MAX_FRAGMENT_SIZE + 1 < TWO_32
    ensures |m.text| < MAX_FRAGMENT_SIZE ==> PostedFor(m) == [Posted(U32(m.jsonSize), Some(m.text))]
    ensures m.jsonSize <= |m.text| < MAX_FRAGMENT_SIZE ==> U32(m.jsonSize) == m.jsonSize
    ensures |m.text| >= MAX_FRAGMENT_SIZE ==> PostedFor(m) == []
  {
    FrameCountBound(|m.text|);
    assert m.text[..|m.text|] == m.text;
  }
}
