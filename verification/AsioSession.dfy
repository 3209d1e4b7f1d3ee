/** The Asio transport as the objects run it: Client::send_to, and the buffer and segment table of a
    Session with process_data, trimAndGetHeader and merge_fragments. */
module AsioSession {
  import opened Basics
  import opened Bytes
  import opened Framing
  import opened AsioSpec
  import opened Ordered

  class AsioClient {
    var wire: seq<byte>  // everything queued on the session

    constructor ()
      ensures wire == []
    {
      wire := [];
    }

    method SendTo(id: uint32, jsonSize: nat, msg: seq<byte>)
      modifies this
      ensures wire == old(wire) + PrintAll(Network, AllFrames(Outgoing(id, jsonSize, msg)))
    {
      hide PrintHeader, PrintAll, Frames, Frame, FrameCount;
      ghost var m := Outgoing(id, jsonSize, msg);
      FrameCountBound(|msg|);
      var remainingSize := |msg|;
      var fragmentsCount := FrameCount(|msg|);
      NoFrames(m);
      for fragmentId := 0 to fragmentsCount
        invariant wire == old(wire) + PrintAll(Network, Frames(m, fragmentId))
        invariant fragmentId <= |msg| / MAX_FRAGMENT_SIZE ==> remainingSize == |msg| - fragmentId * MAX_FRAGMENT_SIZE
      {
        var packetSize := if remainingSize < MAX_FRAGMENT_SIZE then remainingSize else MAX_FRAGMENT_SIZE;
        var agreement := Header(id, fragmentId, packetSize, fragmentsCount, U32(jsonSize));
        NextFrame(m, fragmentId);
        wire := wire + (PrintHeader(Network, agreement) + msg[..packetSize]);
        remainingSize := remainingSize - packetSize;
      }
    }
  }

  lemma NoFrames(m: Outgoing)
    ensures PrintAll(Network, Frames(m, 0)) == []
  {
  }

  lemma NextFrame(m: Outgoing, k: nat)
    requires k < FrameCount(|m.text|) && k <= |m.text| / MAX_FRAGMENT_SIZE
    ensures var size := FrameSize(|m.text|, k);
            PrintAll(Network, Frames(m, k + 1))
            == PrintAll(Network, Frames(m, k))
               + (PrintHeader(Network, Header(m.id, k, size, FrameCount(|m.text|), U32(m.jsonSize))) + m.text[..size])
  {
    hide PrintHeader, FrameCount;
    var p := Frame(m, k);
    PrintAllAppend(Network, Frames(m, k), [p]);
    assert [p][1..] == [];
    assert PrintAll(Network, [p]) == Print(Network, p) + [];
  }

  /** What trimAndGetHeader found at the front of the buffer. */
  datatype Trimmed = Incomplete | Overrun | Got(header: Header)

  /** A header whose size wraps the 32-bit sum with the header's own length, so that the length check
      passes although the body is not there. What the program then does is undefined. */
  predicate Wrapped(s: seq<byte>) {
    && |s| >= HEADER_SIZE && !Complete(Network, s)
    && |s| >= U32(ReadHeader(Network, s).size + HEADER_SIZE)
  }

  class Session {
    var recvBuffer: seq<byte>
    var segments: map<int, FragmentMap>
    var posted: seq<Posted>

    ghost function View(): Desk
      reads this
    {
      Desk(segments, posted)
    }

    constructor ()
      ensures recvBuffer == [] && View() == NEW_DESK
    {
      recvBuffer, segments, posted := [], map[], [];
    }

    /** One completed read: buffer it, then process what is complete. */
    method DoRead(chunk: seq<byte>) returns (ok: bool)
      modifies this
      ensures ok <==> !Wrapped(Leftover(Network, old(recvBuffer) + chunk))
      ensures recvBuffer == Leftover(Network, old(recvBuffer) + chunk)
      ensures View() == ProcessAll(old(View()), Packets(Network, old(recvBuffer) + chunk))
    {
      recvBuffer := recvBuffer + chunk;
      ok := ProcessData();
    }

    /** Reads what a client sent, in chunks of any size: exactly the messages that fit into one frame
        are posted, and nothing stays buffered. */
    method ReadAll(chunks: seq<seq<byte>>, ghost ms: seq<Outgoing>)
      requires recvBuffer == [] && View() == NEW_DESK
      requires Flatten(chunks) == PrintAll(Network, FramesOf(ms))
      modifies this
      ensures recvBuffer == [] && posted == PostedForAll(ms)
    {
      hide PrintAll, FramesOf, Packets, Leftover, Wrapped, Process;
      ghost var received: seq<byte> := [];
      NothingToCut(Network, []);
      for n := 0 to |chunks|
        invariant received + Flatten(chunks[n..]) == PrintAll(Network, FramesOf(ms))
        invariant recvBuffer == Leftover(Network, received)
        invariant View() == ProcessAll(NEW_DESK, Packets(Network, received))
      {
        CutInTwo(Network, received, chunks[n]);
        ProcessAllAppend(NEW_DESK, Packets(Network, received), Packets(Network, recvBuffer + chunks[n]));
        var ok := DoRead(chunks[n]);
        assert chunks[n..][1..] == chunks[n + 1..];
        assert received + (chunks[n] + Flatten(chunks[n + 1..])) == (received + chunks[n]) + Flatten(chunks[n + 1..]);
        received := received + chunks[n];
        SentStreamsNeverWrap(ms, received, Flatten(chunks[n + 1..]));
        assert ok;
      }
      assert chunks[|chunks|..] == [] && received + [] == received;
      SentIsCut(ms, received);
    }

    /** Cuts frame after frame; the answer is false where the program leaves defined behaviour. */
    method ProcessData() returns (ok: bool)
      modifies this
      ensures ok <==> !Wrapped(Leftover(Network, old(recvBuffer)))
      ensures recvBuffer == Leftover(Network, old(recvBuffer))
      ensures View() == ProcessAll(old(View()), Packets(Network, old(recvBuffer)))
    {
      hide PrintHeader, ReadHeader, Process;
      ghost var all, done := recvBuffer, [];
      while true
        invariant Packets(Network, all) == done + Packets(Network, recvBuffer)
        invariant Leftover(Network, all) == Leftover(Network, recvBuffer)
        invariant View() == ProcessAll(old(View()), done)
        decreases |recvBuffer|
      {
        ghost var before := recvBuffer;
        var trimmed := TrimAndGetHeader();
        match trimmed
        case Incomplete =>
          assert done + Packets(Network, recvBuffer) == done;
          return true;
        case Overrun =>
          assert done + Packets(Network, recvBuffer) == done;
          return false;
        case Got(header) =>
          var body := recvBuffer[..header.size];
          recvBuffer := recvBuffer[header.size..];
          ghost var p := First(Network, before);
          assert body == p.body && recvBuffer == AfterFirst(Network, before);
          ProcessAllAppend(old(View()), done, [p]);
          assert [p][..0] == [];
          assert ProcessAll(View(), []) == View();
          assert done + ([p] + Packets(Network, recvBuffer)) == (done + [p]) + Packets(Network, recvBuffer);
          done := done + [p];
          KeepFragment(header, body);
      }
    }

    /** Removes a header from the buffer if its body is there too. */
    method TrimAndGetHeader() returns (r: Trimmed)
      modifies this`recvBuffer
      ensures r.Got? <==> Complete(Network, old(recvBuffer))
      ensures r.Overrun? <==> Wrapped(old(recvBuffer))
      ensures r.Got? ==>
                r.header == ReadHeader(Network, old(recvBuffer)) && recvBuffer == old(recvBuffer)[HEADER_SIZE..]
      ensures !r.Got? ==> recvBuffer == old(recvBuffer)
    {
      hide ReadHeader, Complete, U32;
      TrimCases(recvBuffer);
      if |recvBuffer| < HEADER_SIZE {
        return Incomplete;
      }
      var header := ReadHeader(Network, recvBuffer);
      if |recvBuffer| < U32(header.size + HEADER_SIZE) {
        return Incomplete;
      }
      if |recvBuffer| < header.size + HEADER_SIZE {
        return Overrun;
      }
      recvBuffer := recvBuffer[HEADER_SIZE..];
      return Got(header);
    }

    /** The rest of one turn of process_data: the fragment goes into a copy of the segment's map. */
    method KeepFragment(header: Header, body: seq<byte>)
      modifies this`segments, this`posted
      ensures View() == Process(old(View()), Packet(header, body))
    {
      var id := Int32(header.id);
      if id !in segments {
        segments := segments[id := map[]];
      }
      var fragments := segments[id];
      if Int32(header.fragment) !in fragments {
        fragments := fragments[Int32(header.fragment) := body];
      }
      if |fragments| == header.count {
        segments := segments - {id};
        var fullMsg := MergeFragments(fragments);
        posted := posted + [Posted(header.jsonSize, fullMsg)];
      }
    }

    /** Walks the fragments by ascending number and puts each in front of what is there. */
    static method MergeFragments(fragments: FragmentMap) returns (full: Option<seq<byte>>)
      ensures full.Some? <==> forall k :: k in fragments <==> 0 <= k < |fragments|
      ensures full == MergeBackwards(fragments)
    {
      var proofreadNum: int := 0;
      var message: seq<byte> := [];
      var left := fragments.Keys;
      assert |fragments| == |left|;
      while left != {}
        invariant 0 <= proofreadNum && HasAll(fragments.Keys, proofreadNum)
        invariant message == JoinedBackwards(fragments, proofreadNum)
        invariant forall k :: k in left <==> k in fragments && !(0 <= k < proofreadNum)
        invariant |left| == |fragments| - proofreadNum
        decreases left
      {
        HasLeast(left);
        var k :| k in left && IsLeast(k, left);
        if proofreadNum != k {
          GapFound(fragments, left, proofreadNum, k);
          return None;
        }
        message := fragments[k] + message;
        proofreadNum := proofreadNum + 1;
        left := left - {k};
      }
      return Some(message);
    }
  }

  lemma TrimCases(s: seq<byte>)
    ensures |s| < HEADER_SIZE ==> !Complete(Network, s)
    ensures |s| >= HEADER_SIZE ==>
              var size := ReadHeader(Network, s).size;
              && (Complete(Network, s) <==> |s| >= size + HEADER_SIZE)
              && U32(size + HEADER_SIZE) <= size + HEADER_SIZE
  {
    hide ReadHeader;
  }

  /** A least remaining key other than n means that the keys are not 0 to size-1. */
  lemma GapFound(fragments: FragmentMap, left: set<int>, n: nat, k: int)
    requires forall j :: j in left <==> j in fragments && !(0 <= j < n)
    requires IsLeast(k, left) && k != n && |left| == |fragments| - n && left != {}
    ensures MergeBackwards(fragments) == None
    ensures !(forall j :: j in fragments <==> 0 <= j < |fragments|)
  {
    assert |fragments| == |fragments.Keys|;
    assert k in left && n < |fragments|;
    assert n in left ==> k <= n;
    if forall j :: 0 <= j < |fragments| ==> j in fragments {
      NoOthers(fragments.Keys);
    }
  }

  lemma SentIsCut(ms: seq<Outgoing>, s: seq<byte>)
    requires s == PrintAll(Network, FramesOf(ms))
    ensures Leftover(Network, s) == [] && ProcessAll(NEW_DESK, Packets(Network, s)).posted == PostedForAll(ms)
  {
    hide Packets, Leftover, FramesOf, PrintAll;
    CutInvertsPrint(Network, FramesOf(ms), []);
    NothingToCut(Network, []);
    assert s + [] == s && FramesOf(ms) + [] == FramesOf(ms);
    MessagesPost(NEW_DESK, ms);
  }

  lemma {:induction false} FramesAreSmall(m: Outgoing, n: nat)
    requires n <= |m.text| / MAX_FRAGMENT_SIZE + 1
    ensures forall p :: p in Frames(m, n) ==> p.header.size <= MAX_FRAGMENT_SIZE
  {
    if n > 0 {
      FramesAreSmall(m, n - 1);
    }
  }

  lemma {:induction false} AllFramesAreSmall(ms: seq<Outgoing>)
    ensures forall p :: p in FramesOf(ms) ==> p.header.size <= MAX_FRAGMENT_SIZE
  {
    hide Frames, FrameCount;
    if ms != [] {
      var last := ms[|ms| - 1];
      AllFramesAreSmall(ms[..|ms| - 1]);
      FrameCountBound(|last.text|);
      FramesAreSmall(last, FrameCount(|last.text|));
    }
  }

  /** On what the client sends, no read ever leaves a wrapped header in the buffer: wherever the
      stream is cut, every call of DoRead answers true. */
  lemma SentStreamsNeverWrap(ms: seq<Outgoing>, received: seq<byte>, rest: seq<byte>)
    requires received + rest == PrintAll(Network, FramesOf(ms))
    ensures !Wrapped(Leftover(Network, received))
  {
    hide PrintHeader, ReadHeader, Packets, Leftover, FramesOf, PrintAll;
    var left, ps := Leftover(Network, received), FramesOf(ms);
    CutReprints(Network, received);
    if |left| >= HEADER_SIZE {
      var s := received + rest;
      CutInvertsPrint(Network, ps, []);
      assert s + [] == s;
      CutInTwo(Network, received, rest);
      NothingToCut(Network, []);
      assert ps == Packets(Network, received) + Packets(Network, left + rest);
      StartsWithItsFirst(left + rest);
      AllFramesAreSmall(ms);
      SameHeader(left, rest);
    }
  }

  lemma StartsWithItsFirst(s: seq<byte>)
    requires |s| >= HEADER_SIZE && Leftover(Network, s) == []
    ensures Packets(Network, s) != [] && Packets(Network, s)[0].header == ReadHeader(Network, s)
  {
  }

  lemma SameHeader(a: seq<byte>, b: seq<byte>)
    requires |a| >= HEADER_SIZE
    ensures ReadHeader(Network, a + b) == ReadHeader(Network, a)
  {
    assert (a + b)[0..4] == a[0..4];
    assert (a + b)[4..8] == a[4..8];
    assert (a + b)[8..12] == a[8..12];
    assert (a + b)[12..16] == a[12..16];
    assert (a + b)[16..20] == a[16..20];
  }
}
