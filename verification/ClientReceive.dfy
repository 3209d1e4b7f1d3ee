/** Server to client, receiving side as the client object runs it: receive, handle_packet and
    merge_packets of socket/Socket/Client_Socket.cpp over its buffer and its store of fragments. */
module ClientReceive {
  import opened Basics
  import opened Bytes
  import opened Framing
  import opened Ordered
  import opened Reassembly

  class ChatClient {
    var recvBuffer: seq<byte>
    var receiveDataStores: map<uint32, Store>
    var handedOn: seq<Delivery>  // the calls of handle_data

    ghost function View(): Inbox
      reads this
    {
      Inbox(receiveDataStores, handedOn)
    }

    constructor ()
      ensures recvBuffer == [] && View() == Inbox(map[], [])
    {
      recvBuffer, receiveDataStores, handedOn := [], map[], [];
    }

    /** One read from the socket: buffer it, then cut off and handle every complete packet. */
    method Receive(chunk: seq<byte>)
      modifies this
      ensures recvBuffer == Leftover(Host, old(recvBuffer) + chunk)
      ensures View() == HandleAll(old(View()), Packets(Host, old(recvBuffer) + chunk))
    {
      hide PrintHeader, ReadHeader, Handle;
      recvBuffer := recvBuffer + chunk;
      ghost var all, done := recvBuffer, [];
      while |recvBuffer| >= HEADER_SIZE
        invariant Packets(Host, all) == done + Packets(Host, recvBuffer)
        invariant Leftover(Host, all) == Leftover(Host, recvBuffer)
        invariant View() == HandleAll(old(View()), done)
        decreases |recvBuffer|
      {
        var header := ReadHeader(Host, recvBuffer);
        var totalPacketSize := HEADER_SIZE + header.size;
        if |recvBuffer| < totalPacketSize {
          assert done + Packets(Host, recvBuffer) == done;
          return;
        }
        var body := recvBuffer[HEADER_SIZE..totalPacketSize];
        HandlePacket(header, body);
        ghost var p := First(Host, recvBuffer);
        HandleAllAppend(old(View()), done, [p]);
        assert [p][..0] == [];
        assert HandleAll(View(), []) == View();
        assert done + ([p] + Packets(Host, AfterFirst(Host, recvBuffer)))
               == (done + [p]) + Packets(Host, AfterFirst(Host, recvBuffer));
        done := done + [p];
        recvBuffer := recvBuffer[totalPacketSize..];
      }
      assert done + Packets(Host, recvBuffer) == done;
    }

    /** The receiving thread: one read after the other. */
    method ReceiveMessages(chunks: seq<seq<byte>>)
      modifies this
      ensures recvBuffer == LeftoverOfChunks(Host, old(recvBuffer), chunks)
      ensures View() == HandleAll(old(View()), PacketsOfChunks(Host, old(recvBuffer), chunks))
    {
      hide Packets, Leftover, Handle;
      ghost var done: seq<Packet> := [];
      for n := 0 to |chunks|
        invariant LeftoverOfChunks(Host, recvBuffer, chunks[n..]) == LeftoverOfChunks(Host, old(recvBuffer), chunks)
        invariant done + PacketsOfChunks(Host, recvBuffer, chunks[n..])
                  == PacketsOfChunks(Host, old(recvBuffer), chunks)
        invariant View() == HandleAll(old(View()), done)
      {
        ghost var cut := Packets(Host, recvBuffer + chunks[n]);
        assert chunks[n..][1..] == chunks[n + 1..];
        HandleAllAppend(old(View()), done, cut);
        Receive(chunks[n]);
        done := done + cut;
      }
      assert chunks[|chunks|..] == [];
      assert done + [] == done;
    }

    method HandlePacket(s2c: Header, package: seq<byte>)
      modifies this`receiveDataStores, this`handedOn
      ensures View() == Handle(old(View()), Packet(s2c, package))
    {
      hide Merge, Below;
      if s2c.id !in receiveDataStores {
        receiveDataStores := receiveDataStores[s2c.id := Store(s2c.jsonSize, map[])];
      }
      var packet := receiveDataStores[s2c.id];
      packet := packet.(fragments := packet.fragments[s2c.fragment := package]);
      receiveDataStores := receiveDataStores[s2c.id := packet];
      if |packet.fragments| == s2c.count {
        var tmp := MergePackets(packet.fragments);
        if tmp.Some? {
          handedOn := handedOn + [Delivery(s2c.id, receiveDataStores[s2c.id].jsonSize, tmp.value)];
        }
      }
      assert packet == StoreOf(old(View()), Packet(s2c, package));
    }

    /** Walks the fragments by ascending number, counting along; a gap means failure. */
    static method MergePackets(packets: map<uint32, seq<byte>>) returns (bound: Option<seq<byte>>)
      ensures |packets| <= TWO_32 && (bound.Some? <==> packets.Keys == Below(|packets|))
      ensures bound == Merge(packets)
    {
      hide Walked, Joined, Merge, HasAll, Below, IsLeast;
      MergeSucceeds(packets);
      var sequenceId: uint32 := 0;
      var bytes: seq<byte> := [];
      var left := packets.Keys;
      ghost var n: nat := 0;
      WalkStarts(packets);
      while left != {}
        invariant Walked(packets, n, bytes, left) && sequenceId == U32(n)
        decreases left
      {
        HasLeast(left);
        var k :| k in left && IsLeast(k, left);
        NextInLine(packets, n, bytes, left, k);
        if sequenceId != k {
          return None;
        }
        bytes := bytes + packets[k];
        sequenceId := U32(sequenceId + 1);
        left := left - {k};
        n := n + 1;
      }
      WalkEnds(packets, n, bytes);
      return Some(bytes);
    }
  }

  /** The walk has taken the first n fragments, and these keys are left. */
  ghost predicate Walked(packets: map<uint32, seq<byte>>, n: nat, bytes: seq<byte>, left: set<uint32>) {
    && n <= TWO_32 && HasAll(packets.Keys, n) && bytes == Joined(packets, n)
    && left == packets.Keys - Below(n) && |left| == |packets| - n
  }

  lemma WalkStarts(packets: map<uint32, seq<byte>>)
    ensures Walked(packets, 0, [], packets.Keys)
  {
    assert packets.Keys - Below(0) == packets.Keys;
  }

  /** The least key that is left is the next number, and taking it keeps the walk in step, or the
      next number is missing. */
  lemma NextInLine(packets: map<uint32, seq<byte>>, n: nat, bytes: seq<byte>, left: set<uint32>, k: uint32)
    requires Walked(packets, n, bytes, left) && k in left && IsLeast(k, left) && |packets| <= TWO_32
    ensures k in packets && U32(U32(n) + 1) == U32(n + 1)
    ensures if U32(n) == k then Walked(packets, n + 1, bytes + packets[k], left - {k}) else Merge(packets) == None
  {
    assert n < |packets| && U32(n) == n;
    if k == n {
      TakesNext(packets, n, bytes, left);
    } else {
      hide U32, Joined, Below;
      assert n in left ==> k <= n;
    }
  }

  lemma TakesNext(packets: map<uint32, seq<byte>>, n: nat, bytes: seq<byte>, left: set<uint32>)
    requires Walked(packets, n, bytes, left) && n in left
    ensures Walked(packets, n + 1, bytes + packets[n], left - {n})
  {
    assert left - {n} == packets.Keys - Below(n + 1);
  }

  lemma WalkEnds(packets: map<uint32, seq<byte>>, n: nat, bytes: seq<byte>)
    requires Walked(packets, n, bytes, {})
    ensures Merge(packets) == Some(bytes)
  {
  }
}
