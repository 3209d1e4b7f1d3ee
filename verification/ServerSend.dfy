/** Server to client, sending side: Server_Socket::queueSend_new in socket/Socket/Server_Socket.cpp
    cuts a message into fragments of at most 1004 bytes and announces how many there will be. */
module ServerSend {
  import opened Basics
  import opened Bytes
  import opened Framing

  const MAX_PACKET_SIZE: nat := 1024
  const PAYLOAD: nat := 1004

  /** One call of queueSend_new: the id it draws, the JSON header and the data. */
  datatype Message = Message(id: uint32, header: seq<byte>, data: seq<byte>) {
    function Text(): seq<byte> {
      header + data
    }
  }

  /** totalPacketCount, as computed for a text of length len and stored in 32 bits. */
  function Announced(len: nat): uint32 {
    U32((len + MAX_PACKET_SIZE) / MAX_PACKET_SIZE)
  }

  /** How many fragments the sending loop produces. */
  function Sent(len: nat): nat {
    (len + PAYLOAD - 1) / PAYLOAD
  }

  /** The k-th slice of a text; every slice before the end of the text is full. */
  function Slice(text: seq<byte>, k: nat): (r: seq<byte>)
    ensures |r| <= PAYLOAD
  {
    text[Min(k * PAYLOAD, |text|)..Min((k + 1) * PAYLOAD, |text|)]
  }

  function Fragment(m: Message, k: nat): (p: Packet)
    requires k < Sent(|m.Text()|)
    ensures Sized(p)
  {
    var slice := Slice(m.Text(), k);
    Packet(Header(m.id, U32(k), |slice|, Announced(|m.Text()|), U32(|m.header|)), slice)
  }

  function Fragments(m: Message, n: nat): (ps: seq<Packet>)
    requires n <= Sent(|m.Text()|)
    ensures |ps| == n
  {
    seq(n, k requires 0 <= k < n => Fragment(m, k))
  }

  function AllFragments(m: Message): seq<Packet> {
    Fragments(m, Sent(|m.Text()|))
  }

  // ---------- the announced count ----------

  /** The overhang of the 1004-byte slices over the 1024-byte count still fits into one slice. */
  predicate Fits(len: nat) {
    20 * (len / MAX_PACKET_SIZE) + len % MAX_PACKET_SIZE <= PAYLOAD
  }

  /** A non-empty message is never cut into fewer fragments than announced, and into exactly as many
      if and only if it fits, which no message beyond 51204 bytes does. */
  lemma FragmentCount(len: nat)
    requires len >= 1
    ensures 1 <= Sent(len) && Announced(len) <= Sent(len)
    ensures Announced(len) == Sent(len) <==> Fits(len)
    ensures Fits(len) ==> len <= 51204
    ensures Fits(51204)
  {
    var q, r := len / 1024, len % 1024;
    assert (len + 1024) / 1024 == q + 1;
    assert len + 1003 == 1004 * q + (20 * q + r + 1003);
    SlicesOf(q, 20 * q + r);
  }

  lemma SlicesOf(q: nat, over: nat)
    requires over >= 1
    ensures (1004 * q + over + 1003) / 1004 >= q + 1
    ensures (1004 * q + over + 1003) / 1004 == q + 1 <==> over <= 1004
  {
  }

  /** Both counts by the length: one announced for each full 1024 bytes and one more, in 32 bits; one
      sent for each begun 1004 bytes. */
  lemma CountsByLength(len: nat, full: nat)
    requires 1024 * full <= len < 1024 * (full + 1)
    ensures Announced(len) == (full + 1) % 0x1_0000_0000
    ensures full + 1 < 0x1_0000_0000 ==> 1024 * (Announced(len) - 1) <= len < 1024 * Announced(len)
    ensures 1004 * (Sent(len) - 1) < len <= 1004 * Sent(len) || len == Sent(len) == 0
  {
    assert (len + 1024) / 1024 == full + 1;
  }

  /** A fragment on the wire, byte by byte: the five numbers lowest byte first, then at most 1004 bytes
      of the text from 1004 times its number on. */
  lemma FragmentOnWire(m: Message, k: nat)
    requires k < Sent(|m.Text()|)
    ensures var s, text := Print(Host, Fragment(m, k)), m.header + m.data;
            var from, to := 1004 * k, Min(1004 * (k + 1), |text|);
            && |s| >= 20 && from < to
            && LittleAt(s, 0) == m.id && LittleAt(s, 4) == k % 0x1_0000_0000
            && LittleAt(s, 8) == to - from && LittleAt(s, 12) == (|text| / 1024 + 1) % 0x1_0000_0000
            && LittleAt(s, 16) == |m.header| % 0x1_0000_0000 && s[20..] == text[from..to]
  {
    hide PrintHeader, LittleAt;
    var p, len := Fragment(m, k), |m.Text()|;
    HostHeaderOnWire(p.header, p.body);
    CountsByLength(len, len / 1024);
  }

  // ---------- the sending loop ----------

  class ChatServer {
    var packetId: uint32
    var wire: seq<byte>  // everything passed to send_to_client for one client

    constructor ()
      ensures packetId == 0 && wire == []
    {
      packetId, wire := 0, [];
    }

    method SendToClient(packet: seq<byte>)
      modifies this`wire
      ensures wire == old(wire) + packet
    {
      wire := wire + packet;
    }

    method QueueSend(header: seq<byte>, data: seq<byte>)
      modifies this
      ensures wire == old(wire) + PrintAll(Host, AllFragments(Message(old(packetId), header, data)))
      ensures packetId == U32(old(packetId) + 1)
    {
      hide PrintHeader, PrintAll, Fragments, Fragment, Slice, Sent, Announced, U32;
      ghost var m := Message(packetId, header, data);
      var jsonSize, id := U32(|header|), packetId;
      packetId := U32(packetId + 1);
      var text := header + data;
      var totalLen := |text|;
      var count := Announced(totalLen);
      var len := 0;
      var subPacketId: uint32 := 0;
      ghost var n := 0;
      NoFragments(m);
      NextU32(0);
      while len < totalLen
        invariant n <= Sent(totalLen) && len == Min(n * PAYLOAD, totalLen) && subPacketId == U32(n)
        invariant wire == old(wire) + PrintAll(Host, Fragments(m, n))
        invariant packetId == U32(old(packetId) + 1)
        decreases totalLen - len
      {
        SlicesLeft(n, totalLen);
        var curLen := Min(MAX_PACKET_SIZE - 20, totalLen - len);
        var head := Header(id, subPacketId, curLen, count, jsonSize);
        NextFragment(m, n);
        NextU32(n);
        SendToClient(PrintHeader(Host, head) + text[len..len + curLen]);
        len := len + curLen;
        subPacketId := U32(subPacketId + 1);
        n := n + 1;
      }
      SlicesLeft(n, totalLen);
    }
  }

  lemma NextU32(n: nat)
    ensures U32(U32(n) + 1) == U32(n + 1)
    ensures U32(0) == 0
  {
  }

  lemma NoFragments(m: Message)
    ensures PrintAll(Host, Fragments(m, 0)) == []
  {
  }

  /** The loop is at its end exactly after the last slice. */
  lemma SlicesLeft(n: nat, total: nat)
    requires n <= Sent(total)
    ensures Min(n * PAYLOAD, total) < total <==> n < Sent(total)
  {
  }

  /** What one turn of the loop sends is the next fragment. */
  lemma NextFragment(m: Message, n: nat)
    requires n < Sent(|m.Text()|)
    ensures var total := |m.Text()|;
            var len := n * PAYLOAD;
            var curLen := Min(MAX_PACKET_SIZE - 20, total - len);
            && len < total && curLen < TWO_32
            && Print(Host, Fragment(m, n))
               == PrintHeader(Host, Header(m.id, U32(n), curLen, Announced(total), U32(|m.header|)))
                  + m.Text()[len..len + curLen]
    ensures PrintAll(Host, Fragments(m, n + 1)) == PrintAll(Host, Fragments(m, n)) + Print(Host, Fragment(m, n))
  {
    hide PrintHeader;
    OneFragmentMore(m, n);
  }

  lemma OneFragmentMore(m: Message, n: nat)
    requires n < Sent(|m.Text()|)
    ensures PrintAll(Host, Fragments(m, n + 1)) == PrintAll(Host, Fragments(m, n)) + Print(Host, Fragment(m, n))
  {
    assert Fragments(m, n + 1) == Fragments(m, n) + [Fragment(m, n)];
    PrintAllAppend(Host, Fragments(m, n), [Fragment(m, n)]);
    assert [Fragment(m, n)][1..] == [];
    assert PrintAll(Host, [Fragment(m, n)]) == Print(Host, Fragment(m, n)) + [];
  }
}
