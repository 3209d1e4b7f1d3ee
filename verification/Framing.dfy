/** The length-prefixed packets that both chat transports send: a header of five 32-bit numbers
    (S2C_Agreement in utility/JsonUtility/JsonUtility.h, S2C_agreement in
    projects/Server/src/Session/Session.h) and a body. Cutting a byte stream back into packets is
    the same loop in both; only the byte order differs. */
module Framing {
  import opened Bytes

  /** Message id, fragment number, size of this body, announced number of fragments, and the size
      of the JSON text that opens the message. */
  datatype Header = Header(id: uint32, fragment: uint32, size: uint32, count: uint32, jsonSize: uint32)

  datatype Packet = Packet(header: Header, body: seq<byte>)

  const HEADER_SIZE: nat := 20

  function PrintHeader(order: ByteOrder, h: Header): (r: seq<byte>)
    ensures |r| == HEADER_SIZE
  {
    Spell(order, h.id) + Spell(order, h.fragment) + Spell(order, h.size)
    + Spell(order, h.count) + Spell(order, h.jsonSize)
  }

  function ReadHeader(order: ByteOrder, s: seq<byte>): Header
    requires |s| >= HEADER_SIZE
  {
    Header(Read(order, s[0..4]), Read(order, s[4..8]), Read(order, s[8..12]),
           Read(order, s[12..16]), Read(order, s[16..20]))
  }

  lemma HeaderRoundTrip(order: ByteOrder, h: Header, rest: seq<byte>)
    ensures ReadHeader(order, PrintHeader(order, h) + rest) == h
  {
    var s := PrintHeader(order, h) + rest;
    assert s[0..4] == Spell(order, h.id);
    assert s[4..8] == Spell(order, h.fragment);
    assert s[8..12] == Spell(order, h.size);
    assert s[12..16] == Spell(order, h.count);
    assert s[16..20] == Spell(order, h.jsonSize);
    ReadOfSpell(order, h.id);
    ReadOfSpell(order, h.fragment);
    ReadOfSpell(order, h.size);
    ReadOfSpell(order, h.count);
    ReadOfSpell(order, h.jsonSize);
  }

  /** The five numbers stand at the places 0, 4, 8, 12 and 16 of a packed header. */
  lemma HeaderLayout(order: ByteOrder, h: Header, rest: seq<byte>)
    ensures var s := PrintHeader(order, h) + rest;
            && s[0..4] == Spell(order, h.id) && s[4..8] == Spell(order, h.fragment)
            && s[8..12] == Spell(order, h.size) && s[12..16] == Spell(order, h.count)
            && s[16..20] == Spell(order, h.jsonSize) && s[20..] == rest
  {
  }

  /** The same by value, in host order. */
  lemma HostHeaderOnWire(h: Header, rest: seq<byte>)
    ensures var s := PrintHeader(Host, h) + rest;
            && LittleAt(s, 0) == h.id && LittleAt(s, 4) == h.fragment && LittleAt(s, 8) == h.size
            && LittleAt(s, 12) == h.count && LittleAt(s, 16) == h.jsonSize && s[20..] == rest
  {
    hide Spell, PrintHeader, LittleAt;
    var s := PrintHeader(Host, h) + rest;
    HeaderLayout(Host, h, rest);
    PartByValue(s, 0, h.id);
    PartByValue(s, 4, h.fragment);
    PartByValue(s, 8, h.size);
    PartByValue(s, 12, h.count);
    PartByValue(s, 16, h.jsonSize);
  }

  /** And in network order. */
  lemma NetworkHeaderOnWire(h: Header, rest: seq<byte>)
    ensures var s := PrintHeader(Network, h) + rest;
            && BigAt(s, 0) == h.id && BigAt(s, 4) == h.fragment && BigAt(s, 8) == h.size
            && BigAt(s, 12) == h.count && BigAt(s, 16) == h.jsonSize && s[20..] == rest
  {
    hide Spell, PrintHeader, BigAt;
    var s := PrintHeader(Network, h) + rest;
    HeaderLayout(Network, h, rest);
    PartByValue(s, 0, h.id);
    PartByValue(s, 4, h.fragment);
    PartByValue(s, 8, h.size);
    PartByValue(s, 12, h.count);
    PartByValue(s, 16, h.jsonSize);
  }

  lemma PartByValue(s: seq<byte>, i: nat, n: uint32)
    requires i + 4 <= |s|
    ensures s[i..i + 4] == Spell(Host, n) ==> LittleAt(s, i) == n
    ensures s[i..i + 4] == Spell(Network, n) ==> BigAt(s, i) == n
  {
    hide Spell;
    OrdersByValue(n);
    var part := s[i..i + 4];
    assert part[0] == s[i] && part[1] == s[i + 1] && part[2] == s[i + 2] && part[3] == s[i + 3];
  }

  lemma HeaderReprint(order: ByteOrder, s: seq<byte>)
    requires |s| >= HEADER_SIZE
    ensures PrintHeader(order, ReadHeader(order, s)) == s[..HEADER_SIZE]
  {
    SpellOfRead(order, s[0..4]);
    SpellOfRead(order, s[4..8]);
    SpellOfRead(order, s[8..12]);
    SpellOfRead(order, s[12..16]);
    SpellOfRead(order, s[16..20]);
  }

  function Print(order: ByteOrder, p: Packet): seq<byte> {
    PrintHeader(order, p.header) + p.body
  }

  function PrintAll(order: ByteOrder, ps: seq<Packet>): seq<byte> {
    if ps == [] then [] else Print(order, ps[0]) + PrintAll(order, ps[1..])
  }

  lemma {:induction false} PrintAllAppend(order: ByteOrder, a: seq<Packet>, b: seq<Packet>)
    ensures PrintAll(order, a + b) == PrintAll(order, a) + PrintAll(order, b)
  {
    if a == [] {
      assert a + b == b;
    } else {
      assert (a + b)[1..] == a[1..] + b;
      PrintAllAppend(order, a[1..], b);
    }
  }

  /** The header tells the truth about the body. */
  predicate Sized(p: Packet) {
    p.header.size == |p.body|
  }

  // ---------- cutting ----------

  /** A whole packet is at the front. */
  predicate Complete(order: ByteOrder, s: seq<byte>) {
    |s| >= HEADER_SIZE && |s| >= HEADER_SIZE + ReadHeader(order, s).size
  }

  function First(order: ByteOrder, s: seq<byte>): (p: Packet)
    requires Complete(order, s)
    ensures Sized(p) && |Print(order, p)| == HEADER_SIZE + |p.body| <= |s|
  {
    var h := ReadHeader(order, s);
    Packet(h, s[HEADER_SIZE..HEADER_SIZE + h.size])
  }

  function AfterFirst(order: ByteOrder, s: seq<byte>): (r: seq<byte>)
    requires Complete(order, s)
    ensures |r| < |s|
  {
    s[HEADER_SIZE + ReadHeader(order, s).size..]
  }

  /** All complete packets of a stream. */
  function Packets(order: ByteOrder, s: seq<byte>): seq<Packet>
    decreases |s|
  {
    if Complete(order, s) then [First(order, s)] + Packets(order, AfterFirst(order, s)) else []
  }

  /** What is left after them. */
  function Leftover(order: ByteOrder, s: seq<byte>): seq<byte>
    decreases |s|
  {
    if Complete(order, s) then Leftover(order, AfterFirst(order, s)) else s
  }

  lemma LongerStaysComplete(order: ByteOrder, a: seq<byte>, b: seq<byte>)
    requires Complete(order, a)
    ensures Complete(order, a + b) && First(order, a + b) == First(order, a)
    ensures AfterFirst(order, a + b) == AfterFirst(order, a) + b
  {
    assert (a + b)[0..4] == a[0..4];
    assert (a + b)[4..8] == a[4..8];
    assert (a + b)[8..12] == a[8..12];
    assert (a + b)[12..16] == a[12..16];
    assert (a + b)[16..20] == a[16..20];
  }

  lemma FirstReprints(order: ByteOrder, s: seq<byte>)
    requires Complete(order, s)
    ensures Print(order, First(order, s)) + AfterFirst(order, s) == s
  {
    hide PrintHeader, ReadHeader;
    HeaderReprint(order, s);
  }

  /** Cutting loses and invents nothing: the packets and the leftover print back to the stream, and
      the leftover holds no complete packet. */
  lemma {:induction false} CutReprints(order: ByteOrder, s: seq<byte>)
    ensures PrintAll(order, Packets(order, s)) + Leftover(order, s) == s
    ensures !Complete(order, Leftover(order, s))
    decreases |s|
  {
    hide Print, Complete, First, AfterFirst;
    if Complete(order, s) {
      var p, rest := First(order, s), AfterFirst(order, s);
      FirstReprints(order, s);
      CutReprints(order, rest);
      assert ([p] + Packets(order, rest))[1..] == Packets(order, rest);
      assert Print(order, p) + PrintAll(order, Packets(order, rest)) + Leftover(order, rest)
             == Print(order, p) + (PrintAll(order, Packets(order, rest)) + Leftover(order, rest));
    }
  }

  /** Cutting a stream in two steps, keeping the leftover, is cutting it at once: chunk boundaries
      are invisible, whatever the bytes. */
  lemma {:induction false} CutInTwo(order: ByteOrder, a: seq<byte>, b: seq<byte>)
    ensures Packets(order, a + b) == Packets(order, a) + Packets(order, Leftover(order, a) + b)
    ensures Leftover(order, a + b) == Leftover(order, Leftover(order, a) + b)
    decreases |a|
  {
    if Complete(order, a) {
      LongerStaysComplete(order, a, b);
      CutInTwo(order, AfterFirst(order, a), b);
    }
  }

  lemma PrintedIsComplete(order: ByteOrder, p: Packet, rest: seq<byte>)
    requires Sized(p)
    ensures Complete(order, Print(order, p) + rest)
    ensures First(order, Print(order, p) + rest) == p && AfterFirst(order, Print(order, p) + rest) == rest
  {
    var s := Print(order, p) + rest;
    HeaderRoundTrip(order, p.header, p.body + rest);
    assert s == PrintHeader(order, p.header) + (p.body + rest);
    assert ReadHeader(order, s) == p.header;
  }

  /** Cutting inverts printing, with any bytes behind. */
  lemma {:induction false} CutInvertsPrint(order: ByteOrder, ps: seq<Packet>, tail: seq<byte>)
    requires forall p :: p in ps ==> Sized(p)
    ensures Packets(order, PrintAll(order, ps) + tail) == ps + Packets(order, tail)
    ensures Leftover(order, PrintAll(order, ps) + tail) == Leftover(order, tail)
  {
    hide PrintHeader, Print, Complete, First, AfterFirst;
    if ps == [] {
      assert PrintAll(order, ps) + tail == tail;
    } else {
      var rest := PrintAll(order, ps[1..]) + tail;
      assert PrintAll(order, ps) + tail == Print(order, ps[0]) + rest;
      PrintedIsComplete(order, ps[0], rest);
      CutInvertsPrint(order, ps[1..], tail);
    }
  }

  /** Receiving a stream chunk by chunk: the packets cut after each chunk, in order. */
  function PacketsOfChunks(order: ByteOrder, buffered: seq<byte>, chunks: seq<seq<byte>>): seq<Packet>
    decreases |chunks|
  {
    if chunks == [] then []
    else
      Packets(order, buffered + chunks[0])
      + PacketsOfChunks(order, Leftover(order, buffered + chunks[0]), chunks[1..])
  }

  function LeftoverOfChunks(order: ByteOrder, buffered: seq<byte>, chunks: seq<seq<byte>>): seq<byte>
    decreases |chunks|
  {
    if chunks == [] then buffered
    else LeftoverOfChunks(order, Leftover(order, buffered + chunks[0]), chunks[1..])
  }

  lemma NothingToCut(order: ByteOrder, s: seq<byte>)
    requires !Complete(order, s)
    ensures Packets(order, s) == [] && Leftover(order, s) == s
  {
  }

  /** Any chunking of any bytes gives the packets and the leftover of the whole. */
  lemma {:induction false} ChunkingInvariance(order: ByteOrder, buffered: seq<byte>, chunks: seq<seq<byte>>)
    requires !Complete(order, buffered)
    ensures PacketsOfChunks(order, buffered, chunks) == Packets(order, buffered + Flatten(chunks))
    ensures LeftoverOfChunks(order, buffered, chunks) == Leftover(order, buffered + Flatten(chunks))
    decreases |chunks|
  {
    hide Complete, Packets, Leftover;
    if chunks == [] {
      assert buffered + Flatten(chunks) == buffered;
      NothingToCut(order, buffered);
    } else {
      var s := buffered + chunks[0];
      CutReprints(order, s);
      ChunkingInvariance(order, Leftover(order, s), chunks[1..]);
      CutInTwo(order, s, Flatten(chunks[1..]));
      assert buffered + Flatten(chunks) == s + Flatten(chunks[1..]);
    }
  }
}
