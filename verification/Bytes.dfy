/** Bytes, 32-bit unsigned integers and the two orders in which four bytes spell one. */
module Bytes {
  const TWO_32: int := 0x1_0000_0000

  type byte = b: int | 0 <= b < 0x100

  type uint32 = n: int | 0 <= n < TWO_32

  /** static_cast<uint32_t>. */
  function U32(n: int): uint32 {
    n % TWO_32
  }

  /** Host order is that of a plain memcpy on the little-endian hosts the programs target; Network
      order is what htonl produces. */
  datatype ByteOrder = Host | Network

  function Spell(order: ByteOrder, n: uint32): (r: seq<byte>)
    ensures |r| == 4
  {
    var low, rest := n % 0x100, n / 0x100;
    var second, high := rest % 0x100, rest / 0x100;
    if order == Host then [low, second, high % 0x100, high / 0x100]
    else [high / 0x100, high % 0x100, second, low]
  }

  /** The number whose base-256 digits are a, b, c, d from the lowest up. */
  function FromDigits(a: int, b: int, c: int, d: int): int {
    a + 0x100 * (b + 0x100 * (c + 0x100 * d))
  }

  function Read(order: ByteOrder, s: seq<byte>): uint32
    requires |s| == 4
  {
    if order == Host then FromDigits(s[0], s[1], s[2], s[3]) else FromDigits(s[3], s[2], s[1], s[0])
  }

  lemma ReadOfSpell(order: ByteOrder, n: uint32)
    ensures Read(order, Spell(order, n)) == n
  {
  }

  lemma DigitsOf(a: byte, b: byte, c: byte, d: byte)
    ensures var n := FromDigits(a, b, c, d);
            && n % 0x100 == a && n / 0x100 % 0x100 == b
            && n / 0x100 / 0x100 % 0x100 == c && n / 0x100 / 0x100 / 0x100 == d
  {
    var high: int := c + 0x100 * d;
    var rest: int := b + 0x100 * high;
    assert (a + 0x100 * rest) / 0x100 == rest;
    assert (b + 0x100 * high) / 0x100 == high;
  }

  lemma SpellOfRead(order: ByteOrder, s: seq<byte>)
    requires |s| == 4
    ensures Spell(order, Read(order, s)) == s
  {
    DigitsOf(s[0], s[1], s[2], s[3]);
    DigitsOf(s[3], s[2], s[1], s[0]);
  }

  /** The number that the four bytes from place i on spell when the first of them counts least. */
  function LittleAt(s: seq<byte>, i: nat): int
    requires i + 4 <= |s|
  {
    var a: int, b: int, c: int, d: int := s[i], s[i + 1], s[i + 2], s[i + 3];
    a + 0x100 * b + 0x1_0000 * c + 0x100_0000 * d
  }

  /** The same when the first of them counts most. */
  function BigAt(s: seq<byte>, i: nat): int
    requires i + 4 <= |s|
  {
    var a: int, b: int, c: int, d: int := s[i], s[i + 1], s[i + 2], s[i + 3];
    0x100_0000 * a + 0x1_0000 * b + 0x100 * c + d
  }

  /** Which order is which: on the network the highest digit goes first, in the host the lowest. */
  lemma OrdersByValue(n: uint32)
    ensures BigAt(Spell(Network, n), 0) == n && LittleAt(Spell(Host, n), 0) == n
    ensures forall i :: 0 <= i < 4 ==> Spell(Host, n)[i] == Spell(Network, n)[3 - i]
  {
  }

  lemma ReadByValue(s: seq<byte>)
    requires |s| == 4
    ensures Read(Network, s) == BigAt(s, 0) && Read(Host, s) == LittleAt(s, 0)
  {
  }

  /** All chunks of a stream, one after the other. */
  function Flatten<T>(chunks: seq<seq<T>>): seq<T> {
    if chunks == [] then [] else chunks[0] + Flatten(chunks[1..])
  }

  lemma {:induction false} FlattenOneMore<T>(chunks: seq<seq<T>>, last: seq<T>)
    ensures Flatten(chunks + [last]) == Flatten(chunks) + last
  {
    if chunks == [] {
      assert Flatten([last]) == last + Flatten([]) == last;
    } else {
      assert (chunks + [last])[1..] == chunks[1..] + [last];
      FlattenOneMore(chunks[1..], last);
    }
  }
}
