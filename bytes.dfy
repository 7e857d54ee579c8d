/** Fixed-width unsigned integers and their network byte order (big-endian)
    layout, as produced by htons/htonl before a write and undone by
    ntohs/ntohl after a read. */
module Bytes {

  type uint8 = x: int | 0 <= x < 0x100
  type uint16 = x: int | 0 <= x < 0x1_0000
  type uint32 = x: int | 0 <= x < 0x1_0000_0000

  // Option and Min are shared by every module of the model; they live here
  // because this is the one module all the others import.

  datatype Option<T> = None | Some(value: T)

  function Min(a: nat, b: nat): nat {
    if a < b then a else b
  }

  /** A run of zero bytes, as left by calloc or memset(0). */
  function Zeros(n: nat): (z: seq<uint8>)
    ensures |z| == n
    ensures forall i :: 0 <= i < n ==> z[i] == 0
  {
    seq(n, i => 0)
  }

  /** The two bytes of `v` in network order: most significant byte first. */
  function Be16(v: uint16): (b: seq<uint8>)
    ensures |b| == 2
  {
    [v / 0x100, v % 0x100]
  }

  function FromBe16(b: seq<uint8>): (v: uint16)
    requires |b| == 2
  {
    b[0] as int * 0x100 + b[1]
  }

  /** The four bytes of `v` in network order: the high half first, each half
      most significant byte first. */
  function Be32(v: uint32): (b: seq<uint8>)
    ensures |b| == 4
  {
    Be16(v / 0x1_0000) + Be16(v % 0x1_0000)
  }

  function FromBe32(b: seq<uint8>): (v: uint32)
    requires |b| == 4
  {
    FromBe16(b[..2]) as int * 0x1_0000 + FromBe16(b[2..])
  }

  /** ntohs(htons(v)) == v */
  lemma Be16RoundTrip(v: uint16)
    ensures FromBe16(Be16(v)) == v
  {
  }

  /** Every two bytes on disk are the encoding of the value read from them. */
  lemma FromBe16RoundTrip(b: seq<uint8>)
    requires |b| == 2
    ensures Be16(FromBe16(b)) == b
  {
  }

  /** ntohl(htonl(v)) == v */
  lemma Be32RoundTrip(v: uint32)
    ensures FromBe32(Be32(v)) == v
  {
    var b := Be32(v);
    assert b[..2] == Be16(v / 0x1_0000) && b[2..] == Be16(v % 0x1_0000);
    Be16RoundTrip(v / 0x1_0000);
    Be16RoundTrip(v % 0x1_0000);
  }

  /** Every four bytes on disk are the encoding of the value read from them. */
  lemma FromBe32RoundTrip(b: seq<uint8>)
    requires |b| == 4
    ensures Be32(FromBe32(b)) == b
  {
    var hi, lo := FromBe16(b[..2]), FromBe16(b[2..]);
    assert FromBe32(b) / 0x1_0000 == hi && FromBe32(b) % 0x1_0000 == lo;
    FromBe16RoundTrip(b[..2]);
    FromBe16RoundTrip(b[2..]);
    assert b == b[..2] + b[2..];
  }

  /** Network order: the four bytes of `v` from the most significant to the
      least, so a value below 2^24 starts with a zero byte. */
  lemma Be32MostSignificantFirst(v: uint32)
    ensures Be32(v) == [v / 0x100_0000, v / 0x1_0000 % 0x100, v / 0x100 % 0x100, v % 0x100]
    ensures Be32(v)[0] == 0 <==> v < 0x100_0000
  {
    var hi, lo := v / 0x1_0000, v % 0x1_0000;
    var a, b, c, d := hi / 0x100, hi % 0x100, lo / 0x100, lo % 0x100;
    assert v == a * 0x100_0000 + (b * 0x1_0000 + c * 0x100 + d);
    assert v / 0x100_0000 == a;
    assert v / 0x100 == (a * 0x100 + b) * 0x100 + c;
    assert v / 0x100 % 0x100 == c;
    assert v % 0x100 == d;
  }
}
