/**
 Fixed-width unsigned integers and the byte-level operations the header
 codec is built from: network byte order (htons/htonl on the way out,
 ntohs/ntohl on the way in) and the nibble and single-bit writes that the
 C bitfields of the IP and TCP headers compile to.
 */
module Octets {

  type uint8 = x: int | 0 <= x < 0x100
  type uint16 = x: int | 0 <= x < 0x1_0000
  type uint32 = x: int | 0 <= x < 0x1_0000_0000

  /** The in-memory bytes of htons(x): most significant byte first. */
  function Be16(x: uint16): (r: seq<uint8>)
    ensures |r| == 2
  {
    [x / 0x100, x % 0x100]
  }

  /** The in-memory bytes of htonl(x): most significant byte first. */
  function Be32(x: uint32): (r: seq<uint8>)
    ensures |r| == 4
  {
    Be16(x / 0x1_0000) + Be16(x % 0x1_0000)
  }

  /** ntohs applied to the 16-bit field that starts at byte i of s. */
  function ReadBe16(s: seq<uint8>, i: nat): uint16
    requires i + 2 <= |s|
  {
    s[i] as int * 0x100 + s[i + 1]
  }

  /** ntohl applied to the 32-bit field that starts at byte i of s. */
  function ReadBe32(s: seq<uint8>, i: nat): uint32
    requires i + 4 <= |s|
  {
    ReadBe16(s, i) * 0x1_0000 + ReadBe16(s, i + 2)
  }

  /** ntohs(htons(x)) == x: a 16-bit field holding the network-order bytes of x reads back as x. */
  lemma Be16Inverse(s: seq<uint8>, i: nat, x: uint16)
    requires i + 2 <= |s| && s[i..i + 2] == Be16(x)
    ensures ReadBe16(s, i) == x
  {
    assert s[i] == s[i..i + 2][0] && s[i + 1] == s[i..i + 2][1];
  }

  /** The two bytes of a 16-bit field are exactly the network-order bytes of the value read. */
  lemma ReadBe16Bytes(s: seq<uint8>, i: nat)
    requires i + 2 <= |s|
    ensures Be16(ReadBe16(s, i)) == s[i..i + 2]
  {
  }

  /** ntohl(htonl(x)) == x: a 32-bit field holding the network-order bytes of x reads back as x. */
  lemma Be32Inverse(s: seq<uint8>, i: nat, x: uint32)
    requires i + 4 <= |s| && s[i..i + 4] == Be32(x)
    ensures ReadBe32(s, i) == x
  {
    assert s[i..i + 2] == s[i..i + 4][..2] == Be16(x / 0x1_0000);
    assert s[i + 2..i + 4] == s[i..i + 4][2..] == Be16(x % 0x1_0000);
    Be16Inverse(s, i, x / 0x1_0000);
    Be16Inverse(s, i + 2, x % 0x1_0000);
  }

  /** The four bytes of a 32-bit field are exactly the network-order bytes of the value read. */
  lemma ReadBe32Bytes(s: seq<uint8>, i: nat)
    requires i + 4 <= |s|
    ensures Be32(ReadBe32(s, i)) == s[i..i + 4]
  {
    var v := ReadBe32(s, i);
    assert v / 0x1_0000 == ReadBe16(s, i) && v % 0x1_0000 == ReadBe16(s, i + 2);
    ReadBe16Bytes(s, i);
    ReadBe16Bytes(s, i + 2);
    assert s[i..i + 4] == s[i..i + 2] + s[i + 2..i + 4];
  }

  /** The byte with its low nibble (bitfield bits 0-3) replaced by v. */
  function SetLowNibble(b: uint8, v: nat): (r: uint8)
    requires v < 0x10
    ensures r % 0x10 == v && r / 0x10 == b / 0x10
  {
    b / 0x10 * 0x10 + v
  }

  /** The byte with its high nibble (bitfield bits 4-7) replaced by v. */
  function SetHighNibble(b: uint8, v: nat): (r: uint8)
    requires v < 0x10
    ensures r / 0x10 == v && r % 0x10 == b % 0x10
  {
    v * 0x10 + b % 0x10
  }

  /** Whether bit k (value 2^k) of b is set. */
  predicate TestBit(b: uint8, k: nat)
    requires k < 8
  {
    b / Pow2(k) % 2 == 1
  }

  function Pow2(k: nat): (r: nat)
    requires k < 8
    ensures 1 <= r <= 0x80
  {
    [1, 2, 4, 8, 0x10, 0x20, 0x40, 0x80][k]
  }

  /** Setting a clear bit, or clearing a set one, flips that bit. */
  lemma FlipBit(b: uint8, k: nat)
    requires k < 8
    ensures !TestBit(b, k) ==> b + Pow2(k) < 0x100 && TestBit(b + Pow2(k), k)
    ensures TestBit(b, k) ==> b - Pow2(k) >= 0 && !TestBit(b - Pow2(k), k)
  {
    var m := Pow2(k);
    FlipBitAt(b, m);
  }

  /** FlipBit for one concrete power of two m. */
  lemma FlipBitAt(b: uint8, m: nat)
    requires m in {1, 2, 4, 8, 0x10, 0x20, 0x40, 0x80}
    ensures b / m % 2 == 0 ==> b + m < 0x100 && (b + m) / m % 2 == 1
    ensures b / m % 2 == 1 ==> b - m >= 0 && (b - m) / m % 2 == 0
  {
    var q, r := b / m, b % m;
    assert b == q * m + r && 0 <= r < m;
    assert (b + m) / m == q + 1;
    if q % 2 == 1 {
      assert (b - m) / m == q - 1;
    } else {
      assert q * m + m < 0x100 by {
        assert q * m < 0x100;
        if m == 1 {} else if m == 2 {} else if m == 4 {} else if m == 8 {}
        else if m == 0x10 {} else if m == 0x20 {} else if m == 0x40 {} else {}
      }
    }
  }

  /** The byte with bit k (a one-bit bitfield) set to 1 when on and to 0 otherwise. */
  function SetBit(b: uint8, k: nat, on: bool): (r: uint8)
    requires k < 8
    ensures TestBit(r, k) == on
  {
    FlipBit(b, k);
    if TestBit(b, k) == on then b
    else if on then b + Pow2(k)
    else b - Pow2(k)
  }
}
