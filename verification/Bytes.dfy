/** Octets, and the few bit operations of the SDO client written as arithmetic on them. */
module Bytes {

  type byte = x: int | 0 <= x < 256

  const WORD := 0x1_0000_0000

  function Min(a: nat, b: nat): nat {
    if a <= b then a else b
  }

  function Zeros(n: nat): (z: seq<byte>)
    ensures |z| == n
  {
    seq(n, _ => 0)
  }

  /** `t ^ 0x10`: flips the toggle bit of an SDO command byte. */
  function Flip(t: nat): nat {
    if t / 16 % 2 == 0 then t + 16 else t - 16
  }

  /** `t` flipped `n` times. */
  function Flipped(t: nat, n: nat): nat {
    if n % 2 == 0 then t else Flip(t)
  }

  /** The four bytes of a 32-bit word, low byte first; higher bits are cut off. */
  function Word4(v: nat): (w: seq<byte>)
    ensures |w| == 4
  {
    [v % 256, v / 256 % 256, v / 256 / 256 % 256, v / 256 / 256 / 256 % 256]
  }

  /** The number whose bytes, low byte first, are `s`. */
  function LittleEndian(s: seq<byte>): (n: nat) {
    if s == [] then 0 else s[0] as int + 256 * LittleEndian(s[1..])
  }

  lemma {:induction false} LittleEndian1(s: seq<byte>)
    requires |s| == 1
    ensures LittleEndian(s) == s[0]
  {
    assert s[1..] == [];
  }

  lemma {:induction false} LittleEndian2(s: seq<byte>)
    requires |s| == 2
    ensures LittleEndian(s) == s[0] as int + 256 * s[1] as int
  {
    LittleEndian1(s[1..]);
  }

  lemma {:induction false} LittleEndian3(s: seq<byte>)
    requires |s| == 3
    ensures LittleEndian(s) == s[0] as int + 256 * (s[1] as int + 256 * s[2] as int)
  {
    LittleEndian2(s[1..]);
  }

  lemma {:induction false} LittleEndian4(s: seq<byte>)
    requires |s| == 4
    ensures LittleEndian(s) == s[0] as int + 256 * (s[1] as int + 256 * (s[2] as int + 256 * s[3] as int))
  {
    LittleEndian3(s[1..]);
  }

  lemma WordPieces(v: nat)
    ensures v % 256 + 256 * (v / 256 % 256) == v % 0x1_0000
    ensures v / 256 / 256 % 256 + 256 * (v / 256 / 256 / 256 % 256) == v / 256 / 256 % 0x1_0000
  {
    Digits(v);
    Digits(v / 256 / 256);
  }

  lemma LowHalfOf(n: int, q: int, y: int)
    requires n == 0x1_0000 * q + y && 0 <= y < 0x1_0000
    ensures n % 0x1_0000 == y
  {
  }

  lemma Digits(v: nat)
    ensures v % 256 + 256 * (v / 256 % 256) == v % 0x1_0000
  {
    var q, r := v / 256, v % 256;
    var p, t := q / 256, q % 256;
    LowHalfOf(v, p, 256 * t + r);
  }

  lemma Halves(v: nat, lo: nat, hi: nat)
    requires lo == v % 0x1_0000 && hi == v / 256 / 256 % 0x1_0000
    ensures lo + 0x1_0000 * hi == v % WORD
  {
    assert v / 256 / 256 == v / 0x1_0000;
  }

  /** Reading back the first 1, 2 or 4 bytes of a word gives the word modulo that many bytes. */
  lemma Word4Prefix(v: nat)
    ensures LittleEndian(Word4(v)[..1]) == v % 0x100
    ensures LittleEndian(Word4(v)[..2]) == v % 0x1_0000
    ensures LittleEndian(Word4(v)[..4]) == v % WORD
  {
    var b := Word4(v);
    LittleEndian1(b[..1]);
    LittleEndian2(b[..2]);
    LittleEndian4(b[..4]);
    WordPieces(v);
    Halves(v, b[0] as int + 256 * b[1] as int, b[2] as int + 256 * b[3] as int);
  }

  lemma OctetLow1(c: bv8)
    ensures (c & 0x01) as int == c as int % 2
  {
  }

  lemma OctetLow2(c: bv8)
    ensures (c & 0x03) as int == c as int % 4
  {
  }

  lemma OctetLow4(c: bv8)
    ensures (c & 0x0F) as int == c as int % 16
  {
  }

  lemma OctetHigh(c: bv8)
    ensures (c & 0xE0) as int == 32 * (c as int / 32)
    ensures (c & 0x20) as int == 32 * (c as int / 32 % 2)
  {
    assert (c & 0x1F) as int == c as int % 32;
    assert (c & 0x3F) as int == c as int % 64;
    assert (c & 0x20) as int == (c & 0x3F) as int - (c & 0x1F) as int;
  }

  lemma OctetMiddle(c: bv8)
    ensures (c & 0x02) as int == (c & 0x03) as int - (c & 0x01) as int
    ensures (c & 0x0E) as int == (c & 0x0F) as int - (c & 0x01) as int
    ensures (c & 0x0C) as int == (c & 0x0F) as int - (c & 0x03) as int
  {
    assert c & 0x02 == (c & 0x03) - (c & 0x01);
    assert c & 0x0E == (c & 0x0F) - (c & 0x01);
  }

  lemma OctetBit4(c: bv8)
    ensures (c & 0x10) as int == c as int % 32 - c as int % 16
  {
    assert (c & 0x1F) as int == c as int % 32;
    assert (c & 0x0F) as int == c as int % 16;
    assert (c & 0x10) as int == (c & 0x1F) as int - (c & 0x0F) as int;
  }

  lemma OctetToggled(c: bv8)
    ensures (c ^ 0x10) as int == if (c & 0x10) as int == 0 then c as int + 16 else c as int - 16
  {
    if c & 0x10 == 0 {
      assert c ^ 0x10 == c + 0x10;
    } else {
      assert c ^ 0x10 == c - 0x10;
    }
  }

  lemma Bit4(n: nat)
    ensures n % 32 - n % 16 == 0 <==> n / 16 % 2 == 0
  {
  }

  lemma OctetFlip(c: bv8)
    ensures (c ^ 0x10) as int == Flip(c as int)
  {
    OctetBit4(c);
    OctetToggled(c);
    Bit4(c as nat);
  }

  lemma LowBits(n: int)
    ensures n % 4 - n % 2 == 2 * (n / 2 % 2)
    ensures n % 16 - n % 4 == 4 * (n / 4 % 4)
  {
  }

  lemma MiddleBits(n: int)
    ensures n % 16 - n % 2 == 2 * (n / 2 % 8)
  {
  }

  /**
   * The arithmetic this project uses in place of the masks of the source agrees with the bit
   * operations on every octet.
   */
  lemma MasksAgree(c: bv8)
    ensures (c & 0x01) as int == c as int % 2
    ensures (c & 0x02) as int == 2 * (c as int / 2 % 2)
    ensures (c & 0x0C) as int == 4 * (c as int / 4 % 4)
    ensures (c & 0x0E) as int == 2 * (c as int / 2 % 8)
    ensures (c & 0x20) as int == 32 * (c as int / 32 % 2)
    ensures (c & 0xE0) as int == 32 * (c as int / 32)
    ensures (c ^ 0x10) as int == Flip(c as int)
  {
    OctetLow1(c);
    OctetLow2(c);
    OctetLow4(c);
    OctetHigh(c);
    OctetMiddle(c);
    OctetFlip(c);
    LowBits(c as int);
    MiddleBits(c as int);
  }
}
