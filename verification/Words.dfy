/** Machine words of 32 bits and the numbers they stand for. */
module Words {
  import opened Bytes

  /** The octets of a machine word, from the top. */
  lemma TopOctet(w: bv32)
    ensures w as int == 0x100_0000 * ((w >> 24) as int) + (w & 0xFF_FFFF) as int
  {
  }

  lemma UpperOctet(w: bv32)
    ensures (w & 0xFF_FFFF) as int == 0x1_0000 * (((w >> 16) & 0xFF) as int) + (w & 0xFFFF) as int
  {
  }

  lemma LowerOctet(w: bv32)
    ensures (w & 0xFFFF) as int == 0x100 * (((w >> 8) & 0xFF) as int) + (w & 0xFF) as int
  {
  }

  lemma ShortWord(w: bv32)
    requires w < 0x1_0000
    ensures w as int < 0x1_0000
  {
    assert (w as bv16) as int == w as int;
  }

  lemma OctetWord(w: bv32)
    requires w < 0x100
    ensures w as int < 0x100
  {
    assert (w as bv8) as int == w as int;
  }

  lemma LowOctetOf(n: int, q: int, d: int)
    requires n == 0x100 * q + d && 0 <= d < 0x100
    ensures n % 0x100 == d
  {
  }

  lemma CutOctets(n: int, x: int, y: int, a: int, b: int, c: int, d: int)
    requires n == 0x100_0000 * a + x && x == 0x1_0000 * b + y && y == 0x100 * c + d
    requires 0 <= y < 0x1_0000 && 0 <= d < 0x100
    ensures n % 0x1_0000 == y && n % 0x100 == d
  {
    LowHalfOf(n, 0x100 * a + b, y);
    LowOctetOf(n, 0x1_0000 * a + 0x100 * b + c, d);
  }

  lemma Masked(w: bv32)
    ensures w & 0xFFFF < 0x1_0000 && w & 0xFF < 0x100
  {
  }

  /** Masking a machine word cuts off its upper bytes. */
  lemma MaskedWord(w: bv32)
    ensures (w & 0xFF) as int == w as int % 0x100 && (w & 0xFFFF) as int == w as int % 0x1_0000
  {
    TopOctet(w);
    UpperOctet(w);
    LowerOctet(w);
    Masked(w);
    ShortWord(w & 0xFFFF);
    OctetWord(w & 0xFF);
    CutOctets(w as int, (w & 0xFF_FFFF) as int, (w & 0xFFFF) as int,
              (w >> 24) as int, ((w >> 16) & 0xFF) as int, ((w >> 8) & 0xFF) as int, (w & 0xFF) as int);
  }

  lemma OctetsOf(n: nat)
    requires n < WORD
    ensures n / 0x100_0000 < 0x100
    ensures n == 0x100_0000 * (n / 0x100_0000) + 0x1_0000 * (n / 0x1_0000 % 0x100)
                 + 0x100 * (n / 0x100 % 0x100) + n % 0x100
  {
    assert n / 0x100 / 0x100 == n / 0x1_0000;
    assert n / 0x1_0000 / 0x100 == n / 0x100_0000;
  }

  function OctetAt(n: nat): bv8
    requires n < 0x100
  {
    if n == 0 then 0 else OctetAt(n - 1) + 1
  }

  lemma {:induction false} OctetIsNumber(n: nat)
    requires n < 0x100
    ensures OctetAt(n) as nat == n
  {
    if n > 0 {
      OctetIsNumber(n - 1);
      var c := OctetAt(n - 1);
      assert c < 255 ==> (c + 1) as int == c as int + 1;
      assert c == 255 ==> c as int == 255;
    }
  }

  lemma SameNumberSameOctet(c: bv8, n: nat)
    requires n == c as nat
    ensures n as bv8 == c
  {
  }

  lemma OctetOfNat(n: nat)
    requires n < 0x100
    ensures (n as bv8) as nat == n
  {
    OctetIsNumber(n);
    SameNumberSameOctet(OctetAt(n), n);
  }

  lemma WidenedOctet(c: bv8)
    ensures (c as bv32) as int == c as int
  {
  }

  function Assembled(a: bv8, b: bv8, c: bv8, d: bv8): bv32 {
    ((a as bv32) << 24) | ((b as bv32) << 16) | ((c as bv32) << 8) | (d as bv32)
  }

  lemma AssembledOctets(a: bv8, b: bv8, c: bv8, d: bv8)
    ensures var w := Assembled(a, b, c, d);
            && w >> 24 == a as bv32 && (w >> 16) & 0xFF == b as bv32
            && (w >> 8) & 0xFF == c as bv32 && w & 0xFF == d as bv32
  {
  }

  lemma SameNumberSameWord(v: bv32, n: nat)
    requires n == v as nat
    ensures n as bv32 == v
  {
  }

  lemma AssembledNumber(a: bv8, b: bv8, c: bv8, d: bv8)
    ensures Assembled(a, b, c, d) as int ==
            0x100_0000 * (a as int) + 0x1_0000 * (b as int) + 0x100 * (c as int) + d as int
  {
    var w := Assembled(a, b, c, d);
    AssembledOctets(a, b, c, d);
    TopOctet(w);
    UpperOctet(w);
    LowerOctet(w);
    WidenedOctet(a);
    WidenedOctet(b);
    WidenedOctet(c);
    WidenedOctet(d);
  }

  /** A 32-bit number is the number of its machine word. */
  lemma WordOfNat(n: nat)
    requires n < WORD
    ensures (n as bv32) as nat == n
  {
    var a, b, c, d := n / 0x100_0000, n / 0x1_0000 % 0x100, n / 0x100 % 0x100, n % 0x100;
    OctetsOf(n);
    OctetOfNat(a);
    OctetOfNat(b);
    OctetOfNat(c);
    OctetOfNat(d);
    AssembledNumber(a as bv8, b as bv8, c as bv8, d as bv8);
    SameNumberSameWord(Assembled(a as bv8, b as bv8, c as bv8, d as bv8), n);
  }
}
