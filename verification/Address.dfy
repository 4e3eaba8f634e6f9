/**
 * Object dictionary ids such as `1018sub1`: how index and subindex are read out of them, and how
 * the pair is packed into bytes 1 to 3 of an SDO frame.
 */
module Address {
  import opened Bytes
  import opened Wrappers

  const ULLONG_MAX := 0xFFFF_FFFF_FFFF_FFFF
  const INDEX_BUFFER := 9

  function HexDigit(c: char): (d: Option<nat>)
    ensures d.Some? ==> d.value < 16
  {
    if '0' <= c <= '9' then Some(c as int - '0' as int)
    else if 'a' <= c <= 'f' then Some(10 + c as int - 'a' as int)
    else if 'A' <= c <= 'F' then Some(10 + c as int - 'A' as int)
    else None
  }

  predicate IsHex(s: string) {
    forall i :: 0 <= i < |s| ==> HexDigit(s[i]).Some?
  }

  predicate IsBlank(c: char) {
    c == ' ' || '\t' as int <= c as int <= '\r' as int
  }

  function SkipBlanks(s: string): string {
    if s != "" && IsBlank(s[0]) then SkipBlanks(s[1..]) else s
  }

  function LeadingHex(s: string): (h: string)
    ensures IsHex(h)
  {
    if s == "" || HexDigit(s[0]).None? then "" else [s[0]] + LeadingHex(s[1..])
  }

  function HexValue(s: string): nat
    requires IsHex(s)
  {
    if s == "" then 0 else 16 * HexValue(s[..|s| - 1]) + HexDigit(s[|s| - 1]).value
  }

  function SkipRadix(s: string): string {
    if |s| >= 2 && s[0] == '0' && (s[1] == 'x' || s[1] == 'X') then s[2..] else s
  }

  /** `g_ascii_strtoull (s, NULL, 16)` cast to a 32-bit unsigned. */
  function Strtoull(s: string): (v: nat)
    ensures v < WORD
  {
    var t := SkipBlanks(s);
    if t != "" && t[0] == '-' then (WORD - Magnitude(t[1..])) % WORD
    else if t != "" && t[0] == '+' then Magnitude(t[1..])
    else Magnitude(t)
  }

  /** The unsigned part, clamped to 64 bits as GLib does and then cut to 32. */
  function Magnitude(s: string): (v: nat)
    ensures v < WORD
  {
    Min(HexValue(LeadingHex(SkipRadix(s))), ULLONG_MAX) % WORD
  }

  /** `strstr (s, "sub")` as an offset. */
  function FindSub(s: string): (p: Option<nat>)
    ensures p.Some? ==> p.value + 3 <= |s|
  {
    if |s| < 3 then None
    else if s[..3] == "sub" then Some(0)
    else
      match FindSub(s[1..])
      case None => None
      case Some(p) => Some(p + 1)
  }

  /** `node_index_object_init_address`: index and subindex of an id. */
  function Parse(id: string): (r: (nat, nat))
    ensures r.0 < WORD && r.1 < WORD
  {
    match FindSub(id)
    case None => (Strtoull(id), 0)
    case Some(p) => (Strtoull(id[..Min(p, INDEX_BUFFER)]), Strtoull(id[p + 3..]))
  }

  function HexChar(d: nat): (c: char)
    requires d < 16
    ensures c == "0123456789abcdef"[d]
    ensures HexDigit(c) == Some(d)
  {
    if d < 10 then ('0' as int + d) as char else ('a' as int + d - 10) as char
  }

  /** The number printed in hexadecimal, as `%x` does. */
  function Hex(n: nat): (s: string)
    ensures s != "" && IsHex(s)
  {
    if n < 16 then [HexChar(n)] else Hex(n / 16) + [HexChar(n % 16)]
  }

  lemma {:induction false} HexValueOfHex(n: nat)
    ensures HexValue(Hex(n)) == n
    ensures n < WORD ==> |Hex(n)| <= 8
  {
    if n < 16 {
      assert [HexChar(n)][..0] == "";
      assert HexValue("") == 0;
    } else {
      HexValueOfHex(n / 16);
      assert Hex(n)[..|Hex(n)| - 1] == Hex(n / 16);
    }
    Power16Of8();
    if n < WORD {
      HexLength(n, 8);
    }
  }

  lemma {:induction false} HexLength(n: nat, k: nat)
    requires k >= 1 && n < Power16(k)
    ensures |Hex(n)| <= k
  {
    assert Power16(0) == 1;
    if n >= 16 {
      HexLength(n / 16, k - 1);
    }
  }

  function Power16(k: nat): nat {
    if k == 0 then 1 else 16 * Power16(k - 1)
  }

  lemma Power16Of8()
    ensures Power16(8) == WORD
  {
    assert Power16(4) == 0x1_0000 by { assert Power16(2) == 0x100 by { assert Power16(0) == 1; } }
    assert Power16(6) == 0x100_0000;
  }

  lemma {:induction false} LeadingHexAll(s: string)
    requires IsHex(s)
    ensures LeadingHex(s) == s
  {
    if s != "" {
      LeadingHexAll(s[1..]);
      assert s == [s[0]] + s[1..];
    }
  }

  lemma HexIsBare(s: string)
    requires IsHex(s)
    ensures SkipBlanks(s) == s && SkipRadix(s) == s
    ensures s != "" ==> s[0] != '-' && s[0] != '+'
  {
    if s != "" {
      assert HexDigit(s[0]).Some?;
    }
    if |s| >= 2 {
      assert HexDigit(s[1]).Some?;
    }
  }

  lemma MagnitudeOfHex(s: string)
    requires IsHex(s) && HexValue(s) < WORD
    ensures Magnitude(s) == HexValue(s)
  {
    HexIsBare(s);
    LeadingHexAll(s);
  }

  lemma StrtoullOfHex(s: string)
    requires IsHex(s) && HexValue(s) < WORD
    ensures Strtoull(s) == HexValue(s)
  {
    HexIsBare(s);
    MagnitudeOfHex(s);
  }

  lemma {:induction false} FindSubAfterHex(a: string, b: string)
    requires IsHex(a)
    ensures FindSub(a + "sub" + b) == Some(|a|)
  {
    var s := a + "sub" + b;
    if a == "" {
      assert s[..3] == "sub";
    } else {
      assert s[0] == a[0];
      assert s[1..] == a[1..] + "sub" + b;
      FindSubAfterHex(a[1..], b);
    }
  }

  /** Bytes 1 to 3 of a request. */
  function Packed(index: nat, subindex: nat): (m: seq<byte>)
    ensures |m| == 3
  {
    [index % 256, index / 256 % 256, subindex % 256]
  }

  /** Index and subindex of a frame, as a server or `node_device_process_index` reads them. */
  function Unpacked(frame: seq<byte>): (nat, nat)
    requires |frame| == 8
  {
    (frame[1] as int + 256 * frame[2] as int, frame[3])
  }

  /** The parse of an id by the numbers its two parts stand for. */
  lemma ParseOfParts(a: string, b: string)
    requires IsHex(a) && IsHex(b) && |a| <= 9 && HexValue(a) < WORD && HexValue(b) < WORD
    ensures Parse(a + "sub" + b) == (HexValue(a), HexValue(b))
    ensures Parse(a) == (HexValue(a), 0)
  {
    StrtoullOfHex(a);
    StrtoullOfHex(b);
    FindSubAfterHex(a, b);
    NoSubInHex(a);
    var id := a + "sub" + b;
    assert id[..Min(|a|, INDEX_BUFFER)] == a;
    assert id[|a| + 3..] == b;
  }

  function Lower(c: char): char {
    if 'A' <= c <= 'Z' then c - 'A' + 'a' else c
  }

  /** The same text but for the case of letters. */
  predicate SameButCase(a: string, b: string) {
    |a| == |b| && forall i :: 0 <= i < |a| ==> Lower(a[i]) == Lower(b[i])
  }

  lemma DigitOfEitherCase(c: char, d: char)
    requires Lower(c) == Lower(d)
    ensures HexDigit(c) == HexDigit(d)
  {
  }

  lemma {:induction false} ValueOfEitherCase(a: string, b: string)
    requires SameButCase(a, b) && IsHex(b)
    ensures IsHex(a) && HexValue(a) == HexValue(b)
  {
    forall i | 0 <= i < |a|
      ensures HexDigit(a[i]) == HexDigit(b[i])
    {
      assert Lower(a[i]) == Lower(b[i]);
      DigitOfEitherCase(a[i], b[i]);
    }
    if a != "" {
      ValueOfEitherCase(a[..|a| - 1], b[..|b| - 1]);
    }
  }

  /**
   * Parsing a printed id recovers the pair it was printed from, whatever the case of its hexadecimal
   * digits.
   */
  lemma ParseOfPrinted(index: nat, subindex: nat, a: string, b: string)
    requires index < WORD && subindex < WORD
    requires SameButCase(a, Hex(index)) && SameButCase(b, Hex(subindex))
    ensures Parse(a + "sub" + b) == (index, subindex)
    ensures Parse(a) == (index, 0)
  {
    HexValueOfHex(index);
    HexValueOfHex(subindex);
    ValueOfEitherCase(a, Hex(index));
    ValueOfEitherCase(b, Hex(subindex));
    ParseOfParts(a, b);
  }

  lemma {:induction false} NoSubInHex(a: string)
    requires IsHex(a)
    ensures FindSub(a) == None
  {
    if |a| >= 3 {
      assert a[..3][0] == a[0];
      NoSubInHex(a[1..]);
    }
  }

  predicate SubAt(s: string, k: nat) {
    k + 3 <= |s| && s[k] == 's' && s[k + 1] == 'u' && s[k + 2] == 'b'
  }

  lemma SubAtStart(s: string)
    requires |s| >= 3
    ensures s[..3] == "sub" <==> SubAt(s, 0)
  {
    if SubAt(s, 0) {
      assert s[..3] == "sub";
    } else {
      assert s[..3][0] == s[0] && s[..3][1] == s[1] && s[..3][2] == s[2];
    }
  }

  /** The id is split at the first `sub`. */
  lemma {:induction false} FindSubIsFirst(s: string)
    ensures match FindSub(s)
            case Some(p) => SubAt(s, p) && forall k :: 0 <= k < p ==> !SubAt(s, k)
            case None => forall k: nat :: !SubAt(s, k)
  {
    if |s| >= 3 {
      SubAtStart(s);
      FindSubIsFirst(s[1..]);
      forall k: nat | 0 < k
        ensures SubAt(s, k) == SubAt(s[1..], k - 1)
      {
      }
    }
  }

  lemma {:induction false} HexBelow(s: string)
    requires IsHex(s)
    ensures HexValue(s) < Power16(|s|)
  {
    if s != "" {
      HexBelow(s[..|s| - 1]);
      assert HexDigit(s[|s| - 1]).Some?;
    }
  }

  /** Of a longer index part the first nine digits count. */
  lemma ParseOfLong(a: string, b: string)
    requires IsHex(a) && |a| >= 9
    ensures Parse(a + "sub" + b) == (HexValue(a[..9]) % WORD, Strtoull(b))
  {
    FindSubAfterHex(a, b);
    var id := a + "sub" + b;
    assert id[..9] == a[..9] && id[|a| + 3..] == b;
    HexIsBare(a[..9]);
    LeadingHexAll(a[..9]);
    HexBelow(a[..9]);
    Power16Of8();
  }

  lemma {:induction false} AfterBlanks(w: string, t: string)
    requires forall i :: 0 <= i < |w| ==> w[i] as int in {9, 10, 11, 12, 13, 32}
    requires t != "" && t[0] as int !in {9, 10, 11, 12, 13, 32}
    ensures SkipBlanks(w + t) == t
  {
    if w == "" {
      assert w + t == t;
    } else {
      assert (w + t)[1..] == w[1..] + t;
      AfterBlanks(w[1..], t);
    }
  }

  lemma {:induction false} LeadingHexOf(h: string, rest: string)
    requires IsHex(h) && (rest == "" || HexDigit(rest[0]).None?)
    ensures LeadingHex(h + rest) == h
  {
    if h == "" {
      assert h + rest == rest;
    } else {
      assert (h + rest)[1..] == h[1..] + rest;
      LeadingHexOf(h[1..], rest);
      assert h == [h[0]] + h[1..];
    }
  }

  predicate IsRadix(r: string) {
    r == "" || (|r| == 2 && r[0] == '0' && (r[1] == 'x' || r[1] == 'X'))
  }

  predicate IsSign(r: string) {
    r == "" || (|r| == 1 && (r[0] == '+' || r[0] == '-'))
  }

  lemma BareNumber(h: string, rest: string)
    requires IsHex(h) && h != "" && !IsRadix((h + rest)[..Min(2, |h + rest|)])
    ensures SkipRadix(h + rest) == h + rest
  {
  }

  /** `0x` before the digits and what follows them does not count; the number is clamped and cut to 32 bits. */
  lemma MagnitudeOf(radix: string, h: string, rest: string)
    requires IsRadix(radix) && IsHex(h) && h != "" && (rest == "" || HexDigit(rest[0]).None?)
    requires radix == "" ==> !IsRadix((h + rest)[..Min(2, |h + rest|)])
    ensures Magnitude(radix + (h + rest)) == Min(HexValue(h), 0xFFFF_FFFF_FFFF_FFFF) % WORD
  {
    LeadingHexOf(h, rest);
    if radix == "" {
      BareNumber(h, rest);
      assert radix + (h + rest) == h + rest;
    } else {
      assert (radix + (h + rest))[2..] == h + rest;
    }
  }

  lemma AfterSign(sign: string, number: string)
    requires IsSign(sign) && number != "" && HexDigit(number[0]).Some?
    ensures var t := sign + number;
            && t != "" && t[0] as int !in {9, 10, 11, 12, 13, 32}
            && if sign == "" then t == number && t[0] != '-' && t[0] != '+'
               else t[0] == sign[0] && t[1..] == number
  {
    if sign != "" {
      assert (sign + number)[1..] == number;
    }
  }

  predicate IsMinus(sign: string) {
    sign != "" && sign[0] == '-'
  }

  lemma SignedNumber(s: string, sign: string, number: string)
    requires IsSign(sign) && number != "" && HexDigit(number[0]).Some? && SkipBlanks(s) == sign + number
    ensures Strtoull(s) == if IsMinus(sign) then (WORD - Magnitude(number)) % WORD else Magnitude(number)
  {
    AfterSign(sign, number);
  }

  lemma Negated(m: nat, n: nat)
    requires m == n % WORD
    ensures (WORD - m) % WORD == (0 - n) % WORD
  {
  }

  /** A number in an id: blanks before it and its sign are taken as C does. */
  lemma StrtoullReads(s: string, w: string, sign: string, number: string)
    requires s == w + (sign + number) && forall i :: 0 <= i < |w| ==> w[i] as int in {9, 10, 11, 12, 13, 32}
    requires IsSign(sign) && number != "" && HexDigit(number[0]).Some?
    ensures Strtoull(s) == if IsMinus(sign) then (0 - Magnitude(number)) % WORD else Magnitude(number)
  {
    AfterSign(sign, number);
    AfterBlanks(w, sign + number);
    SignedNumber(s, sign, number);
    Negated(Magnitude(number), Magnitude(number));
  }

  /**
   * The whole way of an address: printed as an id in digits of any case, parsed by the daemon, packed
   * into a frame and read by the server it comes out unchanged, for exactly the 16-bit indexes and 8-bit
   * subindexes.
   */
  lemma AddressRoundTrip(index: nat, subindex: nat, a: string, b: string, head: byte, tail: seq<byte>)
    requires index < WORD && subindex < WORD && |tail| == 4
    requires SameButCase(a, Hex(index)) && SameButCase(b, Hex(subindex))
    ensures var p := Parse(a + "sub" + b);
            Unpacked([head] + Packed(p.0, p.1) + tail) == (index, subindex)
            <==> index < 0x1_0000 && subindex < 0x100
  {
    ParseOfPrinted(index, subindex, a, b);
    PackingKeeps(index, subindex);
    var frame := [head] + Packed(index, subindex) + tail;
    assert frame[1..4] == Packed(index, subindex);
  }

  lemma PackingKeeps(index: nat, subindex: nat)
    ensures index % 256 + 256 * (index / 256 % 256) == index % 0x1_0000
    ensures index % 0x1_0000 == index <==> index < 0x1_0000
    ensures subindex % 256 == subindex <==> subindex < 256
  {
    Digits(index);
  }
}
