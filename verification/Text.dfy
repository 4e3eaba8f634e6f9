/**
 * The four GLib string operations the SDO client relies on, on strings of octets:
 * `g_string_append_unichar` of a byte, a C string cut at its first zero, `g_strescape` without
 * exceptions, and `g_utf8_strlen` with a byte limit.
 */
module Text {
  import opened Bytes

  /** `g_string_append_unichar`: a byte taken as a code point is appended as UTF-8. */
  function Utf8Of(c: byte): (u: seq<byte>)
    ensures 1 <= |u| <= 2
  {
    if c < 0x80 then [c] else [0xC0 + c / 64, 0x80 + c % 64]
  }

  /** The code point a UTF-8 character of one or two bytes stands for is the byte it was made from. */
  lemma Utf8OfDecodes(c: byte)
    ensures var u := Utf8Of(c);
            if |u| == 1 then u[0] == c < 0x80
            else && 0xC2 <= u[0] < 0xE0 && 0x80 <= u[1] < 0xC0
                 && c == 64 * (u[0] as int - 0xC0) + (u[1] as int - 0x80)
  {
  }

  /** The bytes `s` appended one at a time to an empty string. */
  function Utf8(s: seq<byte>): (u: seq<byte>)
    ensures |s| <= |u| <= 2 * |s|
  {
    if s == [] then [] else Utf8(s[..|s| - 1]) + Utf8Of(s[|s| - 1])
  }

  /** What C sees of a string: everything before the first zero byte. */
  function CString(s: seq<byte>): (r: seq<byte>)
    ensures 0 !in r && |r| <= |s|
  {
    if s == [] || s[0] == 0 then [] else [s[0]] + CString(s[1..])
  }

  function EscapeOf(c: byte): (e: seq<byte>)
    requires c != 0
    ensures 0 !in e && |e| >= 1 && Ascii(e)
    ensures |e| == 1 <==> PlainByte(c)
    ensures PlainByte(c) ==> e == [c]
  {
    if c == 0x08 then [0x5C, 0x62]
    else if c == 0x09 then [0x5C, 0x74]
    else if c == 0x0A then [0x5C, 0x6E]
    else if c == 0x0B then [0x5C, 0x76]
    else if c == 0x0C then [0x5C, 0x66]
    else if c == 0x0D then [0x5C, 0x72]
    else if c == 0x22 || c == 0x5C then [0x5C, c]
    else if c < 0x20 || c >= 0x7F then [0x5C, 0x30 + c / 64, 0x30 + c / 8 % 8, 0x30 + c % 8]
    else [c]
  }

  /** `g_strescape (s, NULL)`. */
  function Escape(s: seq<byte>): (e: seq<byte>)
    requires 0 !in s
    ensures 0 !in e && |e| >= |s| && Ascii(e)
  {
    if s == [] then [] else EscapeOf(s[0]) + Escape(s[1..])
  }

  /** Printable ASCII other than the quote and the backslash: the bytes `g_strescape` leaves alone. */
  predicate PlainByte(c: byte) {
    0x20 <= c < 0x7F && c != 0x22 && c != 0x5C
  }

  predicate Plain(s: seq<byte>) {
    forall i :: 0 <= i < |s| ==> PlainByte(s[i])
  }

  predicate Ascii(s: seq<byte>) {
    forall i :: 0 <= i < |s| ==> s[i] < 0x80
  }

  /** The value a finished upload stores for the bytes it collected. */
  function Stored(s: seq<byte>): (r: seq<byte>)
    ensures 0 !in r && Ascii(r)
  {
    Escape(CString(Utf8(s)))
  }

  lemma Grouped(a: seq<byte>, b: seq<byte>, c: seq<byte>)
    ensures a + b + c == a + (b + c)
  {
  }

  lemma Utf8Last(s: seq<byte>, c: byte)
    ensures Utf8(s + [c]) == Utf8(s) + Utf8Of(c)
  {
    assert (s + [c])[..|s|] == s;
  }

  lemma Utf8One(a: seq<byte>, b: seq<byte>, c: byte)
    requires Utf8(a + b) == Utf8(a) + Utf8(b)
    ensures Utf8(a + (b + [c])) == Utf8(a) + Utf8(b + [c])
  {
    Grouped(a, b, [c]);
    Utf8Last(a + b, c);
    Utf8Last(b, c);
    Grouped(Utf8(a), Utf8(b), Utf8Of(c));
  }

  lemma {:induction false} Utf8Append(a: seq<byte>, b: seq<byte>)
    ensures Utf8(a + b) == Utf8(a) + Utf8(b)
  {
    if b == [] {
      assert a + b == a;
    } else {
      var n := |b| - 1;
      Utf8Append(a, b[..n]);
      Utf8One(a, b[..n], b[n]);
      assert b == b[..n] + [b[n]];
    }
  }

  lemma Utf8Start(text: seq<byte>, data: seq<byte>)
    requires |data| >= 1
    ensures text + Utf8(data[1..1]) == text
  {
    assert data[1..1] == [];
  }

  lemma Utf8Next(text: seq<byte>, data: seq<byte>, k: nat)
    requires 1 <= k < |data|
    ensures text + Utf8(data[1..k + 1]) == text + Utf8(data[1..k]) + Utf8Of(data[k])
  {
    assert data[1..k + 1] == data[1..k] + [data[k]];
    Grouped(text, Utf8(data[1..k]), Utf8Of(data[k]));
  }

  lemma {:induction false} Utf8Ascii(s: seq<byte>)
    requires Ascii(s)
    ensures Utf8(s) == s
  {
    if s != [] {
      Utf8Ascii(s[..|s| - 1]);
      assert s == s[..|s| - 1] + [s[|s| - 1]];
    }
  }

  /** Any byte above 0x7F makes the collected string longer than what was sent. */
  lemma {:induction false} Utf8Grows(s: seq<byte>)
    requires !Ascii(s)
    ensures |Utf8(s)| > |s|
  {
    var n := |s| - 1;
    if Ascii(s[..n]) {
      assert s[n] >= 0x80;
    } else {
      Utf8Grows(s[..n]);
    }
  }

  lemma {:induction false} CStringWhole(s: seq<byte>)
    ensures CString(s) == s <==> 0 !in s
  {
    if s != [] && s[0] != 0 {
      CStringWhole(s[1..]);
      assert s == [s[0]] + s[1..];
    }
  }

  /** What C sees is the longest beginning without a zero byte. */
  lemma {:induction false} CStringIsPrefix(s: seq<byte>)
    ensures var r := CString(s);
            r <= s && 0 !in r && (r < s ==> s[|r|] == 0)
  {
    if s != [] && s[0] != 0 {
      CStringIsPrefix(s[1..]);
      assert s == [s[0]] + s[1..];
    }
  }

  /** The byte that a letter after a backslash stands for in C; other characters stand for themselves. */
  function Control(c: byte): byte {
    match c
    case 0x62 => 8
    case 0x74 => 9
    case 0x6E => 10
    case 0x76 => 11
    case 0x66 => 12
    case 0x72 => 13
    case _ => c
  }

  predicate OctalDigit(c: byte) {
    0x30 <= c < 0x38
  }

  /** The first byte an escaped string stands for, in the forms `g_strescape` makes, and how long its escape is. */
  function FirstByte(e: seq<byte>): (r: (byte, nat))
    requires e != []
    ensures 1 <= r.1 <= |e|
  {
    if e[0] != 0x5C || |e| == 1 then (e[0], 1)
    else if |e| >= 4 && OctalDigit(e[1]) && OctalDigit(e[2]) && OctalDigit(e[3]) then
      ((64 * (e[1] as int - 0x30) + 8 * (e[2] as int - 0x30) + (e[3] as int - 0x30)) % 256, 4)
    else (Control(e[1]), 2)
  }

  /** The bytes an escaped string stands for. */
  function Unescape(e: seq<byte>): seq<byte> {
    if e == [] then [] else [FirstByte(e).0] + Unescape(e[FirstByte(e).1..])
  }

  lemma EscapeLength(c: byte)
    requires c != 0
    ensures |EscapeOf(c)| == if PlainByte(c) then 1 else if 8 <= c <= 13 || c in {0x22, 0x5C} then 2 else 4
  {
  }

  lemma OctalDigits(c: byte)
    ensures c / 64 < 4 && 64 * (c / 64) + 8 * (c / 8 % 8) + c % 8 == c
  {
  }

  lemma EscapeDecodes(c: byte)
    requires c != 0
    ensures FirstByte(EscapeOf(c)) == (c, |EscapeOf(c)|)
  {
    EscapeLength(c);
    if |EscapeOf(c)| == 4 {
      OctalDecodes(c);
    }
  }

  lemma OctalDecodes(c: byte)
    requires c != 0 && |EscapeOf(c)| == 4
    ensures FirstByte(EscapeOf(c)) == (c, 4)
  {
    var e := EscapeOf(c);
    EscapeLength(c);
    assert e == [0x5C, 0x30 + c / 64, 0x30 + c / 8 % 8, 0x30 + c % 8];
    OctalDigits(c);
  }

  /** Only as many bytes are looked at as the escape has. */
  lemma FirstByteAlone(c: byte, t: seq<byte>)
    requires c != 0
    ensures FirstByte(EscapeOf(c) + t) == FirstByte(EscapeOf(c))
  {
    var e, f := EscapeOf(c), EscapeOf(c) + t;
    forall i | 0 <= i < |e|
      ensures f[i] == e[i]
    {
    }
    EscapeLength(c);
  }

  /** Escaping loses nothing: C reads the string back. */
  lemma {:induction false} EscapeRoundTrip(s: seq<byte>)
    requires 0 !in s
    ensures Unescape(Escape(s)) == s
  {
    if s != [] {
      EscapeRoundTrip(s[1..]);
      EscapeDecodes(s[0]);
      FirstByteAlone(s[0], Escape(s[1..]));
      var e := Escape(s);
      assert e == EscapeOf(s[0]) + Escape(s[1..]);
      assert e[|EscapeOf(s[0])|..] == Escape(s[1..]);
    }
  }

  lemma {:induction false} EscapePlain(s: seq<byte>)
    requires 0 !in s
    ensures Plain(s) ==> Escape(s) == s
    ensures !Plain(s) ==> |Escape(s)| > |s|
  {
    if s != [] {
      EscapePlain(s[1..]);
      if Plain(s) {
        assert Plain(s[1..]);
      } else if PlainByte(s[0]) {
        assert !Plain(s[1..]);
      }
    }
  }

  lemma EscapeStarts(c: byte, t: seq<byte>)
    requires PlainByte(c) && 0 !in t
    ensures 0 !in [c] + t && Escape([c] + t) == [c] + Escape(t)
  {
    assert ([c] + t)[1..] == t;
  }

  lemma {:induction false} EscapeAfterPlain(a: seq<byte>, s: seq<byte>)
    requires Plain(a) && 0 !in s
    ensures 0 !in a + s && Escape(a + s) == a + Escape(s)
  {
    if a == [] {
      assert a + s == s && a + Escape(s) == Escape(s);
    } else {
      assert a == [a[0]] + a[1..];
      EscapeAfterPlain(a[1..], s);
      EscapeStarts(a[0], a[1..] + s);
      Grouped([a[0]], a[1..], s);
      Grouped([a[0]], a[1..], Escape(s));
    }
  }

  /**
   * A string survives collection and escaping exactly when all its bytes are plain.  A string
   * with a zero byte never does, because the stored value has none.
   */
  lemma StoredIsIdentity(s: seq<byte>)
    ensures Stored(s) == s <==> Plain(s)
  {
    if 0 !in s {
      if Ascii(s) {
        Utf8Ascii(s);
        CStringWhole(s);
        EscapePlain(s);
      } else {
        Utf8Grows(s);
        Utf8NoZero(s);
        CStringWhole(Utf8(s));
      }
    }
  }

  lemma {:induction false} Utf8NoZero(s: seq<byte>)
    requires 0 !in s
    ensures 0 !in Utf8(s)
  {
    if s != [] {
      Utf8NoZero(s[..|s| - 1]);
    }
  }

  /** Length in bytes of the UTF-8 character a byte announces, as in GLib's skip table. */
  function Skip(c: byte): (n: nat)
    ensures 1 <= n <= 6
  {
    if c < 0xC0 then 1
    else if c < 0xE0 then 2
    else if c < 0xF0 then 3
    else if c < 0xF8 then 4
    else if c < 0xFC then 5
    else if c < 0xFE then 6
    else 1
  }

  /** Characters of `s` from `p` on, of which only the ones ending within `max` bytes count. */
  function CharsFrom(s: seq<byte>, p: nat, max: nat): (n: nat)
    requires p < |s| && p < max
    ensures n <= |s| - p && n <= max - p
    decreases |s| - p
  {
    var q := p + Skip(s[p]);
    if q < max && q < |s| then 1 + CharsFrom(s, q, max)
    else if q <= max then 1
    else 0
  }

  const STRLEN_LIMIT := 4095

  /** `g_utf8_strlen (s, 4095)`, the size a string download declares. */
  function DeclaredSize(s: seq<byte>): (n: nat)
    ensures n <= |s| && n <= STRLEN_LIMIT
    ensures s != [] ==> n >= 1
  {
    if s == [] then 0 else CharsFrom(s, 0, STRLEN_LIMIT)
  }

  lemma {:induction false} CharsFromAscii(s: seq<byte>, p: nat, max: nat)
    requires p < |s| && p < max && Ascii(s)
    ensures CharsFrom(s, p, max) == Min(|s|, max) - p
    decreases |s| - p
  {
    if p + 1 < max && p + 1 < |s| {
      CharsFromAscii(s, p + 1, max);
    }
  }

  lemma DeclaredSizeAscii(s: seq<byte>)
    requires Ascii(s)
    ensures DeclaredSize(s) == Min(|s|, 4095)
  {
    if s != [] {
      CharsFromAscii(s, 0, STRLEN_LIMIT);
    }
  }

  /** A character of UTF-8, by its first byte; a byte that begins no longer one is a character of its own. */
  predicate IsCharacter(u: seq<byte>) {
    match |u|
    case 1 => u[0] < 0xC0 || u[0] >= 0xFE
    case 2 => 0xC0 <= u[0] < 0xE0
    case 3 => 0xE0 <= u[0] < 0xF0
    case 4 => 0xF0 <= u[0] < 0xF8
    case 5 => 0xF8 <= u[0] < 0xFC
    case 6 => 0xFC <= u[0] < 0xFE
    case _ => false
  }

  function Joined(cs: seq<seq<byte>>): (s: seq<byte>) {
    if cs == [] then [] else Joined(cs[..|cs| - 1]) + cs[|cs| - 1]
  }

  lemma JoinedNext(cs: seq<seq<byte>>, k: nat)
    requires k < |cs|
    ensures Joined(cs[..k + 1]) == Joined(cs[..k]) + cs[k]
  {
    assert cs[..k + 1][..k] == cs[..k];
  }

  lemma {:induction false} JoinedPrefix(cs: seq<seq<byte>>, k: nat)
    requires k <= |cs|
    ensures Joined(cs[..k]) <= Joined(cs)
    decreases |cs| - k
  {
    if k < |cs| {
      JoinedPrefix(cs, k + 1);
      JoinedNext(cs, k);
    } else {
      assert cs[..k] == cs;
    }
  }

  /** `n` is the number of characters that end within `max` bytes. */
  predicate Counts(cs: seq<seq<byte>>, n: nat, max: nat) {
    n <= |cs| && |Joined(cs[..n])| <= max && (n < |cs| ==> |Joined(cs[..n + 1])| > max)
  }

  /** The step from the end of one character to the end of the next. */
  lemma NextCharacter(cs: seq<seq<byte>>, k: nat)
    requires k < |cs| && IsCharacter(cs[k])
    ensures var p, q := |Joined(cs[..k])|, |Joined(cs[..k + 1])|;
            && p < q <= |Joined(cs)| && Skip(Joined(cs)[p]) == q - p
            && (q == |Joined(cs)| <== k + 1 == |cs|)
  {
    JoinedNext(cs, k);
    JoinedPrefix(cs, k + 1);
    assert Joined(cs)[|Joined(cs[..k])|] == Joined(cs[..k + 1])[|Joined(cs[..k])|] == cs[k][0];
    if k + 1 == |cs| {
      assert cs[..k + 1] == cs;
    }
  }

  /** The count ends with the last character, or where the limit is reached. */
  lemma LastCounted(cs: seq<seq<byte>>, k: nat, max: nat)
    requires (forall i :: 0 <= i < |cs| ==> IsCharacter(cs[i])) && k < |cs|
    requires |Joined(cs[..k])| < max && |Joined(cs[..k])| < |Joined(cs)|
    requires k + 1 == |cs| || |Joined(cs[..k + 1])| >= max
    ensures Counts(cs, k + CharsFrom(Joined(cs), |Joined(cs[..k])|, max), max)
  {
    NextCharacter(cs, k);
    if k + 1 < |cs| {
      NextCharacter(cs, k + 1);
    }
  }

  lemma {:induction false} CharsCounted(cs: seq<seq<byte>>, k: nat, max: nat)
    requires (forall i :: 0 <= i < |cs| ==> IsCharacter(cs[i])) && k < |cs|
    requires |Joined(cs[..k])| < max && |Joined(cs[..k])| < |Joined(cs)|
    ensures Counts(cs, k + CharsFrom(Joined(cs), |Joined(cs[..k])|, max), max)
    decreases |cs| - k
  {
    if k + 1 == |cs| || |Joined(cs[..k + 1])| >= max {
      LastCounted(cs, k, max);
    } else {
      NextCharacter(cs, k);
      NextCharacter(cs, k + 1);
      CharsCounted(cs, k + 1, max);
    }
  }

  lemma AllCounted(cs: seq<seq<byte>>, max: nat)
    requires (forall i :: 0 <= i < |cs| ==> IsCharacter(cs[i])) && cs != [] && max > 0
    ensures Joined(cs) != []
    ensures Counts(cs, CharsFrom(Joined(cs), 0, max), max)
  {
    assert Joined(cs[..0]) == [];
    NextCharacter(cs, 0);
    CharsCounted(cs, 0, max);
  }

  /** The declared size of a string of UTF-8 characters: how many of them end within 4095 bytes. */
  lemma DeclaredSizeCounts(cs: seq<seq<byte>>)
    requires forall i :: 0 <= i < |cs| ==> IsCharacter(cs[i])
    ensures Counts(cs, DeclaredSize(Joined(cs)), 4095)
  {
    if cs != [] {
      AllCounted(cs, 4095);
    }
  }
}
