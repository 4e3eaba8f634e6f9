/** The value an index object holds, and its 32-bit form on the bus. */
module Values {
  import opened Bytes
  import opened Text
  import opened Wrappers

  datatype GType = GBoolean | GInt | GUInt | GDouble | GString

  /** A GValue of one of the five types; a string may be the null pointer. */
  datatype Value =
    | BoolV(b: bool)
    | IntV(i: int)
    | UIntV(u: nat)
    | DoubleV(d: real)
    | StrV(text: Option<seq<byte>>)

  function TypeOf(v: Value): GType {
    match v
    case BoolV(_) => GBoolean
    case IntV(_) => GInt
    case UIntV(_) => GUInt
    case DoubleV(_) => GDouble
    case StrV(_) => GString
  }

  /** C ranges: 32-bit integers, and strings without an inner zero byte. */
  predicate WellTyped(v: Value) {
    match v
    case IntV(i) => -0x8000_0000 <= i < 0x8000_0000
    case UIntV(u) => u < WORD
    case StrV(Some(s)) => 0 !in s
    case _ => true
  }

  /** The GType for a CANopen data type code. */
  function GTypeFor(dataType: nat): GType {
    match dataType
    case 0x1 => GBoolean
    case 0x2 => GInt
    case 0x3 => GInt
    case 0x4 => GInt
    case 0x5 => GUInt
    case 0x6 => GUInt
    case 0x7 => GUInt
    case 0x8 => GDouble
    case 0x9 => GString
    case _ => GInt
  }

  function ZeroValue(g: GType): (v: Value)
    ensures WellTyped(v) && TypeOf(v) == g
  {
    match g
    case GBoolean => BoolV(false)
    case GInt => IntV(0)
    case GUInt => UIntV(0)
    case GDouble => DoubleV(0.0)
    case GString => StrV(None)
  }

  /**
   * The value an object of type `g` takes when given `v`: `v` itself if it has that type, else what
   * GLib transforms it to, if it can.
   */
  function Given(v: Value, transformed: Option<Value>, g: GType): (r: Option<Value>)
    ensures r.Some? ==> WellTyped(r.value) && TypeOf(r.value) == g
  {
    if WellTyped(v) && TypeOf(v) == g then Some(v)
    else if transformed.Some? && WellTyped(transformed.value) && TypeOf(transformed.value) == g then transformed
    else None
  }

  /** Two's complement reading of a 32-bit word. */
  function Signed(u: nat): (i: int)
    requires u < WORD
    ensures -0x8000_0000 <= i < 0x8000_0000
    ensures i % WORD == u
  {
    if u < 0x8000_0000 then u else u - WORD
  }

  /** Truncation toward zero. */
  function Truncated(d: real): (t: int)
    ensures d >= 0.0 ==> 0 <= t && t as real <= d < (t + 1) as real
    ensures d <= 0.0 ==> t <= 0 && (t - 1) as real < d <= t as real
  {
    if d >= 0.0 then d.Floor else -((-d).Floor)
  }

  /** The characters of a string value; the null pointer reads as the empty string. */
  function Chars(v: Value): seq<byte> {
    match v
    case StrV(Some(s)) => s
    case _ => []
  }

  /** `value32`: the word a write request carries for a value; for a string its declared size. */
  function Encoded(v: Value): (w: nat)
    ensures w < WORD
  {
    match v
    case BoolV(_) => 0
    case IntV(i) => i % WORD
    case UIntV(u) => u % WORD
    case DoubleV(d) => Truncated(d) % WORD
    case StrV(_) => DeclaredSize(Chars(v))
  }

  /** `n` is the number of a value modulo `m`: a double counts without its fraction, a boolean as 0. */
  predicate Carries(n: nat, m: nat, v: Value)
    requires m > 0
  {
    && n < m
    && match v
       case BoolV(_) => n == 0
       case IntV(i) => (i - n) % m == 0
       case UIntV(u) => (u - n) % m == 0
       case DoubleV(d) => (Truncated(d) - n) % m == 0
       case StrV(_) => false
  }

  lemma Remainder(i: int, m: nat)
    requires m in {0x100, 0x1_0000, WORD}
    ensures 0 <= i % WORD % m < m && (i - i % WORD % m) % m == 0
  {
  }

  /** The low bytes of the word of a number carry it. */
  lemma EncodedCarries(v: Value, m: nat)
    requires !v.StrV? && m in {0x100, 0x1_0000, WORD}
    ensures Carries(Encoded(v) % m, m, v)
  {
    match v
    case BoolV(_) =>
    case IntV(i) => Remainder(i, m);
    case UIntV(u) => Remainder(u, m);
    case DoubleV(d) => Remainder(Truncated(d), m);
  }

  /** The word of a write request: the number of the value, or the declared size of a string. */
  predicate RequestWord(w: nat, v: Value) {
    match v
    case StrV(None) => w == 0
    case StrV(Some(s)) => w == DeclaredSize(s)
    case _ => Carries(w, WORD, v)
  }

  lemma EncodedIsWord(v: Value)
    ensures RequestWord(Encoded(v), v)
  {
    if !v.StrV? {
      EncodedCarries(v, WORD);
    }
  }

  /** `set_value32`: the value after a received word is stored over `v`. */
  function Decoded(v: Value, w: nat): (r: Value)
    requires w < WORD
    ensures TypeOf(r) == TypeOf(v)
    ensures WellTyped(v) ==> WellTyped(r)
  {
    match v
    case BoolV(_) => BoolV(w != 0)
    case IntV(_) => IntV(Signed(w))
    case UIntV(_) => UIntV(w)
    case DoubleV(_) => DoubleV(w as real)
    case StrV(_) => v
  }

  /** `v` is what a received word stands for. */
  predicate Holds(v: Value, w: nat) {
    match v
    case BoolV(b) => b <==> w != 0
    case IntV(i) => (i - w) % WORD == 0
    case UIntV(u) => u == w
    case DoubleV(d) => d == w as real
    case StrV(_) => false
  }

  lemma DecodedHolds(v: Value, w: nat)
    requires w < WORD
    ensures var r := Decoded(v, w);
            if v.StrV? then r == v else TypeOf(r) == TypeOf(v) && WellTyped(r) && Holds(r, w)
  {
  }
}
