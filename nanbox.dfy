// The NaN-boxed encoding of values (the AU_USE_NAN_TAGGING branch of
// src/core/rt/value/main.h). A value is 64 bits: a double is stored as its
// own bits; every other variant is a quiet-NaN pattern 0x7ff0... carrying a
// 4-bit type tag in bits 48..51 and a 48-bit payload. Words are unsigned
// integers below 2^64; the C code's masks, shifts and ors on fields that do
// not overlap are written as %, / and + by the matching powers of two.
module NanBox {
  import opened Arith
  import opened Value
  import opened Wrappers

  const PtrMask: int := 0xffff_ffff_ffff
  const ReprError: int := 0x7ff0_ffff_ffff_ffff
  const CanonicalNan: int := 0x7ff0_0000_0000_0001
  const MagicThreshold: int := 0x7ff0_0000_0000_0002

  /** AU_REPR_BOXED(tag, payload): 0x7ff0000000000000 | tag << 48 |
      (payload & 0xffffffffffff). */
  function Boxed(tag: nat, payload: Word64): (raw: Word64)
    requires tag < 16
  {
    Infinity + tag * Two48 + payload % Two48
  }

  /** au_value_get_type: bits 48..51 of a pattern whose magnitude (the bits
      below the sign) reaches the magic threshold; 0 (double) otherwise. */
  function GetType(raw: Word64): (t: nat)
    ensures t < 16
  {
    var magic := raw % Two63;
    var notFloat := magic >= MagicThreshold;
    if notFloat then (magic / Two48) % 16 else 0
  }

  /** A boxed pattern reads back its tag. */
  lemma GetTypeBoxed(tag: nat, payload: Word64)
    requires 1 <= tag < 16
    ensures GetType(Boxed(tag, payload)) == tag
  {
    var raw := Boxed(tag, payload);
    assert raw < Two63;
    assert raw / Two48 == 0x7ff0 + tag;
  }

  /** au_value_is_error: exactly the one error pattern. */
  predicate IsError(raw: Word64)
  {
    raw == ReprError
  }

  // ---- int ----------------------------------------------------------------

  /** (int32_t) of the low 32 bits. */
  function Signed32(x: int): Int32
    requires 0 <= x < Two32
  {
    if x <= Int32Max then x else x - Two32
  }

  /** au_value_int: (uint64_t)n is n modulo 2^64, the sign extension. */
  function MakeInt(n: Int32): Word64
  {
    Boxed(2, n % Two64)
  }

  /** au_value_get_int: (int32_t) of the payload keeps its low 32 bits. */
  function GetInt(raw: Word64): Int32
  {
    Signed32(raw % Two32)
  }

  /** An int reads back as an int with the same value. */
  lemma IntRoundTrip(n: Int32)
    ensures GetType(MakeInt(n)) == 2
    ensures GetInt(MakeInt(n)) == n
  {
    GetTypeBoxed(2, n % Two64);
    IntLowBits(n);
    assert IsInt32(n);
    if n < 0 {
      ModShift(n, Two32);
    }
  }

  /** The low 32 bits of a boxed int are those of the int. */
  lemma IntLowBits(n: Int32)
    ensures MakeInt(n) % Two32 == n % Two32
  {
    var p := (n % Two64) % Two48;
    assert p % Two32 == n % Two32;
    assert (Infinity + 2 * Two48) % Two32 == 0;
    assert MakeInt(n) % Two32 == p % Two32;
  }

  /** Adding the modulus once does not change the remainder. */
  lemma ModShift(x: int, m: int)
    requires 0 < m && -m <= x < 0
    ensures x % m == x + m
  {}

  // ---- bool, none, pointers -------------------------------------------------

  /** au_value_bool: the payload is n != 0. */
  function MakeBool(n: Int32): Word64
  {
    Boxed(3, if n != 0 then 1 else 0)
  }

  /** au_value_get_bool: the lowest bit. */
  function GetBool(raw: Word64): (r: int)
    ensures r == 0 || r == 1
  {
    raw % 2
  }

  /** A bool stores n != 0 and reads back as 0 or 1. */
  lemma BoolRoundTrip(n: Int32)
    ensures GetType(MakeBool(n)) == 3
    ensures GetBool(MakeBool(n)) == if n != 0 then 1 else 0
  {
    GetTypeBoxed(3, if n != 0 then 1 else 0);
  }

  /** au_value_none */
  function MakeNone(): Word64
  {
    Boxed(1, 0)
  }

  /** au_value_fn / au_value_string / au_value_struct: a 48-bit pointer under
      tag 4, 5 or 6. */
  function MakePtr(tag: nat, p: Ptr): Word64
    requires 4 <= tag <= 6
  {
    Boxed(tag, p)
  }

  /** AU_REPR_GET_POINTER */
  function GetPtr(raw: Word64): Ptr
  {
    raw % Two48
  }

  lemma PtrRoundTrip(tag: nat, p: Ptr)
    requires 4 <= tag <= 6
    ensures GetType(MakePtr(tag, p)) == tag && GetPtr(MakePtr(tag, p)) == p
  {
    GetTypeBoxed(tag, p);
  }

  // ---- double -------------------------------------------------------------

  /** The double with these bits compares less than zero. */
  predicate Negative(x: Word64)
  {
    x >= Two63 && !IsNan(x) && Magnitude(x) != 0
  }

  /** au_value_double: a NaN is replaced by the canonical NaN, with the sign
      bit set when the double compares less than zero; any other double is
      stored as is. */
  function MakeDouble(x: Word64): Word64
  {
    if IsNan(x) then CanonicalNan + (if Negative(x) then Two63 else 0) else x
  }

  /** Every double reads back as a double, and a NaN always becomes the
      canonical NaN: a NaN never compares less than zero, so the sign branch
      cannot be taken. */
  lemma DoubleType(x: Word64)
    ensures GetType(MakeDouble(x)) == 0
    ensures !IsNan(x) ==> MakeDouble(x) == x
    ensures IsNan(x) ==> MakeDouble(x) == CanonicalNan
  {}

  // ---- the error value ----------------------------------------------------

  /** The error pattern as written carries tag 0: au_value_get_type reads it
      as a double, not as AU_VALUE_ERROR (15). */
  lemma ErrorTypeAsWritten()
    ensures GetType(ReprError) == 0
    ensures GetType(ReprError) != Tag(Error)
  {}

  /** The error pattern with the error tag in the type field: the payload
      stays all ones. */
  const ReprErrorTagged: int := 0x7fff_ffff_ffff_ffff

  /** With the tag in place the error value reads back as AU_VALUE_ERROR and
      is still distinct from every other encoded value. */
  lemma ErrorTypeTagged()
    ensures ReprErrorTagged == Boxed(15, PtrMask)
    ensures GetType(ReprErrorTagged) == Tag(Error)
  {
    GetTypeBoxed(15, PtrMask);
  }

  // ---- encoding values ----------------------------------------------------

  /** The 64 bits of a value other than a string (a string's pattern holds the
      address of its au_string, which the value model does not carry). */
  function Encode(v: Value): Word64
    requires !v.Str?
  {
    match v
    case Double(bits) => MakeDouble(bits)
    case Nil => MakeNone()
    case Int(n) => MakeInt(n)
    case Bool(b) => MakeBool(if b then 1 else 0)
    case Fn(p) => MakePtr(4, p)
    case Struct(p) => MakePtr(6, p)
    case Error => ReprErrorTagged
  }

  /** The value a pattern holds, by its type tag; None for a string (its
      bytes live behind the pointer) and for the unused tags 7..14. */
  function Decode(raw: Word64): Option<Value>
  {
    var t := GetType(raw);
    if t == 0 then Some(Double(raw))
    else if t == 1 then Some(Nil)
    else if t == 2 then Some(Int(GetInt(raw)))
    else if t == 3 then Some(Bool(GetBool(raw) == 1))
    else if t == 4 then Some(Fn(GetPtr(raw)))
    else if t == 6 then Some(Struct(GetPtr(raw)))
    else if t == 15 then Some(Error)
    else None
  }

  /** Encoding then decoding gives the value back, for every value whose
      double bits are already in the form au_value_double stores. */
  lemma DecodeEncode(v: Value)
    requires !v.Str?
    requires v.Double? ==> MakeDouble(v.bits) == v.bits
    ensures Decode(Encode(v)) == Some(v)
  {
    match v
    case Double(bits) => DoubleType(bits);
    case Nil => GetTypeBoxed(1, 0);
    case Int(n) => IntRoundTrip(n);
    case Bool(b) => BoolRoundTrip(if b then 1 else 0);
    case Fn(p) => PtrRoundTrip(4, p);
    case Struct(p) => PtrRoundTrip(6, p);
    case Error => ErrorTypeTagged();
  }

  /** The type tag of an encoded value is the tag of its variant. */
  lemma EncodeTag(v: Value)
    requires !v.Str?
    ensures GetType(Encode(v)) == Tag(v)
  {
    match v
    case Double(bits) => DoubleType(bits);
    case Nil => GetTypeBoxed(1, 0);
    case Int(n) => IntRoundTrip(n);
    case Bool(b) => BoolRoundTrip(if b then 1 else 0);
    case Fn(p) => PtrRoundTrip(4, p);
    case Struct(p) => PtrRoundTrip(6, p);
    case Error => ErrorTypeTagged();
  }
}
