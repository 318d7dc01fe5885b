// The runtime value of src/core/rt/value/main.h and the operators the
// interpreter applies to it. A value is one of the au_vtype variants; the
// bit-level NaN-boxed encoding is in module NanBox. A string value is
// modelled by its bytes, a function or struct value by its pointer, and a
// double by its IEEE-754 bits, read as an unsigned 64-bit number.
module Value {
  import opened Wrappers
  import opened Arith
  import AuString

  const Two48: int := 0x1_0000_0000_0000
  const Two52: int := 0x10_0000_0000_0000
  const Two63: int := 0x8000_0000_0000_0000
  const Two64: int := 0x1_0000_0000_0000_0000

  /** A 64-bit word, unsigned. */
  type Word64 = x: int | 0 <= x < Two64

  /** A 48-bit pointer payload. */
  type Ptr = p: int | 0 <= p < Two48

  datatype Value =
    | Double(bits: Word64)
    | Nil  // none
    | Int(n: Int32)
    | Bool(b: bool)
    | Fn(fn: Ptr)
    | Str(s: seq<byte>)
    | Struct(obj: Ptr)
    | Error

  /** enum au_vtype */
  function Tag(v: Value): (t: nat)
    ensures t <= 6 || t == 15
  {
    match v
    case Double(_) => 0
    case Nil => 1
    case Int(_) => 2
    case Bool(_) => 3
    case Fn(_) => 4
    case Str(_) => 5
    case Struct(_) => 6
    case Error => 15
  }

  /** The variants au_value_eq compares by content. */
  predicate Comparable(v: Value)
  {
    v.Int? || v.Bool? || v.Str?
  }

  // ---- truthiness -------------------------------------------------------

  /** The pattern of +infinity: exponent all ones, fraction zero. */
  const Infinity: int := 0x7ff0_0000_0000_0000

  /** The magnitude bits of a double: everything but the sign. */
  function Magnitude(bits: Word64): (m: int)
    ensures 0 <= m < Two63
  {
    bits % Two63
  }

  /** The IEEE-754 bits denote a NaN: exponent all ones and a non-zero
      fraction, that is a magnitude above that of infinity. */
  predicate IsNan(bits: Word64)
  {
    Magnitude(bits) > Infinity
  }

  /** The double with these bits compares greater than zero: sign clear, not
      a zero, not a NaN. */
  predicate Positive(bits: Word64)
  {
    bits < Two63 && bits != 0 && !IsNan(bits)
  }

  /** au_value_is_truthy */
  predicate Truthy(v: Value)
  {
    match v
    case Int(n) => n > 0
    case Double(bits) => Positive(bits)
    case Bool(b) => b
    case Str(s) => |s| > 0
    case _ => false
  }

  /** none, functions, structs and the error value are never truthy; a NaN
      is not either. */
  lemma FalsyKinds(v: Value)
    ensures v.Nil? || v.Fn? || v.Struct? || v.Error? ==> !Truthy(v)
    ensures v.Double? && IsNan(v.bits) ==> !Truthy(v)
    ensures v.Double? && v.bits >= Two63 ==> !Truthy(v)
  {}

  // ---- arithmetic -------------------------------------------------------

  predicate Numeric(v: Value) { v.Int? || v.Double? }

  /** An operation the interpreter performs in floating point: both operands
      numeric and at least one a double. */
  predicate FloatOp(l: Value, r: Value)
  {
    Numeric(l) && Numeric(r) && (l.Double? || r.Double?)
  }

  /** au_value_add: int + int wraps, str + str concatenates, anything else
      not numeric is the error value. */
  function Add(l: Value, r: Value): (v: Value)
    requires !FloatOp(l, r)
    ensures v.Error? <==> !(l.Int? && r.Int?) && !(l.Str? && r.Str?)
    ensures l.Int? && r.Int? ==> v.Int? && (v.n - (l.n + r.n)) % Two32 == 0
    ensures l.Int? && r.Int? && IsInt32(l.n + r.n) ==> v == Int(l.n + r.n)
    ensures l.Str? && r.Str? ==> v.Str? && |v.s| == |l.s| + |r.s|
                                 && v.s[..|l.s|] == l.s && v.s[|l.s|..] == r.s
  {
    if l.Int? && r.Int? then Int(IAddWrap(l.n, r.n))
    else if l.Str? && r.Str? then Str(l.s + r.s)
    else Error
  }

  /** au_value_sub: int - int wraps; anything else not numeric is the error
      value (strings cannot be subtracted). */
  function Sub(l: Value, r: Value): (v: Value)
    requires !FloatOp(l, r)
    ensures v.Error? <==> !(l.Int? && r.Int?)
    ensures l.Int? && r.Int? ==> v.Int? && (v.n - (l.n - r.n)) % Two32 == 0
    ensures l.Int? && r.Int? && IsInt32(l.n - r.n) ==> v == Int(l.n - r.n)
  {
    if l.Int? && r.Int? then Int(ISubWrap(l.n, r.n)) else Error
  }

  /** au_value_mul: int * int wraps; anything else not numeric is the error
      value. */
  function Mul(l: Value, r: Value): (v: Value)
    requires !FloatOp(l, r)
    ensures v.Error? <==> !(l.Int? && r.Int?)
    ensures l.Int? && r.Int? ==> v.Int? && (v.n - l.n * r.n) % Two32 == 0
  {
    if l.Int? && r.Int? then Int(IMulWrap(l.n, r.n)) else Error
  }

  /** Subtracting is adding the negation, both wrapped. */
  lemma SubIsAddNegated(a: Int32, b: Int32)
    ensures Sub(Int(a), Int(b)) == Add(Int(a), Int(Wrap(-(b as int))))
  {
    SubIsAddNeg(a, b);
  }

  function Abs(x: int): nat { if x < 0 then -x else x }

  /** C's / on ints: the quotient truncated toward zero. */
  function Quot(a: int, b: int): (q: int)
    requires b != 0
  {
    if (a >= 0) == (b > 0) then Abs(a) / Abs(b) else -(Abs(a) / Abs(b))
  }

  /** C's % on ints: the remainder of truncating division, so it takes the
      sign of the dividend. */
  function Rem(a: int, b: int): (r: int)
    requires b != 0
    ensures Abs(r) < Abs(b)
    ensures r == 0 || (r < 0 <==> a < 0)
    ensures a == b * Quot(a, b) + r
  {
    var m := Abs(b);
    var q := Abs(a) / m;
    assert Abs(a) == m * q + Abs(a) % m;
    if a >= 0 then a % m else -((-a) % m)
  }

  /** The operands for which C's int32_t % is defined: a divisor that is not
      zero, and not INT32_MIN % -1. */
  predicate ModDefined(l: Value, r: Value)
  {
    l.Int? && r.Int? ==> r.n != 0 && !(l.n == Int32Min && r.n == -1)
  }

  /** au_value_mod: only int % int has a result; differing or other types
      give the error value. The source passes int operands to C's % without
      a check, and that traps (undefined behaviour, a division fault on
      common targets) on a zero divisor and on INT32_MIN % -1; the model
      gives None for those. */
  function Mod(l: Value, r: Value): (v: Option<Value>)
    ensures v.None? <==> !ModDefined(l, r)
    ensures v.None? ==> l.Int? && r.Int?
    ensures v.Some? ==> (v.value.Error? <==> !(l.Int? && r.Int?))
    ensures v.Some? && l.Int? && r.Int? ==>
      v.value.Int? && Abs(v.value.n) < Abs(r.n) && l.n == r.n * Quot(l.n, r.n) + v.value.n
    ensures v.Some? && l.Int? && r.Int? ==> v.value.n == 0 || (v.value.n < 0 <==> l.n < 0)
  {
    if Tag(l) != Tag(r) then Some(Error)
    else if l.Int? then
      if r.n == 0 || (l.n == Int32Min && r.n == -1) then None
      else Some(Int(Rem(l.n, r.n)))
    else Some(Error)
  }

  // ---- comparisons --------------------------------------------------------

  datatype Rel = Lt | Gt | Leq | Geq

  /** The relation applied to a three-way comparison result. */
  predicate Holds(op: Rel, c: int)
  {
    match op
    case Lt => c < 0
    case Gt => c > 0
    case Leq => c <= 0
    case Geq => c >= 0
  }

  /** au_value_lt / gt / leq / geq: false across types; ints compare
      numerically, strings by au_string_cmp; other types give false. */
  function Compare(op: Rel, l: Value, r: Value): (v: Value)
    requires !(l.Double? && r.Double?)
    ensures v.Bool?
    ensures Tag(l) != Tag(r) ==> v == Bool(false)
    ensures !(l.Int? && r.Int?) && !(l.Str? && r.Str?) ==> v == Bool(false)
  {
    if Tag(l) != Tag(r) then Bool(false)
    else if l.Int? then Bool(Holds(op, l.n - r.n))
    else if l.Str? then Bool(Holds(op, AuString.Cmp(l.s, r.s)))
    else Bool(false)
  }

  /** The mirrored relation. */
  function Flip(op: Rel): Rel
  {
    match op
    case Lt => Gt
    case Gt => Lt
    case Leq => Geq
    case Geq => Leq
  }

  /** a < b exactly when b > a, and a <= b exactly when b >= a. */
  lemma CompareFlip(op: Rel, l: Value, r: Value)
    requires !(l.Double? && r.Double?)
    ensures Compare(op, l, r) == Compare(Flip(op), r, l)
  {
    if l.Str? && r.Str? {
      AuString.CmpAntisym(l.s, r.s);
    }
  }

  /** For ints and strings, <= is < or equal. */
  lemma LeqIsLtOrEq(l: Value, r: Value)
    requires (l.Int? && r.Int?) || (l.Str? && r.Str?)
    ensures Compare(Leq, l, r).b <==> Compare(Lt, l, r).b || Eq(l, r).b
  {}

  /** < is transitive on ints and on strings. */
  lemma LtTrans(a: Value, b: Value, c: Value)
    requires !a.Double? && !b.Double?
    requires Compare(Lt, a, b).b && Compare(Lt, b, c).b
    ensures Compare(Lt, a, c).b
  {
    if a.Str? {
      AuString.CmpTrans(a.s, b.s, c.s);
    }
  }

  /** au_value_eq: values of different types are never equal; ints, bools
      and strings compare by content; every other type, doubles included,
      compares unequal even to itself. */
  function Eq(l: Value, r: Value): (v: Value)
    ensures v.Bool?
    ensures v.b <==> Comparable(l) && l == r
  {
    if Tag(l) != Tag(r) then Bool(false)
    else match l
      case Int(n) => Bool(n == r.n)
      case Bool(b) => Bool(b == r.b)
      case Str(s) => Bool(AuString.Cmp(s, r.s) == 0)
      case _ => Bool(false)
  }

  /** au_value_neq: the negation of au_value_eq, type mismatch included. */
  function Neq(l: Value, r: Value): (v: Value)
    ensures v.Bool?
    ensures v.b <==> !Eq(l, r).b
  {
    if Tag(l) != Tag(r) then Bool(true)
    else match l
      case Int(n) => Bool(n != r.n)
      case Bool(b) => Bool(b != r.b)
      case Str(s) => Bool(AuString.Cmp(s, r.s) != 0)
      case _ => Bool(true)
  }
}
