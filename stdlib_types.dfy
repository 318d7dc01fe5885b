// The type conversions of the standard library (src/stdlib/types.c): int()
// and bool(). Both consume their argument: the count the argument held is
// given up, except where the argument itself is returned.
//
// Converting a double to an int is floating-point work and is not
// modelled: the int the C cast yields is a parameter.
module StdTypes {
  import opened Wrappers
  import opened Arith
  import opened Value
  import Objects
  import Expr
  import StdStr

  // ---- int(str) -----------------------------------------------------------------

  /** The number of decimal digits s starts with. */
  function LeadingDigits(s: seq<byte>): (n: nat)
    ensures n <= |s|
    ensures forall i :: 0 <= i < n ==> StdStr.IsDigit(s[i])
    ensures n < |s| ==> !StdStr.IsDigit(s[n])
  {
    if s == [] || !StdStr.IsDigit(s[0]) then 0 else 1 + LeadingDigits(s[1..])
  }

  /** The value of each byte as a digit, '0' being 0. */
  function DigitValues(s: seq<byte>): (d: seq<int>)
    ensures |d| == |s| && forall i :: 0 <= i < |s| ==> d[i] == s[i] as int - StdStr.Zero as int
  {
    seq(|s|, i requires 0 <= i < |s| => s[i] as int - StdStr.Zero as int)
  }

  /** What int() gives for the bytes of a string: its leading digits read
      in base 10, the int accumulator wrapping at 32 bits. */
  function ParseLeading(s: seq<byte>): Int32
  {
    Expr.HornerWrap(DigitValues(s)[..LeadingDigits(s)], 10)
  }

  /** au_std_int: an int is returned as it is, a double converted, a
      string read for its leading digits, and anything else is 0. */
  function IntSpec(v: Value, fromDouble: Int32): Value
  {
    match v
    case Int(_) => v
    case Double(_) => Int(fromDouble)
    case Str(s) => Int(ParseLeading(s))
    case _ => Int(0)
  }

  /** au_std_int. fromDouble is the int the C cast of the double gives. */
  method StdInt(counts: Objects.Counts, v: Value, fromDouble: Int32) returns (r: Value)
    modifies counts
    ensures r == IntSpec(v, fromDouble)
    ensures r.Int?
    ensures counts.rc == old(counts.rc) - Objects.Refs(v)
  {
    match v {
      case Int(_) =>
        return v;
      case Double(_) =>
        return Int(fromDouble);
      case Str(s) =>
        var num := ParseDigits(s);
        counts.DerefValue(v);
        return Int(num);
      case _ =>
        counts.DerefValue(v);
        return Int(0);
    }
  }

  /** The digit loop of au_std_int's string case: each leading digit is
      added to ten times the number so far, and the first byte that is not
      a digit ends the loop. */
  method ParseDigits(s: seq<byte>) returns (num: Int32)
    ensures num == ParseLeading(s)
  {
    num := 0;
    var i := 0;
    while i < |s|
      invariant i <= LeadingDigits(s)
      invariant num == Expr.HornerWrap(DigitValues(s)[..i], 10)
    {
      if StdStr.Zero <= s[i] <= 0x39 {
        DigitStep(s, i);
        num := Wrap(num * 10 + (s[i] as int - StdStr.Zero as int));
      } else {
        DigitsEnd(s, i);
        break;
      }
      i := i + 1;
    }
  }

  /** One more digit: the leading digits go on past it, and the number
      read so far takes it in. */
  lemma DigitStep(s: seq<byte>, i: nat)
    requires i < |s| && i <= LeadingDigits(s) && StdStr.IsDigit(s[i])
    ensures i + 1 <= LeadingDigits(s)
    ensures Expr.HornerWrap(DigitValues(s)[..i + 1], 10)
         == Wrap(Expr.HornerWrap(DigitValues(s)[..i], 10) * 10 + (s[i] as int - StdStr.Zero as int))
  {
    Expr.HornerWrapSnoc(DigitValues(s), i, 10);
  }

  /** The first byte that is not a digit ends the leading digits. */
  lemma DigitsEnd(s: seq<byte>, i: nat)
    requires i < |s| && i <= LeadingDigits(s) && !StdStr.IsDigit(s[i])
    ensures LeadingDigits(s) == i
  {
  }

  /** int() reads a string up to its first non-digit: whatever follows
      that byte does not matter. */
  lemma StopsAtNonDigit(digits: seq<byte>, b: byte, rest: seq<byte>, fromDouble: Int32)
    requires forall i :: 0 <= i < |digits| ==> StdStr.IsDigit(digits[i])
    requires !StdStr.IsDigit(b)
    ensures IntSpec(Str(digits + [b] + rest), fromDouble) == Int(Expr.HornerWrap(DigitValues(digits), 10))
  {
    var s := digits + [b] + rest;
    LeadingDigitsOf(s, |digits|);
    assert DigitValues(s)[..|digits|] == DigitValues(digits);
  }

  /** The leading digits end at the first byte that is not one. */
  lemma {:induction false} LeadingDigitsOf(s: seq<byte>, n: nat)
    requires n <= |s|
    requires forall i :: 0 <= i < n ==> StdStr.IsDigit(s[i])
    requires n < |s| ==> !StdStr.IsDigit(s[n])
    ensures LeadingDigits(s) == n
    decreases n
  {
    if n > 0 {
      assert StdStr.IsDigit(s[0]);
      LeadingDigitsOf(s[1..], n - 1);
    }
  }

  /** The decimal numeral of a, read back in base 10, is a. */
  lemma {:induction false} DecimalValue(a: nat)
    ensures Expr.Horner(DigitValues(StdStr.Decimal(a)), 10) == a
    decreases a
  {
    var d := StdStr.Decimal(a);
    if a >= 10 {
      var front := StdStr.Decimal(a / 10);
      assert d == front + [StdStr.DigitByte(a % 10)];
      assert DigitValues(d)[..|d| - 1] == DigitValues(front);
      DecimalValue(a / 10);
    } else {
      assert DigitValues(d) == [a];
      assert DigitValues(d)[..0] == [];
    }
  }

  /** int(into(n)) == n for every non-negative int: the numeral into()
      writes reads back as the number. */
  lemma IntOfIntoRoundTrip(n: Int32, fromDouble: Int32)
    requires n >= 0
    ensures IntSpec(StdStr.IntoSpec(Int(n)), fromDouble) == Int(n)
  {
    var s := StdStr.IntoInt(n);
    assert s == StdStr.Decimal(n);
    assert ParseLeading(s) == Expr.HornerWrap(DigitValues(s), 10) by {
      LeadingDigitsOf(s, |s|);
      assert DigitValues(s)[..|s|] == DigitValues(s);
    }
    assert Expr.HornerWrap(DigitValues(s), 10) == n by {
      DecimalValue(n);
      Expr.HornerWrapIsWrap(DigitValues(s), 10);
    }
  }

  /** int() does not read a sign: the numeral of a negative int reads back
      as 0. */
  lemma IntOfNegativeIsZero(n: Int32, fromDouble: Int32)
    requires n < 0
    ensures IntSpec(StdStr.IntoSpec(Int(n)), fromDouble) == Int(0)
  {
    var s := StdStr.IntoInt(n);
    assert s[0] == StdStr.Minus;
    LeadingDigitsOf(s, 0);
  }

  /** The numerals into() writes are distinct for distinct ints. */
  lemma IntoIntInjective(a: Int32, b: Int32)
    requires StdStr.IntoInt(a) == StdStr.IntoInt(b)
    ensures a == b
  {
    StdStr.IntoIntShape(a);
    StdStr.IntoIntShape(b);
    DecimalValue(Abs(a));
    DecimalValue(Abs(b));
    if a < 0 {
      assert StdStr.Decimal(Abs(a)) == StdStr.IntoInt(a)[1..] == StdStr.Decimal(Abs(b));
    }
  }

  // ---- bool -----------------------------------------------------------------------

  /** au_std_bool: the truthiness of its argument, as a bool. */
  method StdBool(counts: Objects.Counts, v: Value) returns (r: Value)
    modifies counts
    ensures r == Bool(Truthy(v))
    ensures counts.rc == old(counts.rc) - Objects.Refs(v)
  {
    r := Bool(Truthy(v));
    counts.DerefValue(v);
  }

  /** bool() keeps truthiness and is idempotent; int() of any value is an
      int, and of an int is that int. */
  lemma ConversionsIdempotent(v: Value, fromDouble: Int32)
    ensures Truthy(Bool(Truthy(v))) == Truthy(v)
    ensures IntSpec(v, fromDouble).Int?
    ensures v.Int? ==> IntSpec(v, fromDouble) == v
    ensures IntSpec(IntSpec(v, fromDouble), fromDouble) == IntSpec(v, fromDouble)
  {
  }
}
