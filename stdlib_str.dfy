// The string functions of the standard library (src/stdlib/str.c):
// conversion to a string, prefix and suffix tests, substring search and the
// one-character class tests. Arguments and results are runtime values; a
// string is modelled by its bytes, so the reference counts of strings do
// not appear.
module StdStr {
  import opened Wrappers
  import opened Arith
  import opened Value
  import Utf8

  const Minus: byte := 0x2d
  const Zero: byte := 0x30

  /** "(true)" and "(false)" */
  const TrueRepr: seq<byte> := [0x28, 0x74, 0x72, 0x75, 0x65, 0x29]
  const FalseRepr: seq<byte> := [0x28, 0x66, 0x61, 0x6c, 0x73, 0x65, 0x29]

  predicate IsDigit(b: byte)
  {
    0x30 <= b <= 0x39
  }

  function DigitByte(d: nat): (b: byte)
    requires d < 10
    ensures IsDigit(b) && b as int - Zero as int == d
  {
    (0x30 + d) as byte
  }

  // ---- into(int) --------------------------------------------------------------

  function Reverse(s: seq<byte>): (r: seq<byte>)
    ensures |r| == |s| && forall i :: 0 <= i < |s| ==> r[i] == s[|s| - 1 - i]
  {
    if s == [] then [] else Reverse(s[1..]) + [s[0]]
  }

  /** What the digit loop of au_std_str_into writes for the magnitude a:
      the last digit first, and nothing at all for 0. */
  function RevDigits(a: nat): seq<byte>
  {
    if a == 0 then [] else [DigitByte(a % 10)] + RevDigits(a / 10)
  }

  /** au_std_str_into on an int as written: the digits of |n|, a '-' after
      them when n is negative, then the whole buffer reversed. */
  function IntoIntAsWritten(n: Int32): seq<byte>
  {
    Reverse(RevDigits(Abs(n)) + (if n < 0 then [Minus] else []))
  }

  /** The decimal numeral of a: no leading zero, and "0" for 0. */
  function Decimal(a: nat): (r: seq<byte>)
    ensures |r| >= 1 && (forall i :: 0 <= i < |r| ==> IsDigit(r[i]))
    ensures a > 0 ==> r[0] != Zero
    ensures (a == 0) == (r == [Zero])
  {
    if a < 10 then [DigitByte(a)] else Decimal(a / 10) + [DigitByte(a % 10)]
  }

  /** What into(n) should give: '-' for a negative n, then the numeral of
      its magnitude. */
  function IntoInt(n: Int32): (r: seq<byte>)
  {
    (if n < 0 then [Minus] else []) + Decimal(Abs(n))
  }

  /** The digit loop writes the numeral backwards, for any non-zero
      magnitude. */
  lemma {:induction false} RevDigitsReversed(a: nat)
    requires a > 0
    ensures Reverse(RevDigits(a)) == Decimal(a)
    decreases a
  {
    var rest := RevDigits(a / 10);
    assert RevDigits(a) == [DigitByte(a % 10)] + rest;
    assert ([DigitByte(a % 10)] + rest)[1..] == rest;
    if a >= 10 {
      RevDigitsReversed(a / 10);
    }
  }

  /** For every n but 0 the code as written gives the numeral. */
  lemma IntoIntAgrees(n: Int32)
    requires n != 0
    ensures IntoIntAsWritten(n) == IntoInt(n)
  {
    var d := RevDigits(Abs(n));
    assert Reverse(d) == Decimal(Abs(n)) by {
      RevDigitsReversed(Abs(n));
    }
    if n < 0 {
      ReverseSnoc(d, Minus);
    } else {
      assert d + [] == d;
    }
  }

  /** Reversing puts a last byte first. */
  lemma ReverseSnoc(s: seq<byte>, b: byte)
    ensures Reverse(s + [b]) == [b] + Reverse(s)
  {
    var r, t := Reverse(s + [b]), [b] + Reverse(s);
    assert |r| == |t|;
    forall i | 0 <= i < |r|
      ensures r[i] == t[i]
    {
      if i > 0 {
        assert r[i] == (s + [b])[|s| - i];
      }
    }
  }

  /** For 0 the digit loop never runs, so into(0) is the empty string
      where "0" is meant. */
  lemma IntoZeroIsEmpty()
    ensures IntoIntAsWritten(0) == []
    ensures IntoInt(0) == [Zero]
  {
    assert RevDigits(0) == [];
  }

  /** The numeral reads back as its number: a '-' exactly for a negative
      n, and digits that are those of |n| in base 10. */
  lemma IntoIntShape(n: Int32)
    ensures var r := IntoInt(n);
      (n < 0 <==> r[0] == Minus) &&
      (n < 0 ==> r[1..] == Decimal(Abs(n))) && (n >= 0 ==> r == Decimal(n))
  {
  }

  /** Reverses the bytes of a, in place, by swapping from both ends. */
  method ReverseInPlace(a: array<byte>)
    modifies a
    ensures a[..] == Reverse(old(a[..]))
  {
    var i: int, j: int := 0, a.Length - 1;
    while i < j
      invariant 0 <= i && j == a.Length - 1 - i && i <= j + 2
      invariant forall k :: 0 <= k < i ==> a[k] == old(a[a.Length - 1 - k]) && a[a.Length - 1 - k] == old(a[k])
      invariant forall k :: i <= k <= j ==> a[k] == old(a[k])
    {
      a[i], a[j] := a[j], a[i];
      i, j := i + 1, j - 1;
    }
  }

  /** The digit loop of au_std_str_into run at least once, as a do-while
      loop: the digits of a, last first, and a single '0' for 0. */
  method DigitsBackwards(a: nat) returns (buf: seq<byte>)
    ensures buf == if a == 0 then [Zero] else RevDigits(a)
  {
    var absNum := a;
    buf := [DigitByte(absNum % 10)];
    absNum := absNum / 10;
    while absNum != 0
      invariant a > 0 ==> buf + RevDigits(absNum) == RevDigits(a)
      invariant a == 0 ==> buf == [Zero] && absNum == 0
      decreases absNum
    {
      RevDigitsStep(buf, absNum);
      buf := buf + [DigitByte(absNum % 10)];
      absNum := absNum / 10;
    }
    assert a > 0 ==> buf + RevDigits(absNum) == buf;
  }

  /** The digit loop writes the last digit of what is left and goes on with
      the rest. */
  lemma RevDigitsStep(buf: seq<byte>, x: nat)
    requires x != 0
    ensures buf + RevDigits(x) == buf + [DigitByte(x % 10)] + RevDigits(x / 10)
  {
  }

  /** The int case of au_std_str_into with the digit loop run at least
      once: the digits of the magnitude, last first, then '-' when n is
      negative, then the buffer reversed in place. */
  method StrIntoInt(n: Int32) returns (s: seq<byte>)
    ensures s == IntoInt(n)
  {
    var buf := DigitsBackwards(Abs(n));
    ghost var digits := buf;
    if n < 0 {
      buf := buf + [Minus];
    }
    var data := new byte[|buf|](i requires 0 <= i < |buf| => buf[i]);
    assert data[..] == buf;
    ReverseInPlace(data);
    s := data[..];
    if n == 0 {
      assert buf == [Zero];
    } else {
      assert buf == RevDigits(Abs(n)) + (if n < 0 then [Minus] else []);
      IntoIntAgrees(n);
    }
  }

  /** au_std_str_into, with the corrected int case: a string is returned
      as it is, a bool as "(true)" or "(false)", an int as its numeral, and
      anything else as the empty string. */
  function IntoSpec(v: Value): (r: Value)
    ensures r.Str?
  {
    match v
    case Str(_) => v
    case Bool(b) => Str(if b then TrueRepr else FalseRepr)
    case Int(n) => Str(IntoInt(n))
    case _ => Str([])
  }

  /** au_std_str_into */
  method Into(v: Value) returns (r: Value)
    ensures r == IntoSpec(v)
  {
    match v {
      case Str(_) =>
        return v;
      case Bool(b) =>
        return Str(if b then TrueRepr else FalseRepr);
      case Int(n) =>
        var s := StrIntoInt(n);
        return Str(s);
      case _ =>
        return Str([]);
    }
  }

  // ---- prefix and suffix ---------------------------------------------------------

  /** au_std_str_starts_with: false unless both are strings and the needle
      is no longer than the haystack; then whether the haystack begins with
      the needle's bytes. */
  function StartsWith(haystack: Value, needle: Value): (r: bool)
  {
    haystack.Str? && needle.Str? && |needle.s| <= |haystack.s| &&
    haystack.s[..|needle.s|] == needle.s
  }

  /** au_std_str_ends_with: the same test on the haystack's last bytes. */
  function EndsWith(haystack: Value, needle: Value): (r: bool)
  {
    haystack.Str? && needle.Str? && |needle.s| <= |haystack.s| &&
    haystack.s[|haystack.s| - |needle.s|..] == needle.s
  }

  /** starts_with holds exactly for a needle the haystack extends. */
  lemma StartsWithIff(h: seq<byte>, n: seq<byte>)
    ensures StartsWith(Str(h), Str(n)) <==> exists t :: h == n + t
  {
    if StartsWith(Str(h), Str(n)) {
      assert h == n + h[|n|..];
    }
    forall t | h == n + t ensures StartsWith(Str(h), Str(n)) {
      assert h[..|n|] == n;
    }
  }

  /** ends_with holds exactly for a needle the haystack ends with. */
  lemma EndsWithIff(h: seq<byte>, n: seq<byte>)
    ensures EndsWith(Str(h), Str(n)) <==> exists t :: h == t + n
  {
    if EndsWith(Str(h), Str(n)) {
      assert h == h[..|h| - |n|] + n;
    }
    forall t | h == t + n ensures EndsWith(Str(h), Str(n)) {
      assert h[|h| - |n|..] == n;
    }
  }

  /** A concatenation starts with its first part and ends with its second;
      anything that is not a string starts and ends with nothing. */
  lemma ConcatParts(a: seq<byte>, b: seq<byte>, other: Value)
    ensures StartsWith(Str(a + b), Str(a)) && EndsWith(Str(a + b), Str(b))
    ensures !other.Str? ==> !StartsWith(other, Str(a)) && !StartsWith(Str(a), other) &&
                            !EndsWith(other, Str(a)) && !EndsWith(Str(a), other)
  {
    assert (a + b)[..|a|] == a;
    assert (a + b)[|a + b| - |b|..] == b;
  }

  // ---- search -------------------------------------------------------------------

  /** au_std_str_index_of: -1 unless both are strings; otherwise the byte
      offset, as an int, of the first character start where the needle
      occurs, or -1 when there is none. */
  method IndexOf(haystack: Value, needle: Value) returns (r: Value)
    ensures r.Int?
    ensures !(haystack.Str? && needle.Str?) ==> r == Int(-1)
    ensures haystack.Str? && needle.Str? && r.n == -1 && |haystack.s| <= Int32Max ==>
      forall q :: q in Utf8.Walk(haystack.s, 0) ==> !Utf8.MatchAt(haystack.s, needle.s, q)
    ensures haystack.Str? && needle.Str? && r.n != -1 ==>
      exists p :: p in Utf8.Walk(haystack.s, 0) && r.n == Wrap(p) && Utf8.MatchAt(haystack.s, needle.s, p) &&
        forall q :: q in Utf8.Walk(haystack.s, 0) && q < p ==> !Utf8.MatchAt(haystack.s, needle.s, q)
  {
    if !haystack.Str? || !needle.Str? {
      return Int(-1);
    }
    var found := Utf8.Str(haystack.s, needle.s);
    if found.None? {
      return Int(-1);
    }
    Utf8.WalkAbove(haystack.s, 0);
    return Int(Wrap(found.value));
  }

  /** au_std_str_contains: whether both are strings and the needle occurs
      at a character start of the haystack. */
  method Contains(haystack: Value, needle: Value) returns (r: Value)
    ensures r.Bool?
    ensures r.b <==> (haystack.Str? && needle.Str? &&
      exists q :: q in Utf8.Walk(haystack.s, 0) && Utf8.MatchAt(haystack.s, needle.s, q))
  {
    if !haystack.Str? || !needle.Str? {
      return Bool(false);
    }
    var found := Utf8.Str(haystack.s, needle.s);
    return Bool(found.Some?);
  }

  // ---- character classes -----------------------------------------------------------

  /** au_std_str_is_space: a string whose first byte is a space, a tab, a
      carriage return or a newline. */
  function IsSpace(v: Value): (r: bool)
  {
    v.Str? && |v.s| > 0 && v.s[0] in {0x20, 0x09, 0x0d, 0x0a}
  }

  /** au_std_str_is_digit: a string whose first byte is a decimal digit. */
  function IsDigitValue(v: Value): (r: bool)
  {
    v.Str? && |v.s| > 0 && IsDigit(v.s[0])
  }

  /** Only the first byte is checked, and an empty or non-string argument
      is neither; the numeral of a non-negative int is a digit string and
      never a space. */
  lemma ClassesTestFirstByte(v: Value, rest: seq<byte>, n: Int32)
    ensures !v.Str? || v.s == [] ==> !IsSpace(v) && !IsDigitValue(v)
    ensures v.Str? && |v.s| > 0 ==> IsSpace(Str(v.s[..1] + rest)) == IsSpace(v) &&
                                    IsDigitValue(Str(v.s[..1] + rest)) == IsDigitValue(v)
    ensures n >= 0 ==> IsDigitValue(IntoSpec(Int(n))) && !IsSpace(IntoSpec(Int(n)))
  {
  }
}
