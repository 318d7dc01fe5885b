// Runtime strings: the comparison functions of src/core/rt/au_string.h
// (pure: length first, then bytes) and the constructors of
// src/core/rt/au_string.c, which allocate a fresh refcounted object and
// copy bytes into it.
module AuString {
  import opened Wrappers

  const Uint32Max: nat := 0xffff_ffff

  /** A size_t stored into a uint32_t field: reduced modulo 2^32. */
  function ToUint32(n: nat): (r: nat)
    ensures r <= Uint32Max
    ensures n <= Uint32Max ==> r == n
  {
    n % (Uint32Max + 1)
  }

  /** memcmp over two runs of equal length, reduced to its sign: the first
      differing byte, compared as unsigned char, decides. */
  function Memcmp(a: seq<byte>, b: seq<byte>): (r: int)
    requires |a| == |b|
    ensures -1 <= r <= 1
    ensures r == 0 <==> a == b
    decreases |a|
  {
    if |a| == 0 then 0
    else if a[0] < b[0] then -1
    else if a[0] > b[0] then 1
    else
      assert a == [a[0]] + a[1..] && b == [b[0]] + b[1..];
      Memcmp(a[1..], b[1..])
  }

  /** au_string_cmp: the longer string is greater whatever its bytes; strings
      of equal length compare bytewise. */
  function Cmp(left: seq<byte>, right: seq<byte>): (r: int)
    ensures -1 <= r <= 1
    ensures r == 0 <==> left == right
  {
    if |left| > |right| then 1
    else if |left| < |right| then -1
    else Memcmp(left, right)
  }

  /** A longer string compares greater, a shorter one less, regardless of
      content. */
  lemma CmpLength(left: seq<byte>, right: seq<byte>)
    ensures |left| > |right| ==> Cmp(left, right) == 1
    ensures |left| < |right| ==> Cmp(left, right) == -1
  {}

  lemma {:induction false} MemcmpAntisym(a: seq<byte>, b: seq<byte>)
    requires |a| == |b|
    ensures Memcmp(a, b) == -Memcmp(b, a)
    decreases |a|
  {
    if |a| > 0 && a[0] == b[0] {
      MemcmpAntisym(a[1..], b[1..]);
    }
  }

  /** Swapping the operands negates the comparison. */
  lemma CmpAntisym(left: seq<byte>, right: seq<byte>)
    ensures Cmp(left, right) == -Cmp(right, left)
  {
    if |left| == |right| {
      MemcmpAntisym(left, right);
    }
  }

  lemma {:induction false} MemcmpTrans(a: seq<byte>, b: seq<byte>, c: seq<byte>)
    requires |a| == |b| == |c|
    requires Memcmp(a, b) < 0 && Memcmp(b, c) < 0
    ensures Memcmp(a, c) < 0
    decreases |a|
  {
    if a[0] == b[0] && b[0] == c[0] {
      MemcmpTrans(a[1..], b[1..], c[1..]);
    }
  }

  /** The order Cmp defines is transitive. */
  lemma CmpTrans(a: seq<byte>, b: seq<byte>, c: seq<byte>)
    requires Cmp(a, b) < 0 && Cmp(b, c) < 0
    ensures Cmp(a, c) < 0
  {
    if |a| == |b| == |c| {
      MemcmpTrans(a, b, c);
    }
  }

  /** strlen: the offset of the first zero byte. */
  function Strlen(c: seq<byte>): (n: nat)
    requires 0 in c
    ensures n < |c| && c[n] == 0 && forall i :: 0 <= i < n ==> c[i] != 0
  {
    if c[0] == 0 then 0 else 1 + Strlen(c[1..])
  }

  /** au_string_cmp_cstr: the same length-then-bytes rule against the
      zero-terminated run c. */
  function CmpCstr(str: seq<byte>, c: seq<byte>): (r: int)
    requires 0 in c
    ensures r == Cmp(str, c[..Strlen(c)])
    ensures r == 0 <==> str == c[..Strlen(c)]
  {
    var clen := Strlen(c);
    if |str| > clen then 1
    else if |str| < clen then -1
    else Memcmp(str, c[..clen])
  }

  /** struct au_string: a refcounted header, a uint32 length and the bytes.
      The allocation may be longer than len (a string builder hands over its
      whole buffer). */
  class String {
    var rc: nat
    var len: nat
    var data: array<byte>

    ghost predicate Valid()
      reads this
    {
      len <= data.Length && len <= Uint32Max
    }

    /** The string's bytes. */
    ghost function Bytes(): seq<byte>
      requires Valid()
      reads this, data
    {
      data[..len]
    }

    /** au_string_from_const(s, len): rc 1 and all len bytes copied into
        an allocation of that size, but the length field is a uint32, so a
        run of 2^32 bytes or more is stored with its length truncated. */
    constructor FromConst(s: seq<byte>)
      ensures Valid() && fresh(data)
      ensures rc == 1 && len == ToUint32(|s|) && data[..] == s
      ensures Bytes() == s[..ToUint32(|s|)]
      ensures |s| <= Uint32Max ==> Bytes() == s
    {
      rc := 1;
      len := ToUint32(|s|);
      data := new byte[|s|](i requires 0 <= i < |s| => s[i]);
    }

    /** The object au_string_add allocates: len bytes, rc 1. */
    constructor Alloc(n: nat)
      requires n <= Uint32Max
      ensures Valid() && fresh(data) && rc == 1 && len == n && data.Length == n
    {
      rc := 1;
      len := n;
      data := new byte[n];
    }
  }

  /** The length au_string_add computes: the two uint32 lengths are added
      in 32-bit unsigned arithmetic before the result is widened. */
  function AddLenAsWritten(left: nat, right: nat): (r: nat)
    requires left <= Uint32Max && right <= Uint32Max
    ensures r <= Uint32Max
    ensures r == left + right || r == left + right - (Uint32Max + 1)
  {
    ToUint32(left + right)
  }

  /** When the lengths sum past UINT32_MAX, the wrapped length is smaller
      than the left operand, so the first memcpy of au_string_add already
      writes past the allocation. */
  lemma AddLenWraps()
    ensures AddLenAsWritten(0x8000_0000, 0x8000_0000) == 0
    ensures exists l: nat, r: nat :: l <= Uint32Max && r <= Uint32Max && AddLenAsWritten(l, r) < l
  {
    assert AddLenAsWritten(0x8000_0000, 0x8000_0001) < 0x8000_0000;
  }

  /** au_string_add: a fresh string holding left's bytes followed by right's;
      the operands are read, not written. A concatenation whose length does
      not fit the uint32 length field is reported (None) rather than
      written past its allocation. */
  method Add(left: String, right: String) returns (r: Option<String>)
    requires left.Valid() && right.Valid()
    ensures r.None? <==> left.len + right.len > Uint32Max
    ensures r.Some? ==> fresh(r.value) && fresh(r.value.data) && r.value.Valid()
    ensures r.Some? ==> r.value.rc == 1 && r.value.len == AddLenAsWritten(left.len, right.len)
    ensures r.Some? ==> r.value.Bytes() == left.Bytes() + right.Bytes()
  {
    if left.len + right.len > Uint32Max {
      return None;
    }
    var n := left.len + right.len;
    var str := new String.Alloc(n);
    var out := str.data;
    var l, m := left.data, right.data;
    forall i | 0 <= i < left.len {
      out[i] := l[i];
    }
    forall i | left.len <= i < n {
      out[i] := m[i - left.len];
    }
    assert out[..n] == l[..left.len] + m[..right.len];
    return Some(str);
  }
}
