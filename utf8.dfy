// UTF-8 helpers of src/core/utf8.h. A `const char *` run [s, max) is
// modelled as the byte sequence it covers; a returned pointer as the
// offset it points to.
module Utf8 {
  import opened Wrappers

  /** Sequence length announced by a lead byte: 11110xxx -> 4,
      1110xxxx -> 3, 110xxxxx -> 2, anything else -> 1. */
  function CharSize(b: byte): (n: nat)
    ensures 1 <= n <= 4
    ensures n == 4 <==> b & 0xf8 == 0xf0
    ensures n == 3 <==> b & 0xf0 == 0xe0
    ensures n == 2 <==> b & 0xe0 == 0xc0
  {
    if b & 0xf8 == 0xf0 then 4
    else if b & 0xf0 == 0xe0 then 3
    else if b & 0xe0 == 0xc0 then 2
    else 1
  }

  /** `char` is signed: a single byte reads back as -128..127. */
  function SignedChar(b: byte): (r: int)
    ensures -128 <= r < 128
    ensures b < 0x80 ==> r == b as int
  {
    if b < 0x80 then b as int else b as int - 256
  }

  function Cont(b: byte): bv32 { (b & 0x3f) as bv32 }

  /** utf8_codepoint over s = [s, s + max_len): the code point and the number
      of bytes read, or None when s is empty or shorter than the sequence its
      first byte announces. */
  function Codepoint(s: seq<byte>): (r: Option<(int, nat)>)
    ensures r.None? <==> |s| == 0 || |s| < CharSize(s[0])
    ensures r.Some? ==> r.value.1 == CharSize(s[0])
  {
    if |s| == 0 then None
    else if s[0] & 0xf8 == 0xf0 then
      if |s| < 4 then None
      else
        var c := ((s[0] & 0x07) as bv32 << 18) | (Cont(s[1]) << 12) | (Cont(s[2]) << 6) | Cont(s[3]);
        Some((c as int, 4))
    else if s[0] & 0xf0 == 0xe0 then
      if |s| < 3 then None
      else
        var c := ((s[0] & 0x0f) as bv32 << 12) | (Cont(s[1]) << 6) | Cont(s[2]);
        Some((c as int, 3))
    else if s[0] & 0xe0 == 0xc0 then
      if |s| < 2 then None
      else
        var c := ((s[0] & 0x1f) as bv32 << 6) | Cont(s[1]);
        Some((c as int, 2))
    else Some((SignedChar(s[0]), 1))
  }

  /** The standard UTF-8 encoding of a scalar value below 0x110000. */
  function Encode(c: bv32): (r: seq<byte>)
    requires c < 0x11_0000
    ensures 1 <= |r| <= 4
  {
    if c < 0x80 then [c as byte]
    else if c < 0x800 then [(0xc0 | (c >> 6)) as byte, (0x80 | (c & 0x3f)) as byte]
    else if c < 0x1_0000 then
      [(0xe0 | (c >> 12)) as byte, (0x80 | ((c >> 6) & 0x3f)) as byte, (0x80 | (c & 0x3f)) as byte]
    else
      [(0xf0 | (c >> 18)) as byte, (0x80 | ((c >> 12) & 0x3f)) as byte,
       (0x80 | ((c >> 6) & 0x3f)) as byte, (0x80 | (c & 0x3f)) as byte]
  }

  lemma Bits2(c: bv32)
    requires 0x80 <= c < 0x800
    ensures var b0 := (0xc0 | (c >> 6)) as byte; var b1 := (0x80 | (c & 0x3f)) as byte;
            b0 & 0xf8 != 0xf0 && b0 & 0xf0 != 0xe0 && b0 & 0xe0 == 0xc0 && (((b0 & 0x1f) as bv32 << 6) | Cont(b1)) == c
  {}

  lemma Bits3(c: bv32)
    requires 0x800 <= c < 0x1_0000
    ensures var b0 := (0xe0 | (c >> 12)) as byte; var b1 := (0x80 | ((c >> 6) & 0x3f)) as byte;
            var b2 := (0x80 | (c & 0x3f)) as byte;
            b0 & 0xf8 != 0xf0 && b0 & 0xf0 == 0xe0 && (((b0 & 0x0f) as bv32 << 12) | (Cont(b1) << 6) | Cont(b2)) == c
  {}

  lemma Bits4(c: bv32)
    requires 0x1_0000 <= c < 0x11_0000
    ensures var b0 := (0xf0 | (c >> 18)) as byte; var b1 := (0x80 | ((c >> 12) & 0x3f)) as byte;
            var b2 := (0x80 | ((c >> 6) & 0x3f)) as byte; var b3 := (0x80 | (c & 0x3f)) as byte;
            b0 & 0xf8 == 0xf0
            && (((b0 & 0x07) as bv32 << 18) | (Cont(b1) << 12) | (Cont(b2) << 6) | Cont(b3)) == c
  {}

  lemma Decode2(c: bv32, rest: seq<byte>)
    requires 0x80 <= c < 0x800
    ensures Codepoint(Encode(c) + rest) == Some((c as int, 2))
  {
    var b0 := (0xc0 | (c >> 6)) as byte;
    var b1 := (0x80 | (c & 0x3f)) as byte;
    Bits2(c);
    var s := Encode(c) + rest;
    assert s[0] == b0 && s[1] == b1;
  }

  lemma Decode3(c: bv32, rest: seq<byte>)
    requires 0x800 <= c < 0x1_0000
    ensures Codepoint(Encode(c) + rest) == Some((c as int, 3))
  {
    var b0 := (0xe0 | (c >> 12)) as byte;
    var b1 := (0x80 | ((c >> 6) & 0x3f)) as byte;
    var b2 := (0x80 | (c & 0x3f)) as byte;
    Bits3(c);
    var s := Encode(c) + rest;
    assert s[0] == b0 && s[1] == b1 && s[2] == b2;
  }

  lemma Decode4(c: bv32, rest: seq<byte>)
    requires 0x1_0000 <= c < 0x11_0000
    ensures Codepoint(Encode(c) + rest) == Some((c as int, 4))
  {
    var b0 := (0xf0 | (c >> 18)) as byte;
    var b1 := (0x80 | ((c >> 12) & 0x3f)) as byte;
    var b2 := (0x80 | ((c >> 6) & 0x3f)) as byte;
    var b3 := (0x80 | (c & 0x3f)) as byte;
    Bits4(c);
    var s := Encode(c) + rest;
    assert s[0] == b0 && s[1] == b1 && s[2] == b2 && s[3] == b3;
  }

  /** Decoding the encoding of a code point gives it back, with its length;
      the lead byte alone tells the length. */
  lemma DecodeEncode(c: bv32, rest: seq<byte>)
    requires c < 0x11_0000
    ensures Codepoint(Encode(c) + rest) == Some((c as int, |Encode(c)|))
  {
    if c < 0x80 {
      var s := Encode(c) + rest;
      assert s[0] == c as byte;
    } else if c < 0x800 {
      Decode2(c, rest);
    } else if c < 0x1_0000 {
      Decode3(c, rest);
    } else {
      Decode4(c, rest);
    }
  }

  /** utf8_next over [s, max): the size of the sequence starting at s, or
      None when it would run past max (always the case when s == max). */
  function Next(s: seq<byte>): (r: Option<nat>)
    ensures r.None? <==> |s| == 0 || |s| < CharSize(s[0])
    ensures r.Some? ==> r.value == CharSize(s[0]) && 1 <= r.value <= |s|
  {
    if |s| == 0 || |s| < CharSize(s[0]) then None else Some(CharSize(s[0]))
  }

  /** utf8_next steps exactly as far as utf8_codepoint reads. */
  lemma NextAgreesWithCodepoint(s: seq<byte>)
    ensures Next(s).Some? <==> Codepoint(s).Some?
    ensures Next(s).Some? ==> Next(s).value == Codepoint(s).value.1
  {}

  // ---- utf8_str ------------------------------------------------------------

  /** The needle occurs in the haystack at offset p. */
  predicate MatchAt(h: seq<byte>, n: seq<byte>, p: nat)
  {
    p + |n| <= |h| && h[p..p + |n|] == n
  }

  /** The offsets utf8_str tries, from p on: p itself while it is inside the
      haystack, then the start of the next character, until utf8_next fails. */
  function Walk(h: seq<byte>, p: nat): (w: seq<nat>)
    decreases |h| - p
  {
    if p >= |h| then []
    else match Next(h[p..])
      case None => [p]
      case Some(k) => [p] + Walk(h, p + k)
  }

  lemma {:induction false} WalkAbove(h: seq<byte>, p: nat)
    ensures forall i :: 0 <= i < |Walk(h, p)| ==> p <= Walk(h, p)[i] < |h|
    decreases |h| - p
  {
    if p < |h| {
      match Next(h[p..])
      case None =>
      case Some(k) => WalkAbove(h, p + k);
    }
  }

  /** One step of the walk: a character start followed by the walk from the
      next one. */
  lemma WalkNext(h: seq<byte>, p: nat, k: nat)
    requires p < |h| && Next(h[p..]) == Some(k)
    ensures Walk(h, p) == [p] + Walk(h, p + k)
  {}

  /** In a haystack of ASCII bytes every offset is a character start. */
  lemma {:induction false} WalkAscii(h: seq<byte>, p: nat)
    requires forall i :: 0 <= i < |h| ==> h[i] < 0x80
    ensures forall q: nat :: q in Walk(h, p) <==> p <= q < |h|
    decreases |h| - p
  {
    if p < |h| {
      assert h[p..][0] == h[p];
      assert Next(h[p..]) == Some(1);
      WalkAscii(h, p + 1);
    }
  }

  /** utf8_str with the needle restarted at every candidate offset: the first
      character start at which the needle occurs, or None. */
  method Str(h: seq<byte>, n: seq<byte>) returns (r: Option<nat>)
    ensures r.Some? ==> MatchAt(h, n, r.value) && r.value in Walk(h, 0)
    ensures r.Some? ==> forall q :: q in Walk(h, 0) && q < r.value ==> !MatchAt(h, n, q)
    ensures r.None? ==> forall q :: q in Walk(h, 0) ==> !MatchAt(h, n, q)
  {
    var p := 0;
    ghost var seen: seq<nat> := [];
    while p < |h|
      invariant Searched(h, n, seen, p)
      decreases |h| - p
    {
      if MatchAt(h, n, p) {
        SearchedFound(h, n, seen, p);
        return Some(p);
      }
      var k := Next(h[p..]);
      if k.None? {
        SearchedLast(h, n, seen, p);
        return None;
      }
      SearchedStep(h, n, seen, p, k.value);
      seen := seen + [p];
      p := p + k.value;
    }
    SearchedAll(h, n, seen, p);
    return None;
  }

  /** The state of the search at offset p: the walk so far is seen, and the
      needle occurs at none of its offsets, all of them before p. */
  ghost predicate Searched(h: seq<byte>, n: seq<byte>, seen: seq<nat>, p: nat)
  {
    p <= |h| && Walk(h, 0) == seen + Walk(h, p) &&
    forall q :: q in seen ==> !MatchAt(h, n, q) && q < p
  }

  /** A miss at p moves the search on to the next character start. */
  lemma SearchedStep(h: seq<byte>, n: seq<byte>, seen: seq<nat>, p: nat, k: nat)
    requires Searched(h, n, seen, p) && p < |h| && !MatchAt(h, n, p)
    requires Next(h[p..]) == Some(k)
    ensures Searched(h, n, seen + [p], p + k)
  {
    WalkNext(h, p, k);
    assert seen + Walk(h, p) == (seen + [p]) + Walk(h, p + k);
    WalkAbove(h, p + k);
  }

  /** A match at p is the first on the walk. */
  lemma SearchedFound(h: seq<byte>, n: seq<byte>, seen: seq<nat>, p: nat)
    requires Searched(h, n, seen, p) && p < |h| && MatchAt(h, n, p)
    ensures p in Walk(h, 0)
    ensures forall q :: q in Walk(h, 0) && q < p ==> !MatchAt(h, n, q)
  {
    WalkBefore(h, n, seen, p);
  }

  /** A miss at the last character start ends the walk without a match. */
  lemma SearchedLast(h: seq<byte>, n: seq<byte>, seen: seq<nat>, p: nat)
    requires Searched(h, n, seen, p) && p < |h| && !MatchAt(h, n, p)
    requires Next(h[p..]).None?
    ensures forall q :: q in Walk(h, 0) ==> !MatchAt(h, n, q)
  {
    assert Walk(h, p) == [p];
  }

  /** Past the end of the haystack the walk has been tried in full. */
  lemma SearchedAll(h: seq<byte>, n: seq<byte>, seen: seq<nat>, p: nat)
    requires Searched(h, n, seen, p) && p >= |h|
    ensures forall q :: q in Walk(h, 0) ==> !MatchAt(h, n, q)
  {
    assert Walk(h, p) == [];
  }

  /** Split of the walk at a character start p: every earlier offset on it was
      already tried, and p itself is on it. */
  lemma WalkBefore(h: seq<byte>, n: seq<byte>, seen: seq<nat>, p: nat)
    requires p < |h| && Walk(h, 0) == seen + Walk(h, p)
    requires forall q :: q in seen ==> !MatchAt(h, n, q) && q < p
    ensures p in Walk(h, 0)
    ensures forall q :: q in Walk(h, 0) && q < p ==> !MatchAt(h, n, q)
  {
    WalkAbove(h, p);
    assert Walk(h, p)[0] == p;
  }

  /** For an ASCII haystack, Str finds the least offset of the needle. */
  lemma StrAscii(h: seq<byte>, n: seq<byte>, r: Option<nat>)
    requires forall i :: 0 <= i < |h| ==> h[i] < 0x80
    requires r.Some? ==> MatchAt(h, n, r.value) && r.value in Walk(h, 0)
    requires r.Some? ==> forall q :: q in Walk(h, 0) && q < r.value ==> !MatchAt(h, n, q)
    requires r.None? ==> forall q :: q in Walk(h, 0) ==> !MatchAt(h, n, q)
    ensures r.Some? ==> forall q: nat :: q < r.value ==> !MatchAt(h, n, q)
    ensures r.None? ==> forall q: nat :: q < |h| ==> !MatchAt(h, n, q)
  {
    WalkAscii(h, 0);
  }

  /** The inner loop of utf8_str as written: h and n advance together while
      the bytes agree and neither has reached its end. */
  function Advance(h: seq<byte>, n: seq<byte>, i: nat, j: nat): (r: (nat, nat))
    requires i <= |h| && j <= |n|
    ensures i <= r.0 <= |h| && j <= r.1 <= |n| && r.0 - i == r.1 - j
    ensures h[i..r.0] == n[j..r.1]
    ensures r.0 < |h| && r.1 < |n| ==> h[r.0] != n[r.1]
    decreases |h| - i
  {
    if i < |h| && j < |n| && h[i] == n[j] then Advance(h, n, i + 1, j + 1) else (i, j)
  }

  /** utf8_str as written: the needle position j is carried over from one
      candidate to the next instead of being reset to 0. */
  function StrAsWritten(h: seq<byte>, n: seq<byte>, i: nat, j: nat): Option<nat>
    requires i <= |h| && j <= |n|
    decreases |h| - i
  {
    if i == |h| then None
    else
      var (i', j') := Advance(h, n, i, j);
      if j' == |n| then Some(i)
      else match Next(h[i'..])
        case None => None
        case Some(k) => StrAsWritten(h, n, i' + k, j')
  }

  /** Haystack "aab", needle "ab": the code as written reports offset 2, where
      "ab" does not occur; the occurrence is at offset 1. */
  lemma StrAsWrittenMissesRestart()
    ensures StrAsWritten([0x61, 0x61, 0x62], [0x61, 0x62], 0, 0) == Some(2)
    ensures !MatchAt([0x61, 0x61, 0x62], [0x61, 0x62], 2)
    ensures MatchAt([0x61, 0x61, 0x62], [0x61, 0x62], 1)
  {
    var h: seq<byte> := [0x61, 0x61, 0x62];
    var n: seq<byte> := [0x61, 0x62];
    assert Advance(h, n, 1, 1) == (1, 1);
    assert Advance(h, n, 0, 0) == (1, 1);
    assert h[1..][0] == 0x61;
    assert Next(h[1..]) == Some(1);
    assert Advance(h, n, 2, 1) == (3, 2);
    assert h[2..3] == [0x62];
  }
}
