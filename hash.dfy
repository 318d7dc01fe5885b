// The three hash functions of src/core/hash.c, on unsigned machine words.
// uint32_t and uint64_t arithmetic wraps, as bv32 and bv64 arithmetic does.
module Hash {
  import opened Wrappers

  /** FNV-1a offset basis and prime. */
  const FnvBasis: bv32 := 2166136261
  const FnvPrime: bv32 := 16777619

  /** One turn of the FNV-1a loop: xor the byte in, then multiply. */
  function FnvStep(h: bv32, b: byte): bv32
  {
    (h ^ (b as bv32)) * FnvPrime
  }

  /** The loop of au_hash, continued from hash value h over the bytes s. */
  function FnvFrom(h: bv32, s: seq<byte>): bv32
    decreases |s|
  {
    if |s| == 0 then h else FnvFrom(FnvStep(h, s[0]), s[1..])
  }

  /** au_hash(str, len) over the bytes str[0..len). */
  function AuHash(s: seq<byte>): (r: bv32)
    ensures s == [] ==> r == FnvBasis
  {
    FnvFrom(FnvBasis, s)
  }

  /** Running the loop over s + [b] is running it over s, then one more step. */
  lemma {:induction false} FnvFromSnoc(h: bv32, s: seq<byte>, b: byte)
    ensures FnvFrom(h, s + [b]) == FnvStep(FnvFrom(h, s), b)
    decreases |s|
  {
    if s == [] {
      assert s + [b] == [b];
      assert [b][1..] == [];
    } else {
      assert (s + [b])[1..] == s[1..] + [b];
      FnvFromSnoc(FnvStep(h, s[0]), s[1..], b);
    }
  }

  /** Each byte is xored into the hash, which is then multiplied by the
      FNV prime modulo 2^32: the hash of s + [b] is one step past the hash of s. */
  lemma AuHashSnoc(s: seq<byte>, b: byte)
    ensures AuHash(s + [b]) == FnvStep(AuHash(s), b)
  {
    FnvFromSnoc(FnvBasis, s, b);
  }

  /** Hashing a concatenation continues from the hash of the first part. */
  lemma {:induction false} AuHashAppend(s: seq<byte>, t: seq<byte>)
    ensures AuHash(s + t) == FnvFrom(AuHash(s), t)
    decreases |t|
  {
    if t == [] {
      assert s + t == s;
    } else {
      var u := t[..|t| - 1];
      var b := t[|t| - 1];
      assert t == u + [b];
      assert s + t == (s + u) + [b];
      AuHashAppend(s, u);
      AuHashSnoc(s + u, b);
      FnvFromSnoc(AuHash(s), u, b);
    }
  }

  // ---- au_hash_u32 --------------------------------------------------------

  const C2: bv32 := 0x27d4eb2d

  /** au_hash_u32: five fixed shift/xor/multiply steps. */
  function AuHashU32(key: bv32): bv32
  {
    var k1 := (key ^ 61) ^ (key >> 16);
    var k2 := k1 + (k1 << 3);
    var k3 := k2 ^ (k2 >> 4);
    var k4 := k3 * C2;
    k4 ^ (k4 >> 15)
  }

  // ---- au_hash_u64 --------------------------------------------------------

  /** The 64-bit mix of au_hash_u64, before the final truncation. */
  function Mix64(key: bv64): bv64
  {
    var k1 := (!key) + (key << 18);
    var k2 := k1 ^ (k1 >> 31);
    var k3 := k2 * 21;
    var k4 := k3 ^ (k3 >> 11);
    var k5 := k4 + (k4 << 6);
    k5 ^ (k5 >> 22)
  }

  /** au_hash_u64: the low 32 bits of the mix. */
  function AuHashU64(key: bv64): bv32
  {
    (Mix64(key) & 0xffff_ffff) as bv32
  }
}
