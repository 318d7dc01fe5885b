// The dictionary object of src/core/rt/au_dict.c: a Robin Hood map from
// values to values (rhashmap) behind the struct interface of the
// interpreter (get, set, len). A bucket whose key is the error value is
// empty. Keys compare with au_value_eq, so only int, bool and string keys can
// be found again; an entry under any other key is stored and counted but
// never matched (Junk counts those).
module Dict {
  import opened Wrappers
  import opened Arith
  import opened RobinHood
  import opened Value
  import opened DictTable

  /** The new size rhashmap_put computes, as written: size is a uint32_t, so
      size << 1 and size + MAX_GROWTH_STEP are taken modulo 2^32 before the
      minimum is chosen. */
  function GrowSizeAsWritten(size: nat): nat
  {
    var doubled := (2 * size) % Two32;
    var limit := (size + MaxGrowthStep) % Two32;
    if doubled < limit then doubled else limit
  }

  /** From 2^31 buckets on, the doubled size wraps and the table "grows" to a
      smaller size; at exactly 2^31 it becomes 0. The UINT32_MAX guard of
      rhashmap_resize never sees these sizes. */
  lemma GrowSizeAsWrittenShrinks(size: nat)
    requires 0x8000_0000 <= size <= UintMax
    ensures GrowSizeAsWritten(size) < size
    ensures size == 0x8000_0000 ==> GrowSizeAsWritten(size) == 0
    ensures GrowSize(size) > size
  {
    assert (2 * size) % Two32 == 2 * size - Two32;
  }

  /** APPROX_85_PERCENT(size) as au_dict.c evaluates it: size is a
      uint32_t, so size * 870 is taken modulo 2^32 before the shift. */
  function Approx85AsWritten(size: nat): nat
  {
    ((size * 870) % Two32) / 1024
  }

  /** APPROX_40_PERCENT(size) as au_dict.c evaluates it, modulo 2^32 too. */
  function Approx40AsWritten(size: nat): nat
  {
    ((size * 409) % Two32) / 1024
  }

  /** From 4,936,745 buckets the 85% product wraps: at 5,242,880 buckets
      (reached from a power of two by doubling and then 1M-bucket steps) the
      threshold falls to 260,096, so every later put grows the table again.
      From 10,501,143 buckets the 40% product wraps and the table stops
      shrinking at the intended load. */
  lemma ThresholdsAsWrittenWrap()
    ensures Approx85AsWritten(5_242_880) == 260_096 < 4_454_400 == Approx85(5_242_880)
    ensures Approx40AsWritten(16_777_216) == 2_506_752 < 6_701_056 == Approx40(16_777_216)
    ensures forall size: nat :: size < 4_936_745 ==> Approx85AsWritten(size) == Approx85(size)
  {
    forall size: nat | size < 4_936_745
      ensures Approx85AsWritten(size) == Approx85(size)
    {
      assert size * 870 < Two32;
    }
  }

  /** rhashmap_put fails (au_fatal) when the table is over the threshold and
      the size it would grow to does not fit in 32 bits. */
  predicate PutFails(size: nat, nitems: nat)
  {
    nitems > Approx85(size) && GrowSize(size) > UintMax
  }

  class Dict {
    var size: nat
    var nitems: nat
    var minsize: nat
    var buckets: array<Slot>
    /** The value-to-value mapping the buckets represent (comparable keys). */
    ghost var Contents: map<Value, Value>
    /** Where each key of Contents is stored. */
    ghost var Pos: map<Value, nat>
    /** The number of entries under keys that never compare equal. */
    ghost var Junk: nat
    /** The hash function of the table: compute_hash, fixed at construction.
        The table's proofs rely only on its being a function of the key. */
    const Hash: Value -> bv32

    ghost predicate Valid()
      reads this, buckets
    {
      size == buckets.Length && size <= UintMax && minsize == 1 && nitems == |Contents| + Junk
      && TableOk(buckets[..], Contents, Pos, Junk) && Hashed(buckets[..], Hash)
    }

    /** au_obj_dict_new: rhashmap_init(hmap, 1), one empty bucket and a
        minimum size of one. */
    constructor ()
      ensures Valid() && fresh(buckets) && size == 1
      ensures Contents == map[] && Junk == 0 && Hash == KeyHash
    {
      Hash := KeyHash;
      size := 1;
      nitems := 0;
      minsize := 1;
      buckets := new Slot[1](_ => Empty);
      Contents := map[];
      Pos := map[];
      Junk := 0;
      new;
      FreshOk(buckets[..], Hash);
    }

    /** au_obj_dict_get over rhashmap_get: the value stored under key, unless
        it is absent or the stored value is the error value (which the
        source cannot tell from "absent"). A key that is not an int, bool or
        string is never found. */
    method Get(key: Value) returns (r: Option<Value>)
      requires Valid()
      ensures r.Some? <==> key in Contents && !Contents[key].Error?
      ensures r.Some? ==> r.value == Contents[key]
      ensures !Comparable(key) ==> r.None?
    {
      var hash := Hash(key);
      var n: nat := 0;
      var i: nat := Home(hash, size);
      ghost var b := buckets[..];
      assert LocatedAt(b, Contents, Pos, None, key);
      while true
        invariant b == buckets[..] && Looking(b, Contents, Pos, Hash, key, n, i)
        decreases size - n
      {
        var bucket := buckets[i];
        assert bucket == b[i] && HashAt(b, i, Hash);
        if bucket.Full? && bucket.hash == hash && Eq(bucket.key, key).b {
          ProbeMatch(b, Contents, Pos, Junk, i, key);
          if bucket.val.Error? {
            return None;
          }
          return Some(bucket.val);
        }
        if bucket.Empty? || n > bucket.psl {
          ProbeMiss(b, Contents, Pos, Junk, Hash, key, n);
          return None;
        }
        RefsOk(b, Contents, Pos, Junk, i);
        ghost var n0, i0 := n, i;
        n := n + 1;
        i := Succ(i, size);
        LookOn(b, Contents, Pos, Junk, Hash, key, n0, i0, n, i);
      }
    }

    /** The probe of rhashmap_insert up to its first write: walk from the
        home slot of key until the key itself, an empty bucket, or a bucket
        less displaced than the key would be. In the last two cases the key
        is absent and belongs, psl steps from home, at slot i. */
    method Probe(key: Value) returns (found: bool, i: nat, psl: nat)
      requires Valid()
      requires key !in Contents ==> nitems < size
      ensures found <==> key in Contents
      ensures found ==> i < size && buckets[i].Full? && buckets[i].key == key
      ensures !found ==> i < size && psl < size && i == At(Hash(key), psl, size)
                         && (buckets[i].Empty? || psl > buckets[i].psl)
                         && (psl > 0 ==> buckets[Pred(i, size)].Full? && buckets[Pred(i, size)].psl + 1 >= psl)
    {
      var hash := Hash(key);
      ghost var b, contents, pos := buckets[..], Contents, Pos;
      psl := 0;
      i := Home(hash, size);
      ghost var epos: nat := 0;
      assert LocatedAt(b, contents, pos, None, key);
      if key !in contents {
        epos := FindEmpty(b);
      }
      while true
        invariant |b| == size && b == buckets[..] && Probing(b, contents, pos, Hash, key, psl, i, epos)
        decreases |b| - psl
      {
        var bucket := buckets[i];
        assert bucket == b[i] && HashAt(b, i, Hash);
        if bucket.Empty? {
          ProbeMiss(b, contents, pos, Junk, Hash, key, psl);
          RefsOk(b, contents, pos, Junk, i);
          return false, i, psl;
        }
        if bucket.hash == hash && Eq(bucket.key, key).b {
          ProbeMatch(b, contents, pos, Junk, i, key);
          return true, i, psl;
        }
        if psl > bucket.psl {
          ProbeMiss(b, contents, pos, Junk, Hash, key, psl);
          RefsOk(b, contents, pos, Junk, i);
          return false, i, psl;
        }
        ghost var n0, i0 := psl, i;
        psl := psl + 1;
        i := Succ(i, size);
        ProbeOn(b, contents, pos, Junk, Hash, key, n0, i0, epos, psl, i);
      }
    }

    /** rhashmap_insert: store val under key. A key already present has its
        value replaced and the item count stays; any other key (every key
        that never compares equal included) adds an entry. The single probe
        loop of the source is written here in three parts: the probe up to
        the first write, the write there, and the displacement of evicted
        entries after it. */
    method Insert(key: Value, val: Value)
      requires Valid() && !key.Error?
      requires key !in Contents ==> nitems < size
      modifies this, buckets
      ensures Valid() && buckets == old(buckets) && size == old(size)
      ensures Contents == old(Contents)[key := val] || (!Comparable(key) && Contents == old(Contents))
      ensures Comparable(key) ==> Contents == old(Contents)[key := val] && Junk == old(Junk)
      ensures !Comparable(key) ==> Contents == old(Contents) && Junk == old(Junk) + 1
    {
      var found, i, psl := Probe(key);
      if found {
        ghost var b := buckets[..];
        assert HashAt(b, i, Hash) && LocatedAt(b, Contents, Pos, None, key);
        var bucket := buckets[i];
        Overwrite(b, Contents, Pos, Junk, i, val);
        HashedSet(b, Hash, i, bucket.(val := val));
        buckets[i] := bucket.(val := val);
        Contents := Contents[key := val];
        return;
      }
      InsertAt(key, val, i, psl);
    }

    /** The write part of rhashmap_insert for a key not found, whose probe
        stopped at slot i after psl steps: store it there if the bucket is
        empty, otherwise swap it in and displace the evicted entry. */
    method InsertAt(key: Value, val: Value, i: nat, psl: nat)
      requires Valid() && !key.Error? && key !in Contents && nitems < size
      requires i < size && psl < size && i == At(Hash(key), psl, size)
      requires buckets[i].Empty? || psl > buckets[i].psl
      requires psl > 0 ==> buckets[Pred(i, size)].Full? && buckets[Pred(i, size)].psl + 1 >= psl
      modifies this, buckets
      ensures Valid() && buckets == old(buckets) && size == old(size)
      ensures Contents == With(old(Contents), key, val) && Junk == JunkWith(old(Junk), key)
    {
      ghost var b := buckets[..];
      var entry: Slot := Full(key, Hash(key), psl, val);
      if buckets[i].Empty? {
        StoreNew(b, Contents, Pos, Junk, i, entry);
        HashedSet(b, Hash, i, entry);
        Store(i, entry, With(Contents, key, val), PosWith(Pos, key, i), JunkWith(Junk, key));
        return;
      }
      // Swap the entry with the richer bucket and carry the evicted entry on.
      var evicted := buckets[i];
      assert HashAt(b, i, Hash);
      ghost var epos := FindEmpty(b);
      RefsOk(b, Contents, Pos, Junk, i);
      HashedSet(b, Hash, i, entry);
      buckets[i] := entry;
      assert buckets[..] == b[i := entry];
      var next := Succ(i, buckets.Length);
      var carried := evicted.(psl := evicted.psl + 1);
      SwapNew(b, Contents, Pos, Junk, i, entry, epos, buckets[..], next, carried);
      Displace(next, carried, key, i, epos, With(Contents, key, val), PosWith(Pos, key, i), JunkWith(Junk, key));
    }

    /** The displacement part of rhashmap_insert: carry the entry in hand
        along the probe sequence, swapping it with every richer bucket, until
        it lands in an empty bucket. The newly inserted key, stored at q, is
        still compared against at every step, as in the source. The ghost
        contents, pos and junk describe the table once the entry in hand is
        stored. */
    method Displace(i0: nat, entry0: Slot, key: Value, ghost q: nat, ghost epos: nat,
                    ghost contents: map<Value, Value>, ghost pos0: map<Value, nat>, ghost junk: nat)
      requires size == buckets.Length && size <= UintMax && minsize == 1 && nitems + 1 == |contents| + junk
      requires Displacing(buckets[..], contents, pos0, junk, i0, entry0, key, q, epos)
      requires Hashed(buckets[..], Hash) && entry0.hash == Hash(entry0.key)
      modifies this, buckets
      ensures Valid() && buckets == old(buckets) && size == old(size)
      ensures Contents == contents && Junk == junk
    {
      var hash := Hash(key);
      var i: nat := i0;
      var entry := entry0;
      ghost var pos: map<Value, nat> := pos0;
      ghost var cur := buckets[..];
      while true
        invariant cur == buckets[..] && Displacing(cur, contents, pos, junk, i, entry, key, q, epos)
        invariant Hashed(cur, Hash) && entry.hash == Hash(entry.key)
        modifies buckets
        decreases Dist(i, epos, |cur|)
      {
        var bucket := buckets[i];
        assert bucket == cur[i];
        if bucket.Empty? {
          break;
        }
        DisplaceFull(cur, contents, pos, junk, i, entry, key, q, epos);
        if bucket.hash == hash && Eq(bucket.key, key).b {
          // The new key sits at q, which the probe does not revisit.
          assert false;
        }
        if entry.psl > bucket.psl {
          ghost var b0, pos1, i1, entry1 := cur, pos, i, entry;
          assert HashAt(b0, i1, Hash);
          HashedSet(b0, Hash, i1, entry1);
          buckets[i] := entry;
          cur := cur[i := entry];
          assert cur == buckets[..];
          pos := PosWith(pos, entry.key, i);
          entry := bucket.(psl := bucket.psl + 1);
          i := Succ(i, buckets.Length);
          DisplaceSwap(b0, contents, pos1, junk, i1, entry1, key, q, epos, cur, pos, i, entry);
        } else {
          ghost var i1, entry1 := i, entry;
          entry := entry.(psl := entry.psl + 1);
          i := Succ(i, buckets.Length);
          DisplaceSkip(cur, contents, pos, junk, i1, entry1, key, q, epos, i, entry);
        }
      }
      DisplaceLast(cur, contents, pos, junk, i, entry);
      HashedSet(cur, Hash, i, entry);
      Store(i, entry, contents, PosWith(pos, entry.key, i), junk);
    }

    /** The final write of rhashmap_insert: the entry goes into the empty
        bucket i and the item count goes up by one. */
    method Store(i: nat, entry: Slot, ghost contents: map<Value, Value>, ghost pos: map<Value, nat>, ghost junk: nat)
      requires size == buckets.Length && size <= UintMax && minsize == 1 && nitems + 1 == |contents| + junk
      requires i < size && TableOk(buckets[..][i := entry], contents, pos, junk) && Hashed(buckets[..][i := entry], Hash)
      modifies this, buckets
      ensures Valid() && buckets == old(buckets) && size == old(size)
      ensures Contents == contents && Junk == junk
    {
      buckets[i] := entry;
      nitems := nitems + 1;
      Contents := contents;
      Pos := pos;
      Junk := junk;
    }

    /** rhashmap_resize: move every entry into a fresh bucket array of
        newsize buckets. Fails, changing nothing, when newsize does not fit in
        32 bits. */
    method Resize(newsize: nat) returns (ok: bool)
      requires Valid() && nitems < newsize
      modifies this
      ensures ok <==> newsize <= UintMax
      ensures ok ==> Valid() && size == newsize && fresh(buckets) && Contents == old(Contents) && Junk == old(Junk)
      ensures !ok ==> unchanged(this)
    {
      if newsize > UintMax {
        return false;
      }
      var oldBuckets := buckets;
      var oldSize := size;
      ghost var ob, oc, op, oj := buckets[..], Contents, Pos, Junk;
      Reset(newsize);
      for i := 0 to oldSize
        invariant Valid() && size == newsize && fresh(buckets)
        invariant ob == oldBuckets[..] && Contents == Moved(oc, op, i) && Junk == JunkTo(ob, i)
      {
        Reinsert(oldBuckets[i], ob, oc, op, oj, i);
      }
      MovedAll(ob, oc, op, oj);
      return true;
    }

    /** One step of the copy loop of rhashmap_resize: the entry of old
        bucket i, if any, is inserted into the new table. */
    method Reinsert(bucket: Slot, ghost ob: seq<Slot>, ghost oc: map<Value, Value>, ghost op: map<Value, nat>,
                    ghost oj: nat, ghost i: nat)
      requires Valid() && i < |ob| && bucket == ob[i] && TableOk(ob, oc, op, oj) && Count(ob) < size
      requires Contents == Moved(oc, op, i) && Junk == JunkTo(ob, i)
      modifies this, buckets
      ensures Valid() && buckets == old(buckets) && size == old(size)
      ensures Contents == Moved(oc, op, i + 1) && Junk == JunkTo(ob, i + 1)
    {
      MovedNext(ob, oc, op, oj, i);
      if bucket.Empty? {
        return;
      }
      MovedCount(ob, oc, op, oj, i);
      CountToMono(ob, i + 1, |ob|);
      Insert(bucket.key, bucket.val);
    }

    /** The allocation part of rhashmap_resize: a fresh array of newsize
        empty buckets replaces the old one and the item count is cleared. */
    method Reset(newsize: nat)
      requires minsize == 1 && 0 < newsize <= UintMax
      modifies this
      ensures Valid() && size == newsize && fresh(buckets) && nitems == 0
      ensures Contents == map[] && Junk == 0
    {
      buckets := new Slot[newsize](_ => Empty);
      size := newsize;
      nitems := 0;
      Contents := map[];
      Pos := map[];
      Junk := 0;
      FreshOk(buckets[..], Hash);
    }

    /** rhashmap_put: grow the table when more than about 85% of the buckets
        are used, then insert. A failed grow is fatal in the source (Err
        here). The threshold and the new size are computed in wide
        arithmetic (see Approx85AsWritten and GrowSizeAsWritten for the
        32-bit computation of the source). */
    method Put(key: Value, val: Value) returns (r: Result<(), string>)
      requires Valid() && !key.Error?
      modifies this, buckets
      ensures Valid()
      ensures r.Err? <==> PutFails(old(size), old(nitems))
      ensures r.Err? ==> Contents == old(Contents) && Junk == old(Junk)
      ensures r.Ok? && Comparable(key) ==> Contents == old(Contents)[key := val] && Junk == old(Junk)
      ensures r.Ok? && !Comparable(key) ==> Contents == old(Contents) && Junk == old(Junk) + 1
    {
      var threshold := Approx85(size);
      if nitems > threshold {
        var newsize := GrowSize(size);
        var ok := Resize(newsize);
        if !ok {
          return Err("out of memory");
        }
      }
      Insert(key, val);
      return Ok(());
    }

    /** au_obj_dict_set: put, then report success. */
    method Set(key: Value, val: Value) returns (r: Result<int, string>)
      requires Valid() && !key.Error?
      modifies this, buckets
      ensures Valid()
      ensures r.Err? <==> PutFails(old(size), old(nitems))
      ensures r.Ok? ==> r.value == 1
      ensures r.Ok? && Comparable(key) ==> Contents == old(Contents)[key := val] && Junk == old(Junk)
      ensures r.Ok? && !Comparable(key) ==> Contents == old(Contents) && Junk == old(Junk) + 1
    {
      var p := Put(key, val);
      if p.Err? {
        return Err(p.error);
      }
      return Ok(1);
    }

    /** au_obj_dict_len: the item count cast to int32_t, which counts the
        entries under keys that never compare equal as well. */
    function Len(): (r: Int32)
      requires Valid()
      reads this, buckets
      ensures (r - (|Contents| + Junk)) % Two32 == 0
      ensures |Contents| + Junk <= Int32Max ==> r == |Contents| + Junk
    {
      Wrap(nitems)
    }

    /** rhashmap_del: remove key and return its value, or the error value
        when it is absent. Then the table halves (not below minsize) when
        more than minsize but fewer than about 40% of the buckets stay used;
        halving cannot fail. */
    method Del(key: Value) returns (r: Value)
      requires Valid()
      modifies this, buckets
      ensures Valid() && Junk == old(Junk)
      ensures key in old(Contents) ==> r == old(Contents)[key] && Contents == old(Contents) - {key}
      ensures key !in old(Contents) ==> r == Error && Contents == old(Contents)
    {
      var threshold := Approx40(size);
      var found, i := Find(key);
      if !found {
        return Error;
      }
      r := buckets[i].val;
      RemoveAt(i);
      if nitems > minsize && nitems < threshold {
        var newsize := if size / 2 > minsize then size / 2 else minsize;
        var ok := Resize(newsize);
        assert ok;
      }
    }

    /** The probe of rhashmap_del: the same walk as lookup, except that the
        stop condition is checked before the key comparison. */
    method Find(key: Value) returns (found: bool, i: nat)
      requires Valid()
      ensures found <==> key in Contents
      ensures found ==> Comparable(key)
      ensures found ==> i < size && buckets[i].Full? && buckets[i].key == key && buckets[i].val == Contents[key]
    {
      var hash := Hash(key);
      var n: nat := 0;
      i := Home(hash, size);
      ghost var b := buckets[..];
      assert LocatedAt(b, Contents, Pos, None, key);
      while true
        invariant b == buckets[..] && Looking(b, Contents, Pos, Hash, key, n, i)
        decreases size - n
      {
        var bucket := buckets[i];
        assert bucket == b[i] && HashAt(b, i, Hash);
        if bucket.Empty? || n > bucket.psl {
          ProbeMiss(b, Contents, Pos, Junk, Hash, key, n);
          return false, i;
        }
        if bucket.hash == hash && Eq(bucket.key, key).b {
          ProbeMatch(b, Contents, Pos, Junk, i, key);
          return true, i;
        }
        RefsOk(b, Contents, Pos, Junk, i);
        ghost var n0, i0 := n, i;
        n := n + 1;
        i := Succ(i, size);
        LookOn(b, Contents, Pos, Junk, Hash, key, n0, i0, n, i);
      }
    }

    /** The removal part of rhashmap_del: empty bucket i, then shift the
        buckets after it back. */
    method RemoveAt(i: nat)
      requires Valid() && i < size && buckets[i].Full? && Comparable(buckets[i].key)
      modifies this, buckets
      ensures Valid() && buckets == old(buckets) && size == old(size)
      ensures Contents == old(Contents) - {old(buckets[i].key)} && Junk == old(Junk)
    {
      ghost var b := buckets[..];
      var key := buckets[i].key;
      RemoveKey(b, Contents, Pos, Junk, i);
      ghost var hp: nat := buckets[i].psl;
      HashedSet(b, Hash, i, Empty);
      buckets[i] := Empty;
      nitems := nitems - 1;
      Contents := Contents - {key};
      Pos := Pos - {key};
      ShiftBack(i, hp);
    }

    /** The backward shift of rhashmap_del: each bucket after the hole at h
        moves back one step, one step less displaced, until an empty bucket
        or one in its home slot. */
    method ShiftBack(h0: nat, ghost hp0: nat)
      requires size == buckets.Length && size <= UintMax && minsize == 1 && nitems == |Contents| + Junk
      requires Shifting(buckets[..], Contents, Pos, Junk, h0, hp0) && Hashed(buckets[..], Hash)
      modifies this, buckets
      ensures Valid() && buckets == old(buckets) && size == old(size)
      ensures Contents == old(Contents) && Junk == old(Junk)
    {
      var h := h0;
      ghost var hp := hp0;
      ghost var pos := Pos;
      while true
        invariant Shifting(buckets[..], Contents, pos, Junk, h, hp) && Hashed(buckets[..], Hash)
        modifies buckets
        decreases PslSum(buckets[..])
      {
        var nx := Succ(h, buckets.Length);
        var next := buckets[nx];
        if next.Empty? || next.psl == 0 {
          break;
        }
        ghost var b0, p0, h1, hp1 := buckets[..], pos, h, hp;
        assert HashAt(b0, nx, Hash);
        HashedSet(b0, Hash, h, next.(psl := next.psl - 1));
        HashedSet(b0[h := next.(psl := next.psl - 1)], Hash, nx, Empty);
        buckets[h] := next.(psl := next.psl - 1);
        buckets[nx] := Empty;
        pos := PosWith(pos, next.key, h);
        h := nx;
        hp := next.psl;
        ShiftStep(b0, Contents, p0, Junk, h1, hp1, buckets[..], pos, h, hp);
      }
      ShiftDone(buckets[..], Contents, pos, Junk, h, hp);
      Pos := pos;
    }
  }
}
