// The string-keyed Robin Hood map of src/core/hm_vars.c, used for symbol
// tables. Key bytes live once in a growing byte buffer; a bucket refers to
// its key by offset and length into that buffer.
module HmVars {
  import opened Wrappers
  import opened RobinHood
  import opened Hash
  import opened HmVarsTable

  /** Whether au_hm_vars_add fails to grow a table in this state: the table
      is over the threshold and the new size does not fit in 32 bits. */
  predicate GrowFails(initialized: bool, size: nat, nitems: nat)
  {
    initialized && nitems > Approx85(size) && GrowSize(size) > UintMax
  }

  class Vars {
    var initialized: bool
    var size: nat
    var nitems: nat
    var minsize: nat
    var buckets: array<Slot>
    var keyBytes: seq<byte>
    /** The key-to-value mapping the buckets represent. */
    ghost var Contents: map<Key, nat>
    /** Where each key is stored. */
    ghost var Pos: map<Key, nat>

    ghost predicate Valid()
      reads this, buckets
    {
      (initialized ==>
        size == buckets.Length && minsize == 1 && nitems == |Contents|
        && TableOk(buckets[..], keyBytes, Contents, Pos))
      && (!initialized ==> Contents == map[] && keyBytes == [] && nitems == 0)
    }

    /** A zero-initialized structure, which the source treats as empty. */
    constructor ()
      ensures Valid() && !initialized && Contents == map[]
    {
      initialized := false;
      size := 0;
      nitems := 0;
      minsize := 0;
      buckets := new Slot[0];
      keyBytes := [];
      Contents := map[];
      Pos := map[];
    }

    /** au_hm_vars_get: Err for an uninitialized map (fatal in the source),
        otherwise the value stored under key, if any. */
    method Get(key: Key) returns (r: Result<Option<nat>, string>)
      requires Valid()
      ensures r.Err? <==> !initialized
      ensures r.Ok? ==> (r.value.Some? <==> key in Contents)
      ensures r.Ok? && r.value.Some? ==> r.value.value == Contents[key]
    {
      if !initialized {
        return Err("using uninitialized au_hm_vars");
      }
      var hash := AuHash(key);
      var n: nat := 0;
      var i: nat := Home(hash, size);
      ghost var b := buckets[..];
      assert LocatedAt(b, keyBytes, Contents, Pos, None, key);
      while true
        invariant b == buckets[..] && |b| == size && n <= size && i == At(hash, n, size)
        invariant NotBefore(b, keyBytes, Contents, Pos, key, n)
        decreases size - n
      {
        var bucket := buckets[i];
        ProbeStep(b, keyBytes, Contents, Pos, key, n);
        if bucket.Full? && bucket.hash == hash && bucket.key.len == |key|
           && keyBytes[bucket.key.idx .. bucket.key.idx + |key|] == key
        {
          return Ok(Some(bucket.val));
        }
        if bucket.Empty? || n > bucket.psl {
          return Ok(None);
        }
        AtSucc(hash, n, size);
        n := n + 1;
        i := Succ(i, size);
      }
    }

    /** initialize_entry: append the key's bytes to the key buffer and return
        the reference to them. */
    method InitializeEntry(key: Key) returns (ref: KeyRef)
      modifies this
      ensures keyBytes == old(keyBytes) + key
      ensures ref == KeyRef(|old(keyBytes)|, |key|) && KeyOf(keyBytes, ref) == key
      ensures initialized == old(initialized) && size == old(size) && nitems == old(nitems)
      ensures minsize == old(minsize) && buckets == old(buckets)
      ensures Contents == old(Contents) && Pos == old(Pos)
    {
      ref := KeyRef(|keyBytes|, |key|);
      keyBytes := keyBytes + key;
    }

    /** The probe of hm_insert, up to its first write: walk from the home
        slot of key until the key itself, an empty bucket, or a bucket less
        displaced than the key would be. In the last two cases the key is
        absent and belongs, psl steps from home, at slot i. */
    method Probe(key: Key) returns (found: bool, i: nat, psl: nat, val: nat)
      requires Valid() && initialized
      requires key !in Contents ==> nitems < size
      ensures found <==> key in Contents
      ensures found ==> val == Contents[key]
      ensures !found ==> i < size && psl < size && i == At(AuHash(key), psl, size)
                         && (buckets[i].Empty? || psl > buckets[i].psl)
                         && (psl > 0 ==> buckets[Pred(i, size)].Full? && buckets[Pred(i, size)].psl + 1 >= psl)
    {
      var hash := AuHash(key);
      var bytes := keyBytes;
      ghost var b, contents, pos := buckets[..], Contents, Pos;
      psl := 0;
      i := Home(hash, size);
      ghost var epos: nat := 0;
      assert LocatedAt(b, bytes, contents, pos, None, key);
      if key !in contents {
        epos := FindEmpty(b);
      }
      while true
        invariant |b| == size && Probing(b, bytes, contents, pos, key, psl, i, epos)
        decreases |b| - psl
      {
        var bucket := buckets[i];
        assert bucket == b[i];
        ProbeStep(b, bytes, contents, pos, key, psl);
        if bucket.Empty? {
          return false, i, psl, 0;
        }
        if bucket.hash == hash && bucket.key.len == |key|
           && bytes[bucket.key.idx .. bucket.key.idx + |key|] == key
        {
          return true, i, psl, bucket.val;
        }
        if psl > bucket.psl {
          return false, i, psl, 0;
        }
        ghost var n0, i0 := psl, i;
        psl := psl + 1;
        i := Succ(i, size);
        ProbeOn(b, bytes, contents, pos, key, n0, i0, epos, psl, i);
      }
    }

    /** hm_insert: insert key with value unless it is already present, in
        which case its current value is returned and nothing changes. The
        key's bytes are appended to the buffer only when the key is new and
        keyIdx is None (NEW_KEY in the source); otherwise keyIdx already
        locates them. The single
        probe loop of the source is written here in three parts: the probe up
        to the first write, the write there, and the displacement of evicted
        entries after it. */
    method Insert(keyIdx: Option<nat>, key: Key, value: nat) returns (r: Option<nat>)
      requires Valid() && initialized && |key| > 0
      requires keyIdx.Some? ==> keyIdx.value + |key| <= |keyBytes| && keyBytes[keyIdx.value .. keyIdx.value + |key|] == key
      requires key !in Contents ==> nitems < size
      modifies this, buckets
      ensures Valid() && initialized && buckets == old(buckets) && size == old(size) && minsize == old(minsize)
      ensures key in old(Contents) ==>
                r == Some(old(Contents)[key]) && Contents == old(Contents) && keyBytes == old(keyBytes)
      ensures key !in old(Contents) ==>
                r == None && Contents == old(Contents)[key := value]
                && keyBytes == (if keyIdx.None? then old(keyBytes) + key else old(keyBytes))
    {
      var found, i, psl, val := Probe(key);
      if found {
        return Some(val);
      }
      InsertAt(keyIdx, key, value, i, psl);
      return None;
    }

    /** The write part of hm_insert for an absent key whose probe stopped at
        slot i after psl steps: store it there if the bucket is empty,
        otherwise swap it in and displace the evicted entry. */
    method InsertAt(keyIdx: Option<nat>, key: Key, value: nat, i: nat, psl: nat)
      requires Valid() && initialized && |key| > 0 && key !in Contents && nitems < size
      requires keyIdx.Some? ==> keyIdx.value + |key| <= |keyBytes| && keyBytes[keyIdx.value .. keyIdx.value + |key|] == key
      requires i < size && psl < size && i == At(AuHash(key), psl, size)
      requires buckets[i].Empty? || psl > buckets[i].psl
      requires psl > 0 ==> buckets[Pred(i, size)].Full? && buckets[Pred(i, size)].psl + 1 >= psl
      modifies this, buckets
      ensures Valid() && initialized && buckets == old(buckets) && size == old(size) && minsize == old(minsize)
      ensures Contents == old(Contents)[key := value]
      ensures keyBytes == (if keyIdx.None? then old(keyBytes) + key else old(keyBytes))
    {
      ghost var b := buckets[..];
      var entryRef;
      if keyIdx.None? {
        entryRef := InitializeEntry(key);
        AppendKeepsKeys(b, old(keyBytes), key, Contents, Pos, None);
      } else {
        entryRef := KeyRef(keyIdx.value, |key|);
      }
      var entry: Slot := Full(entryRef, AuHash(key), psl, value);
      if buckets[i].Empty? {
        StoreNew(b, keyBytes, Contents, Pos, i, entry, key);
        Store(i, entry, key, Contents[key := value], Pos);
        return;
      }
      // Swap the entry with the richer bucket and carry the evicted entry on.
      var evicted := buckets[i];
      ghost var epos := FindEmpty(b);
      RefsOk(b, keyBytes, Contents, Pos, i);
      buckets[i] := entry;
      assert buckets[..] == b[i := entry];
      var next := Succ(i, buckets.Length);
      var carried := evicted.(psl := evicted.psl + 1);
      ghost var ek := KeyOf(keyBytes, evicted.key);
      SwapNew(b, keyBytes, Contents, Pos, i, entry, key, epos, buckets[..], next, carried, ek);
      Displace(next, carried, ek, key, i, epos, Contents[key := value], Pos[key := i]);
    }

    /** The displacement part of hm_insert: carry the entry in hand (key ek)
        along the probe sequence, swapping it with every richer bucket, until
        it lands in an empty bucket. The newly inserted key, stored at q, is
        still compared against at every step, as in the source. The ghost maps
        contents and pos describe the table once the entry in hand is stored. */
    method Displace(i0: nat, entry0: Slot, ghost ek0: Key, key: Key, ghost q: nat, ghost epos: nat,
                    ghost contents: map<Key, nat>, ghost pos0: map<Key, nat>)
      requires initialized && size == buckets.Length && nitems + 1 == |contents| && minsize == 1
      requires Displacing(buckets[..], keyBytes, contents, pos0, i0, entry0, ek0, key, q, epos)
      modifies this, buckets
      ensures Valid() && initialized && buckets == old(buckets) && size == old(size) && minsize == old(minsize)
      ensures Contents == contents && keyBytes == old(keyBytes)
    {
      var hash := AuHash(key);
      var bytes := keyBytes;
      var i: nat := i0;
      var entry := entry0;
      ghost var ek := ek0;
      ghost var pos: map<Key, nat> := pos0;
      ghost var cur := buckets[..];
      while true
        invariant cur == buckets[..] && Displacing(cur, bytes, contents, pos, i, entry, ek, key, q, epos)
        modifies buckets
        decreases Dist(i, epos, |cur|)
      {
        var bucket := buckets[i];
        assert bucket == cur[i];
        if bucket.Empty? {
          break;
        }
        DisplaceFull(cur, bytes, contents, pos, i, entry, ek, key, q, epos);
        if bucket.hash == hash && bucket.key.len == |key|
           && bytes[bucket.key.idx .. bucket.key.idx + |key|] == key
        {
          // The new key sits at q, which the probe does not revisit.
          assert false;
        }
        if entry.psl > bucket.psl {
          ghost var b0, pos1, i1, entry1, ek1 := cur, pos, i, entry, ek;
          buckets[i] := entry;
          cur := cur[i := entry];
          assert cur == buckets[..];
          pos := pos[ek := i];
          ek := KeyOf(bytes, bucket.key);
          entry := bucket.(psl := bucket.psl + 1);
          i := Succ(i, buckets.Length);
          DisplaceSwap(b0, bytes, contents, pos1, i1, entry1, ek1, key, q, epos, cur, pos, i, entry, ek);
        } else {
          ghost var i1, entry1 := i, entry;
          entry := entry.(psl := entry.psl + 1);
          i := Succ(i, buckets.Length);
          DisplaceSkip(cur, bytes, contents, pos, i1, entry1, ek, key, q, epos, i, entry);
        }
      }
      DisplaceLast(cur, bytes, contents, pos, i, entry, ek);
      Store(i, entry, ek, contents, pos);
    }

    /** The final write of hm_insert: the entry (key ek) goes into the empty
        bucket i and the item count goes up by one. */
    method Store(i: nat, entry: Slot, ghost ek: Key, ghost contents: map<Key, nat>, ghost pos: map<Key, nat>)
      requires initialized && size == buckets.Length && minsize == 1 && nitems + 1 == |contents|
      requires i < size && TableOk(buckets[..][i := entry], keyBytes, contents, pos[ek := i])
      modifies this, buckets
      ensures Valid() && initialized && buckets == old(buckets) && size == old(size) && minsize == old(minsize)
      ensures Contents == contents && keyBytes == old(keyBytes)
    {
      buckets[i] := entry;
      nitems := nitems + 1;
      Contents := contents;
      Pos := pos[ek := i];
    }

    /** The state hm_resize starts from: an initialized table, possibly
        still without buckets (as during au_hm_vars_init). */
    ghost predicate Resizable()
      reads this, buckets
    {
      initialized && size == buckets.Length && minsize == 1 && nitems == |Contents|
      && (size == 0 ==> Contents == map[])
      && (size > 0 ==> TableOk(buckets[..], keyBytes, Contents, Pos))
    }

    /** hm_resize: move every entry into a fresh bucket array of newsize
        buckets, reinserting each under its existing key index so that no key
        bytes are appended. Fails, changing nothing, when newsize does not fit
        in 32 bits. */
    method Resize(newsize: nat) returns (ok: bool)
      requires Resizable() && nitems < newsize
      modifies this
      ensures ok <==> newsize <= UintMax
      ensures ok ==> Valid() && initialized && size == newsize && fresh(buckets)
                     && Contents == old(Contents) && keyBytes == old(keyBytes)
      ensures !ok ==> unchanged(this)
    {
      if newsize > UintMax {
        return false;
      }
      var oldBuckets := buckets;
      var oldSize := size;
      var bytes := keyBytes;
      ghost var ob, oc, op := buckets[..], Contents, Pos;
      Reset(newsize);
      for i := 0 to oldSize
        invariant Valid() && initialized && size == newsize && fresh(buckets)
        invariant keyBytes == bytes && ob == oldBuckets[..] && Contents == Moved(oc, op, i)
      {
        var bucket := oldBuckets[i];
        assert bucket == ob[i];
        MovedNext(ob, bytes, oc, op, i);
        if bucket.Empty? {
          continue;
        }
        MovedCount(ob, bytes, oc, op, i);
        CountToMono(ob, i + 1, |ob|);
        var key := bytes[bucket.key.idx .. bucket.key.idx + bucket.key.len];
        var _ := Insert(Some(bucket.key.idx), key, bucket.val);
      }
      if oldSize > 0 {
        MovedAll(ob, keyBytes, oc, op);
      }
      return true;
    }

    /** The allocation part of hm_resize: a fresh array of newsize empty
        buckets replaces the old one and the item count is cleared. */
    method Reset(newsize: nat)
      requires initialized && minsize == 1 && 0 < newsize
      modifies this
      ensures Valid() && initialized && size == newsize && fresh(buckets) && nitems == 0
      ensures Contents == map[] && keyBytes == old(keyBytes)
    {
      buckets := new Slot[newsize](_ => Empty);
      size := newsize;
      nitems := 0;
      Contents := map[];
      Pos := map[];
      FreshOk(buckets[..], keyBytes);
    }

    /** au_hm_vars_init: a no-op on an initialized table; otherwise the
        structure is cleared and given a single bucket. The fatal error the
        source raises when that allocation fails cannot happen here. */
    method Init()
      requires Valid()
      modifies this
      ensures Valid() && initialized
      ensures old(initialized) ==> unchanged(this)
      ensures !old(initialized) ==> Contents == map[] && keyBytes == [] && size == 1 && fresh(buckets)
    {
      if !initialized {
        size := 0;
        nitems := 0;
        buckets := new Slot[0];
        keyBytes := [];
        Contents := map[];
        Pos := map[];
        initialized := true;
        minsize := 1;
        var ok := Resize(minsize);
        assert ok;
      }
    }

    /** au_hm_vars_add: initialize the table if need be, grow it when more
        than about 85% of the buckets are used, then insert key unless it is
        present. Returns the existing value for a present key and None for a
        new one; also None, with nothing inserted, when growing fails. */
    method Add(key: Key, value: nat) returns (r: Option<nat>)
      requires Valid() && |key| > 0
      modifies this, buckets
      ensures Valid() && initialized
      ensures GrowFails(old(initialized), old(size), old(nitems)) ==>
                r == None && Contents == old(Contents) && keyBytes == old(keyBytes)
      ensures !GrowFails(old(initialized), old(size), old(nitems)) && key in old(Contents) ==>
                r == Some(old(Contents)[key]) && Contents == old(Contents) && keyBytes == old(keyBytes)
      ensures !GrowFails(old(initialized), old(size), old(nitems)) && key !in old(Contents) ==>
                r == None && Contents == old(Contents)[key := value] && keyBytes == old(keyBytes) + key
    {
      if !initialized {
        Init();
      }
      var threshold := Approx85(size);
      if nitems > threshold {
        var newsize := GrowSize(size);
        var ok := Resize(newsize);
        if !ok {
          return None;
        }
      }
      r := Insert(None, key, value);
    }
  }
}
