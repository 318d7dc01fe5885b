// The chained string-keyed map of src/core/bc_vars.c, used for a
// function's local variables. Key bytes are appended once to var_name; an
// element refers to its key by offset and length there. An element with
// hash h lives in bucket h & (buckets_len - 1); each bucket is a small
// growable array of elements.
module BcVars {
  import opened Wrappers
  import opened Hash

  type Key = seq<byte>

  const Two30: nat := 0x4000_0000

  /** The largest entry count at which add may still be called: beyond it
      rehash_table would compute a bucket count (the C int new_len) that no
      longer fits in 31 bits. */
  const MaxEntries: nat := 0x1800_0000

  /** struct au_bc_var_el: the key as offset and length into var_name, the
      key's hash and the value (its idx field). */
  datatype El = El(keyIdx: nat, keyLen: nat, keyHash: bv32, value: nat)

  /** struct au_bc_bucket: data[0..len) is the element sequence, cap the
      number of slots allocated. */
  datatype Bucket = Bucket(data: seq<El>, cap: nat)

  /** The bytes an element's key reference points at. */
  function KeyOf(names: seq<byte>, el: El): Key
    requires el.keyIdx + el.keyLen <= |names|
  {
    names[el.keyIdx .. el.keyIdx + el.keyLen]
  }

  /** 2 to the k. */
  function Pow2(k: nat): (r: nat)
    ensures r >= 1
  {
    if k == 0 then 1 else 2 * Pow2(k - 1)
  }

  /** The bucket of a hash in a table of len buckets. The source computes
      hash & (len - 1); len is always a power of two (see Vars.Valid), for
      which that mask keeps exactly the remainder modulo len. */
  function Index(hash: bv32, len: nat): (r: nat)
    requires 0 < len
    ensures r < len
  {
    Rem(hash as nat, len)
  }

  /** x modulo m, by repeated subtraction. */
  function Rem(x: nat, m: nat): (r: nat)
    requires 0 < m
    ensures r < m
    decreases x
  {
    if x < m then x else Rem(x - m, m)
  }

  /** The bucket growth both add and rehash_table inline: a bucket without
      storage gets one slot, a full one doubles, then el goes at index len. */
  function Push(bucket: Bucket, el: El): (r: Bucket)
    requires |bucket.data| <= bucket.cap
    ensures r.data == bucket.data + [el] && |r.data| <= r.cap
    ensures bucket.cap > 0 ==> bucket.cap <= r.cap <= 2 * bucket.cap
  {
    var cap := if bucket.cap == 0 then 1
               else if |bucket.data| == bucket.cap then 2 * bucket.cap
               else bucket.cap;
    Bucket(bucket.data + [el], cap)
  }

  // ---- the table invariant -------------------------------------------------

  /** Element el of bucket b is well formed: its key lies in names, its
      stored hash is the key's hash, the hash selects bucket b, and the map
      holds its value under its key. */
  ghost predicate ElOk(names: seq<byte>, contents: map<Key, nat>, len: nat, b: nat, el: El)
  {
    0 < len
    && el.keyIdx + el.keyLen <= |names|
    && el.keyHash == AuHash(KeyOf(names, el))
    && Index(el.keyHash, len) == b
    && KeyOf(names, el) in contents && contents[KeyOf(names, el)] == el.value
  }

  ghost predicate BucketOk(names: seq<byte>, contents: map<Key, nat>, len: nat, b: nat, bucket: Bucket)
  {
    |bucket.data| <= bucket.cap
    && forall j :: 0 <= j < |bucket.data| ==> ElOk(names, contents, len, b, bucket.data[j])
  }

  /** Key k is the key of element j of the bucket its hash selects. */
  ghost predicate Located(bs: seq<Bucket>, names: seq<byte>, k: Key, j: nat)
  {
    0 < |bs|
    && var b := Index(AuHash(k), |bs|);
    j < |bs[b].data| && bs[b].data[j].keyIdx + bs[b].data[j].keyLen <= |names|
    && KeyOf(names, bs[b].data[j]) == k
  }

  /** The buckets bs over the key bytes names represent the map contents;
      pos gives, for each key, an element of its bucket that holds it. */
  ghost predicate TableOk(bs: seq<Bucket>, names: seq<byte>, contents: map<Key, nat>, pos: map<Key, nat>)
  {
    (forall b :: 0 <= b < |bs| ==> BucketOk(names, contents, |bs|, b, bs[b]))
    && forall k :: k in contents ==> k in pos && Located(bs, names, k, pos[k])
  }

  /** The empty table and a table of empty buckets represent the empty map. */
  lemma EmptyOk(bs: seq<Bucket>, names: seq<byte>)
    requires forall b :: 0 <= b < |bs| ==> bs[b] == Bucket([], 0)
    ensures TableOk(bs, names, map[], map[])
  {}

  /** A table whose map has a key has buckets. */
  lemma NonEmpty(bs: seq<Bucket>, names: seq<byte>, contents: map<Key, nat>, pos: map<Key, nat>, k: Key)
    requires TableOk(bs, names, contents, pos) && k in contents
    ensures 0 < |bs|
  {
    assert Located(bs, names, k, pos[k]);
  }

  /** Appending to the key bytes leaves the key of an element in place. */
  lemma KeyGrow(names: seq<byte>, extra: seq<byte>, el: El)
    requires el.keyIdx + el.keyLen <= |names|
    ensures KeyOf(names + extra, el) == KeyOf(names, el)
  {
    var names' := names + extra;
    assert forall i :: el.keyIdx <= i < el.keyIdx + el.keyLen ==> names'[i] == names[i];
  }

  /** Appending to the key bytes moves no key. */
  lemma NamesGrow(bs: seq<Bucket>, names: seq<byte>, extra: seq<byte>, contents: map<Key, nat>, pos: map<Key, nat>)
    requires TableOk(bs, names, contents, pos)
    ensures TableOk(bs, names + extra, contents, pos)
  {
    var names' := names + extra;
    forall b | 0 <= b < |bs|
      ensures BucketOk(names', contents, |bs|, b, bs[b])
    {
      assert BucketOk(names, contents, |bs|, b, bs[b]);
      forall j | 0 <= j < |bs[b].data|
        ensures ElOk(names', contents, |bs|, b, bs[b].data[j])
      {
        assert ElOk(names, contents, |bs|, b, bs[b].data[j]);
        KeyGrow(names, extra, bs[b].data[j]);
      }
    }
    forall k | k in contents
      ensures Located(bs, names', k, pos[k])
    {
      assert Located(bs, names, k, pos[k]);
      KeyGrow(names, extra, bs[Index(AuHash(k), |bs|)].data[pos[k]]);
    }
  }

  /** Pushing a well-formed element into the bucket its hash selects adds its
      key (with its value) to the map the table represents, provided the key
      is new or already holds that value. */
  lemma PushOk(bs: seq<Bucket>, names: seq<byte>, contents: map<Key, nat>, pos: map<Key, nat>, el: El)
    requires TableOk(bs, names, contents, pos) && 0 < |bs|
    requires el.keyIdx + el.keyLen <= |names| && el.keyHash == AuHash(KeyOf(names, el))
    requires KeyOf(names, el) in contents ==> contents[KeyOf(names, el)] == el.value
    ensures var idx := Index(el.keyHash, |bs|);
            BucketOk(names, contents, |bs|, idx, bs[idx])
            && TableOk(bs[idx := Push(bs[idx], el)], names, contents[KeyOf(names, el) := el.value],
                       pos[KeyOf(names, el) := |bs[idx].data|])
  {
    var idx := Index(el.keyHash, |bs|);
    assert BucketOk(names, contents, |bs|, idx, bs[idx]);
    PushEls(bs, names, contents, pos, el);
    PushLocated(bs, names, contents, pos, el);
  }

  /** The elements half of PushOk. */
  lemma PushEls(bs: seq<Bucket>, names: seq<byte>, contents: map<Key, nat>, pos: map<Key, nat>, el: El)
    requires TableOk(bs, names, contents, pos) && 0 < |bs|
    requires el.keyIdx + el.keyLen <= |names| && el.keyHash == AuHash(KeyOf(names, el))
    requires KeyOf(names, el) in contents ==> contents[KeyOf(names, el)] == el.value
    requires |bs[Index(el.keyHash, |bs|)].data| <= bs[Index(el.keyHash, |bs|)].cap
    ensures var idx := Index(el.keyHash, |bs|);
            var bs' := bs[idx := Push(bs[idx], el)];
            forall b :: 0 <= b < |bs'| ==> BucketOk(names, contents[KeyOf(names, el) := el.value], |bs'|, b, bs'[b])
  {
    var idx := Index(el.keyHash, |bs|);
    var k := KeyOf(names, el);
    var bs' := bs[idx := Push(bs[idx], el)];
    var contents' := contents[k := el.value];
    forall b, j | 0 <= b < |bs'| && 0 <= j < |bs'[b].data|
      ensures ElOk(names, contents', |bs'|, b, bs'[b].data[j])
    {
      if b != idx || j < |bs[idx].data| {
        assert BucketOk(names, contents, |bs|, b, bs[b]);
        assert bs'[b].data[j] == bs[b].data[j];
        ElOkUpdate(names, contents, |bs|, b, bs[b].data[j], k, el.value);
      } else {
        assert bs'[b].data[j] == el;
      }
    }
    forall b | 0 <= b < |bs'|
      ensures |bs'[b].data| <= bs'[b].cap
    {
      assert BucketOk(names, contents, |bs|, b, bs[b]);
    }
  }

  /** Storing a value under a key keeps an element well formed when the
      key is new or already holds that value. */
  lemma ElOkUpdate(names: seq<byte>, contents: map<Key, nat>, len: nat, b: nat, e: El, k: Key, v: nat)
    requires ElOk(names, contents, len, b, e)
    requires k in contents ==> contents[k] == v
    ensures ElOk(names, contents[k := v], len, b, e)
  {
  }

  /** The located half of PushOk. */
  lemma PushLocated(bs: seq<Bucket>, names: seq<byte>, contents: map<Key, nat>, pos: map<Key, nat>, el: El)
    requires TableOk(bs, names, contents, pos) && 0 < |bs|
    requires el.keyIdx + el.keyLen <= |names| && el.keyHash == AuHash(KeyOf(names, el))
    requires |bs[Index(el.keyHash, |bs|)].data| <= bs[Index(el.keyHash, |bs|)].cap
    ensures var idx := Index(el.keyHash, |bs|);
            var bs' := bs[idx := Push(bs[idx], el)];
            var pos' := pos[KeyOf(names, el) := |bs[idx].data|];
            forall k :: k in contents[KeyOf(names, el) := el.value] ==> k in pos' && Located(bs', names, k, pos'[k])
  {
    var idx := Index(el.keyHash, |bs|);
    var k := KeyOf(names, el);
    var bs' := bs[idx := Push(bs[idx], el)];
    var contents' := contents[k := el.value];
    var pos' := pos[k := |bs[idx].data|];
    forall k' | k' in contents'
      ensures k' in pos' && Located(bs', names, k', pos'[k'])
    {
      if k' != k {
        assert Located(bs, names, k', pos[k']);
        var b := Index(AuHash(k'), |bs|);
        assert bs'[b].data[pos[k']] == bs[b].data[pos[k']];
      }
    }
  }

  /** Every bucket of a well-formed table is within its capacity. */
  lemma BucketCap(bs: seq<Bucket>, names: seq<byte>, contents: map<Key, nat>, pos: map<Key, nat>, b: nat)
    requires TableOk(bs, names, contents, pos) && b < |bs|
    ensures |bs[b].data| <= bs[b].cap
  {
    assert BucketOk(names, contents, |bs|, b, bs[b]);
  }

  /** Adding an absent key: its bytes go at the end of names and its element
      at the end of the bucket its hash selects; bs' is the new table. */
  lemma AppendOk(bs: seq<Bucket>, bs': seq<Bucket>, names: seq<byte>, key: Key, value: nat,
                 contents: map<Key, nat>, pos: map<Key, nat>, p: nat)
    requires TableOk(bs, names, contents, pos) && 0 < |bs| && key !in contents
    requires var idx := Index(AuHash(key), |bs|);
             |bs[idx].data| <= bs[idx].cap && p == |bs[idx].data|
             && bs' == bs[idx := Push(bs[idx], El(|names|, |key|, AuHash(key), value))]
    ensures TableOk(bs', names + key, contents[key := value], pos[key := p])
  {
    var el := El(|names|, |key|, AuHash(key), value);
    NamesGrow(bs, names, key, contents, pos);
    assert KeyOf(names + key, el) == key;
    PushOk(bs, names + key, contents, pos, el);
  }

  /** Every element's key lies within names. */
  ghost predicate InNames(data: seq<El>, names: seq<byte>)
  {
    forall j :: 0 <= j < |data| ==> data[j].keyIdx + data[j].keyLen <= |names|
  }

  /** The search loop of au_bc_vars_get and au_bc_vars_add over one bucket:
      the first element whose key has key's length and bytes. */
  method Scan(data: seq<El>, names: seq<byte>, key: Key) returns (found: bool, i: nat)
    requires InNames(data, names)
    ensures found ==> i < |data| && KeyOf(names, data[i]) == key
    ensures !found ==> forall j :: 0 <= j < |data| ==> KeyOf(names, data[j]) != key
  {
    i := 0;
    while i < |data|
      invariant i <= |data|
      invariant forall j :: 0 <= j < i ==> KeyOf(names, data[j]) != key
    {
      var el := data[i];
      if el.keyLen == |key| && names[el.keyIdx .. el.keyIdx + el.keyLen] == key {
        return true, i;
      }
      i := i + 1;
    }
    return false, i;
  }

  /** What a scan of the key's bucket tells: an element with the key holds
      the key's value, and if none has it the key is absent. */
  lemma LookupOk(bs: seq<Bucket>, names: seq<byte>, contents: map<Key, nat>, pos: map<Key, nat>, key: Key)
    requires TableOk(bs, names, contents, pos) && 0 < |bs|
    ensures var data := bs[Index(AuHash(key), |bs|)].data;
            InNames(data, names)
            && (forall j :: 0 <= j < |data| && KeyOf(names, data[j]) == key ==>
                  key in contents && contents[key] == data[j].value)
            && ((forall j :: 0 <= j < |data| ==> KeyOf(names, data[j]) != key) ==> key !in contents)
  {
    var b := Index(AuHash(key), |bs|);
    assert BucketOk(names, contents, |bs|, b, bs[b]);
    if key in contents {
      assert Located(bs, names, key, pos[key]);
    }
  }

  /** A new key adds one to the size of a map. */
  lemma MapAdd(m: map<Key, nat>, k: Key, v: nat)
    requires k !in m
    ensures |m[k := v]| == |m| + 1
  {}

  // ---- rehash_table ----------------------------------------------------------

  /** The keys whose element pos locates before element j of bucket i of the
      old table ob. */
  ghost predicate Visited(ob: seq<Bucket>, pos: map<Key, nat>, k: Key, i: nat, j: nat)
    requires 0 < |ob| && k in pos
  {
    var b := Index(AuHash(k), |ob|);
    b < i || (b == i && pos[k] < j)
  }

  /** The state of rehash_table once the elements before element j of old
      bucket i have been moved: the new buckets nbs represent the map moved,
      which agrees with contents and holds every key located before (i, j). */
  ghost predicate Progress(ob: seq<Bucket>, nbs: seq<Bucket>, names: seq<byte>, contents: map<Key, nat>,
                           pos: map<Key, nat>, moved: map<Key, nat>, npos: map<Key, nat>, i: nat, j: nat)
  {
    0 < |ob| && 0 < |nbs| && TableOk(ob, names, contents, pos)
    && TableOk(nbs, names, moved, npos)
    && (forall k :: k in moved ==> k in contents && moved[k] == contents[k])
    && forall k :: k in contents && Visited(ob, pos, k, i, j) ==> k in moved
  }

  /** Moving element j of old bucket i keeps Progress one element further. */
  lemma MoveStep(ob: seq<Bucket>, nbs: seq<Bucket>, names: seq<byte>, contents: map<Key, nat>,
                 pos: map<Key, nat>, moved: map<Key, nat>, npos: map<Key, nat>, i: nat, j: nat)
    requires Progress(ob, nbs, names, contents, pos, moved, npos, i, j)
    requires i < |ob| && j < |ob[i].data|
    ensures var el := ob[i].data[j];
            var idx := Index(el.keyHash, |nbs|);
            el.keyIdx + el.keyLen <= |names|
            && |nbs[idx].data| <= nbs[idx].cap
            && Progress(ob, nbs[idx := Push(nbs[idx], el)], names, contents, pos,
                        moved[KeyOf(names, el) := el.value], npos[KeyOf(names, el) := |nbs[idx].data|], i, j + 1)
  {
    var el := ob[i].data[j];
    assert BucketOk(names, contents, |ob|, i, ob[i]);
    assert ElOk(names, contents, |ob|, i, el);
    PushOk(nbs, names, moved, npos, el);
    VisitStep(ob, names, contents, pos, moved, i, j);
  }

  /** The key of element j of old bucket i is the only key located at
      (i, j), so adding it to moved covers every key before (i, j + 1). */
  lemma VisitStep(ob: seq<Bucket>, names: seq<byte>, contents: map<Key, nat>, pos: map<Key, nat>,
                  moved: map<Key, nat>, i: nat, j: nat)
    requires TableOk(ob, names, contents, pos) && 0 < |ob| && i < |ob| && j < |ob[i].data|
    requires ob[i].data[j].keyIdx + ob[i].data[j].keyLen <= |names|
    requires forall k :: k in contents && Visited(ob, pos, k, i, j) ==> k in moved
    ensures var el := ob[i].data[j];
            forall k :: k in contents && Visited(ob, pos, k, i, j + 1) ==> k in moved[KeyOf(names, el) := el.value]
  {
    var el := ob[i].data[j];
    forall k | k in contents && Visited(ob, pos, k, i, j + 1)
      ensures k in moved[KeyOf(names, el) := el.value]
    {
      if !Visited(ob, pos, k, i, j) {
        assert Located(ob, names, k, pos[k]);
        assert KeyOf(names, el) == k;
      }
    }
  }

  /** Once every element of old bucket i is moved, so is every key located
      before bucket i + 1. */
  lemma BucketDone(ob: seq<Bucket>, nbs: seq<Bucket>, names: seq<byte>, contents: map<Key, nat>,
                   pos: map<Key, nat>, moved: map<Key, nat>, npos: map<Key, nat>, i: nat)
    requires i < |ob| && Progress(ob, nbs, names, contents, pos, moved, npos, i, |ob[i].data|)
    ensures Progress(ob, nbs, names, contents, pos, moved, npos, i + 1, 0)
  {
    forall k | k in contents && Visited(ob, pos, k, i + 1, 0)
      ensures k in moved
    {
      assert Located(ob, names, k, pos[k]);
    }
  }

  /** Once every old bucket is moved, the new buckets represent the whole map. */
  lemma AllMoved(ob: seq<Bucket>, nbs: seq<Bucket>, names: seq<byte>, contents: map<Key, nat>,
                 pos: map<Key, nat>, moved: map<Key, nat>, npos: map<Key, nat>)
    requires Progress(ob, nbs, names, contents, pos, moved, npos, |ob|, 0)
    ensures moved == contents
  {
    forall k | k in contents
      ensures k in moved
    {
      assert Located(ob, names, k, pos[k]);
    }
  }

  /** The part of rehash_table that fills the new buckets: every element of
      every old bucket, in order, is pushed into its bucket of a fresh array
      of twice as many buckets. The new table represents the same map. */
  method Spread(ob: array<Bucket>, names: seq<byte>, ghost contents: map<Key, nat>, ghost pos: map<Key, nat>)
    returns (nb: array<Bucket>, ghost npos: map<Key, nat>)
    requires 0 < ob.Length <= Two30 / 2 && TableOk(ob[..], names, contents, pos)
    ensures fresh(nb) && nb.Length == 2 * ob.Length
    ensures TableOk(nb[..], names, contents, npos)
  {
    var newLen := 2 * ob.Length;
    nb := new Bucket[newLen](_ => Bucket([], 0));
    EmptyOk(nb[..], names);
    ghost var moved: map<Key, nat> := map[];
    npos := map[];
    ghost var obs := ob[..];
    for i := 0 to ob.Length
      invariant Progress(obs, nb[..], names, contents, pos, moved, npos, i, 0)
    {
      moved, npos := SpreadBucket(nb, obs, i, ob[i], names, contents, pos, moved, npos);
      BucketDone(obs, nb[..], names, contents, pos, moved, npos, i);
    }
    AllMoved(obs, nb[..], names, contents, pos, moved, npos);
  }

  /** The inner loop of rehash_table: every element of old bucket i, in
      order, is pushed into the new bucket its hash selects. */
  method SpreadBucket(nb: array<Bucket>, ghost obs: seq<Bucket>, i: nat, bucket: Bucket, names: seq<byte>,
                      ghost contents: map<Key, nat>, ghost pos: map<Key, nat>,
                      ghost moved0: map<Key, nat>, ghost npos0: map<Key, nat>)
    returns (ghost moved: map<Key, nat>, ghost npos: map<Key, nat>)
    requires i < |obs| && bucket == obs[i]
    requires Progress(obs, nb[..], names, contents, pos, moved0, npos0, i, 0)
    modifies nb
    ensures Progress(obs, nb[..], names, contents, pos, moved, npos, i, |bucket.data|)
  {
    moved, npos := moved0, npos0;
    ghost var nbs := nb[..];
    for j := 0 to |bucket.data|
      invariant nb[..] == nbs
      invariant Progress(obs, nbs, names, contents, pos, moved, npos, i, j)
    {
      var el := bucket.data[j];
      var idx := Index(el.keyHash, nb.Length);
      MoveStep(obs, nbs, names, contents, pos, moved, npos, i, j);
      moved := moved[KeyOf(names, el) := el.value];
      npos := npos[KeyOf(names, el) := |nbs[idx].data|];
      nbs := nbs[idx := Push(nbs[idx], el)];
      nb[idx] := Push(nb[idx], el);
    }
  }

  // ---- the map ---------------------------------------------------------------

  class Vars {
    var buckets: array<Bucket>
    var entriesOcc: nat
    var varName: seq<byte>
    /** The key-to-value mapping the buckets represent. */
    ghost var Contents: map<Key, nat>
    /** For each key, the element of its bucket that holds it. */
    ghost var Pos: map<Key, nat>
    /** The bucket count is 2 to this power once there are buckets. */
    ghost var Log: nat

    ghost predicate Valid()
      reads this, buckets
    {
      buckets.Length <= Two30 && (buckets.Length > 0 ==> buckets.Length == Pow2(Log))
      && entriesOcc == |Contents|
      && TableOk(buckets[..], varName, Contents, Pos)
    }

    /** au_bc_vars_init: no buckets, no entries, no key bytes. */
    constructor ()
      ensures Valid() && Contents == map[] && buckets.Length == 0 && varName == []
    {
      buckets := new Bucket[0];
      entriesOcc := 0;
      varName := [];
      Contents := map[];
      Pos := map[];
      Log := 0;
    }

    /** au_bc_vars_get: nothing for a table without buckets; otherwise the
        value of the first element of the key's bucket whose key bytes equal
        key. */
    method Get(key: Key) returns (r: Option<nat>)
      requires Valid()
      ensures buckets.Length == 0 ==> r.None?
      ensures r.Some? <==> key in Contents
      ensures r.Some? ==> r.value == Contents[key]
    {
      if buckets.Length == 0 {
        if key in Contents {
          NonEmpty(buckets[..], varName, Contents, Pos, key);
        }
        return None;
      }
      var b := Index(AuHash(key), buckets.Length);
      var bucket := buckets[b];
      LookupOk(buckets[..], varName, Contents, Pos, key);
      var found, i := Scan(bucket.data, varName, key);
      if found {
        return Some(bucket.data[i].value);
      }
      return None;
    }

    /** rehash_table: the buckets are replaced by twice as many, holding the
        same elements. */
    method Rehash()
      requires Valid() && 0 < buckets.Length <= Two30 / 2
      modifies this
      ensures Valid() && fresh(buckets) && buckets.Length == 2 * old(buckets.Length)
      ensures Contents == old(Contents) && entriesOcc == old(entriesOcc) && varName == old(varName)
    {
      var nb;
      ghost var npos;
      nb, npos := Spread(buckets, varName, Contents, Pos);
      buckets := nb;
      Pos := npos;
      Log := Log + 1;
    }

    /** au_bc_vars_add: the current value for a key already present, with
        nothing changed. Otherwise the table is grown and the key added. */
    method Add(key: Key, value: nat) returns (r: Option<nat>)
      requires Valid() && entriesOcc < MaxEntries
      modifies this, buckets
      ensures Valid()
      ensures key in old(Contents) ==>
                r == Some(old(Contents)[key]) && Contents == old(Contents)
                && entriesOcc == old(entriesOcc) && varName == old(varName)
      ensures key !in old(Contents) ==>
                r == None && Contents == old(Contents)[key := value]
                && entriesOcc == old(entriesOcc) + 1 && varName == old(varName) + key
    {
      r := Get(key);
      if r.Some? {
        return;
      }
      if buckets.Length > 0 {
        Grow();
      }
      Append(key, value);
    }

    /** The rehash loop of au_bc_vars_add: rehash while more than three
        quarters of the bucket count are occupied. */
    method Grow()
      requires Valid() && 0 < buckets.Length && entriesOcc < MaxEntries
      modifies this
      ensures Valid() && 0 < buckets.Length && 4 * entriesOcc <= 3 * buckets.Length
      ensures buckets == old(buckets) || fresh(buckets)
      ensures Contents == old(Contents) && entriesOcc == old(entriesOcc) && varName == old(varName)
    {
      while 4 * entriesOcc > 3 * buckets.Length
        invariant Valid() && 0 < buckets.Length
        invariant buckets == old(buckets) || fresh(buckets)
        invariant Contents == old(Contents) && entriesOcc == old(entriesOcc) && varName == old(varName)
        decreases 4 * entriesOcc - 3 * buckets.Length
      {
        Rehash();
      }
    }

    /** The insertion part of au_bc_vars_add for a key that is absent: its
        bytes are appended to var_name and its element pushed into its
        bucket; a table without buckets first gets a single one. */
    method Append(key: Key, value: nat)
      requires Valid() && key !in Contents
      modifies this, buckets
      ensures Valid()
      ensures Contents == old(Contents)[key := value]
      ensures entriesOcc == old(entriesOcc) + 1 && varName == old(varName) + key
    {
      if buckets.Length == 0 {
        FirstBucket();
      }
      PushNew(key, value);
    }

    /** Append once the table has buckets. */
    method PushNew(key: Key, value: nat)
      requires Valid() && key !in Contents && 0 < buckets.Length
      modifies this, buckets
      ensures Valid() && buckets == old(buckets)
      ensures Contents == old(Contents)[key := value]
      ensures entriesOcc == old(entriesOcc) + 1 && varName == old(varName) + key
    {
      MapAdd(Contents, key, value);
      var hash := AuHash(key);
      var el := El(|varName|, |key|, hash, value);
      var idx := Index(hash, buckets.Length);
      ghost var bs := buckets[..];
      BucketCap(bs, varName, Contents, Pos, idx);
      ghost var p := |buckets[idx].data|;
      ghost var names, contents, pos := varName, Contents, Pos;
      var bucket := Push(buckets[idx], el);
      varName := varName + key;
      entriesOcc := entriesOcc + 1;
      Contents := Contents[key := value];
      Pos := Pos[key := p];
      SetBucket(idx, bucket);
      AppendOk(bs, buckets[..], names, key, value, contents, pos, p);
    }

    /** The write of a bucket back into the bucket array. */
    method SetBucket(idx: nat, bucket: Bucket)
      requires idx < buckets.Length
      modifies buckets
      ensures buckets[..] == old(buckets[..])[idx := bucket]
    {
      buckets[idx] := bucket;
    }

    /** The first allocation of au_bc_vars_add: a table without buckets
        (which holds nothing) gets a single empty one. */
    method FirstBucket()
      requires Valid() && buckets.Length == 0
      modifies this
      ensures Valid() && buckets.Length == 1 && fresh(buckets)
      ensures Contents == old(Contents) && entriesOcc == old(entriesOcc) && varName == old(varName)
    {
      assert Contents == map[] by {
        if k :| k in Contents {
          NonEmpty(buckets[..], varName, Contents, Pos, k);
        }
      }
      buckets := new Bucket[1](_ => Bucket([], 0));
      Pos := map[];
      Log := 0;
      EmptyOk(buckets[..], varName);
    }
  }
}
