// The bucket layout of src/core/hm_vars.c: buckets refer to their keys by
// offset and length into one growing byte buffer. This module states what it
// means for a bucket array to represent a key-to-value map, and proves that
// each step of lookup and insertion keeps that representation.
module HmVarsTable {
  import opened Wrappers
  import opened RobinHood
  import opened Hash

  datatype KeyRef = KeyRef(idx: nat, len: nat)
  type Slot = Bucket<KeyRef, nat>
  type Key = seq<byte>

  /** The key a bucket refers to: key_bytes[key_idx .. key_idx + key_len]. */
  function KeyOf(bytes: seq<byte>, k: KeyRef): (r: Key)
    requires k.idx + k.len <= |bytes|
    ensures |r| == k.len
  {
    bytes[k.idx .. k.idx + k.len]
  }

  ghost predicate RefOk(bytes: seq<byte>, s: Slot)
  {
    s.Full? && s.key.len > 0 && s.key.idx + s.key.len <= |bytes| && s.hash == AuHash(KeyOf(bytes, s.key))
  }

  /** Bucket j holds a stored key whose recorded value and position agree with
      the abstract map. */
  ghost predicate SlotOk(b: seq<Slot>, bytes: seq<byte>, contents: map<Key, nat>, pos: map<Key, nat>, j: nat)
    requires j < |b|
  {
    b[j].Full? ==>
      RefOk(bytes, b[j]) && var k := KeyOf(bytes, b[j].key);
      k in contents && contents[k] == b[j].val && k in pos && pos[k] == j
  }

  ghost predicate Indexed(b: seq<Slot>, bytes: seq<byte>, contents: map<Key, nat>, pos: map<Key, nat>)
  {
    forall j :: 0 <= j < |b| ==> SlotOk(b, bytes, contents, pos, j)
  }

  /** Every key of the map, except possibly the one in hand, sits at its
      recorded position. */
  ghost predicate Located(b: seq<Slot>, bytes: seq<byte>, contents: map<Key, nat>, pos: map<Key, nat>, hand: Option<Key>)
  {
    forall k {:trigger LocatedAt(b, bytes, contents, pos, hand, k)} :: LocatedAt(b, bytes, contents, pos, hand, k)
  }

  ghost predicate LocatedAt(b: seq<Slot>, bytes: seq<byte>, contents: map<Key, nat>, pos: map<Key, nat>, hand: Option<Key>, k: Key)
  {
    k in contents ==>
      hand == Some(k) ||
      (k in pos && pos[k] < |b| && b[pos[k]].Full? && b[pos[k]].key.idx + b[pos[k]].key.len <= |bytes|
       && KeyOf(bytes, b[pos[k]].key) == k)
  }

  ghost predicate TableOk(b: seq<Slot>, bytes: seq<byte>, contents: map<Key, nat>, pos: map<Key, nat>)
  {
    |b| > 0 && Rich(b) && PslOk(b) && Indexed(b, bytes, contents, pos) && Located(b, bytes, contents, pos, None)
    && Count(b) == |contents|
  }

  /** Appending a new key's bytes leaves every stored key unchanged. */
  lemma AppendKeepsKeys(b: seq<Slot>, bytes: seq<byte>, extra: seq<byte>, contents: map<Key, nat>, pos: map<Key, nat>, hand: Option<Key>)
    requires Indexed(b, bytes, contents, pos) && Located(b, bytes, contents, pos, hand)
    ensures Indexed(b, bytes + extra, contents, pos) && Located(b, bytes + extra, contents, pos, hand)
  {
    forall j | 0 <= j < |b| ensures SlotOk(b, bytes + extra, contents, pos, j) {
      assert SlotOk(b, bytes, contents, pos, j);
      if b[j].Full? {
        assert KeyOf(bytes + extra, b[j].key) == KeyOf(bytes, b[j].key);
      }
    }
    forall k ensures LocatedAt(b, bytes + extra, contents, pos, hand, k) {
      assert LocatedAt(b, bytes, contents, pos, hand, k);
      if k in contents && hand != Some(k) {
        assert KeyOf(bytes + extra, b[pos[k]].key) == KeyOf(bytes, b[pos[k]].key);
      }
    }
  }

  /** The entry in hand (key ek) belongs at slot i; every other key of the map
      is stored at its recorded position. */
  ghost predicate InHand(b: seq<Slot>, bytes: seq<byte>, contents: map<Key, nat>, pos: map<Key, nat>, i: nat, entry: Slot, ek: Key)
  {
    Shaped(b, i, entry) && Held(bytes, contents, entry, ek) && Mapped(b, bytes, contents, pos, ek)
  }

  /** The Robin Hood invariants hold and the entry in hand belongs at i. */
  ghost predicate Shaped(b: seq<Slot>, i: nat, entry: Slot)
  {
    i < |b| && Rich(b) && PslOk(b) && Pending(b, i, entry)
  }

  /** The entry in hand refers to key ek and carries its value. */
  ghost predicate Held(bytes: seq<byte>, contents: map<Key, nat>, entry: Slot, ek: Key)
  {
    RefOk(bytes, entry) && KeyOf(bytes, entry.key) == ek && ek in contents && contents[ek] == entry.val
  }

  /** Every key but ek is stored at its recorded position; ek is stored nowhere. */
  ghost predicate Mapped(b: seq<Slot>, bytes: seq<byte>, contents: map<Key, nat>, pos: map<Key, nat>, ek: Key)
  {
    Indexed(b, bytes, contents, pos) && Located(b, bytes, contents, pos, Some(ek)) && NotStored(b, bytes, ek)
    && Count(b) + 1 == |contents|
  }

  /** Storing a new key in the empty bucket where its probe stopped. */
  lemma StoreNew(b: seq<Slot>, bytes: seq<byte>, contents: map<Key, nat>, pos: map<Key, nat>, i: nat, entry: Slot, key: Key)
    requires TableOk(b, bytes, contents, pos) && key !in contents && Pending(b, i, entry) && b[i].Empty?
    requires RefOk(bytes, entry) && KeyOf(bytes, entry.key) == key
    ensures TableOk(b[i := entry], bytes, contents[key := entry.val], pos[key := i])
  {
    Place(b, i, entry);
    CountUpdate(b, i, entry);
    PlacedIndexed(b, bytes, contents, pos, i, entry, key, entry.val);
  }

  /** Storing a new key over the richer bucket where its probe stopped; that
      bucket's entry goes into hand one slot further on. */
  lemma SwapNew(b: seq<Slot>, bytes: seq<byte>, contents: map<Key, nat>, pos: map<Key, nat>, i: nat, entry: Slot, key: Key, epos: nat,
                 b': seq<Slot>, i': nat, entry': Slot, ek': Key)
    requires TableOk(b, bytes, contents, pos) && key !in contents && Pending(b, i, entry)
    requires b[i].Full? && entry.psl > b[i].psl && epos < |b| && b[epos].Empty?
    requires RefOk(bytes, entry) && KeyOf(bytes, entry.key) == key
    requires b' == b[i := entry] && i' == Succ(i, |b|) && entry' == b[i].(psl := b[i].psl + 1)
    requires b[i].key.idx + b[i].key.len <= |bytes| && ek' == KeyOf(bytes, b[i].key)
    ensures Displacing(b', bytes, contents[key := entry.val], pos[key := i], i', entry', ek', key, i, epos)
  {
    Evict(b, i, entry);
    Place(b, i, entry);
    CountUpdate(b, i, entry);
    SwappedIndexed(b, bytes, contents, pos, i, entry, key, entry.val);
  }

  /** The state of the displacement loop of hm_insert: the entry in hand
      (key ek) belongs at slot i; the newly inserted key is stored at q; the
      empty bucket epos lies ahead of i before q comes round again. */
  ghost predicate Displacing(b: seq<Slot>, bytes: seq<byte>, contents: map<Key, nat>, pos: map<Key, nat>,
                             i: nat, entry: Slot, ek: Key, key: Key, q: nat, epos: nat)
  {
    InHand(b, bytes, contents, pos, i, entry, ek) && Ahead(b, contents, pos, i, ek, key, q, epos)
  }

  ghost predicate Ahead(b: seq<Slot>, contents: map<Key, nat>, pos: map<Key, nat>, i: nat, ek: Key, key: Key, q: nat, epos: nat)
  {
    i < |b| && q < |b| && epos < |b| && key in contents && key in pos && pos[key] == q && ek != key
    && b[epos].Empty? && Dist(i, epos, |b|) < Dist(q, epos, |b|)
  }

  /** The displacement loop reaches an occupied bucket: it holds some other
      key than the one being inserted. */
  lemma DisplaceFull(b: seq<Slot>, bytes: seq<byte>, contents: map<Key, nat>, pos: map<Key, nat>,
                     i: nat, entry: Slot, ek: Key, key: Key, q: nat, epos: nat)
    requires Displacing(b, bytes, contents, pos, i, entry, ek, key, q, epos) && b[i].Full?
    ensures RefOk(bytes, b[i]) && KeyOf(bytes, b[i].key) != key
  {
    assert SlotOk(b, bytes, contents, pos, i);
    assert LocatedAt(b, bytes, contents, pos, Some(ek), key);
  }

  /** The displacement loop swaps the entry in hand with a richer bucket and
      carries on with the evicted entry: from state (b, pos, i, entry, ek) to
      (b', pos', i', entry', ek'). */
  lemma DisplaceSwap(b: seq<Slot>, bytes: seq<byte>, contents: map<Key, nat>, pos: map<Key, nat>,
                     i: nat, entry: Slot, ek: Key, key: Key, q: nat, epos: nat,
                     b': seq<Slot>, pos': map<Key, nat>, i': nat, entry': Slot, ek': Key)
    requires Displacing(b, bytes, contents, pos, i, entry, ek, key, q, epos) && b[i].Full? && entry.psl > b[i].psl
    requires b' == b[i := entry] && pos' == pos[ek := i] && i' == Succ(i, |b|)
    requires entry' == b[i].(psl := b[i].psl + 1) && b[i].key.idx + b[i].key.len <= |bytes| && ek' == KeyOf(bytes, b[i].key)
    ensures Displacing(b', bytes, contents, pos', i', entry', ek', key, q, epos)
    ensures Dist(i', epos, |b|) < Dist(i, epos, |b|)
  {
    DisplaceFull(b, bytes, contents, pos, i, entry, ek, key, q, epos);
    Evict(b, i, entry);
    Place(b, i, entry);
    CountUpdate(b, i, entry);
    EvictedIndexed(b, bytes, contents, pos, i, entry, ek);
  }

  /** The displacement loop steps past a bucket at least as displaced as the
      entry in hand. */
  lemma DisplaceSkip(b: seq<Slot>, bytes: seq<byte>, contents: map<Key, nat>, pos: map<Key, nat>,
                     i: nat, entry: Slot, ek: Key, key: Key, q: nat, epos: nat, i': nat, entry': Slot)
    requires Displacing(b, bytes, contents, pos, i, entry, ek, key, q, epos) && b[i].Full? && entry.psl <= b[i].psl
    requires i' == Succ(i, |b|) && entry' == entry.(psl := entry.psl + 1)
    ensures Displacing(b, bytes, contents, pos, i', entry', ek, key, q, epos)
    ensures Dist(i', epos, |b|) < Dist(i, epos, |b|)
  {
    Skip(b, i, entry, epos);
  }

  /** The displacement loop stores the entry in hand in an empty bucket. */
  lemma DisplaceLast(b: seq<Slot>, bytes: seq<byte>, contents: map<Key, nat>, pos: map<Key, nat>,
                     i: nat, entry: Slot, ek: Key)
    requires InHand(b, bytes, contents, pos, i, entry, ek) && b[i].Empty?
    ensures TableOk(b[i := entry], bytes, contents, pos[ek := i])
  {
    Place(b, i, entry);
    CountUpdate(b, i, entry);
    PlacedLastIndexed(b, bytes, contents, pos, i, entry, ek);
  }

  /** The key in hand is stored in no bucket. */
  ghost predicate NotStored(b: seq<Slot>, bytes: seq<byte>, k: Key)
  {
    forall j :: 0 <= j < |b| && b[j].Full? && b[j].key.idx + b[j].key.len <= |bytes| ==> KeyOf(bytes, b[j].key) != k
  }

  /** Storing a new key in an empty bucket. */
  lemma PlacedIndexed(b: seq<Slot>, bytes: seq<byte>, contents: map<Key, nat>, pos: map<Key, nat>,
                      i: nat, entry: Slot, key: Key, value: nat)
    requires Indexed(b, bytes, contents, pos) && Located(b, bytes, contents, pos, None)
    requires i < |b| && b[i].Empty? && key !in contents
    requires RefOk(bytes, entry) && KeyOf(bytes, entry.key) == key && entry.val == value
    ensures Indexed(b[i := entry], bytes, contents[key := value], pos[key := i])
    ensures Located(b[i := entry], bytes, contents[key := value], pos[key := i], None)
  {
    var b', c', p' := b[i := entry], contents[key := value], pos[key := i];
    forall j | 0 <= j < |b'| ensures SlotOk(b', bytes, c', p', j) {
      assert SlotOk(b, bytes, contents, pos, j);
    }
    forall k ensures LocatedAt(b', bytes, c', p', None, k) {
      assert LocatedAt(b, bytes, contents, pos, None, k);
    }
  }

  /** Storing a new key over a richer bucket, whose key ek goes into hand. */
  lemma SwappedIndexed(b: seq<Slot>, bytes: seq<byte>, contents: map<Key, nat>, pos: map<Key, nat>,
                       i: nat, entry: Slot, key: Key, value: nat)
    requires Indexed(b, bytes, contents, pos) && Located(b, bytes, contents, pos, None)
    requires i < |b| && b[i].Full? && key !in contents
    requires RefOk(bytes, entry) && KeyOf(bytes, entry.key) == key && entry.val == value
    ensures RefOk(bytes, b[i]) && var ek := KeyOf(bytes, b[i].key);
            ek in contents && contents[ek] == b[i].val && ek != key
            && Indexed(b[i := entry], bytes, contents[key := value], pos[key := i])
            && Located(b[i := entry], bytes, contents[key := value], pos[key := i], Some(ek))
            && NotStored(b[i := entry], bytes, ek)
  {
    assert SlotOk(b, bytes, contents, pos, i);
    var ek := KeyOf(bytes, b[i].key);
    var b', c', p' := b[i := entry], contents[key := value], pos[key := i];
    forall j | 0 <= j < |b'| ensures SlotOk(b', bytes, c', p', j) {
      assert SlotOk(b, bytes, contents, pos, j);
    }
    forall k ensures LocatedAt(b', bytes, c', p', Some(ek), k) {
      assert LocatedAt(b, bytes, contents, pos, None, k);
    }
    forall j | 0 <= j < |b'| && b'[j].Full? && b'[j].key.idx + b'[j].key.len <= |bytes|
      ensures KeyOf(bytes, b'[j].key) != ek
    {
      assert SlotOk(b, bytes, contents, pos, j);
    }
  }

  /** Moving the entry in hand (key ek) over a richer bucket, whose key goes
      into hand in its place. */
  lemma EvictedIndexed(b: seq<Slot>, bytes: seq<byte>, contents: map<Key, nat>, pos: map<Key, nat>,
                       i: nat, entry: Slot, ek: Key)
    requires Indexed(b, bytes, contents, pos) && Located(b, bytes, contents, pos, Some(ek))
    requires NotStored(b, bytes, ek)
    requires i < |b| && b[i].Full?
    requires RefOk(bytes, entry) && KeyOf(bytes, entry.key) == ek && ek in contents && contents[ek] == entry.val
    ensures RefOk(bytes, b[i]) && var fk := KeyOf(bytes, b[i].key);
            fk in contents && contents[fk] == b[i].val && fk != ek && fk in pos && pos[fk] == i
            && Indexed(b[i := entry], bytes, contents, pos[ek := i])
            && Located(b[i := entry], bytes, contents, pos[ek := i], Some(fk))
            && NotStored(b[i := entry], bytes, fk)
  {
    assert SlotOk(b, bytes, contents, pos, i);
    var fk := KeyOf(bytes, b[i].key);
    var b', p' := b[i := entry], pos[ek := i];
    forall j | 0 <= j < |b'| ensures SlotOk(b', bytes, contents, p', j) {
      assert SlotOk(b, bytes, contents, pos, j);
    }
    forall k ensures LocatedAt(b', bytes, contents, p', Some(fk), k) {
      assert LocatedAt(b, bytes, contents, pos, Some(ek), k);
    }
    forall j | 0 <= j < |b'| && b'[j].Full? && b'[j].key.idx + b'[j].key.len <= |bytes|
      ensures KeyOf(bytes, b'[j].key) != fk
    {
      assert SlotOk(b, bytes, contents, pos, j);
    }
  }

  /** Storing the entry in hand (key ek) in an empty bucket. */
  lemma PlacedLastIndexed(b: seq<Slot>, bytes: seq<byte>, contents: map<Key, nat>, pos: map<Key, nat>,
                          i: nat, entry: Slot, ek: Key)
    requires Indexed(b, bytes, contents, pos) && Located(b, bytes, contents, pos, Some(ek))
    requires NotStored(b, bytes, ek)
    requires i < |b| && b[i].Empty?
    requires RefOk(bytes, entry) && KeyOf(bytes, entry.key) == ek && ek in contents && contents[ek] == entry.val
    ensures Indexed(b[i := entry], bytes, contents, pos[ek := i])
    ensures Located(b[i := entry], bytes, contents, pos[ek := i], None)
  {
    var b', p' := b[i := entry], pos[ek := i];
    forall j | 0 <= j < |b'| ensures SlotOk(b', bytes, contents, p', j) {
      assert SlotOk(b, bytes, contents, pos, j);
    }
    forall k ensures LocatedAt(b', bytes, contents, p', None, k) {
      assert LocatedAt(b, bytes, contents, pos, Some(ek), k);
    }
  }

  /** If key is stored, it is stored at least n steps from its home slot. */
  ghost predicate NotBefore(b: seq<Slot>, bytes: seq<byte>, contents: map<Key, nat>, pos: map<Key, nat>, key: Key, n: nat)
  {
    key in contents ==> key in pos && pos[key] < |b| && b[pos[key]].Full? && b[pos[key]].psl >= n
  }

  /** One step of the lookup probe at distance n: what each outcome means. */
  lemma ProbeStep(b: seq<Slot>, bytes: seq<byte>, contents: map<Key, nat>, pos: map<Key, nat>, key: Key, n: nat)
    requires TableOk(b, bytes, contents, pos) && n <= |b| && NotBefore(b, bytes, contents, pos, key, n)
    ensures var q := At(AuHash(key), n, |b|);
      && (b[q].Full? ==> RefOk(bytes, b[q]) && b[q].psl < |b|)
      && (b[q].Full? && b[q].key.len == |key| && b[q].key.idx + |key| <= |bytes|
          && bytes[b[q].key.idx .. b[q].key.idx + |key|] == key ==>
            key in contents && contents[key] == b[q].val)
      && (b[q].Empty? || n > b[q].psl ==> key !in contents)
      && (b[q].Full? && n <= b[q].psl && KeyOf(bytes, b[q].key) != key ==>
            NotBefore(b, bytes, contents, pos, key, n + 1))
  {
    var q := At(AuHash(key), n, |b|);
    RefsOk(b, bytes, contents, pos, q);
    if b[q].Full? && b[q].key.len == |key| && bytes[b[q].key.idx .. b[q].key.idx + |key|] == key {
      ProbeMatch(b, bytes, contents, pos, q, key);
    }
    if b[q].Empty? || n > b[q].psl {
      ProbeMiss(b, bytes, contents, pos, key, n);
    }
    if b[q].Full? && n <= b[q].psl && KeyOf(bytes, b[q].key) != key {
      ProbeNext(b, bytes, contents, pos, key, n);
    }
  }

  lemma RefsOk(b: seq<Slot>, bytes: seq<byte>, contents: map<Key, nat>, pos: map<Key, nat>, i: nat)
    requires TableOk(b, bytes, contents, pos) && i < |b|
    ensures b[i].Full? ==> RefOk(bytes, b[i]) && b[i].psl < |b|
  {
    assert SlotOk(b, bytes, contents, pos, i) && PslAt(b, i);
  }

  /** A bucket whose key bytes equal key holds key's value. */
  lemma ProbeMatch(b: seq<Slot>, bytes: seq<byte>, contents: map<Key, nat>, pos: map<Key, nat>, i: nat, key: Key)
    requires TableOk(b, bytes, contents, pos) && i < |b| && b[i].Full?
    requires b[i].key.len == |key| && b[i].key.idx + |key| <= |bytes| && bytes[b[i].key.idx .. b[i].key.idx + |key|] == key
    ensures key in contents && contents[key] == b[i].val && key in pos && pos[key] == i
  {
    assert SlotOk(b, bytes, contents, pos, i);
  }

  /** Probing for key from the start stops at an empty or richer bucket only
      when key is absent. */
  lemma ProbeMiss(b: seq<Slot>, bytes: seq<byte>, contents: map<Key, nat>, pos: map<Key, nat>, key: Key, n: nat)
    requires TableOk(b, bytes, contents, pos) && n <= |b| && NotBefore(b, bytes, contents, pos, key, n)
    requires var q := At(AuHash(key), n, |b|); b[q].Empty? || n > b[q].psl
    ensures key !in contents
  {
    if key in contents {
      var j := pos[key];
      assert SlotOk(b, bytes, contents, pos, j) && LocatedAt(b, bytes, contents, pos, None, key);
      ProbeStop(b, AuHash(key), n, j);
    }
  }

  /** Stepping past a bucket that does not hold key. */
  lemma ProbeNext(b: seq<Slot>, bytes: seq<byte>, contents: map<Key, nat>, pos: map<Key, nat>, key: Key, n: nat)
    requires TableOk(b, bytes, contents, pos) && n <= |b| && NotBefore(b, bytes, contents, pos, key, n)
    requires var q := At(AuHash(key), n, |b|);
      b[q].Full? && b[q].key.idx + b[q].key.len <= |bytes| && KeyOf(bytes, b[q].key) != key
    ensures NotBefore(b, bytes, contents, pos, key, n + 1)
  {
    if key in contents {
      var j := pos[key];
      assert SlotOk(b, bytes, contents, pos, j) && PslAt(b, j) && LocatedAt(b, bytes, contents, pos, None, key);
    }
  }

  /** The state of the insertion probe after n steps, at slot i: the slot
      before is occupied and at most one step less displaced, key (if present)
      lies no earlier, and the empty bucket epos (if key is absent) lies no
      earlier either. */
  ghost predicate Probing(b: seq<Slot>, bytes: seq<byte>, contents: map<Key, nat>, pos: map<Key, nat>,
                          key: Key, n: nat, i: nat, epos: nat)
  {
    |b| > 0 && n <= |b| && i == At(AuHash(key), n, |b|)
    && (n > 0 ==> b[Pred(i, |b|)].Full? && b[Pred(i, |b|)].psl + 1 >= n)
    && NotBefore(b, bytes, contents, pos, key, n)
    && (key !in contents ==> epos < |b| && b[epos].Empty? && n <= StepsTo(AuHash(key), epos, |b|))
  }

  /** The insertion probe steps past an occupied bucket holding another key
      that is at least as displaced as key would be there. */
  lemma ProbeOn(b: seq<Slot>, bytes: seq<byte>, contents: map<Key, nat>, pos: map<Key, nat>,
                key: Key, n: nat, i: nat, epos: nat, n': nat, i': nat)
    requires TableOk(b, bytes, contents, pos) && Probing(b, bytes, contents, pos, key, n, i, epos)
    requires b[i].Full? && n <= b[i].psl && b[i].key.idx + b[i].key.len <= |bytes| && KeyOf(bytes, b[i].key) != key
    requires n' == n + 1 && i' == Succ(i, |b|)
    ensures Probing(b, bytes, contents, pos, key, n', i', epos)
  {
    var h := AuHash(key);
    assert PslAt(b, i);
    ProbeNext(b, bytes, contents, pos, key, n);
    AtSucc(h, n, |b|);
    PredSucc(i, |b|);
    if key !in contents {
      assert i != epos;
    }
  }

  /** The part of the mapping stored in the first n buckets. */
  ghost function Moved(contents: map<Key, nat>, pos: map<Key, nat>, n: nat): map<Key, nat>
  {
    map k | k in contents && k in pos && pos[k] < n :: contents[k]
  }

  /** Taking one more bucket into account adds its key, if it has one. */
  lemma MovedNext(b: seq<Slot>, bytes: seq<byte>, contents: map<Key, nat>, pos: map<Key, nat>, n: nat)
    requires TableOk(b, bytes, contents, pos) && n < |b|
    ensures b[n].Empty? ==> Moved(contents, pos, n + 1) == Moved(contents, pos, n)
    ensures b[n].Full? ==> RefOk(bytes, b[n])
    ensures b[n].Full? ==> KeyOf(bytes, b[n].key) !in Moved(contents, pos, n)
    ensures b[n].Full? ==> Moved(contents, pos, n + 1) == Moved(contents, pos, n)[KeyOf(bytes, b[n].key) := b[n].val]
  {
    assert SlotOk(b, bytes, contents, pos, n);
    forall k | k in contents && k in pos && pos[k] == n
      ensures b[n].Full? && KeyOf(bytes, b[n].key) == k
    {
      assert LocatedAt(b, bytes, contents, pos, None, k);
    }
  }

  /** The first n buckets hold as many keys as they have occupied buckets. */
  lemma {:induction false} MovedCount(b: seq<Slot>, bytes: seq<byte>, contents: map<Key, nat>, pos: map<Key, nat>, n: nat)
    requires TableOk(b, bytes, contents, pos) && n <= |b|
    ensures |Moved(contents, pos, n)| == CountTo(b, n)
  {
    if n == 0 {
      assert Moved(contents, pos, 0) == map[];
    } else {
      MovedCount(b, bytes, contents, pos, n - 1);
      MovedNext(b, bytes, contents, pos, n - 1);
    }
  }

  /** All buckets together hold the whole mapping. */
  lemma MovedAll(b: seq<Slot>, bytes: seq<byte>, contents: map<Key, nat>, pos: map<Key, nat>)
    requires TableOk(b, bytes, contents, pos)
    ensures Moved(contents, pos, |b|) == contents
  {
    forall k | k in contents ensures k in pos && pos[k] < |b| {
      assert LocatedAt(b, bytes, contents, pos, None, k);
    }
  }

  /** A fresh bucket array represents the empty mapping. */
  lemma FreshOk(b: seq<Slot>, bytes: seq<byte>)
    requires |b| > 0 && forall i :: 0 <= i < |b| ==> b[i].Empty?
    ensures TableOk(b, bytes, map[], map[])
  {
    CountEmpty(b, |b|);
    forall i | 0 <= i < |b| ensures RichAt(b, i) && PslAt(b, i) && SlotOk(b, bytes, map[], map[], i) {
    }
  }
}
