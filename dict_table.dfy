// The bucket layout of the dictionary of src/core/rt/au_dict.c (rhashmap):
// buckets hold a runtime value as key. Keys compare with au_value_eq, so
// only int, bool and string keys can ever be found again; an entry under any
// other key (none, a double, a function, a struct) is stored but never
// matches, and is counted here as junk. This module states what it means for
// a bucket array to represent a value-to-value map plus a number of junk
// entries, and proves that each step of lookup, insertion and deletion keeps
// that representation.
module DictTable {
  import opened Wrappers
  import opened RobinHood
  import opened Hash
  import opened Value
  import NanBox

  type Slot = Bucket<Value, Value>

  /** compute_hash under NaN tagging: a string hashes its bytes, any other
      value its 64-bit pattern. */
  function KeyHash(k: Value): bv32
  {
    if k.Str? then AuHash(k.s) else AuHashU64(NanBox.Encode(k) as bv64)
  }

  /** An occupied bucket with a usable key (never the error value, which the
      table uses to mark an empty bucket). */
  ghost predicate RefOk(s: Slot)
  {
    s.Full? && !s.key.Error?
  }

  /** Every occupied bucket records its key's hash under hf. Kept apart from
      the layout invariant below, which holds whatever the hash function; the
      lemmas take the hash function as a parameter and hold for any. */
  ghost predicate Hashed(b: seq<Slot>, hf: Value -> bv32)
  {
    forall j :: 0 <= j < |b| ==> HashAt(b, j, hf)
  }

  ghost predicate HashAt(b: seq<Slot>, j: nat, hf: Value -> bv32)
    requires j < |b|
  {
    b[j].Full? ==> b[j].hash == hf(b[j].key)
  }

  /** Writing a bucket that records its key's hash keeps every hash right. */
  lemma HashedSet(b: seq<Slot>, hf: Value -> bv32, i: nat, x: Slot)
    requires Hashed(b, hf) && i < |b| && (x.Full? ==> x.hash == hf(x.key))
    ensures Hashed(b[i := x], hf)
  {
    var b' := b[i := x];
    forall j | 0 <= j < |b'| ensures HashAt(b', j, hf) {
      assert HashAt(b, j, hf);
    }
  }

  /** The map after storing an entry: a comparable key is added, a junk key
      leaves it as it is. */
  function With(contents: map<Value, Value>, k: Value, v: Value): map<Value, Value>
  {
    if Comparable(k) then contents[k := v] else contents
  }

  function PosWith(pos: map<Value, nat>, k: Value, i: nat): map<Value, nat>
  {
    if Comparable(k) then pos[k := i] else pos
  }

  function JunkWith(junk: nat, k: Value): nat
  {
    if Comparable(k) then junk else junk + 1
  }

  /** The entry in hand, if its key can be looked up. */
  function HandOf(k: Value): Option<Value>
  {
    if Comparable(k) then Some(k) else None
  }

  /** Bucket j holds a usable key; a comparable one is in the map with this
      value, recorded at position j. */
  ghost predicate SlotOk(b: seq<Slot>, contents: map<Value, Value>, pos: map<Value, nat>, j: nat)
    requires j < |b|
  {
    b[j].Full? ==>
      RefOk(b[j]) &&
      (Comparable(b[j].key) ==>
        b[j].key in contents && contents[b[j].key] == b[j].val && b[j].key in pos && pos[b[j].key] == j)
  }

  ghost predicate Indexed(b: seq<Slot>, contents: map<Value, Value>, pos: map<Value, nat>)
  {
    forall j :: 0 <= j < |b| ==> SlotOk(b, contents, pos, j)
  }

  /** Every key of the map is comparable and, except possibly the one in
      hand, sits at its recorded position. */
  ghost predicate Located(b: seq<Slot>, contents: map<Value, Value>, pos: map<Value, nat>, hand: Option<Value>)
  {
    forall k {:trigger LocatedAt(b, contents, pos, hand, k)} :: LocatedAt(b, contents, pos, hand, k)
  }

  ghost predicate LocatedAt(b: seq<Slot>, contents: map<Value, Value>, pos: map<Value, nat>, hand: Option<Value>, k: Value)
  {
    k in contents ==>
      Comparable(k) &&
      (hand == Some(k) || (k in pos && pos[k] < |b| && b[pos[k]].Full? && b[pos[k]].key == k))
  }

  /** The buckets represent the map plus junk entries under keys that never
      match. */
  ghost predicate TableOk(b: seq<Slot>, contents: map<Value, Value>, pos: map<Value, nat>, junk: nat)
  {
    |b| > 0 && Rich(b) && PslOk(b) && Indexed(b, contents, pos) && Located(b, contents, pos, None)
    && Count(b) == |contents| + junk
  }

  // ---- lookup -------------------------------------------------------------

  /** If key is stored, it is stored at least n steps from its home slot. */
  ghost predicate NotBefore(b: seq<Slot>, contents: map<Value, Value>, pos: map<Value, nat>, key: Value, n: nat)
  {
    key in contents ==> key in pos && pos[key] < |b| && b[pos[key]].Full? && b[pos[key]].psl >= n
  }

  lemma RefsOk(b: seq<Slot>, contents: map<Value, Value>, pos: map<Value, nat>, junk: nat, i: nat)
    requires TableOk(b, contents, pos, junk) && i < |b|
    ensures b[i].Full? ==> RefOk(b[i]) && b[i].psl < |b|
  {
    assert SlotOk(b, contents, pos, i) && PslAt(b, i);
  }

  /** A bucket whose key equals key (as au_value_eq sees it) holds key's
      value. */
  lemma ProbeMatch(b: seq<Slot>, contents: map<Value, Value>, pos: map<Value, nat>, junk: nat, i: nat, key: Value)
    requires TableOk(b, contents, pos, junk) && i < |b| && b[i].Full? && Eq(b[i].key, key).b
    ensures key in contents && contents[key] == b[i].val && key in pos && pos[key] == i
  {
    assert SlotOk(b, contents, pos, i);
  }

  /** Probing for key from the start stops at an empty or richer bucket only
      when key is absent. */
  lemma ProbeMiss(b: seq<Slot>, contents: map<Value, Value>, pos: map<Value, nat>, junk: nat, hf: Value -> bv32,
                  key: Value, n: nat)
    requires TableOk(b, contents, pos, junk) && Hashed(b, hf) && n <= |b| && NotBefore(b, contents, pos, key, n)
    requires var q := At(hf(key), n, |b|); b[q].Empty? || n > b[q].psl
    ensures key !in contents
  {
    if key in contents {
      var j := pos[key];
      assert SlotOk(b, contents, pos, j) && LocatedAt(b, contents, pos, None, key) && HashAt(b, j, hf);
      ProbeStop(b, hf(key), n, j);
    }
  }

  /** Stepping past a bucket that does not hold key. */
  lemma ProbeNext(b: seq<Slot>, contents: map<Value, Value>, pos: map<Value, nat>, junk: nat, hf: Value -> bv32,
                  key: Value, n: nat)
    requires TableOk(b, contents, pos, junk) && Hashed(b, hf) && n <= |b| && NotBefore(b, contents, pos, key, n)
    requires var q := At(hf(key), n, |b|); b[q].Full? && !Eq(b[q].key, key).b
    ensures NotBefore(b, contents, pos, key, n + 1)
  {
    if key in contents {
      var j := pos[key];
      assert SlotOk(b, contents, pos, j) && PslAt(b, j) && LocatedAt(b, contents, pos, None, key) && HashAt(b, j, hf);
    }
  }

  /** The state of a lookup probe after n steps, at slot i. */
  ghost predicate Looking(b: seq<Slot>, contents: map<Value, Value>, pos: map<Value, nat>, hf: Value -> bv32,
                          key: Value, n: nat, i: nat)
  {
    |b| > 0 && n <= |b| && i == At(hf(key), n, |b|) && NotBefore(b, contents, pos, key, n)
  }

  /** One step of the lookup probe: the bucket at slot i neither holds key
      nor stops the probe. */
  lemma LookOn(b: seq<Slot>, contents: map<Value, Value>, pos: map<Value, nat>, junk: nat, hf: Value -> bv32,
               key: Value, n: nat, i: nat, n': nat, i': nat)
    requires TableOk(b, contents, pos, junk) && Hashed(b, hf) && Looking(b, contents, pos, hf, key, n, i)
    requires b[i].Full? && n <= b[i].psl && !Eq(b[i].key, key).b
    requires n' == n + 1 && i' == Succ(i, |b|)
    ensures Looking(b, contents, pos, hf, key, n', i')
  {
    RefsOk(b, contents, pos, junk, i);
    ProbeNext(b, contents, pos, junk, hf, key, n);
    AtSucc(hf(key), n, |b|);
  }

  // ---- insertion ----------------------------------------------------------

  /** The state of the insertion probe after n steps, at slot i: the slot
      before is occupied and at most one step less displaced, key (if
      present) lies no earlier, and the empty bucket epos lies no earlier
      either when key is absent. */
  ghost predicate Probing(b: seq<Slot>, contents: map<Value, Value>, pos: map<Value, nat>, hf: Value -> bv32,
                          key: Value, n: nat, i: nat, epos: nat)
  {
    Looking(b, contents, pos, hf, key, n, i)
    && (n > 0 ==> b[Pred(i, |b|)].Full? && b[Pred(i, |b|)].psl + 1 >= n)
    && (key !in contents ==> epos < |b| && b[epos].Empty? && n <= StepsTo(hf(key), epos, |b|))
  }

  /** The insertion probe steps past an occupied bucket holding another key
      that is at least as displaced as key would be there. */
  lemma ProbeOn(b: seq<Slot>, contents: map<Value, Value>, pos: map<Value, nat>, junk: nat, hf: Value -> bv32,
                key: Value, n: nat, i: nat, epos: nat, n': nat, i': nat)
    requires TableOk(b, contents, pos, junk) && Hashed(b, hf) && Probing(b, contents, pos, hf, key, n, i, epos)
    requires b[i].Full? && n <= b[i].psl && !Eq(b[i].key, key).b
    requires n' == n + 1 && i' == Succ(i, |b|)
    ensures Probing(b, contents, pos, hf, key, n', i', epos)
  {
    LookOn(b, contents, pos, junk, hf, key, n, i, n', i');
    PredSucc(i, |b|);
    if key !in contents {
      assert i != epos;
    }
  }

  /** The entry in hand belongs at slot i; every other key of the map is
      stored at its recorded position. */
  ghost predicate InHand(b: seq<Slot>, contents: map<Value, Value>, pos: map<Value, nat>, junk: nat, i: nat, entry: Slot)
  {
    Shaped(b, i, entry) && Held(contents, entry) && Mapped(b, contents, pos, junk, entry)
  }

  /** The Robin Hood invariants hold and the entry in hand belongs at i. */
  ghost predicate Shaped(b: seq<Slot>, i: nat, entry: Slot)
  {
    i < |b| && Rich(b) && PslOk(b) && Pending(b, i, entry)
  }

  /** The entry in hand is usable and, if comparable, carries its key's
      value in the map. */
  ghost predicate Held(contents: map<Value, Value>, entry: Slot)
  {
    RefOk(entry) && (Comparable(entry.key) ==> entry.key in contents && contents[entry.key] == entry.val)
  }

  /** Every key but the one in hand is stored at its recorded position; the
      one in hand is stored nowhere; the hand counts as one entry. */
  ghost predicate Mapped(b: seq<Slot>, contents: map<Value, Value>, pos: map<Value, nat>, junk: nat, entry: Slot)
  {
    entry.Full? && Indexed(b, contents, pos) && Located(b, contents, pos, HandOf(entry.key))
    && NotStored(b, entry.key) && Count(b) + 1 == |contents| + junk
  }

  /** A comparable key is stored in no bucket. */
  ghost predicate NotStored(b: seq<Slot>, k: Value)
  {
    Comparable(k) ==> forall j :: 0 <= j < |b| && b[j].Full? ==> b[j].key != k
  }

  /** Storing a new entry in the empty bucket where its probe stopped. */
  lemma StoreNew(b: seq<Slot>, contents: map<Value, Value>, pos: map<Value, nat>, junk: nat, i: nat, entry: Slot)
    requires TableOk(b, contents, pos, junk) && Pending(b, i, entry) && b[i].Empty?
    requires RefOk(entry) && entry.key !in contents
    ensures TableOk(b[i := entry], With(contents, entry.key, entry.val), PosWith(pos, entry.key, i),
                    JunkWith(junk, entry.key))
  {
    Place(b, i, entry);
    CountUpdate(b, i, entry);
    PlacedIndexed(b, contents, pos, i, entry);
  }

  lemma PlacedIndexed(b: seq<Slot>, contents: map<Value, Value>, pos: map<Value, nat>, i: nat, entry: Slot)
    requires Indexed(b, contents, pos) && Located(b, contents, pos, None)
    requires i < |b| && b[i].Empty? && RefOk(entry) && entry.key !in contents
    ensures var c', p' := With(contents, entry.key, entry.val), PosWith(pos, entry.key, i);
            Indexed(b[i := entry], c', p') && Located(b[i := entry], c', p', None)
            && |c'| == |contents| + (if Comparable(entry.key) then 1 else 0)
  {
    var b', c', p' := b[i := entry], With(contents, entry.key, entry.val), PosWith(pos, entry.key, i);
    forall j | 0 <= j < |b'| ensures SlotOk(b', c', p', j) {
      assert SlotOk(b, contents, pos, j);
    }
    forall k ensures LocatedAt(b', c', p', None, k) {
      assert LocatedAt(b, contents, pos, None, k);
    }
  }

  /** Storing a new entry over the richer bucket where its probe stopped;
      that bucket's entry goes into hand one slot further on. */
  lemma SwapNew(b: seq<Slot>, contents: map<Value, Value>, pos: map<Value, nat>, junk: nat, i: nat, entry: Slot, epos: nat,
                b': seq<Slot>, i': nat, entry': Slot)
    requires TableOk(b, contents, pos, junk) && Pending(b, i, entry)
    requires b[i].Full? && entry.psl > b[i].psl && epos < |b| && b[epos].Empty?
    requires RefOk(entry) && entry.key !in contents
    requires b' == b[i := entry] && i' == Succ(i, |b|) && entry' == b[i].(psl := b[i].psl + 1)
    ensures Displacing(b', With(contents, entry.key, entry.val), PosWith(pos, entry.key, i), JunkWith(junk, entry.key),
                       i', entry', entry.key, i, epos)
  {
    Evict(b, i, entry);
    Place(b, i, entry);
    CountUpdate(b, i, entry);
    SwappedIndexed(b, contents, pos, i, entry);
  }

  lemma SwappedIndexed(b: seq<Slot>, contents: map<Value, Value>, pos: map<Value, nat>, i: nat, entry: Slot)
    requires Indexed(b, contents, pos) && Located(b, contents, pos, None)
    requires i < |b| && b[i].Full? && RefOk(entry) && entry.key !in contents
    ensures RefOk(b[i]) && (Comparable(b[i].key) ==> b[i].key != entry.key)
    ensures Comparable(b[i].key) ==>
              (b[i].key in With(contents, entry.key, entry.val) && With(contents, entry.key, entry.val)[b[i].key] == b[i].val)
    ensures Indexed(b[i := entry], With(contents, entry.key, entry.val), PosWith(pos, entry.key, i))
    ensures Located(b[i := entry], With(contents, entry.key, entry.val), PosWith(pos, entry.key, i), HandOf(b[i].key))
    ensures NotStored(b[i := entry], b[i].key)
    ensures |With(contents, entry.key, entry.val)| == |contents| + (if Comparable(entry.key) then 1 else 0)
  {
    assert SlotOk(b, contents, pos, i);
    var ek := b[i].key;
    var b', c', p' := b[i := entry], With(contents, entry.key, entry.val), PosWith(pos, entry.key, i);
    forall j | 0 <= j < |b'| ensures SlotOk(b', c', p', j) {
      assert SlotOk(b, contents, pos, j);
    }
    forall k ensures LocatedAt(b', c', p', HandOf(ek), k) {
      assert LocatedAt(b, contents, pos, None, k);
    }
    if Comparable(ek) {
      forall j | 0 <= j < |b'| && b'[j].Full? ensures b'[j].key != ek {
        assert SlotOk(b, contents, pos, j);
      }
    }
  }

  /** The state of the displacement loop: the entry in hand belongs at slot
      i; the newly inserted key is stored at q; the empty bucket epos lies
      ahead of i before q comes round again. */
  ghost predicate Displacing(b: seq<Slot>, contents: map<Value, Value>, pos: map<Value, nat>, junk: nat,
                             i: nat, entry: Slot, key: Value, q: nat, epos: nat)
  {
    InHand(b, contents, pos, junk, i, entry) && Ahead(b, contents, pos, i, entry, key, q, epos)
  }

  ghost predicate Ahead(b: seq<Slot>, contents: map<Value, Value>, pos: map<Value, nat>,
                        i: nat, entry: Slot, key: Value, q: nat, epos: nat)
  {
    i < |b| && q < |b| && epos < |b| && entry.Full?
    && (Comparable(key) ==> key in contents && key in pos && pos[key] == q && entry.key != key)
    && b[epos].Empty? && Dist(i, epos, |b|) < Dist(q, epos, |b|)
  }

  /** The displacement loop reaches an occupied bucket: its key does not
      equal the one being inserted. */
  lemma DisplaceFull(b: seq<Slot>, contents: map<Value, Value>, pos: map<Value, nat>, junk: nat,
                     i: nat, entry: Slot, key: Value, q: nat, epos: nat)
    requires Displacing(b, contents, pos, junk, i, entry, key, q, epos) && b[i].Full?
    ensures RefOk(b[i]) && !Eq(b[i].key, key).b
  {
    assert SlotOk(b, contents, pos, i);
    assert LocatedAt(b, contents, pos, HandOf(entry.key), key);
  }

  /** The displacement loop swaps the entry in hand with a richer bucket and
      carries on with the evicted entry. */
  lemma DisplaceSwap(b: seq<Slot>, contents: map<Value, Value>, pos: map<Value, nat>, junk: nat,
                     i: nat, entry: Slot, key: Value, q: nat, epos: nat,
                     b': seq<Slot>, pos': map<Value, nat>, i': nat, entry': Slot)
    requires Displacing(b, contents, pos, junk, i, entry, key, q, epos) && b[i].Full? && entry.psl > b[i].psl
    requires b' == b[i := entry] && pos' == PosWith(pos, entry.key, i) && i' == Succ(i, |b|)
    requires entry' == b[i].(psl := b[i].psl + 1)
    ensures Displacing(b', contents, pos', junk, i', entry', key, q, epos)
    ensures Dist(i', epos, |b|) < Dist(i, epos, |b|)
  {
    DisplaceFull(b, contents, pos, junk, i, entry, key, q, epos);
    Evict(b, i, entry);
    Place(b, i, entry);
    CountUpdate(b, i, entry);
    EvictedIndexed(b, contents, pos, i, entry);
  }

  lemma EvictedIndexed(b: seq<Slot>, contents: map<Value, Value>, pos: map<Value, nat>, i: nat, entry: Slot)
    requires entry.Full? && Indexed(b, contents, pos) && Located(b, contents, pos, HandOf(entry.key))
    requires NotStored(b, entry.key) && Held(contents, entry)
    requires i < |b| && b[i].Full?
    ensures RefOk(b[i]) && (Comparable(b[i].key) ==> b[i].key != entry.key)
    ensures Comparable(b[i].key) ==> b[i].key in contents && contents[b[i].key] == b[i].val
    ensures Indexed(b[i := entry], contents, PosWith(pos, entry.key, i))
    ensures Located(b[i := entry], contents, PosWith(pos, entry.key, i), HandOf(b[i].key))
    ensures NotStored(b[i := entry], b[i].key)
  {
    assert SlotOk(b, contents, pos, i);
    var fk := b[i].key;
    var b', p' := b[i := entry], PosWith(pos, entry.key, i);
    forall j | 0 <= j < |b'| ensures SlotOk(b', contents, p', j) {
      assert SlotOk(b, contents, pos, j);
    }
    forall k ensures LocatedAt(b', contents, p', HandOf(fk), k) {
      assert LocatedAt(b, contents, pos, HandOf(entry.key), k);
    }
    if Comparable(fk) {
      forall j | 0 <= j < |b'| && b'[j].Full? ensures b'[j].key != fk {
        assert SlotOk(b, contents, pos, j);
      }
    }
  }

  /** The displacement loop steps past a bucket at least as displaced as the
      entry in hand. */
  lemma DisplaceSkip(b: seq<Slot>, contents: map<Value, Value>, pos: map<Value, nat>, junk: nat,
                     i: nat, entry: Slot, key: Value, q: nat, epos: nat, i': nat, entry': Slot)
    requires Displacing(b, contents, pos, junk, i, entry, key, q, epos) && b[i].Full? && entry.psl <= b[i].psl
    requires i' == Succ(i, |b|) && entry' == entry.(psl := entry.psl + 1)
    ensures Displacing(b, contents, pos, junk, i', entry', key, q, epos)
    ensures Dist(i', epos, |b|) < Dist(i, epos, |b|)
  {
    Skip(b, i, entry, epos);
  }

  /** The displacement loop stores the entry in hand in an empty bucket. */
  lemma DisplaceLast(b: seq<Slot>, contents: map<Value, Value>, pos: map<Value, nat>, junk: nat, i: nat, entry: Slot)
    requires InHand(b, contents, pos, junk, i, entry) && b[i].Empty?
    ensures TableOk(b[i := entry], contents, PosWith(pos, entry.key, i), junk)
  {
    Place(b, i, entry);
    CountUpdate(b, i, entry);
    var b', p' := b[i := entry], PosWith(pos, entry.key, i);
    forall j | 0 <= j < |b'| ensures SlotOk(b', contents, p', j) {
      assert SlotOk(b, contents, pos, j);
    }
    forall k ensures LocatedAt(b', contents, p', None, k) {
      assert LocatedAt(b, contents, pos, HandOf(entry.key), k);
    }
  }

  /** Overwriting the value of a stored key. */
  lemma Overwrite(b: seq<Slot>, contents: map<Value, Value>, pos: map<Value, nat>, junk: nat, i: nat, v: Value)
    requires TableOk(b, contents, pos, junk) && i < |b| && b[i].Full? && Comparable(b[i].key)
    ensures TableOk(b[i := b[i].(val := v)], contents[b[i].key := v], pos, junk)
  {
    assert SlotOk(b, contents, pos, i);
    var b' := b[i := b[i].(val := v)];
    var c' := contents[b[i].key := v];
    forall j | 0 <= j < |b'| ensures RichAt(b', j) && PslAt(b', j) && SlotOk(b', c', pos, j) {
      assert RichAt(b, j) && PslAt(b, j) && SlotOk(b, contents, pos, j);
    }
    forall k ensures LocatedAt(b', c', pos, None, k) {
      assert LocatedAt(b, contents, pos, None, k);
    }
    CountUpdate(b, i, b[i].(val := v));
  }

  // ---- resizing -----------------------------------------------------------

  /** The part of the map stored in the first n buckets. */
  ghost function Moved(contents: map<Value, Value>, pos: map<Value, nat>, n: nat): map<Value, Value>
  {
    map k | k in contents && k in pos && pos[k] < n :: contents[k]
  }

  /** Junk entries among the first n buckets. */
  function JunkTo(b: seq<Slot>, n: nat): (c: nat)
    requires n <= |b|
    ensures c <= n
  {
    if n == 0 then 0 else JunkTo(b, n - 1) + (if b[n - 1].Full? && !Comparable(b[n - 1].key) then 1 else 0)
  }

  /** Taking one more bucket into account adds its entry. */
  lemma MovedNext(b: seq<Slot>, contents: map<Value, Value>, pos: map<Value, nat>, junk: nat, n: nat)
    requires TableOk(b, contents, pos, junk) && n < |b|
    ensures b[n].Full? ==> RefOk(b[n])
    ensures b[n].Full? ==> b[n].key !in Moved(contents, pos, n)
    ensures b[n].Empty? ==> Moved(contents, pos, n + 1) == Moved(contents, pos, n)
    ensures b[n].Full? ==> Moved(contents, pos, n + 1) == With(Moved(contents, pos, n), b[n].key, b[n].val)
  {
    assert SlotOk(b, contents, pos, n);
    var m, m' := Moved(contents, pos, n), Moved(contents, pos, n + 1);
    forall k | k in contents && k in pos && pos[k] == n
      ensures b[n].Full? && b[n].key == k && Comparable(k)
    {
      assert LocatedAt(b, contents, pos, None, k);
    }
    if b[n].Full? {
      var k := b[n].key;
      assert LocatedAt(b, contents, pos, None, k);
      assert k !in m;
      assert m' == With(m, k, b[n].val);
    } else {
      assert m' == m;
    }
  }

  /** The first n buckets hold their keys and junk entries, one per occupied
      bucket. */
  lemma {:induction false} MovedCount(b: seq<Slot>, contents: map<Value, Value>, pos: map<Value, nat>, junk: nat, n: nat)
    requires TableOk(b, contents, pos, junk) && n <= |b|
    ensures |Moved(contents, pos, n)| + JunkTo(b, n) == CountTo(b, n)
  {
    if n == 0 {
      assert Moved(contents, pos, 0) == map[];
    } else {
      MovedCount(b, contents, pos, junk, n - 1);
      MovedNext(b, contents, pos, junk, n - 1);
    }
  }

  /** All buckets together hold the whole map and all junk. */
  lemma MovedAll(b: seq<Slot>, contents: map<Value, Value>, pos: map<Value, nat>, junk: nat)
    requires TableOk(b, contents, pos, junk)
    ensures Moved(contents, pos, |b|) == contents
    ensures JunkTo(b, |b|) == junk
  {
    forall k | k in contents ensures k in pos && pos[k] < |b| {
      assert LocatedAt(b, contents, pos, None, k);
    }
    MovedCount(b, contents, pos, junk, |b|);
  }

  /** A fresh bucket array represents the empty map. */
  lemma FreshOk(b: seq<Slot>, hf: Value -> bv32)
    requires |b| > 0 && forall i :: 0 <= i < |b| ==> b[i].Empty?
    ensures TableOk(b, map[], map[], 0) && Hashed(b, hf)
  {
    CountEmpty(b, |b|);
    forall i | 0 <= i < |b| ensures RichAt(b, i) && PslAt(b, i) && SlotOk(b, map[], map[], i) && HashAt(b, i, hf) {
    }
  }

  // ---- deletion -----------------------------------------------------------

  /** Sum of the probe sequence lengths of the first n buckets. */
  function PslSumTo(b: seq<Slot>, n: nat): nat
    requires n <= |b|
  {
    if n == 0 then 0 else PslSumTo(b, n - 1) + (if b[n - 1].Full? then b[n - 1].psl else 0)
  }

  function PslSum(b: seq<Slot>): nat
  {
    PslSumTo(b, |b|)
  }

  lemma {:induction false} PslSumToUpdate(b: seq<Slot>, n: nat, i: nat, x: Slot)
    requires i < |b| && n <= |b|
    ensures PslSumTo(b[i := x], n) + (if i < n && b[i].Full? then b[i].psl else 0) ==
            PslSumTo(b, n) + (if i < n && x.Full? then x.psl else 0)
  {
    if n > 0 {
      PslSumToUpdate(b, n - 1, i, x);
    }
  }

  /** The state of the backward-shift loop of rhashmap_del: slot h is the
      hole; it stands for an entry of psl hp, so the Robin Hood invariant
      holds everywhere if the hole is read as that entry. */
  ghost predicate Shifting(b: seq<Slot>, contents: map<Value, Value>, pos: map<Value, nat>, junk: nat, h: nat, hp: nat)
  {
    Holed(b, h, hp) && Indexed(b, contents, pos) && Located(b, contents, pos, None) && Count(b) == |contents| + junk
  }

  ghost predicate Holed(b: seq<Slot>, h: nat, hp: nat)
  {
    |b| > 0 && h < |b| && b[h].Empty? && PslOk(b) && hp < |b|
    && (forall j :: 0 <= j < |b| && j != Succ(h, |b|) ==> RichAt(b, j))
    && (hp > 0 ==> b[Pred(h, |b|)].Full? && b[Pred(h, |b|)].psl + 1 >= hp)
    && (var n := Succ(h, |b|); b[n].Full? && b[n].psl > 0 ==> hp + 1 >= b[n].psl)
  }

  /** Emptying the bucket of a found key opens the hole. */
  lemma RemoveKey(b: seq<Slot>, contents: map<Value, Value>, pos: map<Value, nat>, junk: nat, i: nat)
    requires TableOk(b, contents, pos, junk) && i < |b| && b[i].Full? && Comparable(b[i].key)
    ensures b[i].psl < |b| && b[i].key in contents && contents[b[i].key] == b[i].val
    ensures |contents - {b[i].key}| == |contents| - 1
    ensures Shifting(b[i := Empty], contents - {b[i].key}, pos - {b[i].key}, junk, i, b[i].psl)
  {
    var k := b[i].key;
    assert SlotOk(b, contents, pos, i) && PslAt(b, i) && RichAt(b, i);
    var b', c', p' := b[i := Empty], contents - {k}, pos - {k};
    var n := Succ(i, |b|);
    assert RichAt(b, n);
    forall j | 0 <= j < |b'| ensures PslAt(b', j) && SlotOk(b', c', p', j) && (j != n ==> RichAt(b', j)) {
      assert PslAt(b, j) && SlotOk(b, contents, pos, j) && RichAt(b, j);
      SuccPred(j, |b|);
    }
    forall x ensures LocatedAt(b', c', p', None, x) {
      assert LocatedAt(b, contents, pos, None, x);
    }
    CountUpdate(b, i, Empty);
  }

  /** One step of the backward shift: the bucket after the hole moves back
      into it, one step less displaced, and the hole moves on. */
  lemma ShiftStep(b: seq<Slot>, contents: map<Value, Value>, pos: map<Value, nat>, junk: nat, h: nat, hp: nat,
                  b': seq<Slot>, pos': map<Value, nat>, h': nat, hp': nat)
    requires Shifting(b, contents, pos, junk, h, hp)
    requires var n := Succ(h, |b|); b[n].Full? && b[n].psl > 0
    requires h' == Succ(h, |b|) && hp' == b[h'].psl
    requires b' == b[h := b[h'].(psl := b[h'].psl - 1)][h' := Empty]
    requires pos' == PosWith(pos, b[h'].key, h)
    ensures Shifting(b', contents, pos', junk, h', hp')
    ensures PslSum(b') < PslSum(b)
  {
    var s := |b|;
    var e := b[h'];
    var m := e.(psl := e.psl - 1);
    assert h' != h;
    assert PslAt(b, h') && SlotOk(b, contents, pos, h');
    PredSucc(h, s);
    ShiftHoled(b, h, hp, h', hp', b');
    var b1 := b[h := m];
    ShiftIndexed(b, contents, pos, h, h', b');
    CountUpdate(b, h, m);
    CountUpdate(b1, h', Empty);
    PslSumToUpdate(b, s, h, m);
    PslSumToUpdate(b1, s, h', Empty);
  }

  lemma ShiftHoled(b: seq<Slot>, h: nat, hp: nat, h': nat, hp': nat, b': seq<Slot>)
    requires Holed(b, h, hp)
    requires h' == Succ(h, |b|) && b[h'].Full? && b[h'].psl > 0 && hp' == b[h'].psl
    requires b' == b[h := b[h'].(psl := b[h'].psl - 1)][h' := Empty]
    ensures Holed(b', h', hp')
  {
    var s := |b|;
    var e := b[h'];
    assert h' != h;
    assert PslAt(b, h');
    PredSucc(h, s);
    var n' := Succ(h', s);
    assert RichAt(b, n') by {
      if n' == h' {
        assert false;
      }
    }
    forall j | 0 <= j < s ensures PslAt(b', j) {
      assert PslAt(b, j);
      if j == h {
        AtSucc(e.hash, e.psl - 1, s);
      }
    }
    forall j | 0 <= j < s && j != n' ensures RichAt(b', j) {
      if j == h {
        if Pred(h, s) == h' {
          assert e.psl < s;
        }
      } else if j != h' {
        assert RichAt(b, j);
        SuccPred(j, s);
      }
    }
    assert Pred(h', s) == h;
  }

  lemma ShiftIndexed(b: seq<Slot>, contents: map<Value, Value>, pos: map<Value, nat>, h: nat, h': nat, b': seq<Slot>)
    requires Indexed(b, contents, pos) && Located(b, contents, pos, None)
    requires h < |b| && h' < |b| && h != h' && b[h].Empty? && b[h'].Full? && b[h'].psl > 0
    requires b' == b[h := b[h'].(psl := b[h'].psl - 1)][h' := Empty]
    ensures Indexed(b', contents, PosWith(pos, b[h'].key, h))
    ensures Located(b', contents, PosWith(pos, b[h'].key, h), None)
  {
    var k := b[h'].key;
    var p' := PosWith(pos, k, h);
    assert SlotOk(b, contents, pos, h');
    forall j | 0 <= j < |b'| ensures SlotOk(b', contents, p', j) {
      assert SlotOk(b, contents, pos, j);
    }
    forall x ensures LocatedAt(b', contents, p', None, x) {
      assert LocatedAt(b, contents, pos, None, x);
    }
  }

  /** The shift stops at an empty bucket or one in its home slot: the hole
      needs no filling and the table is whole again. */
  lemma ShiftDone(b: seq<Slot>, contents: map<Value, Value>, pos: map<Value, nat>, junk: nat, h: nat, hp: nat)
    requires Shifting(b, contents, pos, junk, h, hp)
    requires var n := Succ(h, |b|); b[n].Empty? || b[n].psl == 0
    ensures TableOk(b, contents, pos, junk)
  {
    forall j | 0 <= j < |b| ensures RichAt(b, j) {
    }
  }
}
