// Facts shared by the two Robin Hood tables (src/core/hm_vars.c and
// src/core/rt/au_dict.c, both adapted from rhashmap). A table is a ring of
// buckets; an occupied bucket records its key's hash and its probe sequence
// length (psl), the distance from the key's home slot hash % size.
module RobinHood {
  datatype Bucket<K, V> = Empty | Full(key: K, hash: bv32, psl: nat, val: V)

  const MaxGrowthStep: nat := 1024 * 1024
  const UintMax: nat := 0xFFFF_FFFF

  /** APPROX_85_PERCENT(x): the load above which a table grows, computed
      without overflow: at most 85% of x and, from 1024 buckets on, at
      least 84%. */
  function Approx85(x: nat): (r: nat)
    ensures x > 0 ==> r < x
    ensures 100 * r <= 85 * x
    ensures x >= 1024 ==> 84 * x <= 100 * r
  {
    var r := (x * 870) / 1024;
    assert 1024 * r <= x * 870 < 1024 * r + 1024;
    r
  }

  /** APPROX_40_PERCENT(x): the load below which rhashmap_del shrinks,
      computed without overflow: at most 40% of x and, from 1024 buckets
      on, at least 39%. */
  function Approx40(x: nat): (r: nat)
    ensures r <= x / 2
    ensures 100 * r <= 40 * x
    ensures x >= 1024 ==> 39 * x <= 100 * r
  {
    var r := (x * 409) / 1024;
    assert 1024 * r <= x * 409 < 1024 * r + 1024;
    r
  }

  /** The size a table grows to, MIN(size << 1, size + MAX_GROWTH_STEP), in
      arithmetic wide enough to hold both operands. */
  function GrowSize(size: nat): (r: nat)
    ensures size > 0 ==> size < r
    ensures r <= 2 * size && r <= size + MaxGrowthStep
  {
    if 2 * size < size + MaxGrowthStep then 2 * size else size + MaxGrowthStep
  }

  /** fast_rem32(hash, size): the home slot of a hash. */
  function Home(h: bv32, size: nat): (r: nat)
    requires size > 0
    ensures r < size
  {
    (h as int) % size
  }

  /** Reduce a position below twice the size onto the ring. */
  function Ring(x: nat, size: nat): (r: nat)
    requires x < 2 * size
    ensures r < size
  {
    if x < size then x else x - size
  }

  /** The slot reached after t <= size steps of linear probing from the home
      slot of h. */
  function At(h: bv32, t: nat, size: nat): (r: nat)
    requires 0 < size && t <= size
    ensures r < size
  {
    Ring(Home(h, size) + t, size)
  }

  /** Distance along the ring from slot i forward to slot e: that many
      steps from i reach e. */
  function Dist(i: nat, e: nat, size: nat): (d: nat)
    requires i < size && e < size
    ensures d < size && Ring(i + d, size) == e
  {
    if i <= e then e - i else e + size - i
  }

  /** The slot after i: fast_rem32(i + 1, size). */
  function Succ(i: nat, size: nat): (r: nat)
    requires i < size
    ensures r < size && r == (i + 1) % size
  {
    Ring(i + 1, size)
  }

  /** The slot before i on the ring. */
  function Pred(i: nat, size: nat): (r: nat)
    requires i < size
    ensures r < size
  {
    if i == 0 then size - 1 else i - 1
  }

  /** The slot m <= size steps before p. */
  function Back(p: nat, m: nat, size: nat): (r: nat)
    requires p < size && m <= size
    ensures r < size
  {
    if m <= p then p - m else p + size - m
  }

  lemma AtSucc(h: bv32, t: nat, size: nat)
    requires 0 < size && t < size
    ensures At(h, t + 1, size) == Succ(At(h, t, size), size)
  {}

  lemma PredSucc(i: nat, size: nat)
    requires i < size
    ensures Pred(Succ(i, size), size) == i
  {}

  lemma SuccPred(i: nat, size: nat)
    requires i < size
    ensures Succ(Pred(i, size), size) == i
  {}

  /** Each occupied bucket sits psl steps after its home slot, and psl < size. */
  ghost predicate PslOk<K, V>(b: seq<Bucket<K, V>>)
  {
    forall i :: 0 <= i < |b| ==> PslAt(b, i)
  }

  ghost predicate PslAt<K, V>(b: seq<Bucket<K, V>>, i: nat)
    requires i < |b|
  {
    b[i].Full? ==> b[i].psl < |b| && At(b[i].hash, b[i].psl, |b|) == i
  }

  /** The Robin Hood invariant: a displaced key's predecessor is occupied by a
      key that is at most one step less displaced. */
  ghost predicate Rich<K, V>(b: seq<Bucket<K, V>>)
  {
    forall i :: 0 <= i < |b| ==> RichAt(b, i)
  }

  ghost predicate RichAt<K, V>(b: seq<Bucket<K, V>>, i: nat)
    requires i < |b|
  {
    b[i].Full? && b[i].psl > 0 ==> b[Pred(i, |b|)].Full? && b[Pred(i, |b|)].psl + 1 >= b[i].psl
  }

  /** Walking back from an occupied bucket with psl D, the m-th bucket
      (m <= D) is occupied with psl at least D - m. */
  lemma {:induction false} Chain<K, V>(b: seq<Bucket<K, V>>, p: nat, m: nat)
    requires Rich(b) && p < |b| && b[p].Full? && m <= b[p].psl && b[p].psl < |b|
    ensures b[Back(p, m, |b|)].Full? && b[Back(p, m, |b|)].psl + m >= b[p].psl
  {
    if m > 0 {
      Chain(b, p, m - 1);
      assert RichAt(b, Back(p, m - 1, |b|));
      assert Back(p, m, |b|) == Pred(Back(p, m - 1, |b|), |b|);
    }
  }

  lemma BackAt(h: bv32, d: nat, n: nat, size: nat)
    requires 0 < size && n <= d < size
    ensures Back(At(h, d, size), d - n, size) == At(h, n, size)
  {
    var home := Home(h, size);
    assert At(h, d, size) == Ring(home + d, size);
    assert At(h, n, size) == Ring(home + n, size);
  }

  /** The central fact behind lookup: if probing for hash h reaches, after n
      steps, an empty bucket or one with psl < n, then every bucket holding a
      key with hash h has psl < n, so the search may stop. */
  lemma ProbeStop<K, V>(b: seq<Bucket<K, V>>, h: bv32, n: nat, j: nat)
    requires |b| > 0 && Rich(b) && PslOk(b) && n <= |b|
    requires var q := At(h, n, |b|); b[q].Empty? || n > b[q].psl
    requires j < |b| && b[j].Full? && b[j].hash == h
    ensures b[j].psl < n
  {
    var d := b[j].psl;
    assert PslAt(b, j);
    if d >= n {
      BackAt(h, d, n, |b|);
      Chain(b, j, d - n);
    }
  }

  /** Slots reached after different step counts below size differ. */
  lemma AtInjective(h: bv32, t1: nat, t2: nat, size: nat)
    requires 0 < size && t1 < t2 < size
    ensures At(h, t1, size) != At(h, t2, size)
  {}

  /** The step count at which probing from the home slot of h reaches slot x. */
  function StepsTo(h: bv32, x: nat, size: nat): (t: nat)
    requires x < size
    ensures t < size && At(h, t, size) == x
  {
    var home := Home(h, size);
    if home <= x then x - home else x + size - home
  }

  /** Number of occupied buckets among the first n. */
  function CountTo<K, V>(b: seq<Bucket<K, V>>, n: nat): (c: nat)
    requires n <= |b|
    ensures c <= n
  {
    if n == 0 then 0 else CountTo(b, n - 1) + (if b[n - 1].Full? then 1 else 0)
  }

  /** Number of occupied buckets. */
  function Count<K, V>(b: seq<Bucket<K, V>>): (c: nat)
    ensures c <= |b|
  {
    CountTo(b, |b|)
  }

  lemma {:induction false} CountToUpdate<K, V>(b: seq<Bucket<K, V>>, n: nat, i: nat, x: Bucket<K, V>)
    requires i < |b| && n <= |b|
    ensures CountTo(b[i := x], n) ==
            CountTo(b, n) + (if i < n then (if x.Full? then 1 else 0) - (if b[i].Full? then 1 else 0) else 0)
  {
    if n > 0 {
      CountToUpdate(b, n - 1, i, x);
    }
  }

  lemma CountUpdate<K, V>(b: seq<Bucket<K, V>>, i: nat, x: Bucket<K, V>)
    requires i < |b|
    ensures Count(b[i := x]) == Count(b) - (if b[i].Full? then 1 else 0) + (if x.Full? then 1 else 0)
  {
    CountToUpdate(b, |b|, i, x);
  }

  /** If fewer than n of the first n buckets are occupied, one is empty. */
  lemma {:induction false} FindEmptyTo<K, V>(b: seq<Bucket<K, V>>, n: nat) returns (e: nat)
    requires n <= |b| && CountTo(b, n) < n
    ensures e < n && b[e].Empty?
  {
    if b[n - 1].Empty? {
      e := n - 1;
    } else {
      e := FindEmptyTo(b, n - 1);
    }
  }

  /** A table with fewer occupied buckets than slots has an empty bucket. */
  lemma FindEmpty<K, V>(b: seq<Bucket<K, V>>) returns (e: nat)
    requires Count(b) < |b|
    ensures e < |b| && b[e].Empty?
  {
    e := FindEmptyTo(b, |b|);
  }

  /** A fresh bucket array of the given size: every bucket empty. */
  function Fresh<K, V>(size: nat): (b: seq<Bucket<K, V>>)
    ensures |b| == size && Rich(b) && PslOk(b)
    ensures forall i :: 0 <= i < size ==> b[i].Empty?
  {
    seq(size, _ => Empty)
  }

  lemma {:induction false} CountEmpty<K, V>(b: seq<Bucket<K, V>>, n: nat)
    requires n <= |b| && forall i :: 0 <= i < |b| ==> b[i].Empty?
    ensures CountTo(b, n) == 0
  {
    if n > 0 {
      CountEmpty(b, n - 1);
    }
  }

  /** The entry in hand during insertion: it belongs psl steps after its home
      slot and, if displaced, follows an occupied bucket no more than one step
      less displaced. */
  ghost predicate Pending<K, V>(b: seq<Bucket<K, V>>, i: nat, e: Bucket<K, V>)
  {
    |b| > 0 && i < |b| && e.Full? && e.psl < |b| && At(e.hash, e.psl, |b|) == i
    && (e.psl > 0 ==> b[Pred(i, |b|)].Full? && b[Pred(i, |b|)].psl + 1 >= e.psl)
  }

  /** Putting the entry in hand into an empty bucket, or over a bucket less
      displaced than it, keeps both invariants. */
  lemma Place<K, V>(b: seq<Bucket<K, V>>, i: nat, e: Bucket<K, V>)
    requires Rich(b) && PslOk(b) && Pending(b, i, e)
    requires b[i].Empty? || e.psl > b[i].psl
    ensures Rich(b[i := e]) && PslOk(b[i := e])
  {
    var s := |b|;
    var b' := b[i := e];
    forall j | 0 <= j < s ensures RichAt(b', j) && PslAt(b', j) {
      assert RichAt(b, j) && PslAt(b, j);
      if j != i && Pred(j, s) == i {
        assert j == Succ(i, s);
      }
    }
  }

  /** After a swap at i the evicted entry, one step further on, is in hand. */
  lemma Evict<K, V>(b: seq<Bucket<K, V>>, i: nat, e: Bucket<K, V>)
    requires Rich(b) && PslOk(b) && Pending(b, i, e)
    requires b[i].Full? && e.psl > b[i].psl
    ensures var f := b[i].(psl := b[i].psl + 1);
            Pending(b[i := e], Succ(i, |b|), f)
  {
    assert PslAt(b, i);
    PredSucc(i, |b|);
    AtSucc(b[i].hash, b[i].psl, |b|);
  }

  /** After stepping past a bucket at least as displaced as the entry in hand,
      the entry (one step further displaced) is still in hand. */
  lemma Skip<K, V>(b: seq<Bucket<K, V>>, i: nat, e: Bucket<K, V>, epos: nat)
    requires Rich(b) && PslOk(b) && Pending(b, i, e)
    requires b[i].Full? && e.psl <= b[i].psl
    requires epos < |b| && b[epos].Empty?
    ensures Pending(b, Succ(i, |b|), e.(psl := e.psl + 1))
  {
    var s := |b|;
    assert PslAt(b, i);
    PredSucc(i, s);
    AtSucc(e.hash, e.psl, s);
    if e.psl + 1 >= s {
      BelowSizeFull(b, Succ(i, s), e.psl + 1);
      assert false;
    }
  }

  /** If the bucket before i is occupied with psl >= p - 1 and p >= size, every
      bucket is occupied. */
  lemma BelowSizeFull<K, V>(b: seq<Bucket<K, V>>, i: nat, p: nat)
    requires Rich(b) && PslOk(b) && |b| > 0 && i < |b| && p >= |b|
    requires b[Pred(i, |b|)].Full? && b[Pred(i, |b|)].psl + 1 >= p
    ensures forall x :: 0 <= x < |b| ==> b[x].Full?
  {
    var s := |b|;
    var q := Pred(i, s);
    assert PslAt(b, q);
    forall x | 0 <= x < s ensures b[x].Full? {
      var m := if x <= q then q - x else q + s - x;
      Chain(b, q, m);
      assert Back(q, m, s) == x;
    }
  }

  /** Counting more buckets never counts fewer occupied ones. */
  lemma {:induction false} CountToMono<K, V>(b: seq<Bucket<K, V>>, i: nat, j: nat)
    requires i <= j <= |b|
    ensures CountTo(b, i) <= CountTo(b, j)
  {
    if i < j {
      CountToMono(b, i, j - 1);
    }
  }
}
