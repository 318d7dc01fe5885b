// The runtime's struct objects: arrays (src/core/rt/au_array.c), tuples
// (src/core/rt/au_tuple.c) and class instances with their interfaces
// (src/core/rt/au_class.c). Each object starts with a struct au_struct
// header whose count is 1 at creation.
//
// The reference counts of the objects that values point to are kept in one
// Counts object: au_value_ref raises the count of the struct or function a
// value refers to and au_value_deref lowers it. A container is in balance
// when every reference its slots hold is backed by one count, so that the
// counts are the references held elsewhere plus the slots' references.
module Objects {
  import opened Wrappers
  import opened Arith
  import opened Value
  import GrowArray
  import HmVars

  // ---- indices ------------------------------------------------------------

  /** The size_t an int32 index is converted to: a negative index wraps to
      a number near 2^64. */
  function SizeOf(n: Int32): (r: nat)
    ensures 0 <= n ==> r == n
    ensures n < 0 ==> r >= Two64 - 0x8000_0000
  {
    assert IsInt32(n) && Two64 == 0x1_0000_0000_0000_0000;
    if n < 0 then n as int + Two64 else n
  }

  /** Slots of 8-byte values in a 64-bit address space: fewer than 2^61. */
  const MaxSlots: nat := 0x2000_0000_0000_0000

  /** So a negative index never passes a bounds check. */
  lemma NegativeIndexOutOfRange(n: Int32, len: nat)
    requires n < 0 && len <= MaxSlots
    ensures SizeOf(n) >= len
  {
  }

  // ---- reference counts ---------------------------------------------------

  /** An object a value can hold a counted reference to. */
  datatype Counted = StructRef(p: Ptr) | FnRef(p: Ptr)

  /** The counted references a value holds: one for a struct or function
      value, none for the others. */
  function Refs(v: Value): (m: multiset<Counted>)
    ensures |m| <= 1
    ensures |m| == 1 <==> v.Struct? || v.Fn?
    ensures v.Struct? ==> StructRef(v.obj) in m
    ensures v.Fn? ==> FnRef(v.fn) in m
  {
    match v
    case Struct(p) => multiset{StructRef(p)}
    case Fn(p) => multiset{FnRef(p)}
    case _ => multiset{}
  }

  /** The counted references the slots of a container hold. */
  function SlotRefs(s: seq<Value>): multiset<Counted>
  {
    if |s| == 0 then multiset{} else SlotRefs(s[..|s| - 1]) + Refs(s[|s| - 1])
  }

  lemma SlotRefsAppend(s: seq<Value>, v: Value)
    ensures SlotRefs(s + [v]) == SlotRefs(s) + Refs(v)
  {
    assert (s + [v])[..|s|] == s;
  }

  /** Slots that are all none hold no reference. */
  lemma {:induction false} SlotRefsNone(n: nat)
    ensures SlotRefs(seq(n, _ => Nil)) == multiset{}
  {
    if n > 0 {
      assert seq(n, _ => Nil)[..n - 1] == seq(n - 1, _ => Nil);
      SlotRefsNone(n - 1);
    }
  }

  /** Overwriting slot i exchanges the old slot's references for the new
      value's. */
  lemma {:induction false} SlotRefsUpdate(s: seq<Value>, i: nat, v: Value)
    requires i < |s|
    ensures SlotRefs(s[i := v]) + Refs(s[i]) == SlotRefs(s) + Refs(v)
  {
    var n := |s| - 1;
    assert SlotRefs(s) == SlotRefs(s[..n]) + Refs(s[n]) by {
      SlotRefsLast(s);
    }
    if i < n {
      assert SlotRefs(s[i := v]) == SlotRefs(s[..n][i := v]) + Refs(s[n]) by {
        UpdateBeforeLast(s, i, v);
        SlotRefsLast(s[i := v]);
      }
      assert SlotRefs(s[..n][i := v]) + Refs(s[i]) == SlotRefs(s[..n]) + Refs(v) by {
        SlotRefsUpdate(s[..n], i, v);
      }
      Regroup(SlotRefs(s[i := v]), SlotRefs(s), SlotRefs(s[..n][i := v]), SlotRefs(s[..n]), Refs(s[n]), Refs(s[i]), Refs(v));
    } else {
      assert SlotRefs(s[i := v]) == SlotRefs(s[..n]) + Refs(v) by {
        assert s[i := v][..n] == s[..n];
        SlotRefsLast(s[i := v]);
      }
    }
  }

  /** An update before the last slot leaves the last slot and updates the
      rest. */
  lemma UpdateBeforeLast(s: seq<Value>, i: nat, v: Value)
    requires i < |s| - 1
    ensures s[i := v][..|s| - 1] == s[..|s| - 1][i := v]
  {
  }

  lemma SlotRefsLast(s: seq<Value>)
    requires |s| > 0
    ensures SlotRefs(s) == SlotRefs(s[..|s| - 1]) + Refs(s[|s| - 1])
  {
  }

  /** Exchanging a common last part on both sides of a balance. */
  lemma Regroup<T>(x: multiset<T>, y: multiset<T>, p: multiset<T>, q: multiset<T>, l: multiset<T>, a: multiset<T>, b: multiset<T>)
    requires x == p + l && y == q + l && p + a == q + b
    ensures x + a == y + b
  {
    assert x + a == (p + a) + l;
  }

  /** The counts of the objects values refer to: the rc of each struct
      header and function value. */
  class Counts {
    var rc: multiset<Counted>

    constructor (rc: multiset<Counted>)
      ensures this.rc == rc
    {
      this.rc := rc;
    }

    /** au_value_ref: one more count on what v refers to, if anything. */
    method RefValue(v: Value)
      modifies this
      ensures rc == old(rc) + Refs(v)
    {
      match v
      case Struct(p) => rc := rc + multiset{StructRef(p)};
      case Fn(p) => rc := rc + multiset{FnRef(p)};
      case _ =>
    }

    /** au_value_deref: one count less on what v refers to, if anything. */
    method DerefValue(v: Value)
      modifies this
      ensures rc == old(rc) - Refs(v)
    {
      match v
      case Struct(p) => rc := rc - multiset{StructRef(p)};
      case Fn(p) => rc := rc - multiset{FnRef(p)};
      case _ =>
    }
  }

  /** The counts after a store that takes a count on the new value and
      gives one up on the value it overwrites. */
  function StoreCounts(rc: multiset<Counted>, prev: Value, v: Value): multiset<Counted>
  {
    rc + Refs(v) - Refs(prev)
  }

  /** Such a store keeps a container in balance: if the counts are the
      references held elsewhere plus the slots' references before, they are
      so after. */
  lemma StoreKeepsBalance(ext: multiset<Counted>, s: seq<Value>, i: nat, v: Value)
    requires i < |s|
    ensures StoreCounts(ext + SlotRefs(s), s[i], v) == ext + SlotRefs(s[i := v])
  {
    SlotRefsUpdate(s, i, v);
    Exchange(ext, SlotRefs(s), SlotRefs(s[i := v]), Refs(v), Refs(s[i]));
  }

  /** Adding v and taking away p turns a into b when a + v == b + p. */
  lemma Exchange<T>(e: multiset<T>, a: multiset<T>, b: multiset<T>, v: multiset<T>, p: multiset<T>)
    requires a + v == b + p
    ensures e + a + v - p == e + b
  {
    calc {
      e + a + v;
    ==
      e + (a + v);
    ==
      e + (b + p);
    ==
      (e + b) + p;
    }
  }

  /** The counts after the store au_obj_array_set and au_obj_tuple_set
      perform: a count on the new value, then a deref of the slot, which by
      then holds the new value too. */
  function StoreCountsAsWritten(rc: multiset<Counted>, v: Value): multiset<Counted>
  {
    rc + Refs(v) - Refs(v)
  }

  /** That store breaks the balance: storing a struct over none in a
      one-slot container leaves the struct's count where it was, one short
      of its holders, so the object is freed while the slot still refers
      to it once the other holder lets go. */
  lemma StoreAsWrittenUnbalanced(p: Ptr)
    ensures StoreCountsAsWritten(multiset{StructRef(p)} + SlotRefs([Nil]), Struct(p))
         != multiset{StructRef(p)} + SlotRefs([Nil][0 := Struct(p)])
  {
    var before := multiset{StructRef(p)} + SlotRefs([Nil]);
    assert SlotRefs([Nil]) == multiset{} by { SlotRefsNone(1); assert [Nil] == seq(1, _ => Nil); }
    assert StoreCountsAsWritten(before, Struct(p))[StructRef(p)] == 1;
    assert SlotRefs([Struct(p)]) == SlotRefs([]) + Refs(Struct(p));
    assert (multiset{StructRef(p)} + SlotRefs([Nil][0 := Struct(p)]))[StructRef(p)] == 2;
  }

  /** A push takes one count for the new slot, which keeps the balance. */
  lemma PushKeepsBalance(ext: multiset<Counted>, s: seq<Value>, v: Value)
    ensures ext + SlotRefs(s) + Refs(v) == ext + SlotRefs(s + [v])
  {
    SlotRefsAppend(s, v);
  }

  // ---- arrays ---------------------------------------------------------------

  /** struct au_obj_array: a header and an au_value_array, the growable
      array with IN_CAP 1. */
  class ObjArray {
    var rc: nat
    const items: GrowArray.Array<Value>

    ghost predicate Valid()
      reads this, items
    {
      items.Valid() && items.inCap == 1
    }

    ghost function Contents(): seq<Value>
      reads this, items, items.data
      requires Valid()
    {
      items.Contents()
    }

    /** au_obj_array_new: count 1, no element, `capacity` slots reserved. */
    constructor (capacity: nat)
      ensures Valid() && fresh(items) && fresh(items.data)
      ensures rc == 1 && Contents() == [] && items.Cap() == capacity
    {
      rc := 1;
      items := new GrowArray.Array.WithCapacity(1, capacity, Nil);
    }

    /** au_obj_array_push: takes a count on el and appends it. */
    method Push(counts: Counts, el: Value)
      requires Valid()
      modifies items, items.data, counts
      ensures Valid() && (items.data == old(items.data) || fresh(items.data))
      ensures Contents() == old(Contents()) + [el]
      ensures counts.rc == old(counts.rc) + Refs(el)
    {
      counts.RefValue(el);
      items.Add(el);
    }

    /** au_obj_array_get: None when the index, as a size_t, is not below
        the length; otherwise the element, with a count taken on it for the
        caller. */
    method Get(counts: Counts, idx: Int32) returns (r: Option<Value>)
      requires Valid()
      modifies counts
      ensures r.Some? <==> SizeOf(idx) < |Contents()|
      ensures r.Some? ==> r.value == Contents()[SizeOf(idx)]
      ensures counts.rc == old(counts.rc) + if r.Some? then Refs(r.value) else multiset{}
    {
      var index := SizeOf(idx);
      if index >= items.len {
        return None;
      }
      var el := items.At(index);
      counts.RefValue(el.value);
      return Some(el.value);
    }

    /** au_obj_array_set as it is written: the deref that follows the store
        reads the slot back, so it releases the count just taken on the new
        value and the overwritten value keeps its count. */
    method SetAsWritten(counts: Counts, idxVal: Int32, value: Value) returns (ok: bool)
      requires Valid()
      modifies items.data, counts
      ensures Valid()
      ensures ok <==> SizeOf(idxVal) < |old(Contents())|
      ensures Contents() == if ok then old(Contents())[SizeOf(idxVal) := value] else old(Contents())
      ensures counts.rc == if ok then StoreCountsAsWritten(old(counts.rc), value) else old(counts.rc)
    {
      var idx := SizeOf(idxVal);
      if idx >= items.len {
        return false;
      }
      counts.RefValue(value);
      var _ := items.Set(idx, value);
      var stored := items.At(idx);
      counts.DerefValue(stored.value);
      return true;
    }

    /** au_obj_array_set with the deref applied to the overwritten value:
        false when the index is out of range; otherwise only slot idx
        changes, and the counts move from the old value to the new one. */
    method Set(counts: Counts, idxVal: Int32, value: Value) returns (ok: bool)
      requires Valid()
      modifies items.data, counts
      ensures Valid()
      ensures ok <==> SizeOf(idxVal) < |old(Contents())|
      ensures Contents() == if ok then old(Contents())[SizeOf(idxVal) := value] else old(Contents())
      ensures counts.rc == if ok then StoreCounts(old(counts.rc), old(Contents())[SizeOf(idxVal)], value)
                           else old(counts.rc)
    {
      var idx := SizeOf(idxVal);
      if idx >= items.len {
        return false;
      }
      var prev := items.At(idx);
      counts.RefValue(value);
      var _ := items.Set(idx, value);
      counts.DerefValue(prev.value);
      return true;
    }

    /** au_obj_array_len: the length cast to int32_t. */
    function Len(): (r: Int32)
      reads this, items
      ensures items.len <= Int32Max ==> r == items.len
    {
      Wrap(items.len)
    }
  }

  // ---- tuples ---------------------------------------------------------------

  /** Whether au_obj_tuple_get's bounds check, which rejects only an index
      above the length, lets an index through. */
  function TupleGetAcceptsAsWritten(index: nat, len: nat): (accepted: bool)
    ensures accepted <==> index <= len
  {
    !(index > len)
  }

  /** The check lets the length itself through, which is not a slot: the
      read that follows is one past the tuple's last value. */
  lemma TupleGetPastEnd(len: nat)
    ensures TupleGetAcceptsAsWritten(len, len)
    ensures !(len < len)
  {
  }

  /** struct au_obj_tuple: a header and a fixed number of slots. */
  class ObjTuple {
    var rc: nat
    const data: array<Value>

    /** au_obj_tuple_new: count 1 and len slots, all none. */
    constructor (len: nat)
      ensures fresh(data) && rc == 1
      ensures data[..] == seq(len, _ => Nil)
      ensures SlotRefs(data[..]) == multiset{}
    {
      rc := 1;
      data := new Value[len](_ => Nil);
      SlotRefsNone(len);
    }

    /** au_obj_tuple_get with the bounds check array and tuple share: None
        when the index is not below the length; otherwise the value, with a
        count taken on it for the caller. */
    method Get(counts: Counts, idx: Int32) returns (r: Option<Value>)
      modifies counts
      ensures r.Some? <==> SizeOf(idx) < data.Length
      ensures r.Some? ==> r.value == data[SizeOf(idx)]
      ensures counts.rc == old(counts.rc) + if r.Some? then Refs(r.value) else multiset{}
    {
      var index := SizeOf(idx);
      if index >= data.Length {
        return None;
      }
      counts.RefValue(data[index]);
      return Some(data[index]);
    }

    /** au_obj_tuple_set as it is written, with the same deref of the new
        value as au_obj_array_set. */
    method SetAsWritten(counts: Counts, idxVal: Int32, value: Value) returns (ok: bool)
      modifies data, counts
      ensures ok <==> SizeOf(idxVal) < data.Length
      ensures data[..] == if ok then old(data[..])[SizeOf(idxVal) := value] else old(data[..])
      ensures counts.rc == if ok then StoreCountsAsWritten(old(counts.rc), value) else old(counts.rc)
    {
      var idx := SizeOf(idxVal);
      if idx >= data.Length {
        return false;
      }
      counts.RefValue(value);
      data[idx] := value;
      counts.DerefValue(data[idx]);
      return true;
    }

    /** au_obj_tuple_set with the deref applied to the overwritten value:
        false when the index is out of range; otherwise only slot idx
        changes and the counts move from the old value to the new one. The
        number of slots never changes. */
    method Set(counts: Counts, idxVal: Int32, value: Value) returns (ok: bool)
      modifies data, counts
      ensures ok <==> SizeOf(idxVal) < data.Length
      ensures data[..] == if ok then old(data[..])[SizeOf(idxVal) := value] else old(data[..])
      ensures counts.rc == if ok then StoreCounts(old(counts.rc), old(data[SizeOf(idxVal)]), value)
                           else old(counts.rc)
    {
      var idx := SizeOf(idxVal);
      if idx >= data.Length {
        return false;
      }
      var prev := data[idx];
      counts.RefValue(value);
      data[idx] := value;
      counts.DerefValue(prev);
      return true;
    }

    /** au_obj_tuple_len: the length cast to int32_t. */
    function Len(): (r: Int32)
      ensures data.Length <= Int32Max ==> r == data.Length
    {
      Wrap(data.Length)
    }
  }

  // ---- classes --------------------------------------------------------------

  /** struct au_class_interface: the class's name, flags, a uint32_t count
      and the map from property name to slot index. */
  class ClassInterface {
    var name: seq<byte>
    var flags: nat
    var rc: nat
    const props: HmVars.Vars
    /** Whether the interface has not yet been freed. */
    var live: bool

    /** The count fits its uint32_t. */
    ghost predicate Valid()
      reads this
    {
      rc < Two32
    }

    /** The number of properties: the map's item count. */
    function Count(): nat
      reads this, props
    {
      props.nitems
    }

    /** au_class_interface_init: count 1, no flag, an empty property map. */
    constructor (name: seq<byte>)
      ensures Valid() && this.name == name && flags == 0 && rc == 1 && live
      ensures fresh(props) && props.Valid() && props.Contents == map[] && Count() == 0
    {
      this.name := name;
      flags := 0;
      rc := 1;
      live := true;
      props := new HmVars.Vars();
      new;
      props.Init();
    }

    /** au_class_interface_ref: the count goes up by one, as a uint32_t. */
    method Ref()
      requires Valid()
      modifies this
      ensures Valid()
      ensures rc == (old(rc) + 1) % Two32
      ensures old(rc) + 1 < Two32 ==> rc == old(rc) + 1
      ensures live == old(live) && name == old(name) && flags == old(flags)
    {
      rc := (rc + 1) % Two32;
    }

    /** au_class_interface_deref: the count goes down by one, as a
        uint32_t, and the interface is freed when it reaches 0. */
    method Deref()
      requires Valid()
      modifies this
      ensures Valid()
      ensures rc == (old(rc) - 1) % Two32
      ensures old(rc) > 0 ==> rc + 1 == old(rc)
      ensures live == (old(live) && rc != 0)
      ensures name == old(name) && flags == old(flags)
    {
      rc := (rc - 1) % Two32;
      if rc == 0 {
        live := false;
      }
    }
  }

  /** A ref then a deref leave an interface's count where it was. */
  lemma InterfaceDerefUndoesRef(rc: nat)
    requires rc < Two32
    ensures ((rc + 1) % Two32 - 1) % Two32 == rc
  {
  }

  /** struct au_obj_class: a header, the interface and one slot per
      property. */
  class ObjClass {
    var rc: nat
    const iface: ClassInterface
    const data: array<Value>

    /** au_obj_class_new: count 1 and one none slot per property the
        interface has. */
    constructor (iface: ClassInterface)
      ensures fresh(data) && rc == 1 && this.iface == iface
      ensures data[..] == seq(iface.Count(), _ => Nil)
    {
      rc := 1;
      this.iface := iface;
      data := new Value[iface.Count()](_ => Nil);
    }

    /** au_obj_class_get: indexing a class instance always fails. */
    function Get(idx: Value): (r: Option<Value>)
      ensures r.None?
    {
      None
    }

    /** au_obj_class_set: so does storing through an index. */
    function Set(idx: Value, value: Value): (ok: bool)
      ensures !ok
    {
      false
    }

    /** au_obj_class_len: the interface's property count cast to int32_t. */
    function Len(): (r: Int32)
      reads this, iface, iface.props
      ensures iface.Count() <= Int32Max ==> r == iface.Count()
    {
      Wrap(iface.Count())
    }
  }
}
