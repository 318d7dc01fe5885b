// The array functions of the standard library (src/stdlib/array.c):
// repeat, push and the argument check of pop. Like every library function
// they consume their arguments: each argument's count passes to the callee,
// which must either keep it (by storing or returning the value) or give it
// up.
//
// au_obj_array_coerce looks at the value's type and at its struct's
// virtual table; the array objects the heap holds are given as a map from
// their addresses, so a struct value coerces exactly when its address is in
// the map.
module StdArray {
  import opened Wrappers
  import opened Arith
  import opened Value
  import Objects

  // ---- counts ----------------------------------------------------------------------

  /** k copies of the references in m. */
  function Copies(m: multiset<Objects.Counted>, k: nat): multiset<Objects.Counted>
  {
    if k == 0 then multiset{} else Copies(m, k - 1) + m
  }

  /** k slots holding v hold k copies of v's references. */
  lemma {:induction false} SlotRefsRepeat(v: Value, k: nat)
    ensures Objects.SlotRefs(seq(k, _ => v)) == Copies(Objects.Refs(v), k)
  {
    if k > 0 {
      assert seq(k, _ => v) == seq(k - 1, _ => v) + [v];
      Objects.SlotRefsAppend(seq(k - 1, _ => v), v);
      SlotRefsRepeat(v, k - 1);
    }
  }

  /** The number of copies repeat makes: none for a negative count. */
  function Times(t: Int32): nat
  {
    if t < 0 then 0 else t
  }

  // ---- repeat -----------------------------------------------------------------------

  /** The loop of au_std_array_repeat as written: for each copy, a count
      taken on the element, then au_obj_array_push, which takes another. */
  method PushCopiesAsWritten(counts: Objects.Counts, arr: Objects.ObjArray, value: Value, times: Int32)
    requires arr.Valid() && arr.Contents() == []
    modifies counts, arr.items, arr.items.data
    ensures arr.Valid() && (arr.items.data == old(arr.items.data) || fresh(arr.items.data))
    ensures arr.Contents() == seq(Times(times), _ => value)
    ensures counts.rc == old(counts.rc) + Copies(Objects.Refs(value), 2 * Times(times))
  {
    var i: int := 0;
    while i < times
      invariant 0 <= i <= Times(times)
      invariant arr.Valid() && (arr.items.data == old(arr.items.data) || fresh(arr.items.data))
      invariant arr.Contents() == seq(i, _ => value)
      invariant counts.rc == old(counts.rc) + Copies(Objects.Refs(value), 2 * i)
    {
      ghost var rc := counts.rc;
      counts.RefValue(value);
      arr.Push(counts, value);
      assert counts.rc == rc + Objects.Refs(value) + Objects.Refs(value);
      CopiesTwoMore(old(counts.rc), Objects.Refs(value), i);
      FilledSnoc(value, i);
      i := i + 1;
    }
  }

  /** The loop of the corrected repeat: au_obj_array_push alone, which
      takes the count each slot needs. */
  method PushCopies(counts: Objects.Counts, arr: Objects.ObjArray, value: Value, times: Int32)
    requires arr.Valid() && arr.Contents() == []
    modifies counts, arr.items, arr.items.data
    ensures arr.Valid() && (arr.items.data == old(arr.items.data) || fresh(arr.items.data))
    ensures arr.Contents() == seq(Times(times), _ => value)
    ensures counts.rc == old(counts.rc) + Copies(Objects.Refs(value), Times(times))
  {
    var i: int := 0;
    while i < times
      invariant 0 <= i <= Times(times)
      invariant arr.Valid() && (arr.items.data == old(arr.items.data) || fresh(arr.items.data))
      invariant arr.Contents() == seq(i, _ => value)
      invariant counts.rc == old(counts.rc) + Copies(Objects.Refs(value), i)
    {
      arr.Push(counts, value);
      FilledSnoc(value, i);
      i := i + 1;
    }
  }

  lemma FilledSnoc(v: Value, i: nat)
    ensures seq(i + 1, _ => v) == seq(i, _ => v) + [v]
  {
  }

  lemma CopiesTwoMore(rc0: multiset<Objects.Counted>, m: multiset<Objects.Counted>, i: nat)
    ensures rc0 + Copies(m, 2 * i) + m + m == rc0 + Copies(m, 2 * (i + 1))
  {
    assert Copies(m, 2 * i + 2) == Copies(m, 2 * i + 1) + m;
  }

  /** au_std_array_repeat as written: with an int count, a new array with
      that many slots reserved and filled by the loop above, which leaves
      the argument's own count with the element; with any other count,
      both arguments are given up and the result is none. */
  method RepeatAsWritten(counts: Objects.Counts, value: Value, timesValue: Value) returns (r: Option<Objects.ObjArray>)
    modifies counts
    ensures r.Some? <==> timesValue.Int?
    ensures timesValue.Int? ==> counts.rc == old(counts.rc) + Copies(Objects.Refs(value), 2 * Times(timesValue.n))
    ensures !timesValue.Int? ==> counts.rc == old(counts.rc) - Objects.Refs(value) - Objects.Refs(timesValue)
    ensures r.Some? ==> fresh(r.value) && fresh(r.value.items) && r.value.Valid() && r.value.rc == 1
    ensures r.Some? ==> r.value.Contents() == seq(Times(timesValue.n), _ => value)
  {
    if !timesValue.Int? {
      counts.DerefValue(value);
      counts.DerefValue(timesValue);
      return None;
    }
    var times := timesValue.n;
    var arr := new Objects.ObjArray(Objects.SizeOf(times));
    PushCopiesAsWritten(counts, arr, value, times);
    counts.DerefValue(timesValue);
    return Some(arr);
  }

  /** au_std_array_repeat with the argument's count handled: each slot
      gets the count au_obj_array_push takes, and the argument's own count
      is given up at the end. */
  method Repeat(counts: Objects.Counts, value: Value, timesValue: Value) returns (r: Option<Objects.ObjArray>)
    modifies counts
    ensures r.Some? <==> timesValue.Int?
    ensures timesValue.Int? ==> counts.rc == old(counts.rc) + Copies(Objects.Refs(value), Times(timesValue.n)) - Objects.Refs(value)
    ensures !timesValue.Int? ==> counts.rc == old(counts.rc) - Objects.Refs(value) - Objects.Refs(timesValue)
    ensures r.Some? ==> fresh(r.value) && fresh(r.value.items) && r.value.Valid() && r.value.rc == 1
    ensures r.Some? ==> r.value.Contents() == seq(Times(timesValue.n), _ => value)
  {
    if !timesValue.Int? {
      counts.DerefValue(value);
      counts.DerefValue(timesValue);
      return None;
    }
    var times := timesValue.n;
    var arr := new Objects.ObjArray(Objects.SizeOf(times));
    PushCopies(counts, arr, value, times);
    counts.DerefValue(value);
    counts.DerefValue(timesValue);
    return Some(arr);
  }

  /** The corrected repeat keeps the counts in balance: if they were the
      references held elsewhere plus the argument's, they end as the
      references held elsewhere plus the new array's slots. */
  lemma RepeatKeepsBalance(ext: multiset<Objects.Counted>, value: Value, t: Int32)
    ensures ext + Objects.Refs(value) + Copies(Objects.Refs(value), Times(t)) - Objects.Refs(value)
         == ext + Objects.SlotRefs(seq(Times(t), _ => value))
  {
    SlotRefsRepeat(value, Times(t));
  }

  /** The code as written leaves a struct element with times + 1 counts
      more than it has holders, so the element is never freed. */
  lemma RepeatAsWrittenLeaks(ext: multiset<Objects.Counted>, p: Ptr, t: Int32)
    ensures var c := Objects.StructRef(p);
      (ext + Objects.Refs(Struct(p)) + Copies(Objects.Refs(Struct(p)), 2 * Times(t)))[c]
      == (ext + Objects.SlotRefs(seq(Times(t), _ => Struct(p))))[c] + Times(t) + 1
  {
    SlotRefsRepeat(Struct(p), Times(t));
    CopiesCount(Objects.StructRef(p), 2 * Times(t));
    CopiesCount(Objects.StructRef(p), Times(t));
  }

  /** k copies of one reference count that reference k times. */
  lemma {:induction false} CopiesCount(c: Objects.Counted, k: nat)
    ensures Copies(multiset{c}, k)[c] == k
  {
    if k > 0 {
      CopiesCount(c, k - 1);
    }
  }

  // ---- push and pop --------------------------------------------------------------

  /** au_obj_array_coerce: the array a value refers to, if it is one. */
  function Coerce(arrays: map<Ptr, Objects.ObjArray>, v: Value): (r: Option<Objects.ObjArray>)
    ensures r.Some? ==> v.Struct?
  {
    if v.Struct? && v.obj in arrays then Some(arrays[v.obj]) else None
  }

  /** au_std_array_push: on an array, the item is pushed (which takes a
      count on it), the item's argument count is given up and the array
      value itself is returned, keeping its count; on anything else the
      array argument is given up and the result is none. */
  method Push(counts: Objects.Counts, arrays: map<Ptr, Objects.ObjArray>, arrayValue: Value, item: Value) returns (r: Value)
    requires Coerce(arrays, arrayValue).Some? ==> Coerce(arrays, arrayValue).value.Valid()
    modifies counts
    modifies if Coerce(arrays, arrayValue).Some?
      then {Coerce(arrays, arrayValue).value.items, Coerce(arrays, arrayValue).value.items.data} else {}
    ensures Coerce(arrays, arrayValue).None? ==> r == Nil && counts.rc == old(counts.rc) - Objects.Refs(arrayValue)
    ensures Coerce(arrays, arrayValue).Some? ==> (
      var a := Coerce(arrays, arrayValue).value;
      r == arrayValue && a.Valid() && a.Contents() == old(a.Contents()) + [item] &&
      counts.rc == old(counts.rc))
  {
    var arr := Coerce(arrays, arrayValue);
    if arr.None? {
      counts.DerefValue(arrayValue);
      return Nil;
    }
    ghost var rc0 := counts.rc;
    arr.value.Push(counts, item);
    counts.DerefValue(item);
    assert counts.rc == rc0 + Objects.Refs(item) - Objects.Refs(item);
    return arrayValue;
  }

  /** The argument check of au_std_array_pop: a non-array argument is
      given up and the result is none; an array goes on to
      au_obj_array_pop, whose definition is not part of this model, so
      the array is returned to stand for that call. */
  method PopGuard(counts: Objects.Counts, arrays: map<Ptr, Objects.ObjArray>, arrayValue: Value)
    returns (r: Option<Objects.ObjArray>)
    modifies counts
    ensures r == Coerce(arrays, arrayValue)
    ensures r.None? ==> counts.rc == old(counts.rc) - Objects.Refs(arrayValue)
    ensures r.Some? ==> counts.rc == old(counts.rc)
  {
    r := Coerce(arrays, arrayValue);
    if r.None? {
      counts.DerefValue(arrayValue);
    }
  }

  /** A push keeps an array in balance: the item's argument count becomes
      the count of its new slot. */
  lemma PushKeepsBalance(ext: multiset<Objects.Counted>, s: seq<Value>, item: Value)
    ensures ext + Objects.Refs(item) + Objects.SlotRefs(s) == ext + Objects.SlotRefs(s + [item])
  {
    Objects.SlotRefsAppend(s, item);
  }

  /** Only struct values can be arrays: push and pop on any other value
      take the none path. */
  lemma NonStructIsNotArray(arrays: map<Ptr, Objects.ObjArray>, v: Value)
    requires !v.Struct?
    ensures Coerce(arrays, v).None?
  {
  }
}
