// The growable array generated by AU_ARRAY_COPY / AU_ARRAY_STRUCT
// (src/core/array.h). A zero-initialised struct has no storage (cap 0);
// the first add allocates IN_CAP slots and every later add on a full
// array doubles the capacity.
module GrowArray {
  import opened Wrappers

  /** au_fatal_index: the index that was out of bounds and the length. */
  datatype Fatal = FatalIndex(idx: nat, len: nat)

  class Array<T> {
    var data: array<T>
    var len: nat
    const inCap: nat

    ghost predicate Valid()
      reads this
    {
      inCap > 0 && len <= data.Length
    }

    /** The elements data[0..len). */
    ghost function Contents(): seq<T>
      reads this, data
      requires Valid()
    {
      data[..len]
    }

    function Cap(): nat
      reads this
    {
      data.Length
    }

    /** A zero-initialised array: no storage, length 0. */
    constructor (inCap: nat)
      requires inCap > 0
      ensures Valid() && fresh(data)
      ensures this.inCap == inCap && len == 0 && Cap() == 0 && Contents() == []
    {
      this.inCap := inCap;
      data := new T[0];
      len := 0;
    }

    /** An array given `capacity` slots of storage up front, as
        au_obj_array_new does: length 0, capacity as given. */
    constructor WithCapacity(inCap: nat, capacity: nat, fill: T)
      requires inCap > 0
      ensures Valid() && fresh(data)
      ensures this.inCap == inCap && len == 0 && Cap() == capacity && Contents() == []
    {
      this.inCap := inCap;
      data := new T[capacity](_ => fill);
      len := 0;
    }

    /** NAME##_add: appends el at index len; storage is created with IN_CAP
        slots, or doubled when full, first. */
    method Add(el: T)
      requires Valid()
      modifies this, data
      ensures Valid()
      ensures data == old(data) || fresh(data)
      ensures Contents() == old(Contents()) + [el]
      ensures len == old(len) + 1
      ensures Cap() == if old(Cap()) == 0 then inCap
                       else if old(len) == old(Cap()) then 2 * old(Cap())
                       else old(Cap())
    {
      if data.Length == 0 {
        data := new T[inCap](_ => el);
      } else if len == data.Length {
        var nd := new T[2 * data.Length](_ => el);
        forall i | 0 <= i < len {
          nd[i] := data[i];
        }
        data := nd;
      }
      data[len] := el;
      len := len + 1;
    }

    /** NAME##_at: the element at idx; an index at or past len is fatal. */
    function At(idx: nat): (r: Result<T, Fatal>)
      reads this, data
      requires Valid()
      ensures r.Ok? <==> idx < len
      ensures r.Ok? ==> r.value == Contents()[idx]
      ensures r.Err? ==> r.error == FatalIndex(idx, len)
    {
      if idx >= len then Err(FatalIndex(idx, len)) else Ok(data[idx])
    }

    /** NAME##_at_ptr and NAME##_at_mut: the slot idx refers to, after the
        same bounds check. */
    function AtPtr(idx: nat): (r: Result<nat, Fatal>)
      reads this
      requires Valid()
      ensures r.Ok? <==> idx < len
      ensures r.Ok? ==> r.value == idx && r.value < data.Length
    {
      if idx >= len then Err(FatalIndex(idx, len)) else Ok(idx)
    }

    /** NAME##_set: overwrites element idx only; an index at or past len is
        fatal and changes nothing. */
    method Set(idx: nat, thing: T) returns (r: Result<(), Fatal>)
      requires Valid()
      modifies data
      ensures Valid()
      ensures r.Ok? <==> idx < old(len)
      ensures Contents() == if r.Ok? then old(Contents())[idx := thing] else old(Contents())
    {
      if idx >= len {
        return Err(FatalIndex(idx, len));
      }
      data[idx] := thing;
      return Ok(());
    }
  }
}
