// The string builder of src/lib/string_builder.h: a string object used as a
// growable buffer, written at pos and doubled when full, then handed over
// whole as the finished string.
module StringBuilder {
  import opened Wrappers
  import opened AuString

  class Builder {
    /** The string under construction; null once handed over. */
    var str: String?
    var pos: nat
    var cap: nat

    ghost predicate Valid()
      reads this, str
    {
      str != null ==> str.data.Length == cap && pos <= cap && 1 <= cap && str.rc == 1
    }

    /** The characters added so far. */
    ghost function Contents(): seq<byte>
      requires Valid() && str != null
      reads this, str, str.data
    {
      str.data[..pos]
    }

    /** au_string_builder_init: a one-byte buffer, pos 0, cap 1. */
    constructor Init()
      ensures Valid() && str != null && fresh(str) && fresh(str.data)
      ensures pos == 0 && cap == 1 && Contents() == []
    {
      str := new String.Alloc(1);
      pos := 0;
      cap := 1;
    }

    /** au_string_builder_add: double the buffer when pos reaches cap, then
        store ch at pos and advance. */
    method Add(ch: byte)
      requires Valid() && str != null
      modifies this, str, str.data
      ensures Valid() && str == old(str)
      ensures Contents() == old(Contents()) + [ch]
      ensures pos == old(pos) + 1
      ensures cap == if old(pos) == old(cap) then 2 * old(cap) else old(cap)
    {
      if pos == cap {
        var newCap := 2 * cap;
        var old_data := str.data;
        var grown := new byte[newCap](i requires 0 <= i < newCap reads old_data =>
                                        if i < old_data.Length then old_data[i] else 0);
        cap := newCap;
        str.data := grown;
      }
      str.data[pos] := ch;
      pos := pos + 1;
    }

    /** au_string_builder_into_string: the string gets length pos and is
        detached from the builder. pos is a size_t and the length field a
        uint32, so from 2^32 bytes on the length is truncated. */
    method IntoString() returns (r: String)
      requires Valid() && str != null
      modifies this, str
      ensures r == old(str) && str == null
      ensures r.Valid() && r.len == ToUint32(old(pos))
      ensures r.Bytes() == old(Contents())[..ToUint32(old(pos))]
      ensures old(pos) <= Uint32Max ==> r.Bytes() == old(Contents())
      ensures r.rc == 1
    {
      r := str;
      r.len := ToUint32(pos);
      str := null;
    }
  }
}
