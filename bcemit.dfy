// Bytecode emission of the parser, src/core/parser/impl/bc.c. The
// bytecode buffer (an au_bc_buf, the growable array of GrowArray) is the
// sequence of bytes emitted so far; a 16-bit operand is stored through a
// uint16_t pointer, which on the little-endian targets the VM runs on puts
// the low byte first.
module BcEmit {
  import opened Wrappers

  /** uint8_t */
  type u8 = x: int | 0 <= x < 256

  /** The values a uint16_t holds. */
  const U16Limit: nat := 0x1_0000

  /** The two bytes a uint16_t store writes, low byte first. */
  function U16Bytes(v: nat): (r: seq<u8>)
    requires v < U16Limit
    ensures |r| == 2
  {
    [v % 256, v / 256]
  }

  /** The uint16_t the VM reads at idx (DEF_BC16). */
  function ReadU16(bc: seq<u8>, idx: nat): (r: nat)
    requires idx + 2 <= |bc|
    ensures r < U16Limit
  {
    bc[idx] as int + 256 * bc[idx + 1] as int
  }

  /** bc with the two bytes at idx overwritten by v. */
  function WriteU16(bc: seq<u8>, idx: nat, v: nat): (r: seq<u8>)
    requires idx + 2 <= |bc| && v < U16Limit
    ensures |r| == |bc|
  {
    bc[idx := v % 256][idx + 1 := v / 256]
  }

  /** Reading back a written operand gives the value written, and no other
      byte changes. */
  lemma ReadAfterWrite(bc: seq<u8>, idx: nat, v: nat)
    requires idx + 2 <= |bc| && v < U16Limit
    ensures ReadU16(WriteU16(bc, idx, v), idx) == v
    ensures forall j :: 0 <= j < |bc| && j != idx && j != idx + 1 ==> WriteU16(bc, idx, v)[j] == bc[j]
  {
  }

  /** An appended operand reads back as the value appended, and the bytes
      before it are untouched. */
  lemma ReadAppended(bc: seq<u8>, v: nat)
    requires v < U16Limit
    ensures ReadU16(bc + U16Bytes(v), |bc|) == v
    ensures (bc + U16Bytes(v))[..|bc|] == bc
  {
  }

  /** The bytecode buffer of struct au_parser. */
  class Emitter {
    var bc: seq<u8>

    constructor ()
      ensures bc == []
    {
      bc := [];
    }

    /** au_parser_emit_bc_u8: appends exactly one byte. */
    method EmitU8(v: u8)
      modifies this
      ensures bc == old(bc) + [v]
    {
      bc := bc + [v];
    }

    /** au_parser_emit_bc_u16: appends two zero bytes, then stores v over
        them, so exactly two bytes are appended and they read back as v. */
    method EmitU16(v: nat)
      requires v < U16Limit
      modifies this
      ensures bc == old(bc) + U16Bytes(v)
      ensures ReadU16(bc, old(|bc|)) == v
    {
      var offset := |bc|;
      EmitU8(0);
      EmitU8(0);
      bc := WriteU16(bc, offset, v);
      assert bc == old(bc) + U16Bytes(v);
      ReadAppended(old(bc), v);
    }

    /** au_parser_emit_pad8: appends a single 0 byte. */
    method EmitPad8()
      modifies this
      ensures bc == old(bc) + [0]
    {
      EmitU8(0);
    }

    /** au_replace_bc_u16: aborts unless idx + 1 < len; otherwise stores v
        at idx, changing bytes idx and idx + 1 only, and the length not at
        all. */
    method ReplaceU16(idx: nat, v: nat) returns (r: Result<(), ()>)
      requires v < U16Limit
      modifies this
      ensures r.Ok? <==> idx + 1 < old(|bc|)
      ensures r.Ok? ==> bc == WriteU16(old(bc), idx, v) && ReadU16(bc, idx) == v
      ensures r.Err? ==> bc == old(bc)
    {
      if idx + 1 >= |bc| {
        return Err(());
      }
      bc := WriteU16(bc, idx, v);
      ReadAfterWrite(old(bc), idx, v);
      return Ok(());
    }
  }
}
