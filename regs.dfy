// The register allocator of the parser, src/core/parser/impl/regs.c.
// Registers 0..AU_REGS-1 are tracked by two bitmaps (used and pinned, one
// flag per register here instead of one bit); rstack is the stack of
// registers holding intermediate results, and local_to_reg caches which
// register holds each local variable.
module Regs {
  import opened Wrappers

  /** AU_REGS (src/core/bc.h). */
  const NumRegs: nat := 256

  /** CACHED_REG_NONE: (uint8_t)-1. */
  const CachedRegNone: nat := 255

  /** The lowest register at or after from whose used flag is clear. */
  function FirstFree(used: seq<bool>, from: nat): (r: Option<nat>)
    requires from <= |used|
    ensures r.Some? ==> from <= r.value < |used| && !used[r.value] &&
                        forall j :: from <= j < r.value ==> used[j]
    ensures r.None? <==> forall j :: from <= j < |used| ==> used[j]
    decreases |used| - from
  {
    if from == |used| then None
    else if !used[from] then Some(from)
    else FirstFree(used, from + 1)
  }

  /** A free register at or after from bounds the one found: the search
      never passes over a free register. */
  lemma {:induction false} FirstFreeAtMost(used: seq<bool>, from: nat, x: nat)
    requires from <= x < |used| && !used[x]
    ensures FirstFree(used, from).Some? && FirstFree(used, from).value <= x
    decreases x - from
  {
    if used[from] {
      FirstFreeAtMost(used, from + 1, x);
    }
  }

  /** The used flags after new_reg hands out the first free register. */
  function Allocate(used: seq<bool>): seq<bool>
  {
    match FirstFree(used, 0)
    case Some(r) => used[r := true]
    case None => used
  }

  /** The used flags after set_reg_unused: a pinned register stays used. */
  function Release(used: seq<bool>, pinned: seq<bool>, reg: nat): seq<bool>
    requires reg < |used| && reg < |pinned|
  {
    if pinned[reg] then used else used[reg := false]
  }

  /** Handing out a register and giving it back restores the flags, unless
      the register got pinned in between. */
  lemma AllocateRelease(used: seq<bool>, pinned: seq<bool>)
    requires |used| == |pinned| && FirstFree(used, 0).Some?
    requires !pinned[FirstFree(used, 0).value]
    ensures Release(Allocate(used), pinned, FirstFree(used, 0).value) == used
  {
    var r := FirstFree(used, 0).value;
    assert Allocate(used)[r := false] == used;
  }

  /** Allocation takes a register that was free, so two registers handed
      out in a row (with no release between) differ. */
  lemma AllocateTwice(used: seq<bool>)
    requires FirstFree(used, 0).Some? && FirstFree(Allocate(used), 0).Some?
    ensures FirstFree(Allocate(used), 0).value != FirstFree(used, 0).value
    ensures FirstFree(Allocate(used), 0).value > FirstFree(used, 0).value
  {
    var r := FirstFree(used, 0).value;
    assert Allocate(used)[r];
  }

  /** The register state of struct au_parser. */
  class Allocator {
    const rstack: array<nat>
    var rstackLen: nat
    const used: array<bool>
    const pinned: array<bool>
    var localToReg: seq<nat>
    var maxRegister: int

    /** Every stacked register is a register index no greater than
        max_register, which therefore bounds every register in use. */
    ghost predicate Valid()
      reads this, rstack
    {
      rstack.Length == NumRegs && used.Length == NumRegs && pinned.Length == NumRegs &&
      used != pinned && rstackLen <= NumRegs &&
      -1 <= maxRegister < NumRegs &&
      forall i :: 0 <= i < rstackLen ==> rstack[i] < NumRegs && rstack[i] <= maxRegister
    }

    /** The register stack, bottom first. */
    ghost function Stack(): seq<nat>
      reads this, rstack
      requires rstackLen <= rstack.Length
    {
      rstack[..rstackLen]
    }

    /** The register part of au_parser_init: empty stack, no register used
        or pinned, max_register -1. */
    constructor ()
      ensures Valid() && fresh(rstack) && fresh(used) && fresh(pinned)
      ensures Stack() == [] && maxRegister == -1 && localToReg == []
      ensures used[..] == seq(NumRegs, _ => false) && pinned[..] == seq(NumRegs, _ => false)
    {
      rstack := new nat[NumRegs](_ => 0);
      rstackLen := 0;
      used := new bool[NumRegs](_ => false);
      pinned := new bool[NumRegs](_ => false);
      localToReg := [];
      maxRegister := -1;
    }

    /** au_parser_new_reg: fails when the stack is full or every register
        is used; otherwise takes the lowest free register, marks it used,
        pushes it and raises max_register to it. */
    method NewReg() returns (r: Option<nat>)
      requires Valid()
      modifies this, used, rstack
      ensures Valid()
      ensures unchanged(pinned) && localToReg == old(localToReg)
      ensures r.Some? <==> old(rstackLen) < NumRegs && FirstFree(old(used[..]), 0).Some?
      ensures r.Some? ==>
        r.value == FirstFree(old(used[..]), 0).value &&
        used[..] == Allocate(old(used[..])) &&
        Stack() == old(Stack()) + [r.value] &&
        maxRegister == if r.value > old(maxRegister) then r.value else old(maxRegister)
      ensures r.None? ==>
        used[..] == old(used[..]) && Stack() == old(Stack()) && maxRegister == old(maxRegister)
    {
      if rstackLen + 1 > NumRegs {
        return None;
      }
      var reg := 0;
      var found := false;
      var i := 0;
      while i < NumRegs
        invariant 0 <= i <= NumRegs
        invariant FirstFree(used[..], 0) == FirstFree(used[..], i)
        invariant !found && unchanged(used)
        decreases NumRegs - i
      {
        if !used[i] {
          found := true;
          reg := i;
          used[i] := true;
          break;
        }
        i := i + 1;
      }
      if !found {
        return None;
      }
      rstack[rstackLen] := reg;
      rstackLen := rstackLen + 1;
      if reg > maxRegister {
        maxRegister := reg;
      }
      return Some(reg);
    }

    /** au_parser_last_reg: the top of the stack; an empty stack aborts. */
    method LastReg() returns (r: Result<nat, ()>)
      requires Valid()
      ensures r.Ok? <==> rstackLen > 0
      ensures r.Ok? ==> r.value == Stack()[|Stack()| - 1] && r.value < NumRegs
    {
      if rstackLen == 0 {
        return Err(());
      }
      return Ok(rstack[rstackLen - 1]);
    }

    /** au_parser_swap_top_regs: exchanges the top two entries; fewer than
        two aborts. */
    method SwapTopRegs() returns (r: Result<(), ()>)
      requires Valid()
      modifies rstack
      ensures Valid()
      ensures r.Ok? <==> rstackLen >= 2
      ensures r.Ok? ==>
        Stack() == old(Stack())[..rstackLen - 2] +
                   [old(Stack())[rstackLen - 1], old(Stack())[rstackLen - 2]]
      ensures r.Err? ==> Stack() == old(Stack())
    {
      if rstackLen < 2 {
        return Err(());
      }
      var top2 := rstack[rstackLen - 2];
      rstack[rstackLen - 2] := rstack[rstackLen - 1];
      rstack[rstackLen - 1] := top2;
      return Ok(());
    }

    /** au_parser_push_reg: marks reg used and pushes it; a full stack
        aborts. */
    method PushReg(reg: nat) returns (r: Result<(), ()>)
      requires Valid() && reg < NumRegs
      modifies this, used, rstack
      ensures Valid()
      ensures unchanged(pinned) && localToReg == old(localToReg)
      ensures used[..] == old(used[..])[reg := true]
      ensures r.Ok? <==> old(rstackLen) < NumRegs
      ensures r.Ok? ==>
        Stack() == old(Stack()) + [reg] &&
        maxRegister == if reg > old(maxRegister) then reg else old(maxRegister)
      ensures r.Err? ==> Stack() == old(Stack()) && maxRegister == old(maxRegister)
    {
      used[reg] := true;
      if rstackLen + 1 > NumRegs {
        return Err(());
      }
      rstack[rstackLen] := reg;
      rstackLen := rstackLen + 1;
      if reg > maxRegister {
        maxRegister := reg;
      }
      return Ok(());
    }

    /** au_parser_set_reg_unused: clears reg's used flag unless it is
        pinned. */
    method SetRegUnused(reg: nat)
      requires Valid() && reg < NumRegs
      modifies used
      ensures used[..] == Release(old(used[..]), pinned[..], reg)
    {
      if !pinned[reg] {
        used[reg] := false;
      }
    }

    /** au_parser_pop_reg: pops the top register and releases it; an empty
        stack aborts. */
    method PopReg() returns (r: Result<nat, ()>)
      requires Valid()
      modifies this, used
      ensures Valid()
      ensures unchanged(pinned) && maxRegister == old(maxRegister) && localToReg == old(localToReg)
      ensures r.Ok? <==> old(rstackLen) > 0
      ensures r.Ok? ==>
        r.value == old(Stack())[old(rstackLen) - 1] &&
        Stack() == old(Stack())[..old(rstackLen) - 1] &&
        used[..] == Release(old(used[..]), pinned[..], r.value)
      ensures r.Err? ==> Stack() == old(Stack()) && used[..] == old(used[..])
    {
      if rstackLen == 0 {
        return Err(());
      }
      rstackLen := rstackLen - 1;
      var reg := rstack[rstackLen];
      SetRegUnused(reg);
      return Ok(reg);
    }

    /** au_parser_pop_reg_no_consume: pops the top register and leaves
        every used flag as it was; an empty stack aborts. */
    method PopRegNoConsume() returns (r: Result<nat, ()>)
      requires Valid()
      modifies this
      ensures Valid()
      ensures maxRegister == old(maxRegister) && localToReg == old(localToReg)
      ensures r.Ok? <==> old(rstackLen) > 0
      ensures r.Ok? ==>
        r.value == old(Stack())[old(rstackLen) - 1] &&
        Stack() == old(Stack())[..old(rstackLen) - 1]
      ensures r.Err? ==> Stack() == old(Stack())
    {
      if rstackLen == 0 {
        return Err(());
      }
      rstackLen := rstackLen - 1;
      return Ok(rstack[rstackLen]);
    }

    /** au_parser_flush_cached_regs: forgets every cached local register
        and unpins every register. */
    method FlushCachedRegs()
      requires Valid()
      modifies this, pinned
      ensures Valid()
      ensures rstackLen == old(rstackLen) && maxRegister == old(maxRegister)
      ensures |localToReg| == old(|localToReg|)
      ensures forall i :: 0 <= i < |localToReg| ==> localToReg[i] == CachedRegNone
      ensures forall i :: 0 <= i < NumRegs ==> !pinned[i]
    {
      var i := 0;
      while i < |localToReg|
        invariant 0 <= i <= |localToReg| && |localToReg| == old(|localToReg|)
        invariant Valid() && rstackLen == old(rstackLen) && maxRegister == old(maxRegister)
        invariant forall j :: 0 <= j < i ==> localToReg[j] == CachedRegNone
        decreases |localToReg| - i
      {
        localToReg := localToReg[i := CachedRegNone];
        i := i + 1;
      }
      var k := 0;
      while k < NumRegs
        invariant 0 <= k <= NumRegs
        invariant Valid() && rstackLen == old(rstackLen) && maxRegister == old(maxRegister)
        invariant |localToReg| == old(|localToReg|)
        invariant forall j :: 0 <= j < |localToReg| ==> localToReg[j] == CachedRegNone
        invariant forall j :: 0 <= j < k ==> !pinned[j]
        decreases NumRegs - k
      {
        pinned[k] := false;
        k := k + 1;
      }
    }

    /** au_parser_flush_free_regs: empties the stack; afterwards exactly
        the pinned registers are used. */
    method FlushFreeRegs()
      requires Valid()
      modifies this, used
      ensures Valid()
      ensures unchanged(pinned) && maxRegister == old(maxRegister) && localToReg == old(localToReg)
      ensures Stack() == [] && used[..] == pinned[..]
    {
      rstackLen := 0;
      var i := 0;
      while i < NumRegs
        invariant 0 <= i <= NumRegs
        invariant Valid() && rstackLen == 0 && maxRegister == old(maxRegister)
        invariant localToReg == old(localToReg)
        invariant forall j :: 0 <= j < i ==> used[j] == pinned[j]
        decreases NumRegs - i
      {
        used[i] := pinned[i];
        i := i + 1;
      }
    }
  }
}
