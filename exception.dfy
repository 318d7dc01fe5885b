// Locating a run-time error in the source (resolve_pos in
// src/core/vm/exception.c): the offset of the failing instruction is looked
// up among the program's source-map entries, which the parser records for
// each statement that emitted bytecode, from the statement's first byte to
// the length of the bytecode after it.
module Exception {
  import opened Wrappers
  import Stmt

  /** The part of struct au_vm_frame the lookup reads: the bytecode
      pointer and the start of the function's bytecode, as offsets. */
  datatype Frame = Frame(bcStart: nat, bc: nat)

  /** The test resolve_pos applies: both bounds inclusive. */
  predicate CoversAsWritten(m: Stmt.MapEntry, pc: nat)
  {
    m.bcFrom <= pc && pc <= m.bcTo
  }

  /** The range a recorded entry stands for: bc_to is the length of the
      bytecode after the statement, so the end is exclusive. */
  predicate Covers(m: Stmt.MapEntry, pc: nat)
  {
    m.bcFrom <= pc < m.bcTo
  }

  /** The first entry, from index i on, whose range holds pc under the
      chosen test. */
  function FirstCovering(maps: seq<Stmt.MapEntry>, pc: nat, inclusive: bool, i: nat): (r: Option<nat>)
    requires i <= |maps|
    ensures r.None? <==> forall j :: i <= j < |maps| ==>
      !(if inclusive then CoversAsWritten(maps[j], pc) else Covers(maps[j], pc))
    ensures r.Some? ==> (i <= r.value < |maps| &&
      (if inclusive then CoversAsWritten(maps[r.value], pc) else Covers(maps[r.value], pc)) &&
      forall j :: i <= j < r.value ==> !(if inclusive then CoversAsWritten(maps[j], pc) else Covers(maps[j], pc)))
    decreases |maps| - i
  {
    if i == |maps| then None
    else if (if inclusive then CoversAsWritten(maps[i], pc) else Covers(maps[i], pc)) then Some(i)
    else FirstCovering(maps, pc, inclusive, i + 1)
  }

  /** The position resolve_pos reports: the source start of the first
      covering entry, or 0 when none covers pc. */
  function PosOf(maps: seq<Stmt.MapEntry>, pc: nat, inclusive: bool): nat
  {
    match FirstCovering(maps, pc, inclusive, 0)
    case None => 0
    case Some(k) => maps[k].sourceStart
  }

  /** resolve_pos as written: pc is the offset of the frame's bytecode
      pointer, and the entries are searched in order with both bounds
      inclusive. */
  method ResolvePosAsWritten(frame: Frame, maps: seq<Stmt.MapEntry>) returns (pos: nat)
    requires frame.bcStart <= frame.bc
    ensures pos == PosOf(maps, frame.bc - frame.bcStart, true)
  {
    var pc := frame.bc - frame.bcStart;
    var i := 0;
    while i < |maps|
      invariant 0 <= i <= |maps|
      invariant FirstCovering(maps, pc, true, i) == FirstCovering(maps, pc, true, 0)
    {
      var entry := maps[i];
      if entry.bcFrom <= pc && pc <= entry.bcTo {
        return entry.sourceStart;
      }
      i := i + 1;
    }
    return 0;
  }

  /** resolve_pos with the end of each entry exclusive. */
  method ResolvePos(frame: Frame, maps: seq<Stmt.MapEntry>) returns (pos: nat)
    requires frame.bcStart <= frame.bc
    ensures pos == PosOf(maps, frame.bc - frame.bcStart, false)
  {
    var pc := frame.bc - frame.bcStart;
    var i := 0;
    while i < |maps|
      invariant 0 <= i <= |maps|
      invariant FirstCovering(maps, pc, false, i) == FirstCovering(maps, pc, false, 0)
    {
      var entry := maps[i];
      if entry.bcFrom <= pc && pc < entry.bcTo {
        return entry.sourceStart;
      }
      i := i + 1;
    }
    return 0;
  }

  /** No two entries share a byte of bytecode, as for the statements of
      one block. */
  ghost predicate Disjoint(maps: seq<Stmt.MapEntry>)
  {
    forall i, j :: 0 <= i < j < |maps| ==> maps[i].bcTo <= maps[j].bcFrom || maps[j].bcTo <= maps[i].bcFrom
  }

  /** With disjoint entries, the position found for a pc is the one of the
      statement whose bytecode holds it, wherever that entry is. */
  lemma ResolvesToOwner(maps: seq<Stmt.MapEntry>, pc: nat, k: nat)
    requires Disjoint(maps) && k < |maps| && Covers(maps[k], pc)
    ensures PosOf(maps, pc, false) == maps[k].sourceStart
  {
    var r := FirstCovering(maps, pc, false, 0);
    assert r.Some? && Covers(maps[r.value], pc);
    assert r.value == k;
  }

  /** A pc outside every entry resolves to 0, under either test. */
  lemma UncoveredIsZero(maps: seq<Stmt.MapEntry>, pc: nat)
    requires forall j :: 0 <= j < |maps| ==> pc < maps[j].bcFrom || maps[j].bcTo < pc
    ensures PosOf(maps, pc, true) == 0 && PosOf(maps, pc, false) == 0
  {
  }

  /** The inclusive test gets the first instruction of a statement wrong
      when the statement before it has an entry: with the entries of two
      consecutive four-byte statements, the error at offset 4, in the
      second statement, is reported at the first statement's position. */
  lemma BoundaryGoesToPrevious(s0: nat, s1: nat, f: int)
    requires s0 != s1
    ensures var maps := [Stmt.MapEntry(0, 4, s0, f), Stmt.MapEntry(4, 8, s1, f)];
      PosOf(maps, 4, true) == s0 && PosOf(maps, 4, false) == s1 && Covers(maps[1], 4)
  {
    var maps := [Stmt.MapEntry(0, 4, s0, f), Stmt.MapEntry(4, 8, s1, f)];
    assert FirstCovering(maps, 4, true, 0) == Some(0);
    assert FirstCovering(maps, 4, false, 1) == Some(1);
  }
}
