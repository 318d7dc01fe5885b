// Statements of src/core/parser/impl/stmt.c: the semicolon rule, the
// jump layout of if and while with its back-patching, the return
// peephole, blocks and the per-statement source map.
//
// A statement is modelled by what the statement parser emits around the
// code of its expressions: the code of an expression (as emitted by the
// expression parser) is given with the statement, together with the
// register the expression leaves its result in. The compile functions
// below state the bytecode and source map after a statement; the Parser
// class emits and back-patches them step by step.
module Stmt {
  import opened Wrappers
  import opened BcEmit
  import Lexer

  /** Opcodes of enum au_opcode (src/core/bc.h). */
  const OpMovLocalReg: u8 := 8
  const OpJnif: u8 := 17
  const OpJrel: u8 := 18
  const OpJrelb: u8 := 19
  const OpRetLocal: u8 := 30
  const OpRet: u8 := 31
  const OpRetNull: u8 := 32

  /** is_return_op (src/core/parser/impl/def.h). */
  predicate IsReturnOp(op: u8)
  {
    op == OpRetLocal || op == OpRet || op == OpRetNull
  }

  /** Why a statement is rejected: a wrong token, a jump too long for its
      16-bit offset (BYTECODE_GEN), or an error reported by the parser of
      one of its parts. */
  datatype ParseError = UnexpectedToken | BytecodeGen | Failed

  /** au_parser_exec_with_semicolon: a failed statement stays failed; a
      parsed one must be followed by ';' or the end of input. */
  function WithSemicolon(ok: bool, kind: Lexer.Kind, text: string): (r: Result<(), ParseError>)
    ensures r.Ok? <==> ok && (kind == Lexer.Eof || (kind == Lexer.Operator && text == ";"))
    ensures !ok ==> r == Err(Failed)
    ensures ok && r.Err? ==> r.error == UnexpectedToken
  {
    if !ok then Err(Failed)
    else if kind == Lexer.Eof then Ok(())
    else if kind == Lexer.Operator && |text| == 1 && text[0] == ';' then Ok(())
    else Err(UnexpectedToken)
  }

  /** struct au_program_source_map. */
  datatype MapEntry = MapEntry(bcFrom: nat, bcTo: nat, sourceStart: nat, funcIdx: int)

  /** A statement: start is the offset of its first token in the source. */
  datatype Stmt =
    | Simple(start: nat, code: seq<u8>)
    | Return(start: nat, code: seq<u8>, reg: u8)
    | If(start: nat, ifs: IfStmt)
    | While(start: nat, cond: seq<u8>, reg: u8, body: seq<Stmt>)
    | Bad(start: nat)

  datatype IfStmt = IfStmt(cond: seq<u8>, reg: u8, body: seq<Stmt>, alt: Else)

  datatype Else = NoElse | ElseBlock(block: seq<Stmt>) | ElseIf(next: IfStmt)

  /** The bytecode of the function being parsed and the source map. */
  datatype Code = Code(bc: seq<u8>, maps: seq<MapEntry>)

  /** Every source-map entry covers a non-empty range of emitted code. */
  ghost predicate MapsValid(c: Code)
  {
    forall k :: 0 <= k < |c.maps| ==> c.maps[k].bcFrom < c.maps[k].bcTo <= |c.bc|
  }

  /** au_parser_exec_return_statement after the expression: when the last
      instruction moves a local into the returned register, its opcode is
      rewritten to RET_LOCAL; otherwise RET reg is appended. */
  function ReturnCode(bc: seq<u8>, reg: u8): (r: seq<u8>)
    ensures |r| >= 4 && IsReturnOp(r[|r| - 4])
    ensures |r| == |bc| || |r| == |bc| + 4
    ensures forall j :: 0 <= j < |bc| && j != |bc| - 4 ==> r[j] == bc[j]
  {
    if |bc| > 4 && bc[|bc| - 4] == OpMovLocalReg && bc[|bc| - 3] == reg then
      bc[|bc| - 4 := OpRetLocal]
    else bc + [OpRet, reg, 0, 0]
  }

  /** Back-patching a 16-bit jump offset at idx: (to - from) / 4
      instructions, which must fit in 16 bits. */
  function Patch(bc: seq<u8>, idx: nat, from: nat, to: nat): (r: Result<seq<u8>, ParseError>)
    requires idx + 2 <= |bc| && from <= to
    ensures r.Ok? <==> (to - from) / 4 < U16Limit
    ensures r.Err? ==> r.error == BytecodeGen
    ensures r.Ok? ==> |r.value| == |bc| && ReadU16(r.value, idx) == (to - from) / 4
  {
    var offset := (to - from) / 4;
    if offset >= U16Limit then Err(BytecodeGen)
    else
      ReadAfterWrite(bc, idx, offset);
      Ok(WriteU16(bc, idx, offset))
  }

  /** A patch changes the two bytes of its operand and nothing else. */
  lemma PatchFrame(bc: seq<u8>, idx: nat, from: nat, to: nat)
    requires idx + 2 <= |bc| && from <= to && Patch(bc, idx, from, to).Ok?
    ensures var r := Patch(bc, idx, from, to).value;
      (forall j :: 0 <= j < |bc| && j != idx && j != idx + 1 ==> r[j] == bc[j]) &&
      r[..idx] == bc[..idx]
  {
    ReadAfterWrite(bc, idx, (to - from) / 4);
  }

  /** A statement after which control never reaches the next one: a
      return, or an if whose every branch ends in such a statement. */
  predicate Terminates(s: Stmt)
  {
    match s
    case Return(_, _, _) => true
    case If(_, i) => IfTerminates(i)
    case _ => false
  }

  predicate IfTerminates(i: IfStmt)
  {
    BlockTerminates(i.body) &&
    match i.alt
    case NoElse => false
    case ElseBlock(b) => BlockTerminates(b)
    case ElseIf(next) => IfTerminates(next)
  }

  predicate BlockTerminates(b: seq<Stmt>)
  {
    |b| > 0 && Terminates(b[|b| - 1])
  }

  /** A jump instruction with its offset still open: the opcode, the
      condition register (a pad byte for JREL and JRELB) and two zero
      bytes for the offset. */
  function Jump(op: u8, reg: u8): (r: seq<u8>)
    ensures |r| == 4 && r[0] == op && r[1] == reg
  {
    [op, reg, 0, 0]
  }

  /** Whether a JREL to the end of the if follows its body. As written
      (asWritten), exactly when the last instruction emitted is no return;
      corrected, exactly when control can reach the end of the body. */
  predicate JumpAfterBody(asWritten: bool, bc: seq<u8>, body: seq<Stmt>)
    requires |bc| >= 4
  {
    if asWritten then !IsReturnOp(bc[|bc| - 4]) else !BlockTerminates(body)
  }

  /** The final patches of an if: the JNIF at cLen to condTarget, then the
      JREL after the body (when there is one) to end. */
  function CloseIf(bc: seq<u8>, cLen: nat, condTarget: nat, bodyLen: Option<nat>, end: nat)
    : (r: Result<seq<u8>, ParseError>)
    requires cLen + 4 <= |bc| && cLen <= condTarget
    requires bodyLen.Some? ==> cLen + 4 <= bodyLen.value && bodyLen.value + 4 <= |bc| && bodyLen.value <= end
    ensures r.Ok? <==> (condTarget - cLen) / 4 < U16Limit &&
                       (bodyLen.Some? ==> (end - bodyLen.value) / 4 < U16Limit)
    ensures r.Err? ==> r.error == BytecodeGen
    ensures r.Ok? ==> |r.value| == |bc| && ReadU16(r.value, cLen + 2) == (condTarget - cLen) / 4
    ensures r.Ok? && bodyLen.Some? ==> ReadU16(r.value, bodyLen.value + 2) == (end - bodyLen.value) / 4
  {
    match Patch(bc, cLen + 2, cLen, condTarget)
    case Err(e) => Err(e)
    case Ok(b) =>
      if bodyLen.None? then Ok(b)
      else Patch(b, bodyLen.value + 2, bodyLen.value, end)
  }

  /** Closing an if changes only the operands of its two jumps. */
  lemma CloseIfFrame(bc: seq<u8>, cLen: nat, condTarget: nat, bodyLen: Option<nat>, end: nat)
    requires cLen + 4 <= |bc| && cLen <= condTarget
    requires bodyLen.Some? ==> cLen + 4 <= bodyLen.value && bodyLen.value + 4 <= |bc| && bodyLen.value <= end
    requires CloseIf(bc, cLen, condTarget, bodyLen, end).Ok?
    ensures var r := CloseIf(bc, cLen, condTarget, bodyLen, end).value;
      (forall j :: 0 <= j < |bc| && j != cLen + 2 && j != cLen + 3 &&
                   (bodyLen.Some? ==> j != bodyLen.value + 2 && j != bodyLen.value + 3) ==>
         r[j] == bc[j]) &&
      r[..cLen + 2] == bc[..cLen + 2]
  {
    PatchFrame(bc, cLen + 2, cLen, condTarget);
    if bodyLen.Some? {
      var b := Patch(bc, cLen + 2, cLen, condTarget).value;
      PatchFrame(b, bodyLen.value + 2, bodyLen.value, end);
      var r := Patch(b, bodyLen.value + 2, bodyLen.value, end).value;
      assert r[..cLen + 2] == r[..bodyLen.value + 2][..cLen + 2];
      assert b[..cLen + 2] == b[..bodyLen.value + 2][..cLen + 2];
    }
  }

  lemma CloseIfKeeps(bc: seq<u8>, cLen: nat, condTarget: nat, bodyLen: Option<nat>, end: nat, j: nat)
    requires cLen + 4 <= |bc| && cLen <= condTarget
    requires bodyLen.Some? ==> cLen + 4 <= bodyLen.value && bodyLen.value + 4 <= |bc| && bodyLen.value <= end
    requires CloseIf(bc, cLen, condTarget, bodyLen, end).Ok?
    requires j < |bc| && j != cLen + 2 && j != cLen + 3
    requires bodyLen.Some? ==> j != bodyLen.value + 2 && j != bodyLen.value + 3
    ensures CloseIf(bc, cLen, condTarget, bodyLen, end).value[j] == bc[j]
  {
    PatchFrame(bc, cLen + 2, cLen, condTarget);
    if bodyLen.Some? {
      PatchFrame(Patch(bc, cLen + 2, cLen, condTarget).value, bodyLen.value + 2, bodyLen.value, end);
    }
  }

  /** The exit of an else part emitted up to the end of bc: unless its
      last instruction is a return, a JREL whose offset is patched to the
      end, which is one instruction further (so its 16-bit check cannot
      fail). */
  function ElseExit(bc: seq<u8>): (r: seq<u8>)
    requires |bc| >= 4
    ensures |r| == if IsReturnOp(bc[|bc| - 4]) then |bc| else |bc| + 4
  {
    if IsReturnOp(bc[|bc| - 4]) then bc
    else WriteU16(bc + Jump(OpJrel, 0), |bc| + 2, (|bc| + 4 - |bc|) / 4)
  }

  /** The else part is kept, and its exit JREL leads to the end. */
  lemma ElseExitFacts(bc: seq<u8>)
    requires |bc| >= 4
    ensures var r := ElseExit(bc);
      r[..|bc|] == bc &&
      (!IsReturnOp(bc[|bc| - 4]) ==> r[|bc|] == OpJrel && JumpTarget(r, |bc|) == |r|)
  {
    if !IsReturnOp(bc[|bc| - 4]) {
      ReadAfterWrite(bc + Jump(OpJrel, 0), |bc| + 2, 1);
      assert ElseExit(bc)[..|bc|] == bc;
    }
  }

  lemma ElseExitKeeps(bc: seq<u8>, j: nat)
    requires |bc| >= 4 && j < |bc|
    ensures ElseExit(bc)[j] == bc[j]
  {
    ElseExitFacts(bc);
    assert ElseExit(bc)[j] == ElseExit(bc)[..|bc|][j];
  }

  /** The end of an if once its else part (if any) is emitted: the
      exit of the else part, then the patches of the condition jump to
      elseStart (the end, without an else part) and of the body jump to
      the end. */
  function Close(cLen: nat, hasElse: bool, elseStart: nat, bodyLen: Option<nat>, f: Code): (r: Result<Code, ParseError>)
    requires cLen + 4 <= elseStart <= |f.bc|
    requires bodyLen.Some? ==> cLen + 4 <= bodyLen.value && bodyLen.value + 4 <= elseStart
    ensures r.Ok? ==> |r.value.bc| >= |f.bc| && r.value.maps == f.maps
  {
    var b := if hasElse then ElseExit(f.bc) else f.bc;
    match CloseIf(b, cLen, elseStart, bodyLen, |b|)
    case Err(e) => Err(e)
    case Ok(b2) => Ok(Code(b2, f.maps))
  }

  /** The end of a while: the JNIF at cLen jumps forward to the end, the
      JRELB at bodyLen backward to the condition at condPart. */
  function CloseWhile(bc: seq<u8>, condPart: nat, cLen: nat, bodyLen: nat): (r: Result<seq<u8>, ParseError>)
    requires condPart <= cLen && cLen + 4 <= bodyLen && bodyLen + 4 == |bc|
    ensures r.Ok? <==> (|bc| - cLen) / 4 < U16Limit && (bodyLen - condPart) / 4 < U16Limit
    ensures r.Err? ==> r.error == BytecodeGen
    ensures r.Ok? ==>
      |r.value| == |bc| &&
      ReadU16(r.value, cLen + 2) == (|bc| - cLen) / 4 &&
      ReadU16(r.value, bodyLen + 2) == (bodyLen - condPart) / 4
  {
    match Patch(bc, cLen + 2, cLen, |bc|)
    case Err(e) => Err(e)
    case Ok(b) => Patch(b, bodyLen + 2, condPart, bodyLen)
  }

  /** Closing a while changes only the operands of its two jumps. */
  lemma CloseWhileFrame(bc: seq<u8>, condPart: nat, cLen: nat, bodyLen: nat)
    requires condPart <= cLen && cLen + 4 <= bodyLen && bodyLen + 4 == |bc|
    requires CloseWhile(bc, condPart, cLen, bodyLen).Ok?
    ensures var r := CloseWhile(bc, condPart, cLen, bodyLen).value;
      (forall j :: 0 <= j < |bc| && j != cLen + 2 && j != cLen + 3 && j != bodyLen + 2 && j != bodyLen + 3 ==>
         r[j] == bc[j]) &&
      r[..cLen + 2] == bc[..cLen + 2]
  {
    PatchFrame(bc, cLen + 2, cLen, |bc|);
    var b := Patch(bc, cLen + 2, cLen, |bc|).value;
    PatchFrame(b, bodyLen + 2, condPart, bodyLen);
    var r := Patch(b, bodyLen + 2, condPart, bodyLen).value;
    assert r[..cLen + 2] == r[..bodyLen + 2][..cLen + 2];
    assert b[..cLen + 2] == b[..bodyLen + 2][..cLen + 2];
  }

  /** The source map after a statement: an entry for the code from the
      statement's first byte to its last, when it emitted any. */
  function Record(c: Code, d: Code, start: nat, funcIdx: int): (r: Code)
    requires |c.bc| <= |d.bc|
    ensures r.bc == d.bc
    ensures |d.bc| > |c.bc| ==> r.maps == d.maps + [MapEntry(|c.bc|, |d.bc|, start, funcIdx)]
    ensures |d.bc| == |c.bc| ==> r.maps == d.maps
  {
    if |d.bc| != |c.bc| then Code(d.bc, d.maps + [MapEntry(|c.bc|, |d.bc|, start, funcIdx)])
    else d
  }

  /** The code of one statement, before its source-map entry. */
  function StmtCode(asWritten: bool, c: Code, s: Stmt, funcIdx: int): (r: Result<Code, ParseError>)
    ensures r.Ok? ==> |r.value.bc| >= |c.bc|
    decreases s, 2
  {
    match s
    case Simple(_, code) => Ok(Code(c.bc + code, c.maps))
    case Return(_, code, reg) => Ok(Code(ReturnCode(c.bc + code, reg), c.maps))
    case If(_, i) => CompileIf(asWritten, c, i, funcIdx)
    case While(_, cond, reg, body) => CompileWhile(asWritten, c, cond, reg, body, funcIdx)
    case Bad(_) => Err(Failed)
  }

  /** au_parser_exec_statement on one statement: the code of the
      statement, then a source-map entry when it emitted any. */
  function CompileStmt(asWritten: bool, c: Code, s: Stmt, funcIdx: int): (r: Result<Code, ParseError>)
    ensures r.Ok? ==> |r.value.bc| >= |c.bc|
    decreases s, 3
  {
    match StmtCode(asWritten, c, s, funcIdx)
    case Err(e) => Err(e)
    case Ok(d) => Ok(Record(c, d, s.start, funcIdx))
  }

  /** The statements of a block, in order, stopping at the first failure. */
  function CompileBlock(asWritten: bool, c: Code, b: seq<Stmt>, funcIdx: int): (r: Result<Code, ParseError>)
    ensures r.Ok? ==> |r.value.bc| >= |c.bc|
    decreases b, 0
  {
    if |b| == 0 then Ok(c)
    else match CompileStmt(asWritten, c, b[0], funcIdx)
      case Err(e) => Err(e)
      case Ok(d) => CompileBlock(asWritten, d, b[1..], funcIdx)
  }

  /** au_parser_exec_if_statement: the condition, JNIF on its register
      with the offset left open, then the body. */
  function CompileIf(asWritten: bool, c: Code, i: IfStmt, funcIdx: int): (r: Result<Code, ParseError>)
    ensures r.Ok? ==> |r.value.bc| >= |c.bc| + |i.cond| + 4
    decreases i, 1
  {
    var cLen := |c.bc| + |i.cond|;
    match CompileBlock(asWritten, Code(c.bc + i.cond + Jump(OpJnif, i.reg), c.maps), i.body, funcIdx)
    case Err(e) => Err(e)
    case Ok(d) => AfterBody(asWritten, cLen, i, d, funcIdx)
  }

  /** The body of an if followed by its exit: a JREL to the end of the
      if, when one is emitted. */
  function ExitJump(asWritten: bool, d: Code, body: seq<Stmt>): (g: Code)
    requires |d.bc| >= 4
    ensures g.maps == d.maps
    ensures JumpAfterBody(asWritten, d.bc, body) <==> |g.bc| > |d.bc|
    ensures g.bc == d.bc || g.bc == d.bc + Jump(OpJrel, 0)
  {
    if JumpAfterBody(asWritten, d.bc, body) then Code(d.bc + Jump(OpJrel, 0), d.maps) else d
  }

  /** The else part of an if: nothing, a block, or another if. */
  function CompileElse(asWritten: bool, g: Code, alt: Else, funcIdx: int): (r: Result<Code, ParseError>)
    ensures r.Ok? ==> |r.value.bc| >= |g.bc|
    decreases alt, 2
  {
    match alt
    case NoElse => Ok(g)
    case ElseBlock(block) => CompileBlock(asWritten, g, block, funcIdx)
    case ElseIf(next) => CompileIf(asWritten, g, next, funcIdx)
  }

  /** The if statement after its body: the JREL out of the body, the else
      part if any, and the patches. */
  function AfterBody(asWritten: bool, cLen: nat, i: IfStmt, d: Code, funcIdx: int): (r: Result<Code, ParseError>)
    requires cLen + 4 <= |d.bc|
    ensures r.Ok? ==> |r.value.bc| >= |d.bc|
    decreases i, 0
  {
    var g := ExitJump(asWritten, d, i.body);
    var bodyLen := if |g.bc| > |d.bc| then Some(|d.bc|) else None;
    match CompileElse(asWritten, g, i.alt, funcIdx)
    case Err(e) => Err(e)
    case Ok(f) => Close(cLen, !i.alt.NoElse?, |g.bc|, bodyLen, f)
  }

  /** au_parser_exec_while_statement. */
  function CompileWhile(asWritten: bool, c: Code, cond: seq<u8>, reg: u8, body: seq<Stmt>, funcIdx: int)
    : (r: Result<Code, ParseError>)
    ensures r.Ok? ==> |r.value.bc| >= |c.bc| + |cond| + 8
    decreases body, 1
  {
    var condPart := |c.bc|;
    var cLen := |c.bc| + |cond|;
    match CompileBlock(asWritten, Code(c.bc + cond + Jump(OpJnif, reg), c.maps), body, funcIdx)
    case Err(e) => Err(e)
    case Ok(d) =>
      match CloseWhile(d.bc + Jump(OpJrelb, 0), condPart, cLen, |d.bc|)
      case Err(e) => Err(e)
      case Ok(b) => Ok(Code(b, d.maps))
  }

  /** Where the jump at pc leads, as the VM executes JNIF, JREL and JRELB:
      the 16-bit operand counts instructions of four bytes, forward from
      the jump itself, or backward for JRELB. */
  function JumpTarget(bc: seq<u8>, pc: nat): (t: int)
    requires pc + 4 <= |bc|
  {
    if bc[pc] == OpJrelb then pc - 4 * ReadU16(bc, pc + 2) else pc + 4 * ReadU16(bc, pc + 2)
  }

  /** The code the expression parser hands over is whole instructions of
      four bytes, and a returned expression emits at least one. */
  predicate StmtAligned(s: Stmt)
    decreases s, 3
  {
    match s
    case Simple(_, code) => |code| % 4 == 0
    case Return(_, code, _) => |code| % 4 == 0 && |code| > 0
    case If(_, i) => IfAligned(i)
    case While(_, cond, _, body) => |cond| % 4 == 0 && BlockAligned(body)
    case Bad(_) => true
  }

  predicate BlockAligned(b: seq<Stmt>)
    decreases b, 0
  {
    forall k :: 0 <= k < |b| ==> StmtAligned(b[k])
  }

  predicate IfAligned(i: IfStmt)
    decreases i, 1
  {
    |i.cond| % 4 == 0 && BlockAligned(i.body) &&
    match i.alt
    case NoElse => true
    case ElseBlock(b) => BlockAligned(b)
    case ElseIf(next) => IfAligned(next)
  }

  /** d follows c in the parse: the bytecode grew by whole instructions
      and only the bytes from keep on may have been patched, the source
      map was only appended to, and valid map entries stay valid. */
  ghost predicate Grows(c: Code, d: Code, keep: nat)
  {
    keep <= |c.bc| <= |d.bc| && d.bc[..keep] == c.bc[..keep] && (|d.bc| - |c.bc|) % 4 == 0 &&
    |c.maps| <= |d.maps| && d.maps[..|c.maps|] == c.maps &&
    (MapsValid(c) ==> MapsValid(d))
  }

  lemma GrowsTrans(a: Code, b: Code, c: Code, k1: nat, k2: nat, k: nat)
    requires Grows(a, b, k1) && Grows(b, c, k2) && k <= k1 && k <= k2
    ensures Grows(a, c, k)
  {
    assert c.bc[..k] == a.bc[..k] by {
      assert c.bc[..k] == c.bc[..k2][..k] && b.bc[..k] == b.bc[..k2][..k];
      assert b.bc[..k] == b.bc[..k1][..k] && a.bc[..k] == a.bc[..k1][..k];
    }
    assert (|c.bc| - |a.bc|) % 4 == 0 by {
      Mod4Add(|c.bc| - |b.bc|, |b.bc| - |a.bc|);
    }
    assert c.maps[..|a.maps|] == a.maps by {
      assert c.maps[..|a.maps|] == c.maps[..|b.maps|][..|a.maps|];
    }
  }

  /** Whole instructions added to whole instructions. */
  lemma Mod4Add(x: int, y: int)
    requires x % 4 == 0 && y % 4 == 0
    ensures (x + y) % 4 == 0
  {
  }

  lemma RecordGrows(c: Code, d: Code, start: nat, funcIdx: int)
    requires Grows(c, d, |c.bc|)
    ensures Grows(c, Record(c, d, start, funcIdx), |c.bc|)
  {
    var r := Record(c, d, start, funcIdx);
    if |d.bc| > |c.bc| {
      assert r.maps[..|d.maps|] == d.maps;
      assert r.maps[..|c.maps|] == d.maps[..|c.maps|];
    }
  }

  /** Code followed by a jump whose offset is still open. */
  lemma HeadGrows(c: Code, part: seq<u8>, op: u8, reg: u8)
    requires |part| % 4 == 0
    ensures var h := Code(c.bc + part + Jump(op, reg), c.maps);
      Grows(c, h, |c.bc|) && h.bc[|c.bc| + |part|] == op && h.bc[|c.bc| + |part| + 1] == reg
  {
    var h := Code(c.bc + part + Jump(op, reg), c.maps);
    assert h.bc[..|c.bc|] == c.bc;
    assert h.maps[..|c.maps|] == c.maps;
  }

  lemma ReturnGrows(c: Code, code: seq<u8>, reg: u8)
    requires |code| % 4 == 0 && |code| > 0
    ensures Grows(c, Code(ReturnCode(c.bc + code, reg), c.maps), |c.bc|)
  {
    var bc := ReturnCode(c.bc + code, reg);
    assert forall j :: 0 <= j < |c.bc| ==> bc[j] == (c.bc + code)[j];
    assert bc[..|c.bc|] == c.bc;
    assert c.maps[..|c.maps|] == c.maps;
  }

  /** A statement only appends to the code before it (the return peephole
      rewrites an instruction of the returned expression only), and the
      entry it adds to the source map covers the code it emitted. */
  lemma {:induction false} StmtGrows(asWritten: bool, c: Code, s: Stmt, funcIdx: int, r: Code)
    requires StmtAligned(s) && CompileStmt(asWritten, c, s, funcIdx) == Ok(r)
    ensures Grows(c, r, |c.bc|)
    decreases s, 3
  {
    var d := StmtCode(asWritten, c, s, funcIdx).value;
    StmtCodeGrows(asWritten, c, s, funcIdx, d);
    RecordGrows(c, d, s.start, funcIdx);
  }

  lemma {:induction false} StmtCodeGrows(asWritten: bool, c: Code, s: Stmt, funcIdx: int, d: Code)
    requires StmtAligned(s) && StmtCode(asWritten, c, s, funcIdx) == Ok(d)
    ensures Grows(c, d, |c.bc|)
    decreases s, 2
  {
    match s {
      case Simple(_, code) =>
        assert (c.bc + code)[..|c.bc|] == c.bc;
        assert c.maps[..|c.maps|] == c.maps;
      case Return(_, code, reg) =>
        ReturnGrows(c, code, reg);
      case If(_, i) =>
        IfGrows(asWritten, c, i, funcIdx, d);
      case While(_, cond, reg, body) =>
        WhileGrows(asWritten, c, cond, reg, body, funcIdx, d);
    }
  }

  lemma {:induction false} BlockGrows(asWritten: bool, c: Code, b: seq<Stmt>, funcIdx: int, r: Code)
    requires BlockAligned(b) && CompileBlock(asWritten, c, b, funcIdx) == Ok(r)
    ensures Grows(c, r, |c.bc|)
    decreases b, 0
  {
    if |b| == 0 {
      assert c.bc[..|c.bc|] == c.bc && c.maps[..|c.maps|] == c.maps;
    } else {
      assert StmtAligned(b[0]);
      var d := CompileStmt(asWritten, c, b[0], funcIdx).value;
      StmtGrows(asWritten, c, b[0], funcIdx, d);
      AlignedTail(b);
      BlockGrows(asWritten, d, b[1..], funcIdx, r);
      GrowsTrans(c, d, r, |c.bc|, |d.bc|, |c.bc|);
    }
  }

  lemma AlignedTail(b: seq<Stmt>)
    requires |b| > 0 && BlockAligned(b)
    ensures StmtAligned(b[0]) && BlockAligned(b[1..])
  {
    forall k | 0 <= k < |b[1..]| ensures StmtAligned(b[1..][k]) {
      assert b[1..][k] == b[k + 1];
    }
  }

  /** One step of CompileIf: the body, then AfterBody. */
  lemma IfUnfold(asWritten: bool, c: Code, i: IfStmt, funcIdx: int)
    requires CompileIf(asWritten, c, i, funcIdx).Ok?
    ensures var head := Code(c.bc + i.cond + Jump(OpJnif, i.reg), c.maps);
      var d := CompileBlock(asWritten, head, i.body, funcIdx);
      d.Ok? && |d.value.bc| >= |c.bc| + |i.cond| + 4 &&
      CompileIf(asWritten, c, i, funcIdx) == AfterBody(asWritten, |c.bc| + |i.cond|, i, d.value, funcIdx)
  {
  }

  /** The if statement only appends. */
  lemma {:induction false} IfGrows(asWritten: bool, c: Code, i: IfStmt, funcIdx: int, r: Code)
    requires IfAligned(i) && CompileIf(asWritten, c, i, funcIdx) == Ok(r)
    ensures Grows(c, r, |c.bc|)
    decreases i, 2
  {
    IfUnfold(asWritten, c, i, funcIdx);
    var head := Code(c.bc + i.cond + Jump(OpJnif, i.reg), c.maps);
    var d := CompileBlock(asWritten, head, i.body, funcIdx).value;
    BlockGrows(asWritten, head, i.body, funcIdx, d);
    IfPartsGrow(asWritten, c, i, funcIdx, head, d, r);
  }

  /** The condition with its JNIF, the body and the rest of the if. */
  lemma {:induction false} IfPartsGrow(asWritten: bool, c: Code, i: IfStmt, funcIdx: int, head: Code, d: Code, r: Code)
    requires IfAligned(i) && head == Code(c.bc + i.cond + Jump(OpJnif, i.reg), c.maps)
    requires Grows(head, d, |head.bc|) && |d.bc| >= |c.bc| + |i.cond| + 4
    requires AfterBody(asWritten, |c.bc| + |i.cond|, i, d, funcIdx) == Ok(r)
    ensures Grows(c, r, |c.bc|)
    decreases i, 1
  {
    HeadGrows(c, i.cond, OpJnif, i.reg);
    AfterBodyGrows(asWritten, |c.bc| + |i.cond|, i, d, funcIdx, r);
    GrowsThree(c, head, d, r, |head.bc|, |c.bc| + |i.cond| + 2);
  }

  /** Appending a jump after c, more code, and a patch of that jump's
      operand keep all of c. */
  lemma GrowsThree(c: Code, head: Code, d: Code, r: Code, k2: nat, k3: nat)
    requires Grows(c, head, |c.bc|) && Grows(head, d, k2) && Grows(d, r, k3)
    requires |c.bc| <= k2 && |c.bc| <= k3
    ensures Grows(c, r, |c.bc|)
  {
    GrowsTrans(c, head, d, |c.bc|, k2, |c.bc|);
    GrowsTrans(c, d, r, |c.bc|, k3, |c.bc|);
  }

  /** A byte before the kept prefix. */
  lemma KeptAt(c: Code, d: Code, keep: nat, j: nat)
    requires Grows(c, d, keep) && j < keep
    ensures d.bc[j] == c.bc[j]
  {
    assert d.bc[j] == d.bc[..keep][j];
  }

  /** One step of AfterBody: the exit jump, the else part, the patches. */
  lemma AfterBodyUnfold(asWritten: bool, cLen: nat, i: IfStmt, d: Code, funcIdx: int)
    requires cLen + 4 <= |d.bc| && AfterBody(asWritten, cLen, i, d, funcIdx).Ok?
    ensures var g := ExitJump(asWritten, d, i.body);
      var f := CompileElse(asWritten, g, i.alt, funcIdx);
      f.Ok? && |f.value.bc| >= |g.bc| && (i.alt.NoElse? ==> f.value == g) &&
      AfterBody(asWritten, cLen, i, d, funcIdx) ==
        Close(cLen, !i.alt.NoElse?, |g.bc|, if |g.bc| > |d.bc| then Some(|d.bc|) else None, f.value)
  {
  }

  lemma {:induction false} AfterBodyGrows(asWritten: bool, cLen: nat, i: IfStmt, d: Code, funcIdx: int, r: Code)
    requires IfAligned(i) && cLen + 4 <= |d.bc| && AfterBody(asWritten, cLen, i, d, funcIdx) == Ok(r)
    ensures Grows(d, r, cLen + 2)
    decreases i, 0
  {
    AfterBodyUnfold(asWritten, cLen, i, d, funcIdx);
    var g := ExitJump(asWritten, d, i.body);
    ExitGrows(asWritten, d, i.body);
    var f := CompileElse(asWritten, g, i.alt, funcIdx).value;
    ElseGrows(asWritten, g, i.alt, funcIdx, f);
    ClosedGrows(cLen, !i.alt.NoElse?, if |g.bc| > |d.bc| then Some(|d.bc|) else None, d, g, f, r);
  }

  /** The exit jump, the else part and the patches together. */
  lemma ClosedGrows(cLen: nat, hasElse: bool, bodyLen: Option<nat>, d: Code, g: Code, f: Code, r: Code)
    requires cLen + 4 <= |d.bc| && Grows(d, g, |d.bc|) && Grows(g, f, |g.bc|)
    requires bodyLen.Some? ==> cLen + 4 <= bodyLen.value && bodyLen.value + 4 <= |g.bc|
    requires Close(cLen, hasElse, |g.bc|, bodyLen, f) == Ok(r)
    ensures Grows(d, r, cLen + 2)
  {
    GrowsTrans(d, g, f, |d.bc|, |g.bc|, cLen + 2);
    CloseGrows(cLen, hasElse, |g.bc|, bodyLen, f, r);
    GrowsTrans(d, f, r, cLen + 2, cLen + 2, cLen + 2);
  }

  lemma ExitGrows(asWritten: bool, d: Code, body: seq<Stmt>)
    requires |d.bc| >= 4
    ensures Grows(d, ExitJump(asWritten, d, body), |d.bc|)
  {
    assert ExitJump(asWritten, d, body).bc[..|d.bc|] == d.bc;
    assert d.maps[..|d.maps|] == d.maps;
  }

  lemma {:induction false} ElseGrows(asWritten: bool, g: Code, alt: Else, funcIdx: int, f: Code)
    requires (alt.ElseBlock? ==> BlockAligned(alt.block)) && (alt.ElseIf? ==> IfAligned(alt.next))
    requires CompileElse(asWritten, g, alt, funcIdx) == Ok(f)
    ensures Grows(g, f, |g.bc|)
    decreases alt, 2
  {
    match alt {
      case NoElse =>
        assert g.bc[..|g.bc|] == g.bc && g.maps[..|g.maps|] == g.maps;
      case ElseBlock(block) =>
        BlockGrows(asWritten, g, block, funcIdx, f);
      case ElseIf(next) =>
        IfGrows(asWritten, g, next, funcIdx, f);
    }
  }

  lemma CloseGrows(cLen: nat, hasElse: bool, elseStart: nat, bodyLen: Option<nat>, f: Code, r: Code)
    requires cLen + 4 <= elseStart <= |f.bc|
    requires bodyLen.Some? ==> cLen + 4 <= bodyLen.value && bodyLen.value + 4 <= elseStart
    requires Close(cLen, hasElse, elseStart, bodyLen, f) == Ok(r)
    ensures Grows(f, r, cLen + 2)
  {
    var b := if hasElse then ElseExit(f.bc) else f.bc;
    ElseExitFacts(f.bc);
    assert b[..|f.bc|] == f.bc;
    CloseIfFrame(b, cLen, elseStart, bodyLen, |b|);
    assert b[..cLen + 2] == b[..|f.bc|][..cLen + 2];
    assert f.maps[..|f.maps|] == f.maps;
  }

  /** The operands of the two jumps of an if once it is closed, and the
      length: the else part's exit adds an instruction unless the else
      part ends in a return. */
  lemma CloseJumps(cLen: nat, hasElse: bool, elseStart: nat, bodyLen: Option<nat>, f: Code, r: Code)
    requires cLen + 4 <= elseStart <= |f.bc|
    requires bodyLen.Some? ==> cLen + 4 <= bodyLen.value && bodyLen.value + 4 <= elseStart
    requires Close(cLen, hasElse, elseStart, bodyLen, f) == Ok(r)
    ensures ReadU16(r.bc, cLen + 2) == (elseStart - cLen) / 4
    ensures bodyLen.Some? ==> ReadU16(r.bc, bodyLen.value + 2) == (|r.bc| - bodyLen.value) / 4
    ensures !hasElse || IsReturnOp(f.bc[|f.bc| - 4]) ==> |r.bc| == |f.bc|
    ensures |r.bc| == |f.bc| || |r.bc| == |f.bc| + 4
  {
  }

  /** Closing an if changes no byte of the code before it but the
      operands of its two jumps. */
  lemma CloseKeeps(cLen: nat, hasElse: bool, elseStart: nat, bodyLen: Option<nat>, f: Code, r: Code, j: nat)
    requires cLen + 4 <= elseStart <= |f.bc|
    requires bodyLen.Some? ==> cLen + 4 <= bodyLen.value && bodyLen.value + 4 <= elseStart
    requires Close(cLen, hasElse, elseStart, bodyLen, f) == Ok(r)
    requires j < |f.bc| && j != cLen + 2 && j != cLen + 3
    requires bodyLen.Some? ==> j != bodyLen.value + 2 && j != bodyLen.value + 3
    ensures r.bc[j] == f.bc[j]
  {
    var b := if hasElse then ElseExit(f.bc) else f.bc;
    CloseIfKeeps(b, cLen, elseStart, bodyLen, |b|, j);
    ElseExitKeeps(f.bc, j);
  }

  /** One step of CompileWhile: the body, then the JRELB and the patches. */
  lemma WhileUnfold(asWritten: bool, c: Code, cond: seq<u8>, reg: u8, body: seq<Stmt>, funcIdx: int)
    requires CompileWhile(asWritten, c, cond, reg, body, funcIdx).Ok?
    ensures var d := CompileBlock(asWritten, Code(c.bc + cond + Jump(OpJnif, reg), c.maps), body, funcIdx);
      d.Ok? && |d.value.bc| >= |c.bc| + |cond| + 4 &&
      CloseWhile(d.value.bc + Jump(OpJrelb, 0), |c.bc|, |c.bc| + |cond|, |d.value.bc|).Ok? &&
      CompileWhile(asWritten, c, cond, reg, body, funcIdx) ==
        Ok(Code(CloseWhile(d.value.bc + Jump(OpJrelb, 0), |c.bc|, |c.bc| + |cond|, |d.value.bc|).value, d.value.maps))
  {
  }

  /** The code with a jump appended. */
  lemma TailGrows(d: Code, op: u8, reg: u8)
    ensures var g := Code(d.bc + Jump(op, reg), d.maps);
      Grows(d, g, |d.bc|) && g.bc[|d.bc|] == op
  {
    var g := Code(d.bc + Jump(op, reg), d.maps);
    assert g.bc[..|d.bc|] == d.bc;
    assert d.maps[..|d.maps|] == d.maps;
  }

  lemma CloseWhileGrows(g: Code, condPart: nat, cLen: nat, bodyLen: nat)
    requires condPart <= cLen && cLen + 4 <= bodyLen && bodyLen + 4 == |g.bc|
    requires CloseWhile(g.bc, condPart, cLen, bodyLen).Ok?
    ensures var r := Code(CloseWhile(g.bc, condPart, cLen, bodyLen).value, g.maps);
      Grows(g, r, cLen + 2) && r.bc[bodyLen] == g.bc[bodyLen]
  {
    CloseWhileFrame(g.bc, condPart, cLen, bodyLen);
    assert g.maps[..|g.maps|] == g.maps;
  }

  /** The while statement only appends. */
  lemma {:induction false} WhileGrows(asWritten: bool, c: Code, cond: seq<u8>, reg: u8, body: seq<Stmt>, funcIdx: int, r: Code)
    requires |cond| % 4 == 0 && BlockAligned(body) && CompileWhile(asWritten, c, cond, reg, body, funcIdx) == Ok(r)
    ensures Grows(c, r, |c.bc|)
    decreases body, 1
  {
    WhileUnfold(asWritten, c, cond, reg, body, funcIdx);
    var head := Code(c.bc + cond + Jump(OpJnif, reg), c.maps);
    var d := CompileBlock(asWritten, head, body, funcIdx).value;
    assert Grows(c, head, |c.bc|) by {
      HeadGrows(c, cond, OpJnif, reg);
    }
    assert Grows(head, d, |head.bc|) by {
      BlockGrows(asWritten, head, body, funcIdx, d);
    }
    CloseWhileKeeps(c, head, d, |c.bc| + |cond|, r);
  }

  /** Closing a while after its body appends the JRELB and patches only
      the two jump operands. */
  lemma CloseWhileKeeps(c: Code, head: Code, d: Code, cLen: nat, r: Code)
    requires Grows(c, head, |c.bc|) && Grows(head, d, |head.bc|)
    requires |c.bc| <= cLen && cLen + 4 == |head.bc|
    requires CloseWhile(d.bc + Jump(OpJrelb, 0), |c.bc|, cLen, |d.bc|).Ok?
    requires r == Code(CloseWhile(d.bc + Jump(OpJrelb, 0), |c.bc|, cLen, |d.bc|).value, d.maps)
    ensures Grows(c, r, |c.bc|)
  {
    var g := Code(d.bc + Jump(OpJrelb, 0), d.maps);
    assert Grows(head, g, |head.bc|) by {
      TailGrows(d, OpJrelb, 0);
      GrowsTrans(head, d, g, |head.bc|, |d.bc|, |head.bc|);
    }
    CloseWhileGrows(g, |c.bc|, cLen, |d.bc|);
    GrowsThree(c, head, g, r, |head.bc|, cLen + 2);
  }

  /** A statement after which control cannot continue compiles to code
      whose last instruction is a return. */
  lemma {:induction false} StmtEndsInReturn(asWritten: bool, c: Code, s: Stmt, funcIdx: int, r: Code)
    requires StmtAligned(s) && Terminates(s) && CompileStmt(asWritten, c, s, funcIdx) == Ok(r)
    ensures |r.bc| >= |c.bc| + 4 && IsReturnOp(r.bc[|r.bc| - 4])
    decreases s, 3
  {
    var d := StmtCode(asWritten, c, s, funcIdx).value;
    assert r.bc == d.bc;
    match s {
      case Return(_, code, reg) =>
      case If(_, i) =>
        IfEndsInReturn(asWritten, c, i, funcIdx, d);
    }
  }

  lemma {:induction false} BlockEndsInReturn(asWritten: bool, c: Code, b: seq<Stmt>, funcIdx: int, r: Code)
    requires BlockAligned(b) && BlockTerminates(b) && CompileBlock(asWritten, c, b, funcIdx) == Ok(r)
    ensures |r.bc| >= |c.bc| + 4 && IsReturnOp(r.bc[|r.bc| - 4])
    decreases b, 0
  {
    var d := CompileStmt(asWritten, c, b[0], funcIdx).value;
    AlignedTail(b);
    if |b| == 1 {
      assert CompileBlock(asWritten, d, b[1..], funcIdx) == Ok(d);
      StmtEndsInReturn(asWritten, c, b[0], funcIdx, d);
    } else {
      assert b[1..][|b[1..]| - 1] == b[|b| - 1];
      BlockEndsInReturn(asWritten, d, b[1..], funcIdx, r);
    }
  }

  /** An if whose branches all end in a return ends in its else part's
      return: no JREL follows it and the patches leave it alone. */
  lemma {:induction false} IfEndsInReturn(asWritten: bool, c: Code, i: IfStmt, funcIdx: int, r: Code)
    requires IfAligned(i) && IfTerminates(i) && CompileIf(asWritten, c, i, funcIdx) == Ok(r)
    ensures |r.bc| >= |c.bc| + 4 && IsReturnOp(r.bc[|r.bc| - 4])
    decreases i, 1
  {
    IfUnfold(asWritten, c, i, funcIdx);
    var d := CompileBlock(asWritten, Code(c.bc + i.cond + Jump(OpJnif, i.reg), c.maps), i.body, funcIdx).value;
    AfterBodyEndsInReturn(asWritten, |c.bc| + |i.cond|, i, d, funcIdx, r);
  }

  /** The part of an if after its body ends in the else part's return. */
  lemma {:induction false} AfterBodyEndsInReturn(asWritten: bool, cLen: nat, i: IfStmt, d: Code, funcIdx: int, r: Code)
    requires IfAligned(i) && IfTerminates(i)
    requires cLen + 4 <= |d.bc| && AfterBody(asWritten, cLen, i, d, funcIdx) == Ok(r)
    ensures |r.bc| >= cLen + 4 && IsReturnOp(r.bc[|r.bc| - 4])
    decreases i, 0
  {
    AfterBodyUnfold(asWritten, cLen, i, d, funcIdx);
    var g := ExitJump(asWritten, d, i.body);
    var bodyLen := if |g.bc| > |d.bc| then Some(|d.bc|) else None;
    var f := CompileElse(asWritten, g, i.alt, funcIdx).value;
    ElseEndsInReturn(asWritten, g, i.alt, funcIdx, f);
    CloseJumps(cLen, true, |g.bc|, bodyLen, f, r);
    CloseKeeps(cLen, true, |g.bc|, bodyLen, f, r, |f.bc| - 4);
  }

  lemma {:induction false} ElseEndsInReturn(asWritten: bool, g: Code, alt: Else, funcIdx: int, f: Code)
    requires !alt.NoElse?
    requires alt.ElseBlock? ==> BlockAligned(alt.block) && BlockTerminates(alt.block)
    requires alt.ElseIf? ==> IfAligned(alt.next) && IfTerminates(alt.next)
    requires CompileElse(asWritten, g, alt, funcIdx) == Ok(f)
    ensures |f.bc| >= |g.bc| + 4 && IsReturnOp(f.bc[|f.bc| - 4])
    decreases alt, 2
  {
    match alt {
      case ElseBlock(block) =>
        BlockEndsInReturn(asWritten, g, block, funcIdx, f);
      case ElseIf(next) =>
        IfEndsInReturn(asWritten, g, next, funcIdx, f);
    }
  }

  /** A forward jump whose operand counts the instructions to t. */
  lemma ForwardTarget(bc: seq<u8>, pc: nat, t: nat)
    requires pc + 4 <= |bc| && bc[pc] != OpJrelb && pc <= t && (t - pc) % 4 == 0
    requires ReadU16(bc, pc + 2) == (t - pc) / 4
    ensures JumpTarget(bc, pc) == t
  {
  }

  /** A JRELB whose operand counts the instructions back to t. */
  lemma BackwardTarget(bc: seq<u8>, pc: nat, t: nat)
    requires pc + 4 <= |bc| && bc[pc] == OpJrelb && t <= pc && (pc - t) % 4 == 0
    requires ReadU16(bc, pc + 2) == (pc - t) / 4
    ensures JumpTarget(bc, pc) == t
  {
  }

  /** The jumps of an if whose JNIF sits at cLen, whose body ends at
      |d.bc| and whose code ends at |r.bc|: a body that cannot fall through
      ends in a return and the JNIF leads past it; one that can is followed
      by a JREL to the end and the JNIF leads past that JREL; without an
      else part the JNIF leads to the end. */
  ghost predicate IfLayout(cLen: nat, i: IfStmt, d: Code, r: Code)
  {
    cLen + 4 <= |d.bc| <= |r.bc| && r.bc[cLen] == OpJnif && r.bc[cLen + 1] == i.reg &&
    (if BlockTerminates(i.body) then EndsBodyInReturn(cLen, d, r) else ExitsBody(cLen, d, r)) &&
    (i.alt.NoElse? ==> JumpTarget(r.bc, cLen) == |r.bc|)
  }

  /** The body ends in a return and the JNIF at cLen leads past it. */
  ghost predicate EndsBodyInReturn(cLen: nat, d: Code, r: Code)
    requires cLen + 4 <= |d.bc| <= |r.bc|
  {
    |d.bc| >= cLen + 8 && IsReturnOp(r.bc[|d.bc| - 4]) && JumpTarget(r.bc, cLen) == |d.bc|
  }

  /** The body is followed by a JREL to the end, and the JNIF at cLen
      leads past that JREL. */
  ghost predicate ExitsBody(cLen: nat, d: Code, r: Code)
    requires cLen + 4 <= |d.bc| <= |r.bc|
  {
    |r.bc| >= |d.bc| + 4 && r.bc[|d.bc|] == OpJrel && JumpTarget(r.bc, |d.bc|) == |r.bc| &&
    JumpTarget(r.bc, cLen) == |d.bc| + 4
  }

  /** The jumps of an if, with the JREL after a body decided by whether
      control can reach the end of the body. The JNIF on the condition's
      register leads past the body and its exit jump (to the else part,
      or to the end when there is none). A body that can fall through is
      followed by a JREL to the end of the whole statement; one that
      cannot ends in a return. So no path leaves the body into the else
      part. */
  lemma IfJumps(c: Code, i: IfStmt, funcIdx: int, d: Code, r: Code)
    requires IfAligned(i)
    requires CompileBlock(false, Code(c.bc + i.cond + Jump(OpJnif, i.reg), c.maps), i.body, funcIdx) == Ok(d)
    requires CompileIf(false, c, i, funcIdx) == Ok(r)
    ensures IfLayout(|c.bc| + |i.cond|, i, d, r)
  {
    IfUnfold(false, c, i, funcIdx);
    BodyLayout(c, i, funcIdx, d);
    AfterBodyLayout(|c.bc| + |i.cond|, i, d, funcIdx, r);
  }

  /** The code of an if up to the end of its body: the JNIF at cLen, and
      a body that cannot fall through ending in a return. */
  ghost predicate BodyFacts(cLen: nat, i: IfStmt, d: Code)
  {
    cLen + 4 <= |d.bc| && (|d.bc| - cLen) % 4 == 0 && d.bc[cLen] == OpJnif && d.bc[cLen + 1] == i.reg &&
    (BlockTerminates(i.body) ==> |d.bc| >= cLen + 8 && IsReturnOp(d.bc[|d.bc| - 4]))
  }

  lemma BodyLayout(c: Code, i: IfStmt, funcIdx: int, d: Code)
    requires IfAligned(i)
    requires CompileBlock(false, Code(c.bc + i.cond + Jump(OpJnif, i.reg), c.maps), i.body, funcIdx) == Ok(d)
    ensures BodyFacts(|c.bc| + |i.cond|, i, d)
  {
    var cLen := |c.bc| + |i.cond|;
    var head := Code(c.bc + i.cond + Jump(OpJnif, i.reg), c.maps);
    assert |head.bc| == cLen + 4;
    HeadGrows(c, i.cond, OpJnif, i.reg);
    BlockGrows(false, head, i.body, funcIdx, d);
    assert (|d.bc| - cLen) % 4 == 0 by {
      Mod4Add(|d.bc| - |head.bc|, 4);
    }
    assert d.bc[cLen] == OpJnif && d.bc[cLen + 1] == i.reg by {
      KeptAt(head, d, |head.bc|, cLen);
      KeptAt(head, d, |head.bc|, cLen + 1);
    }
    if BlockTerminates(i.body) {
      BlockEndsInReturn(false, head, i.body, funcIdx, d);
    }
  }

  lemma AfterBodyLayout(cLen: nat, i: IfStmt, d: Code, funcIdx: int, r: Code)
    requires IfAligned(i) && BodyFacts(cLen, i, d)
    requires AfterBody(false, cLen, i, d, funcIdx) == Ok(r)
    ensures IfLayout(cLen, i, d, r)
  {
    AfterBodyUnfold(false, cLen, i, d, funcIdx);
    var g := ExitJump(false, d, i.body);
    var f := CompileElse(false, g, i.alt, funcIdx).value;
    ElseGrows(false, g, i.alt, funcIdx, f);
    CloseFacts(cLen, !i.alt.NoElse?, d, g, f, r);
    CloseLayout(cLen, !i.alt.NoElse?, d, g, f, r);
  }

  /** The bytes and operands of a closed if that its layout depends on. */
  lemma CloseFacts(cLen: nat, hasElse: bool, d: Code, g: Code, f: Code, r: Code)
    requires cLen + 4 <= |d.bc| && (|d.bc| - cLen) % 4 == 0
    requires (g.bc == d.bc || g.bc == d.bc + Jump(OpJrel, 0)) && |g.bc| <= |f.bc|
    requires Close(cLen, hasElse, |g.bc|, if |g.bc| > |d.bc| then Some(|d.bc|) else None, f) == Ok(r)
    ensures |r.bc| == |f.bc| || |r.bc| == |f.bc| + 4
    ensures !hasElse ==> |r.bc| == |f.bc|
    ensures ReadU16(r.bc, cLen + 2) == (|g.bc| - cLen) / 4
    ensures |g.bc| > |d.bc| ==> ReadU16(r.bc, |d.bc| + 2) == (|r.bc| - |d.bc|) / 4
    ensures r.bc[cLen] == f.bc[cLen] && r.bc[cLen + 1] == f.bc[cLen + 1]
    ensures |g.bc| > |d.bc| ==> r.bc[|d.bc|] == f.bc[|d.bc|]
    ensures |g.bc| == |d.bc| ==> r.bc[|d.bc| - 4] == f.bc[|d.bc| - 4]
  {
    var bodyLen := if |g.bc| > |d.bc| then Some(|d.bc|) else None;
    CloseJumps(cLen, hasElse, |g.bc|, bodyLen, f, r);
    CloseKeeps(cLen, hasElse, |g.bc|, bodyLen, f, r, cLen);
    CloseKeeps(cLen, hasElse, |g.bc|, bodyLen, f, r, cLen + 1);
    if |g.bc| > |d.bc| {
      CloseKeeps(cLen, hasElse, |g.bc|, bodyLen, f, r, |d.bc|);
    } else {
      CloseKeeps(cLen, hasElse, |g.bc|, bodyLen, f, r, |d.bc| - 4);
    }
  }

  /** The layout of a closed if in terms of the code after its body (d),
      after its exit jump (g) and after its else part (f). */
  lemma CloseLayout(cLen: nat, hasElse: bool, d: Code, g: Code, f: Code, r: Code)
    requires cLen + 4 <= |d.bc| && (|d.bc| - cLen) % 4 == 0 && d.bc[cLen] == OpJnif
    requires g.bc == d.bc || g.bc == d.bc + Jump(OpJrel, 0)
    requires Grows(g, f, |g.bc|) && (!hasElse ==> f == g)
    requires |r.bc| == |f.bc| || |r.bc| == |f.bc| + 4
    requires !hasElse ==> |r.bc| == |f.bc|
    requires ReadU16(r.bc, cLen + 2) == (|g.bc| - cLen) / 4
    requires |g.bc| > |d.bc| ==> ReadU16(r.bc, |d.bc| + 2) == (|r.bc| - |d.bc|) / 4
    requires r.bc[cLen] == f.bc[cLen] && r.bc[cLen + 1] == f.bc[cLen + 1]
    requires |g.bc| > |d.bc| ==> r.bc[|d.bc|] == f.bc[|d.bc|]
    requires |g.bc| == |d.bc| ==> r.bc[|d.bc| - 4] == f.bc[|d.bc| - 4]
    ensures |d.bc| <= |r.bc| && r.bc[cLen] == OpJnif && r.bc[cLen + 1] == d.bc[cLen + 1]
    ensures JumpTarget(r.bc, cLen) == |g.bc|
    ensures |g.bc| > |d.bc| ==> |r.bc| >= |d.bc| + 4 && r.bc[|d.bc|] == OpJrel && JumpTarget(r.bc, |d.bc|) == |r.bc|
    ensures |g.bc| == |d.bc| ==> r.bc[|d.bc| - 4] == d.bc[|d.bc| - 4]
    ensures !hasElse ==> |r.bc| == |g.bc|
  {
    KeptAt(g, f, |g.bc|, cLen);
    KeptAt(g, f, |g.bc|, cLen + 1);
    if |g.bc| > |d.bc| {
      KeptAt(g, f, |g.bc|, |d.bc|);
    } else {
      KeptAt(g, f, |g.bc|, |d.bc| - 4);
    }
    JumpArith(r.bc, cLen, |d.bc|, |g.bc|, |f.bc|);
  }

  /** The targets of the two jumps of an if, from their operands and the
      lengths of its parts in whole instructions. */
  lemma JumpArith(bc: seq<u8>, cLen: nat, dLen: nat, gLen: nat, fLen: nat)
    requires cLen + 4 <= dLen <= gLen <= fLen <= |bc| && (gLen == dLen || gLen == dLen + 4)
    requires (dLen - cLen) % 4 == 0 && (fLen - gLen) % 4 == 0 && (|bc| - fLen) % 4 == 0
    requires bc[cLen] == OpJnif && ReadU16(bc, cLen + 2) == (gLen - cLen) / 4
    requires gLen > dLen ==> bc[dLen] == OpJrel && ReadU16(bc, dLen + 2) == (|bc| - dLen) / 4
    ensures JumpTarget(bc, cLen) == gLen
    ensures gLen > dLen ==> JumpTarget(bc, dLen) == |bc|
  {
    ForwardTarget(bc, cLen, gLen);
    if gLen > dLen {
      ForwardTarget(bc, dLen, |bc|);
    }
  }

  /** The jumps of a while: the JNIF on the condition's register leads to
      the end of the loop, and the JRELB closing it back to the first
      instruction of the condition. */
  lemma WhileJumps(c: Code, cond: seq<u8>, reg: u8, body: seq<Stmt>, funcIdx: int, r: Code)
    requires |cond| % 4 == 0 && BlockAligned(body)
    requires CompileWhile(false, c, cond, reg, body, funcIdx) == Ok(r)
    ensures var cLen := |c.bc| + |cond|;
      cLen + 8 <= |r.bc| && r.bc[cLen] == OpJnif && r.bc[cLen + 1] == reg && JumpTarget(r.bc, cLen) == |r.bc| &&
      r.bc[|r.bc| - 4] == OpJrelb && JumpTarget(r.bc, |r.bc| - 4) == |c.bc|
  {
    WhileUnfold(false, c, cond, reg, body, funcIdx);
    var head := Code(c.bc + cond + Jump(OpJnif, reg), c.maps);
    var d := CompileBlock(false, head, body, funcIdx).value;
    BlockGrows(false, head, body, funcIdx, d);
    HeadGrows(c, cond, OpJnif, reg);
    WhileLayout(c, cond, reg, head, d, r);
  }

  /** The layout of a closed while in terms of the code after its body. */
  lemma WhileLayout(c: Code, cond: seq<u8>, reg: u8, head: Code, d: Code, r: Code)
    requires |cond| % 4 == 0 && head == Code(c.bc + cond + Jump(OpJnif, reg), c.maps)
    requires head.bc[|c.bc| + |cond|] == OpJnif && head.bc[|c.bc| + |cond| + 1] == reg
    requires Grows(head, d, |head.bc|)
    requires CloseWhile(d.bc + Jump(OpJrelb, 0), |c.bc|, |c.bc| + |cond|, |d.bc|).Ok?
    requires r.bc == CloseWhile(d.bc + Jump(OpJrelb, 0), |c.bc|, |c.bc| + |cond|, |d.bc|).value
    ensures var cLen := |c.bc| + |cond|;
      cLen + 8 <= |r.bc| && r.bc[cLen] == OpJnif && r.bc[cLen + 1] == reg && JumpTarget(r.bc, cLen) == |r.bc| &&
      r.bc[|r.bc| - 4] == OpJrelb && JumpTarget(r.bc, |r.bc| - 4) == |c.bc|
  {
    var cLen := |c.bc| + |cond|;
    var bc := d.bc + Jump(OpJrelb, 0);
    assert |head.bc| == cLen + 4;
    assert (|d.bc| - cLen) % 4 == 0 by {
      Mod4Add(|d.bc| - |head.bc|, 4);
    }
    assert bc[cLen] == OpJnif && bc[cLen + 1] == reg by {
      KeptAt(head, d, |head.bc|, cLen);
      KeptAt(head, d, |head.bc|, cLen + 1);
    }
    assert bc[|d.bc|] == OpJrelb;
    CloseWhileLayout(bc, |c.bc|, cLen, |d.bc|);
  }

  /** Closing a while whose JNIF and JRELB are in place: both keep their
      opcodes and lead to the end and to the condition. */
  lemma CloseWhileLayout(bc: seq<u8>, condPart: nat, cLen: nat, bodyLen: nat)
    requires condPart <= cLen && cLen + 4 <= bodyLen && bodyLen + 4 == |bc|
    requires (cLen - condPart) % 4 == 0 && (bodyLen - cLen) % 4 == 0
    requires bc[cLen] == OpJnif && bc[bodyLen] == OpJrelb
    requires CloseWhile(bc, condPart, cLen, bodyLen).Ok?
    ensures var r := CloseWhile(bc, condPart, cLen, bodyLen).value;
      r[cLen] == OpJnif && r[cLen + 1] == bc[cLen + 1] && r[bodyLen] == OpJrelb &&
      JumpTarget(r, cLen) == |r| && JumpTarget(r, bodyLen) == condPart
  {
    var r := CloseWhile(bc, condPart, cLen, bodyLen).value;
    CloseWhileFrame(bc, condPart, cLen, bodyLen);
    assert r[cLen] == bc[cLen] && r[cLen + 1] == bc[cLen + 1] && r[bodyLen] == bc[bodyLen];
    WhileArith(r, condPart, cLen, bodyLen);
  }

  /** The targets of the two jumps of a while, from their operands and
      the lengths of its parts in whole instructions. */
  lemma WhileArith(bc: seq<u8>, condPart: nat, cLen: nat, bodyLen: nat)
    requires condPart <= cLen && cLen + 4 <= bodyLen && bodyLen + 4 == |bc|
    requires (cLen - condPart) % 4 == 0 && (bodyLen - cLen) % 4 == 0
    requires bc[cLen] == OpJnif && ReadU16(bc, cLen + 2) == (|bc| - cLen) / 4
    requires bc[bodyLen] == OpJrelb && ReadU16(bc, bodyLen + 2) == (bodyLen - condPart) / 4
    ensures JumpTarget(bc, cLen) == |bc| && JumpTarget(bc, bodyLen) == condPart
  {
    ForwardTarget(bc, cLen, |bc|);
    BackwardTarget(bc, bodyLen, condPart);
  }

  /** The nested if of the finding: if (a) { if (b) { return x; } } else
      { y = v; } with the conditions in registers 0 and 1, x loaded into
      register 2 and v into register 3. */
  const InnerIf: IfStmt := IfStmt([], 1, [Return(0, [1, 2, 7, 0], 2)], NoElse)

  function NestedIf(v: u8): (i: IfStmt)
    ensures IfAligned(i) && !BlockTerminates(i.body)
  {
    IfStmt([], 0, [If(0, InnerIf)], ElseBlock([Simple(0, [1, 3, v, 0])]))
  }

  /** The body of the inner if: the returned expression and RET. */
  lemma InnerBodyCode(asWritten: bool, h: Code, ret: Stmt)
    requires h == Code([17, 0, 0, 0, 17, 1, 0, 0], []) && ret == Return(0, [1, 2, 7, 0], 2)
    ensures CompileBlock(asWritten, h, [ret], 0) ==
      Ok(Code([17, 0, 0, 0, 17, 1, 0, 0, 1, 2, 7, 0, 31, 2, 0, 0], [MapEntry(8, 16, 0, 0)]))
  {
    var b1: seq<u8> := [17, 0, 0, 0, 17, 1, 0, 0, 1, 2, 7, 0, 31, 2, 0, 0];
    assert ReturnCode(h.bc + [1, 2, 7, 0], 2) == b1;
    var d := Code(b1, [MapEntry(8, 16, 0, 0)]);
    assert StmtCode(asWritten, h, ret, 0) == Ok(Code(b1, []));
    assert Record(h, Code(b1, []), 0, 0) == d;
    assert CompileStmt(asWritten, h, ret, 0) == Ok(d);
    assert [ret][1..] == [];
  }

  /** The inner if after its body: no JREL either way, then the JNIF
      patched to the end. */
  lemma InnerCloseCode(asWritten: bool, d: Code)
    requires d == Code([17, 0, 0, 0, 17, 1, 0, 0, 1, 2, 7, 0, 31, 2, 0, 0], [MapEntry(8, 16, 0, 0)])
    ensures AfterBody(asWritten, 4, InnerIf, d, 0) ==
      Ok(Code([17, 0, 0, 0, 17, 1, 3, 0, 1, 2, 7, 0, 31, 2, 0, 0], d.maps))
  {
    assert ExitJump(asWritten, d, InnerIf.body) == d;
    assert CompileElse(asWritten, d, NoElse, 0) == Ok(d);
    var b2: seq<u8> := [17, 0, 0, 0, 17, 1, 3, 0, 1, 2, 7, 0, 31, 2, 0, 0];
    assert WriteU16(d.bc, 6, 3) == b2;
    assert Patch(d.bc, 6, 4, 16) == Ok(b2);
  }

  /** The inner if compiles alike either way: its body ends in a return
      and cannot fall through. */
  lemma InnerIfCode(asWritten: bool, c: Code, v: u8)
    requires c == Code([17, 0, 0, 0], [])
    ensures CompileBlock(asWritten, c, NestedIf(v).body, 0) ==
      Ok(Code([17, 0, 0, 0, 17, 1, 3, 0, 1, 2, 7, 0, 31, 2, 0, 0], [MapEntry(8, 16, 0, 0), MapEntry(4, 16, 0, 0)]))
  {
    var h := Code(c.bc + InnerIf.cond + Jump(OpJnif, InnerIf.reg), c.maps);
    assert h == Code([17, 0, 0, 0, 17, 1, 0, 0], []);
    InnerBodyCode(asWritten, h, Return(0, [1, 2, 7, 0], 2));
    var d := Code([17, 0, 0, 0, 17, 1, 0, 0, 1, 2, 7, 0, 31, 2, 0, 0], [MapEntry(8, 16, 0, 0)]);
    InnerCloseCode(asWritten, d);
    var r := Code([17, 0, 0, 0, 17, 1, 3, 0, 1, 2, 7, 0, 31, 2, 0, 0], d.maps);
    assert CompileIf(asWritten, c, InnerIf, 0) == Ok(r);
    var s := If(0, InnerIf);
    assert StmtCode(asWritten, c, s, 0) == Ok(r);
    assert CompileStmt(asWritten, c, s, 0) == Ok(Record(c, r, 0, 0));
    assert NestedIf(v).body == [s] && [s][1..] == [];
    assert Record(c, r, 0, 0) == Code(r.bc, [MapEntry(8, 16, 0, 0), MapEntry(4, 16, 0, 0)]);
    assert CompileBlock(asWritten, c, [s], 0) == Ok(Record(c, r, 0, 0));
  }

  /** The else part of the outer if: one plain statement. */
  lemma ElseCode(asWritten: bool, g: Code, v: u8, alt: Else)
    requires alt == NestedIf(v).alt
    ensures CompileElse(asWritten, g, alt, 0) ==
      Ok(Code(g.bc + [1, 3, v, 0], g.maps + [MapEntry(|g.bc|, |g.bc| + 4, 0, 0)]))
  {
    var s := Simple(0, [1, 3, v, 0]);
    assert alt == ElseBlock([s]);
    var e := Code(g.bc + [1, 3, v, 0], g.maps);
    assert StmtCode(asWritten, g, s, 0) == Ok(e);
    assert CompileStmt(asWritten, g, s, 0) == Ok(Record(g, e, 0, 0));
    assert [s][1..] == [];
    assert CompileBlock(asWritten, g, [s], 0) == Ok(Record(g, e, 0, 0));
  }

  /** The outer if after its body, as written: no JREL, the else part,
      its exit JREL, and the JNIF patched to the else part. */
  lemma AfterAsWritten(v: u8, i: IfStmt, d: Code)
    requires i == NestedIf(v)
    requires d == Code([17, 0, 0, 0, 17, 1, 3, 0, 1, 2, 7, 0, 31, 2, 0, 0], [MapEntry(8, 16, 0, 0), MapEntry(4, 16, 0, 0)])
    ensures AfterBody(true, 0, i, d, 0) ==
      Ok(Code([17, 0, 4, 0, 17, 1, 3, 0, 1, 2, 7, 0, 31, 2, 0, 0, 1, 3, v, 0, 18, 0, 1, 0], d.maps + [MapEntry(16, 20, 0, 0)]))
  {
    assert ExitJump(true, d, i.body) == d;
    ElseCode(true, d, v, i.alt);
    CloseAsWritten(v, Code(d.bc + [1, 3, v, 0], d.maps + [MapEntry(16, 20, 0, 0)]));
  }

  /** As written, no JREL follows the outer body, whose last instruction
      is the inner return although the body falls through when b is
      false: the inner JNIF then leads into the else part. */
  lemma NestedIfAsWritten(c: Code, v: u8)
    requires c == Code([], [])
    ensures !BlockTerminates(NestedIf(v).body)
    ensures CompileIf(true, c, NestedIf(v), 0) ==
      Ok(Code([17, 0, 4, 0, 17, 1, 3, 0, 1, 2, 7, 0, 31, 2, 0, 0, 1, 3, v, 0, 18, 0, 1, 0],
        [MapEntry(8, 16, 0, 0), MapEntry(4, 16, 0, 0), MapEntry(16, 20, 0, 0)]))
  {
    var head := Code(c.bc + NestedIf(v).cond + Jump(OpJnif, NestedIf(v).reg), c.maps);
    assert head == Code([17, 0, 0, 0], []);
    InnerIfCode(true, head, v);
    var d := Code([17, 0, 0, 0, 17, 1, 3, 0, 1, 2, 7, 0, 31, 2, 0, 0], [MapEntry(8, 16, 0, 0), MapEntry(4, 16, 0, 0)]);
    AfterAsWritten(v, NestedIf(v), d);
    assert d.maps + [MapEntry(16, 20, 0, 0)] == [MapEntry(8, 16, 0, 0), MapEntry(4, 16, 0, 0), MapEntry(16, 20, 0, 0)];
    assert CompileIf(true, c, NestedIf(v), 0) == AfterBody(true, 0, NestedIf(v), d, 0);
  }

  /** In the as-written code the inner JNIF at 4 jumps to 16, the first
      instruction of the else part. */
  lemma AsWrittenTarget(bc: seq<u8>, v: u8)
    requires bc == [17, 0, 4, 0, 17, 1, 3, 0, 1, 2, 7, 0, 31, 2, 0, 0, 1, 3, v, 0, 18, 0, 1, 0]
    ensures JumpTarget(bc, 4) == 16 && bc[16..20] == [1, 3, v, 0]
  {
    ForwardTarget(bc, 4, 16);
  }

  lemma CloseAsWritten(v: u8, f: Code)
    requires f.bc == [17, 0, 0, 0, 17, 1, 3, 0, 1, 2, 7, 0, 31, 2, 0, 0, 1, 3, v, 0]
    ensures Close(0, true, 16, None, f) ==
      Ok(Code([17, 0, 4, 0, 17, 1, 3, 0, 1, 2, 7, 0, 31, 2, 0, 0, 1, 3, v, 0, 18, 0, 1, 0], f.maps))
  {
    var b4 := [17, 0, 0, 0, 17, 1, 3, 0, 1, 2, 7, 0, 31, 2, 0, 0, 1, 3, v, 0, 18, 0, 1, 0];
    assert ElseExit(f.bc) == b4;
    var b5 := [17, 0, 4, 0, 17, 1, 3, 0, 1, 2, 7, 0, 31, 2, 0, 0, 1, 3, v, 0, 18, 0, 1, 0];
    assert WriteU16(b4, 2, 4) == b5;
    assert Patch(b4, 2, 0, 16) == Ok(b5);
  }

  /** The outer if after its body, corrected: a JREL past the else part,
      the else part, and both jumps patched. */
  lemma AfterCorrected(v: u8, i: IfStmt, d: Code)
    requires i == NestedIf(v)
    requires d == Code([17, 0, 0, 0, 17, 1, 3, 0, 1, 2, 7, 0, 31, 2, 0, 0], [MapEntry(8, 16, 0, 0), MapEntry(4, 16, 0, 0)])
    ensures AfterBody(false, 0, i, d, 0) ==
      Ok(Code([17, 0, 5, 0, 17, 1, 3, 0, 1, 2, 7, 0, 31, 2, 0, 0, 18, 0, 3, 0, 1, 3, v, 0, 18, 0, 1, 0],
        d.maps + [MapEntry(20, 24, 0, 0)]))
  {
    var g := Code(d.bc + Jump(OpJrel, 0), d.maps);
    assert ExitJump(false, d, i.body) == g;
    ElseCode(false, g, v, i.alt);
    CloseCorrected(v, Code(g.bc + [1, 3, v, 0], g.maps + [MapEntry(20, 24, 0, 0)]));
  }

  /** Corrected, the outer body is followed by a JREL to the end, where
      the inner JNIF leads. */
  lemma NestedIfCorrected(c: Code, v: u8)
    requires c == Code([], [])
    ensures CompileIf(false, c, NestedIf(v), 0) ==
      Ok(Code([17, 0, 5, 0, 17, 1, 3, 0, 1, 2, 7, 0, 31, 2, 0, 0, 18, 0, 3, 0, 1, 3, v, 0, 18, 0, 1, 0],
        [MapEntry(8, 16, 0, 0), MapEntry(4, 16, 0, 0), MapEntry(20, 24, 0, 0)]))
  {
    var head := Code(c.bc + NestedIf(v).cond + Jump(OpJnif, NestedIf(v).reg), c.maps);
    assert head == Code([17, 0, 0, 0], []);
    InnerIfCode(false, head, v);
    var d := Code([17, 0, 0, 0, 17, 1, 3, 0, 1, 2, 7, 0, 31, 2, 0, 0], [MapEntry(8, 16, 0, 0), MapEntry(4, 16, 0, 0)]);
    AfterCorrected(v, NestedIf(v), d);
    assert d.maps + [MapEntry(20, 24, 0, 0)] == [MapEntry(8, 16, 0, 0), MapEntry(4, 16, 0, 0), MapEntry(20, 24, 0, 0)];
    assert CompileIf(false, c, NestedIf(v), 0) == AfterBody(false, 0, NestedIf(v), d, 0);
  }

  /** In the corrected code the inner JNIF at 4 jumps to 16, which holds
      the JREL to the end of the outer if. */
  lemma CorrectedTargets(bc: seq<u8>, v: u8)
    requires bc == [17, 0, 5, 0, 17, 1, 3, 0, 1, 2, 7, 0, 31, 2, 0, 0, 18, 0, 3, 0, 1, 3, v, 0, 18, 0, 1, 0]
    ensures JumpTarget(bc, 4) == 16 && bc[16] == OpJrel && JumpTarget(bc, 16) == |bc|
  {
    ForwardTarget(bc, 4, 16);
    ForwardTarget(bc, 16, 28);
  }

  lemma CloseCorrected(v: u8, f: Code)
    requires f.bc == [17, 0, 0, 0, 17, 1, 3, 0, 1, 2, 7, 0, 31, 2, 0, 0, 18, 0, 0, 0, 1, 3, v, 0]
    ensures Close(0, true, 20, Some(16), f) ==
      Ok(Code([17, 0, 5, 0, 17, 1, 3, 0, 1, 2, 7, 0, 31, 2, 0, 0, 18, 0, 3, 0, 1, 3, v, 0, 18, 0, 1, 0], f.maps))
  {
    var b4: seq<u8> := [17, 0, 0, 0, 17, 1, 3, 0, 1, 2, 7, 0, 31, 2, 0, 0, 18, 0, 0, 0, 1, 3, v, 0, 18, 0, 1, 0];
    assert ElseExit(f.bc) == b4;
    var b5 := PatchOuterCorrected(v, b4);
    PatchInnerCorrected(v, b5);
  }

  /** The JNIF of the outer if, at 0, is patched to the else part at 20. */
  lemma PatchOuterCorrected(v: u8, b4: seq<u8>) returns (b5: seq<u8>)
    requires b4 == [17, 0, 0, 0, 17, 1, 3, 0, 1, 2, 7, 0, 31, 2, 0, 0, 18, 0, 0, 0, 1, 3, v, 0, 18, 0, 1, 0]
    ensures b5 == [17, 0, 5, 0, 17, 1, 3, 0, 1, 2, 7, 0, 31, 2, 0, 0, 18, 0, 0, 0, 1, 3, v, 0, 18, 0, 1, 0]
    ensures Patch(b4, 2, 0, 20) == Ok(b5)
  {
    b5 := [17, 0, 5, 0, 17, 1, 3, 0, 1, 2, 7, 0, 31, 2, 0, 0, 18, 0, 0, 0, 1, 3, v, 0, 18, 0, 1, 0];
    assert WriteU16(b4, 2, 5) == b5;
  }

  /** The JREL after the outer body, at 16, is patched to the end at 28. */
  lemma PatchInnerCorrected(v: u8, b5: seq<u8>)
    requires b5 == [17, 0, 5, 0, 17, 1, 3, 0, 1, 2, 7, 0, 31, 2, 0, 0, 18, 0, 0, 0, 1, 3, v, 0, 18, 0, 1, 0]
    ensures Patch(b5, 18, 16, 28) ==
      Ok([17, 0, 5, 0, 17, 1, 3, 0, 1, 2, 7, 0, 31, 2, 0, 0, 18, 0, 3, 0, 1, 3, v, 0, 18, 0, 1, 0])
  {
    var b6: seq<u8> := [17, 0, 5, 0, 17, 1, 3, 0, 1, 2, 7, 0, 31, 2, 0, 0, 18, 0, 3, 0, 1, 3, v, 0, 18, 0, 1, 0];
    assert WriteU16(b5, 18, 3) == b6;
  }

  /** The statement state of struct au_parser: the bytecode buffer, the
      source map, block_level and func_idx. */
  class Parser {
    const em: Emitter
    var maps: seq<MapEntry>
    var blockLevel: int
    const funcIdx: int

    constructor (em: Emitter, funcIdx: int)
      ensures this.em == em && this.funcIdx == funcIdx && maps == [] && blockLevel == 0
    {
      this.em := em;
      this.funcIdx := funcIdx;
      maps := [];
      blockLevel := 0;
    }

    ghost function State(): Code
      reads this, em
    {
      Code(em.bc, maps)
    }

    /** A parse result and the state it leaves agree with a compile
        function's result. */
    ghost predicate Matches(r: Result<(), ParseError>, spec: Result<Code, ParseError>)
      reads this, em
    {
      (r.Ok? <==> spec.Ok?) && (r.Ok? ==> State() == spec.value) && (r.Err? ==> r.error == spec.error)
    }

    /** au_parser_exec_statement: parses one statement and, when it
        emitted code, records the range with the statement's source
        offset. */
    method ExecStatement(s: Stmt) returns (r: Result<(), ParseError>)
      modifies this, em
      ensures Matches(r, CompileStmt(false, old(State()), s, funcIdx))
      ensures r.Ok? ==> blockLevel == old(blockLevel)
      ensures blockLevel >= old(blockLevel)
      decreases s, 2
    {
      var bcFrom := |em.bc|;
      match s {
        case Simple(_, code) =>
          em.bc := em.bc + code;
          r := Ok(());
        case Return(_, code, reg) =>
          em.bc := em.bc + code;
          ExecReturn(reg);
          r := Ok(());
        case If(_, i) =>
          r := ExecIf(i);
        case While(_, cond, reg, body) =>
          r := ExecWhile(cond, reg, body);
        case Bad(_) =>
          r := Err(Failed);
      }
      if r.Ok? {
        var bcTo := |em.bc|;
        if bcFrom != bcTo {
          maps := maps + [MapEntry(bcFrom, bcTo, s.start, funcIdx)];
        }
      }
    }

    /** au_parser_exec_return_statement once the expression is emitted:
        the peephole rewrite or RET reg. */
    method ExecReturn(reg: u8)
      modifies em
      ensures em.bc == ReturnCode(old(em.bc), reg)
    {
      var n := |em.bc|;
      if n > 4 && em.bc[n - 4] == OpMovLocalReg && em.bc[n - 3] == reg {
        em.bc := em.bc[n - 4 := OpRetLocal];
      } else {
        em.EmitU8(OpRet);
        em.EmitU8(reg);
        em.EmitPad8();
        em.EmitPad8();
      }
    }

    /** au_parser_exec_block: raises block_level, parses the statements in
        order, and restores block_level unless one fails. */
    method ExecBlock(b: seq<Stmt>) returns (r: Result<(), ParseError>)
      modifies this, em
      ensures Matches(r, CompileBlock(false, old(State()), b, funcIdx))
      ensures r.Ok? ==> blockLevel == old(blockLevel)
      ensures r.Err? ==> blockLevel > old(blockLevel)
      decreases b, 0
    {
      blockLevel := blockLevel + 1;
      var i := 0;
      while i < |b|
        invariant 0 <= i <= |b|
        invariant CompileBlock(false, State(), b[i..], funcIdx) == CompileBlock(false, old(State()), b, funcIdx)
        invariant blockLevel == old(blockLevel) + 1
        decreases |b| - i
      {
        assert b[i..][0] == b[i] && b[i..][1..] == b[i + 1..];
        var rs := ExecStatement(b[i]);
        if rs.Err? {
          return rs;
        }
        i := i + 1;
      }
      blockLevel := blockLevel - 1;
      r := Ok(());
    }

    /** One back-patch: fails with BYTECODE_GEN when the offset does not
        fit in 16 bits. */
    method PatchJump(idx: nat, from: nat, to: nat) returns (r: Result<(), ParseError>)
      requires idx + 2 <= |em.bc| && from <= to
      modifies em
      ensures r.Ok? <==> Patch(old(em.bc), idx, from, to).Ok?
      ensures r.Ok? ==> em.bc == Patch(old(em.bc), idx, from, to).value
      ensures r.Err? ==> r.error == BytecodeGen
    {
      var offset := (to - from) / 4;
      if offset >= U16Limit {
        return Err(BytecodeGen);
      }
      var replaced := em.ReplaceU16(idx, offset);
      return Ok(());
    }

    /** A jump instruction with its offset left open: the opcode, the
        condition register (a pad byte for JREL and JRELB) and two pad
        bytes. */
    method EmitJump(op: u8, reg: u8)
      modifies em
      ensures em.bc == old(em.bc) + Jump(op, reg)
    {
      em.EmitU8(op);
      em.EmitU8(reg);
      em.EmitPad8();
      em.EmitPad8();
    }

    /** au_parser_exec_if_statement. */
    method ExecIf(i: IfStmt) returns (r: Result<(), ParseError>)
      modifies this, em
      ensures Matches(r, CompileIf(false, old(State()), i, funcIdx))
      ensures r.Ok? ==> blockLevel == old(blockLevel)
      ensures blockLevel >= old(blockLevel)
      decreases i, 1
    {
      ghost var c := State();
      em.bc := em.bc + i.cond;
      var cLen := |em.bc|;
      EmitJump(OpJnif, i.reg);
      ghost var head := State();
      assert head == Code(c.bc + i.cond + Jump(OpJnif, i.reg), c.maps);
      r := ExecBlock(i.body);
      if r.Err? {
        assert CompileBlock(false, head, i.body, funcIdx).Err?;
        return;
      }
      ghost var d := State();
      assert CompileBlock(false, head, i.body, funcIdx) == Ok(d);
      assert CompileIf(false, c, i, funcIdx) == AfterBody(false, cLen, i, d, funcIdx);
      r := ExecAfterBody(cLen, i);
    }

    method ExecAfterBody(cLen: nat, i: IfStmt) returns (r: Result<(), ParseError>)
      requires cLen + 4 <= |em.bc|
      modifies this, em
      ensures Matches(r, AfterBody(false, cLen, i, old(State()), funcIdx))
      ensures r.Ok? ==> blockLevel == old(blockLevel)
      ensures blockLevel >= old(blockLevel)
      decreases i, 0
    {
      ghost var d := State();
      var bodyLen: Option<nat> := None;
      if JumpAfterBody(false, em.bc, i.body) {
        bodyLen := Some(|em.bc|);
        EmitJump(OpJrel, 0);
      }
      assert State() == ExitJump(false, d, i.body);
      var elseStart := |em.bc|;
      var hasElse := false;
      match i.alt {
        case NoElse =>
        case ElseBlock(block) =>
          r := ExecBlock(block);
          if r.Err? {
            return;
          }
          hasElse := true;
        case ElseIf(next) =>
          r := ExecIf(next);
          if r.Err? {
            return;
          }
          hasElse := true;
      }
      r := ExecClose(cLen, hasElse, elseStart, bodyLen);
    }

    method ExecCloseIf(cLen: nat, condTarget: nat, bodyLen: Option<nat>, end: nat) returns (r: Result<(), ParseError>)
      requires cLen + 4 <= |em.bc| && cLen <= condTarget
      requires bodyLen.Some? ==> cLen + 4 <= bodyLen.value && bodyLen.value + 4 <= |em.bc| && bodyLen.value <= end
      modifies em
      ensures r.Ok? <==> CloseIf(old(em.bc), cLen, condTarget, bodyLen, end).Ok?
      ensures r.Ok? ==> em.bc == CloseIf(old(em.bc), cLen, condTarget, bodyLen, end).value
      ensures r.Err? ==> r.error == BytecodeGen
    {
      r := PatchJump(cLen + 2, cLen, condTarget);
      if r.Err? || bodyLen.None? {
        return;
      }
      r := PatchJump(bodyLen.value + 2, bodyLen.value, end);
    }

    /** The exit of the else part when there is one, then the patches of
        the condition and body jumps. */
    method ExecClose(cLen: nat, hasElse: bool, elseStart: nat, bodyLen: Option<nat>) returns (r: Result<(), ParseError>)
      requires cLen + 4 <= elseStart <= |em.bc|
      requires bodyLen.Some? ==> cLen + 4 <= bodyLen.value && bodyLen.value + 4 <= elseStart
      modifies em
      ensures Matches(r, Close(cLen, hasElse, elseStart, bodyLen, old(State())))
    {
      ghost var f := State();
      var elseLen := |em.bc|;
      if hasElse && !IsReturnOp(em.bc[elseLen - 4]) {
        EmitJump(OpJrel, 0);
        r := PatchJump(elseLen + 2, elseLen, |em.bc|);
        if r.Err? {
          return;
        }
      }
      assert em.bc == if hasElse then ElseExit(f.bc) else f.bc;
      r := ExecCloseIf(cLen, elseStart, bodyLen, |em.bc|);
      assert maps == f.maps;
    }

    /** au_parser_exec_while_statement. */
    method ExecWhile(cond: seq<u8>, reg: u8, body: seq<Stmt>) returns (r: Result<(), ParseError>)
      modifies this, em
      ensures Matches(r, CompileWhile(false, old(State()), cond, reg, body, funcIdx))
      ensures r.Ok? ==> blockLevel == old(blockLevel)
      ensures blockLevel >= old(blockLevel)
      decreases body, 1
    {
      ghost var c := State();
      var condPart := |em.bc|;
      em.bc := em.bc + cond;
      var cLen := |em.bc|;
      EmitJump(OpJnif, reg);
      ghost var head := State();
      assert head == Code(c.bc + cond + Jump(OpJnif, reg), c.maps);
      r := ExecBlock(body);
      if r.Err? {
        assert CompileBlock(false, head, body, funcIdx).Err?;
        return;
      }
      ghost var d := State();
      assert CompileBlock(false, head, body, funcIdx) == Ok(d);
      r := ExecCloseWhile(condPart, cLen);
      assert maps == d.maps;
    }

    /** The JRELB back to the condition, then the patches of both jumps. */
    method ExecCloseWhile(condPart: nat, cLen: nat) returns (r: Result<(), ParseError>)
      requires condPart <= cLen && cLen + 4 <= |em.bc|
      modifies em
      ensures var spec := CloseWhile(old(em.bc) + Jump(OpJrelb, 0), condPart, cLen, old(|em.bc|));
        (r.Ok? <==> spec.Ok?) && (r.Ok? ==> em.bc == spec.value) && (r.Err? ==> r.error == BytecodeGen)
    {
      var bodyLen := |em.bc|;
      EmitJump(OpJrelb, 0);
      r := PatchJump(cLen + 2, cLen, |em.bc|);
      if r.Err? {
        return;
      }
      r := PatchJump(bodyLen + 2, condPart, bodyLen);
    }
  }
}
