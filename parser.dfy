// The parser's entry points (src/core/parser/impl/parser.c): setting up a
// parser for the main function, parsing the statements of a program up to
// the end of input, and the checks au_parse makes before handing the main
// bytecode over as a program.
//
// The statements are given already split, as module Stmt models them; a
// failing statement stands for any parse error. Expression parsing is not
// run here: each statement records the highest register its expressions
// took through au_parser_new_reg, which is all that reaches max_register.
// Function calls inside statements are resolved by module Resolve; the
// function table au_parse checks is given as it stands when the statements
// have been parsed.
module Parse {
  import opened Wrappers
  import opened BcEmit
  import Stmt
  import Regs
  import Fns
  import Resolve

  /** AU_SM_FUNC_ID_MAIN, the function index of the main code in source
      maps. Its definition is not part of this model; any fixed value
      serves, and -1 is used. */
  const FuncIdMain: int := -1

  /** A top-level statement, with the highest register its expressions
      were given (none when it took no register). */
  datatype Statement = Statement(stmt: Stmt.Stmt, highReg: Option<u8>)

  /** The statements themselves, in order. */
  function Plain(ss: seq<Statement>): (r: seq<Stmt.Stmt>)
    ensures |r| == |ss| && forall i :: 0 <= i < |ss| ==> r[i] == ss[i].stmt
  {
    seq(|ss|, i requires 0 <= i < |ss| => ss[i].stmt)
  }

  /** max_register after a statement that took register mark, if any. */
  function Raise(m: int, mark: Option<u8>): (r: int)
    ensures r >= m
    ensures mark.Some? ==> r >= mark.value as int
    ensures r == m || (mark.Some? && r == mark.value as int)
  {
    match mark
    case Some(reg) => if reg as int > m then reg as int else m
    case None => m
  }

  /** max_register once every statement has run from m: the largest of m
      and the registers the statements took. */
  function HighWater(m: int, ss: seq<Statement>): (r: int)
    ensures r >= m
    ensures forall i :: 0 <= i < |ss| && ss[i].highReg.Some? ==> r >= ss[i].highReg.value as int
    ensures r == m || exists i :: 0 <= i < |ss| && ss[i].highReg.Some? && r == ss[i].highReg.value as int
    decreases |ss|
  {
    if ss == [] then m
    else
      var r := HighWater(Raise(m, ss[0].highReg), ss[1..]);
      assert forall i :: 1 <= i < |ss| ==> ss[i] == ss[1..][i - 1];
      r
  }

  /** Running the statements from i is running statement i, then the rest. */
  lemma StatementsFrom(ss: seq<Statement>, i: nat, m: int)
    requires i < |ss|
    ensures Plain(ss[i..]) == [ss[i].stmt] + Plain(ss[i + 1..])
    ensures HighWater(m, ss[i..]) == HighWater(Raise(m, ss[i].highReg), ss[i + 1..])
  {
    assert ss[i..][0] == ss[i] && ss[i..][1..] == ss[i + 1..];
  }

  /** struct au_parser, with the parts modelled: the bytecode buffer, the
      statement compiler with its source map and block level, the register
      allocator, the number of locals and the name of the function being
      defined. */
  class TopParser {
    const em: Emitter
    const body: Stmt.Parser
    const regs: Regs.Allocator
    var numLocals: nat
    var selfName: Option<seq<byte>>

    /** Between statements the register stack is empty. */
    ghost predicate Valid()
      reads this, body, regs, regs.rstack
    {
      body.em == em && regs.Valid() && regs.Stack() == []
    }

    /** au_parser_init: an empty buffer and source map, block level 0, the
        main function's index, no local, no register used or cached, and
        max_register -1. */
    constructor ()
      ensures Valid() && fresh(em) && fresh(body) && fresh(regs) && fresh(regs.used) && fresh(regs.rstack)
      ensures em.bc == [] && body.maps == [] && body.blockLevel == 0 && body.funcIdx == FuncIdMain
      ensures regs.maxRegister == -1 && regs.Stack() == []
      ensures forall i :: 0 <= i < Regs.NumRegs ==> !regs.used[i] && !regs.pinned[i]
      ensures numLocals == 0 && selfName == None
    {
      var e := new Emitter();
      em := e;
      body := new Stmt.Parser(e, FuncIdMain);
      regs := new Regs.Allocator();
      numLocals := 0;
      selfName := None;
      new;
      regs.FlushCachedRegs();
      regs.FlushFreeRegs();
    }

    /** After a statement: the highest register its expressions took
        raises max_register as au_parser_new_reg does, and the free
        registers are flushed. */
    method FinishStatement(highReg: Option<u8>)
      requires Valid()
      modifies regs, regs.used, regs.rstack
      ensures Valid()
      ensures regs.maxRegister == Raise(old(regs.maxRegister), highReg)
    {
      if highReg.Some? {
        var pushed := regs.PushReg(highReg.value as nat);
      }
      regs.FlushFreeRegs();
    }

    /** au_parser_exec: the statements in order, stopping at the first
        failure; the registers a statement's expressions took raise
        max_register, and the free registers are flushed after each
        statement. At the end of input the main code is closed with
        RET_NULL and three pad bytes. */
    method Exec(stmts: seq<Statement>) returns (r: Result<(), Stmt.ParseError>)
      requires Valid()
      modifies body, em, regs, regs.used, regs.rstack
      ensures Valid()
      ensures match Stmt.CompileBlock(false, old(body.State()), Plain(stmts), body.funcIdx)
        case Err(e) => r == Err(e)
        case Ok(c) => r.Ok? && em.bc == c.bc + [Stmt.OpRetNull, 0, 0, 0] && body.maps == c.maps &&
                      regs.maxRegister == HighWater(old(regs.maxRegister), stmts)
    {
      var i := 0;
      while i < |stmts|
        invariant 0 <= i <= |stmts|
        invariant Valid()
        invariant HighWater(regs.maxRegister, stmts[i..]) == HighWater(old(regs.maxRegister), stmts)
        invariant Stmt.CompileBlock(false, body.State(), Plain(stmts[i..]), body.funcIdx)
               == Stmt.CompileBlock(false, old(body.State()), Plain(stmts), body.funcIdx)
        decreases |stmts| - i
      {
        StatementsFrom(stmts, i, regs.maxRegister);
        var rs := body.ExecStatement(stmts[i].stmt);
        if rs.Err? {
          return rs;
        }
        FinishStatement(stmts[i].highReg);
        i := i + 1;
      }
      assert Plain(stmts[i..]) == [];
      em.EmitU8(Stmt.OpRetNull);
      em.EmitPad8();
      em.EmitPad8();
      em.EmitPad8();
      return Ok(());
    }
  }

  /** The main code of a parsed program (struct au_bc_storage). */
  datatype MainCode = MainCode(funcIdx: int, bc: seq<u8>, numLocals: nat, numRegisters: nat, numValues: nat)

  /** Why au_parse fails: the parser's own error, or a function that was
      called but never defined, by name. */
  datatype Failure = Syntax(error: Stmt.ParseError) | UnknownFunction(name: seq<byte>)

  /** The first forward declaration left in the function table. */
  function FirstNone(fns: seq<Fns.Fn>): (r: Option<nat>)
    ensures r.None? <==> forall i :: 0 <= i < |fns| ==> !fns[i].NoneFn?
    ensures r.Some? ==> r.value < |fns| && fns[r.value].NoneFn? &&
                        forall i :: 0 <= i < r.value ==> !fns[i].NoneFn?
  {
    if fns == [] then None
    else if fns[0].NoneFn? then Some(0)
    else match FirstNone(fns[1..])
      case None => None
      case Some(k) => Some(k + 1)
  }

  /** What au_parse returns for the statements of a program, given the
      state its parser starts from and the function table after parsing. */
  function ParseSpec(start: Stmt.Code, stmts: seq<Stmt.Stmt>, fns: seq<Fns.Fn>, numLocals: nat, maxRegister: int)
    : (r: Result<MainCode, Failure>)
    requires maxRegister >= -1
  {
    match Stmt.CompileBlock(false, start, stmts, FuncIdMain)
    case Err(e) => Err(Syntax(e))
    case Ok(c) =>
      match FirstNone(fns)
      case Some(k) => Err(UnknownFunction(fns[k].name))
      case None =>
        var numRegisters := maxRegister + 1;
        Ok(MainCode(FuncIdMain, c.bc + [Stmt.OpRetNull, 0, 0, 0], numLocals, numRegisters, numLocals + numRegisters))
  }

  /** A parse succeeds only when no function is left undefined, and then
      the main code ends in RET_NULL and three pad bytes, and its value
      slots are its locals followed by its registers. */
  lemma ParseSucceeds(start: Stmt.Code, stmts: seq<Stmt.Stmt>, fns: seq<Fns.Fn>, numLocals: nat, maxRegister: int)
    requires maxRegister >= -1
    requires ParseSpec(start, stmts, fns, numLocals, maxRegister).Ok?
    ensures forall i :: 0 <= i < |fns| ==> !fns[i].NoneFn?
    ensures var m := ParseSpec(start, stmts, fns, numLocals, maxRegister).value;
      |m.bc| >= 4 && m.bc[|m.bc| - 4..] == [Stmt.OpRetNull, 0, 0, 0] &&
      m.numRegisters == maxRegister + 1 && m.numValues == m.numLocals + m.numRegisters && m.funcIdx == FuncIdMain
  {
  }

  /** A forward declaration left in the table fails the parse with the
      name of the first one, even when the statements themselves parse. */
  lemma UndefinedFunctionFails(start: Stmt.Code, stmts: seq<Stmt.Stmt>, fns: seq<Fns.Fn>, numLocals: nat, maxRegister: int, i: nat)
    requires maxRegister >= -1
    requires Stmt.CompileBlock(false, start, stmts, FuncIdMain).Ok?
    requires i < |fns| && fns[i].NoneFn?
    ensures FirstNone(fns).Some? && FirstNone(fns).value <= i
    ensures ParseSpec(start, stmts, fns, numLocals, maxRegister) == Err(UnknownFunction(fns[FirstNone(fns).value].name))
  {
  }

  /** au_parse: parses the statements with a new parser, fails with the
      parser's result when that fails, then with UNKNOWN_FUNCTION for the
      first function that was called but not defined; otherwise hands over
      the main code. */
  method AuParse(data: Resolve.ProgramData, stmts: seq<Statement>) returns (r: Result<MainCode, Failure>)
    ensures r == ParseSpec(Stmt.Code([], []), Plain(stmts), data.fns, 0, HighWater(-1, stmts))
  {
    var p := new TopParser();
    var ok := p.Exec(stmts);
    if ok.Err? {
      return Err(Syntax(ok.error));
    }
    var i := 0;
    while i < |data.fns|
      invariant 0 <= i <= |data.fns|
      invariant forall j :: 0 <= j < i ==> !data.fns[j].NoneFn?
    {
      if data.fns[i].NoneFn? {
        assert FirstNone(data.fns) == Some(i);
        return Err(UnknownFunction(data.fns[i].name));
      }
      i := i + 1;
    }
    var numRegisters := p.regs.maxRegister + 1;
    return Ok(MainCode(FuncIdMain, p.em.bc, p.numLocals, numRegisters, p.numLocals + numRegisters));
  }
}
