// Functions of a program (src/core/fn/main.h) and how a call finds the code
// it runs (src/core/fn/call.h). A call through an importer stub continues
// in the program the stub points to; a call through a dispatch function
// continues with the instance for the class of its first argument. Each of
// these steps rebinds the function being called until a library or
// bytecode function is reached.
//
// A class interface is identified by a number; the first argument of a call
// is described by the interface of the class instance it is, or None when
// it is not a class instance.
module Fns {
  import opened Wrappers
  import opened Arith

  /** struct au_dispatch_func_instance */
  datatype DispatchInstance = DispatchInstance(iface: nat, functionIdx: nat, classIdx: nat)

  /** struct au_fn, by its au_fn_type. An importer stub's target program is
      given by its index among the loaded programs, None until the stub is
      linked. A type outside the enum is Unknown. */
  datatype Fn =
    | NoneFn(numArgs: Int32, name: seq<byte>)
    | LibFn(numArgs: Int32)
    | BcFn(numArgs: Int32, hasClass: bool, classCache: Option<nat>)
    | Importer(numArgs: Int32, moduleIdx: Int32, name: seq<byte>, fnIdxCached: nat, programCached: Option<nat>)
    | Dispatch(numArgs: Int32, instances: seq<DispatchInstance>, fallback: Option<nat>)
    | Unknown(tag: nat)

  /** au_fn_num_args: the arity each kind of function records; -1 for a
      type outside the enum. */
  function NumArgs(f: Fn): (n: Int32)
    ensures f.Unknown? <==> !(f.NoneFn? || f.LibFn? || f.BcFn? || f.Importer? || f.Dispatch?)
    ensures !f.Unknown? ==> n == f.numArgs
    ensures f.Unknown? ==> n == -1
  {
    match f
    case NoneFn(n, _) => n
    case LibFn(n) => n
    case BcFn(n, _, _) => n
    case Importer(n, _, _, _, _) => n
    case Dispatch(n, _, _) => n
    case Unknown(_) => -1
  }

  /** The first instance registered for the interface, if any. */
  function SelectInstance(instances: seq<DispatchInstance>, iface: nat): (r: Option<nat>)
    ensures r.Some? ==> r.value < |instances| && instances[r.value].iface == iface
    ensures r.Some? ==> forall j :: 0 <= j < r.value ==> instances[j].iface != iface
    ensures r.None? <==> forall j :: 0 <= j < |instances| ==> instances[j].iface != iface
  {
    if instances == [] then None
    else if instances[0].iface == iface then Some(0)
    else match SelectInstance(instances[1..], iface)
      case None => None
      case Some(k) => Some(k + 1)
  }

  /** The outcome of au_fn_call_internal: the library or bytecode function
      that runs, given by program and index; the op error value; none, for
      a forward declaration or a type outside the enum; an index past the
      end of the functions or an importer stub not yet linked to its
      program, neither of which the source checks; or more steps than the
      fuel allows. */
  datatype Outcome =
    | Native(prog: nat, idx: nat)
    | Bytecode(prog: nat, idx: nat)
    | OpError
    | NoneValue
    | OutOfRange
    | OutOfFuel

  /** The function at idx of program prog, if there is one. */
  function FnAt(programs: seq<seq<Fn>>, prog: nat, idx: nat): (r: Option<Fn>)
    ensures r.Some? <==> prog < |programs| && idx < |programs[prog]|
    ensures r.Some? ==> r.value == programs[prog][idx]
  {
    if prog < |programs| && idx < |programs[prog]| then Some(programs[prog][idx]) else None
  }

  /** Where the call of function idx of program prog ends, taking at most
      fuel steps through importer stubs and dispatch functions. */
  function Follow(programs: seq<seq<Fn>>, prog: nat, idx: nat, arg0: Option<nat>, fuel: nat): Outcome
    decreases fuel
  {
    match FnAt(programs, prog, idx)
    case None => OutOfRange
    case Some(f) =>
      match f
      case LibFn(_) => Native(prog, idx)
      case BcFn(_, hasClass, cache) =>
        if hasClass && (arg0.None? || cache != Some(arg0.value)) then OpError else Bytecode(prog, idx)
      case Importer(_, _, _, fnIdx, p) =>
        if p.None? then OutOfRange
        else if fuel == 0 then OutOfFuel else Follow(programs, p.value, fnIdx, arg0, fuel - 1)
      case Dispatch(_, instances, fallback) =>
        if arg0.None? then OpError
        else (match SelectInstance(instances, arg0.value)
          case Some(k) =>
            if fuel == 0 then OutOfFuel else Follow(programs, prog, instances[k].functionIdx, arg0, fuel - 1)
          case None =>
            if fallback.None? then OpError
            else if fuel == 0 then OutOfFuel else Follow(programs, prog, fallback.value, arg0, fuel - 1))
      case _ => NoneValue
  }

  /** A call that ends in code ends in a library function, or in a bytecode
      function whose class, when it has one, is the first argument's. */
  lemma {:induction false} FollowReachesCode(programs: seq<seq<Fn>>, prog: nat, idx: nat, arg0: Option<nat>, fuel: nat)
    ensures Follow(programs, prog, idx, arg0, fuel).Native? ==>
      var o := Follow(programs, prog, idx, arg0, fuel);
      FnAt(programs, o.prog, o.idx).Some? && programs[o.prog][o.idx].LibFn?
    ensures Follow(programs, prog, idx, arg0, fuel).Bytecode? ==>
      var o := Follow(programs, prog, idx, arg0, fuel);
      FnAt(programs, o.prog, o.idx).Some? && programs[o.prog][o.idx].BcFn? &&
      (programs[o.prog][o.idx].hasClass ==> arg0.Some? && programs[o.prog][o.idx].classCache == Some(arg0.value))
    decreases fuel
  {
    if fuel > 0 {
      var f := FnAt(programs, prog, idx);
      if f.Some? {
        match f.value
        case Importer(_, _, _, fnIdx, p) =>
          if p.Some? {
            FollowReachesCode(programs, p.value, fnIdx, arg0, fuel - 1);
          }
        case Dispatch(_, instances, fallback) =>
          if arg0.Some? {
            var k := SelectInstance(instances, arg0.value);
            if k.Some? {
              FollowReachesCode(programs, prog, instances[k.value].functionIdx, arg0, fuel - 1);
            } else if fallback.Some? {
              FollowReachesCode(programs, prog, fallback.value, arg0, fuel - 1);
            }
          }
        case _ =>
      }
    }
  }

  /** More fuel never changes an outcome that was reached. */
  lemma {:induction false} FollowFuelMonotone(programs: seq<seq<Fn>>, prog: nat, idx: nat, arg0: Option<nat>, fuel: nat, more: nat)
    requires fuel <= more
    requires Follow(programs, prog, idx, arg0, fuel) != OutOfFuel
    ensures Follow(programs, prog, idx, arg0, more) == Follow(programs, prog, idx, arg0, fuel)
    decreases fuel
  {
    var f := FnAt(programs, prog, idx);
    if f.Some? && fuel > 0 {
      match f.value
      case Importer(_, _, _, fnIdx, p) =>
        if p.Some? {
          FollowFuelMonotone(programs, p.value, fnIdx, arg0, fuel - 1, more - 1);
        }
      case Dispatch(_, instances, fallback) =>
        if arg0.Some? {
          var k := SelectInstance(instances, arg0.value);
          if k.Some? {
            FollowFuelMonotone(programs, prog, instances[k.value].functionIdx, arg0, fuel - 1, more - 1);
          } else if fallback.Some? {
            FollowFuelMonotone(programs, prog, fallback.value, arg0, fuel - 1, more - 1);
          }
        }
      case _ =>
    }
  }

  /** A dispatch call continues with the first instance registered for the
      first argument's class, and with the fallback only when no instance
      is; with neither, or with a first argument that is not a class
      instance, it is an op error. */
  lemma DispatchChoice(programs: seq<seq<Fn>>, prog: nat, idx: nat, arg0: Option<nat>, fuel: nat)
    requires FnAt(programs, prog, idx).Some? && programs[prog][idx].Dispatch? && fuel > 0
    ensures var d := programs[prog][idx];
      Follow(programs, prog, idx, arg0, fuel) ==
        if arg0.None? then OpError
        else if exists j :: 0 <= j < |d.instances| && d.instances[j].iface == arg0.value then
          Follow(programs, prog, d.instances[SelectInstance(d.instances, arg0.value).value].functionIdx, arg0, fuel - 1)
        else if d.fallback.Some? then Follow(programs, prog, d.fallback.value, arg0, fuel - 1)
        else OpError
  {
  }

  /** au_fn_call_internal: follows importer stubs and dispatch functions
      until a library or bytecode function is reached, or the call fails.
      isNative is set exactly when a library function is called. */
  method Call(programs: seq<seq<Fn>>, prog0: nat, idx0: nat, arg0: Option<nat>, fuel: nat)
    returns (r: Outcome, isNative: bool)
    ensures r == Follow(programs, prog0, idx0, arg0, fuel)
    ensures isNative <==> r.Native?
  {
    var prog: nat, idx: nat, steps: nat := prog0, idx0, fuel;
    isNative := false;
    while true
      invariant steps <= fuel
      invariant Follow(programs, prog, idx, arg0, steps) == Follow(programs, prog0, idx0, arg0, fuel)
      decreases steps
    {
      if !(prog < |programs| && idx < |programs[prog]|) {
        return OutOfRange, false;
      }
      var f := programs[prog][idx];
      match f {
        case LibFn(_) =>
          return Native(prog, idx), true;
        case BcFn(_, hasClass, cache) =>
          if hasClass && (arg0.None? || cache != Some(arg0.value)) {
            return OpError, false;
          }
          return Bytecode(prog, idx), false;
        case Importer(_, _, _, fnIdx, p) =>
          if p.None? {
            return OutOfRange, false;
          }
          if steps == 0 {
            return OutOfFuel, false;
          }
          prog, idx, steps := p.value, fnIdx, steps - 1;
        case Dispatch(_, instances, fallback) =>
          if arg0.None? {
            return OpError, false;
          }
          var i := 0;
          while i < |instances| && instances[i].iface != arg0.value
            invariant 0 <= i <= |instances|
            invariant forall j :: 0 <= j < i ==> instances[j].iface != arg0.value
          {
            i := i + 1;
          }
          if i < |instances| {
            assert SelectInstance(instances, arg0.value) == Some(i);
            if steps == 0 {
              return OutOfFuel, false;
            }
            idx, steps := instances[i].functionIdx, steps - 1;
          } else if fallback.None? {
            return OpError, false;
          } else {
            if steps == 0 {
              return OutOfFuel, false;
            }
            idx, steps := fallback.value, steps - 1;
          }
        case _ =>
          return NoneValue, false;
      }
    }
  }
}
