// Name resolution of the parser (src/core/parser/impl/resolve.c):
// variables through the stack of scopes, module qualifiers through the
// program's imported-module map, and function names through the program's
// function table, where a name not seen before gets a forward declaration
// that a later definition fills in.
//
// The symbol tables (au_hm_vars) are modelled by the mappings they hold.
module Resolve {
  import opened Wrappers
  import opened Arith
  import Fns

  type Name = seq<byte>

  // ---- variables ------------------------------------------------------------

  /** The innermost scope that binds id: scopes are listed outermost
      first. */
  function Innermost(scopes: seq<map<Name, nat>>, id: Name): (r: Option<nat>)
    ensures r.None? <==> forall i :: 0 <= i < |scopes| ==> id !in scopes[i]
    ensures r.Some? ==> r.value < |scopes| && id in scopes[r.value] &&
                        forall j :: r.value < j < |scopes| ==> id !in scopes[j]
  {
    if scopes == [] then None
    else if id in scopes[|scopes| - 1] then Some(|scopes| - 1)
    else
      var r := Innermost(scopes[..|scopes| - 1], id);
      assert forall i :: 0 <= i < |scopes| - 1 ==> scopes[..|scopes| - 1][i] == scopes[i];
      r
  }

  /** The value the innermost binding of id gives it, if any. */
  function Lookup(scopes: seq<map<Name, nat>>, id: Name): (r: Option<nat>)
    ensures r.None? <==> forall i :: 0 <= i < |scopes| ==> id !in scopes[i]
    ensures r.Some? ==> var i := Innermost(scopes, id).value; r.value == scopes[i][id]
  {
    match Innermost(scopes, id)
    case None => None
    case Some(i) => Some(scopes[i][id])
  }

  /** A binding in an inner scope hides every outer binding of the name. */
  lemma InnerHides(outer: seq<map<Name, nat>>, inner: map<Name, nat>, id: Name)
    requires id in inner
    ensures Lookup(outer + [inner], id) == Some(inner[id])
  {
  }

  /** Opening a scope that does not bind the name changes nothing. */
  lemma NewScopeTransparent(outer: seq<map<Name, nat>>, inner: map<Name, nat>, id: Name)
    requires id !in inner
    ensures Lookup(outer + [inner], id) == Lookup(outer, id)
  {
    assert (outer + [inner])[..|outer|] == outer;
  }

  /** au_parser_resolve_identifier: searches the scopes from the innermost
      out and returns the first binding found, or None. */
  method ResolveIdentifier(scopes: seq<map<Name, nat>>, id: Name) returns (r: Option<nat>)
    ensures r == Lookup(scopes, id)
  {
    var i := |scopes|;
    while i > 0
      invariant 0 <= i <= |scopes|
      invariant forall j :: i <= j < |scopes| ==> id !in scopes[j]
      decreases i
    {
      i := i - 1;
      if id in scopes[i] {
        assert Innermost(scopes, id) == Some(i);
        return Some(scopes[i][id]);
      }
    }
    return None;
  }

  // ---- functions --------------------------------------------------------------

  /** struct au_imported_module: the functions used from the module, each
      mapped to the index of its importer stub in this program. */
  datatype ImportedModule = ImportedModule(fnMap: map<Name, nat>)

  /** The tables of struct au_program_data that resolution reads and
      extends. */
  datatype Tables = Tables(
    fns: seq<Fns.Fn>,
    fnMap: map<Name, nat>,
    fnNames: seq<Name>,
    moduleMap: map<Name, nat>,
    modules: seq<ImportedModule>)

  /** Every map refers to an existing function or module. */
  ghost predicate TablesValid(t: Tables)
  {
    (forall k | k in t.fnMap :: t.fnMap[k] < |t.fns|) &&
    (forall k | k in t.moduleMap :: t.moduleMap[k] < |t.modules|) &&
    (forall m, k | m in t.modules && k in m.fnMap :: m.fnMap[k] < |t.fns|)
  }

  /** The outputs of au_parser_resolve_fn: the function's index and
      whether the call is a call of the function being defined. */
  datatype Resolved = Resolved(funcIdx: nat, executeSelf: bool)

  /** What resolve_fn does. moduleTok is None for an unqualified name
      (the EOF token in the source). The error names the unknown module.
      The flag says whether a function was created. */
  function ResolveFnSpec(t: Tables, selfName: Option<Name>, moduleTok: Option<Name>, id: Name, numArgs: Int32)
    : (Result<Resolved, Name>, bool, Tables)
    requires TablesValid(t)
  {
    if moduleTok.Some? then
      if moduleTok.value !in t.moduleMap then
        (Err(moduleTok.value), false, t)
      else
        var mi := t.moduleMap[moduleTok.value];
        var m := t.modules[mi];
        if id in m.fnMap then (Ok(Resolved(m.fnMap[id], false)), false, t)
        else
          var stub := Fns.Importer(numArgs, Wrap(mi), id, 0, None);
          (Ok(Resolved(|t.fns|, false)), true,
           t.(fns := t.fns + [stub], modules := t.modules[mi := ImportedModule(m.fnMap[id := |t.fns|])]))
    else if selfName == Some(id) then (Ok(Resolved(0, true)), false, t)
    else if id in t.fnMap then (Ok(Resolved(t.fnMap[id], false)), false, t)
    else
      (Ok(Resolved(|t.fns|, false)), true,
       t.(fns := t.fns + [Fns.NoneFn(numArgs, id)], fnMap := t.fnMap[id := |t.fns|], fnNames := t.fnNames + [id]))
  }

  /** Resolution keeps the tables valid, and a function it reports (other
      than the function being defined) exists. */
  lemma ResolveFnKeepsValid(t: Tables, selfName: Option<Name>, moduleTok: Option<Name>, id: Name, numArgs: Int32)
    requires TablesValid(t)
    ensures var (r, _, t') := ResolveFnSpec(t, selfName, moduleTok, id, numArgs);
      TablesValid(t') && (r.Ok? && !r.value.executeSelf ==> r.value.funcIdx < |t'.fns|)
  {
    var (r, _, t') := ResolveFnSpec(t, selfName, moduleTok, id, numArgs);
    if moduleTok.Some? && moduleTok.value in t.moduleMap {
      var mi := t.moduleMap[moduleTok.value];
      if id !in t.modules[mi].fnMap {
        forall m, k | m in t'.modules && k in m.fnMap
          ensures m.fnMap[k] < |t'.fns|
        {
          var j :| 0 <= j < |t'.modules| && t'.modules[j] == m;
          if j != mi {
            assert t.modules[j] == m;
          }
        }
      }
    }
  }

  /** A function is created exactly when one is appended; otherwise
      nothing changes. A created function is appended at the old end, as
      an importer stub for a qualified name and as a forward declaration
      with the expected arity otherwise. */
  lemma ResolveFnCreates(t: Tables, selfName: Option<Name>, moduleTok: Option<Name>, id: Name, numArgs: Int32)
    requires TablesValid(t)
    ensures var (r, created, t') := ResolveFnSpec(t, selfName, moduleTok, id, numArgs);
      (created <==> |t'.fns| == |t.fns| + 1) && (!created ==> t' == t) &&
      (created ==> r == Ok(Resolved(|t.fns|, false)) && t'.fns[..|t.fns|] == t.fns) &&
      (created && moduleTok.None? ==> t'.fns[|t.fns|] == Fns.NoneFn(numArgs, id) && Fns.NumArgs(t'.fns[|t.fns|]) == numArgs &&
                                      t'.fnMap[id] == |t.fns| && t'.fnNames == t.fnNames + [id]) &&
      (created && moduleTok.Some? ==> t'.fns[|t.fns|].Importer? && t'.fns[|t.fns|].name == id &&
                                      t'.fnMap == t.fnMap)
  {
  }

  /** Resolving the same name again finds what the first resolution found
      or created, and creates nothing. */
  lemma ResolveFnIdempotent(t: Tables, selfName: Option<Name>, moduleTok: Option<Name>, id: Name, numArgs: Int32, numArgs2: Int32)
    requires TablesValid(t) && ResolveFnSpec(t, selfName, moduleTok, id, numArgs).0.Ok?
    ensures var (r, _, t') := ResolveFnSpec(t, selfName, moduleTok, id, numArgs);
      TablesValid(t') && ResolveFnSpec(t', selfName, moduleTok, id, numArgs2) == (r, false, t')
  {
    ResolveFnKeepsValid(t, selfName, moduleTok, id, numArgs);
  }

  /** The program data resolution works on. */
  class ProgramData {
    var fns: seq<Fns.Fn>
    var fnMap: map<Name, nat>
    var fnNames: seq<Name>
    var moduleMap: map<Name, nat>
    var modules: seq<ImportedModule>

    function State(): Tables
      reads this
    {
      Tables(fns, fnMap, fnNames, moduleMap, modules)
    }

    constructor (t: Tables)
      ensures State() == t
    {
      fns, fnMap, fnNames, moduleMap, modules := t.fns, t.fnMap, t.fnNames, t.moduleMap, t.modules;
    }

    /** au_parser_resolve_module: the index of the imported module, or None
        when the name is not one. */
    function ResolveModule(moduleTok: Name): (r: Option<nat>)
      reads this
      requires TablesValid(State())
      ensures r.Some? <==> moduleTok in moduleMap
      ensures r.Some? ==> r.value == moduleMap[moduleTok] && r.value < |modules|
    {
      if moduleTok in moduleMap then Some(moduleMap[moduleTok]) else None
    }

    /** au_parser_resolve_fn: resolves a called name, appending an importer
        stub for a function of a module that is used for the first time
        and a forward declaration for an unknown unqualified name. */
    method ResolveFn(selfName: Option<Name>, moduleTok: Option<Name>, id: Name, numArgs: Int32)
      returns (r: Result<Resolved, Name>, created: bool)
      requires TablesValid(State())
      modifies this
      ensures (r, created, State()) == ResolveFnSpec(old(State()), selfName, moduleTok, id, numArgs)
      ensures TablesValid(State())
    {
      ResolveFnKeepsValid(State(), selfName, moduleTok, id, numArgs);
      created := false;
      var funcIdx := 0;
      var found := false;
      var executeSelf := false;
      if moduleTok.Some? {
        var mi := ResolveModule(moduleTok.value);
        if mi.None? {
          return Err(moduleTok.value), false;
        }
        var m := modules[mi.value];
        if id !in m.fnMap {
          created := true;
          var value := |fns|;
          fns := fns + [Fns.Importer(numArgs, Wrap(mi.value), id, 0, None)];
          funcIdx := value;
          modules := modules[mi.value := ImportedModule(m.fnMap[id := value])];
        } else {
          funcIdx := m.fnMap[id];
        }
        found := true;
      } else if selfName.Some? && selfName.value == id {
        executeSelf := true;
        found := true;
      } else if id in fnMap {
        funcIdx := fnMap[id];
        found := true;
      }
      if !found {
        created := true;
        var value := |fns|;
        fnMap := fnMap[id := value];
        fns := fns + [Fns.NoneFn(numArgs, id)];
        fnNames := fnNames + [id];
        funcIdx := value;
      }
      return Ok(Resolved(funcIdx, executeSelf)), created;
    }
  }
}
