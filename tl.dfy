// The per-thread state of the virtual machine (src/core/vm/tl.c): the
// constant cache, which grows as programs are loaded, and the registry of
// loaded modules, which maps a module's absolute path to a slot of the
// loaded-modules array. A slot is reserved (null) while its module is being
// loaded and filled in once, when the module is ready.
//
// A loaded program (struct au_program_data) is identified by a number; a
// null pointer is None. The printing callback, the stack bounds and the
// standard library list are not part of this model.
module ThreadLocal {
  import opened Wrappers
  import opened Arith
  import opened Value
  import GrowArray
  import HmVars
  import Objects

  type Program = nat

  /** The ways the functions of tl.c end the process: au_fatal on replacing
      a thread-local, au_fatal_index from the array, and abort(). */
  datatype Fatal = ReplaceNonNull | FatalIndex(idx: nat, len: nat) | Abort

  // ---- the current thread-local -------------------------------------------------

  /** What au_vm_thread_local_set leaves as the current thread-local:
      replacing one with another is fatal, setting or clearing is not. */
  function SetCurrent(current: Option<nat>, tl: Option<nat>): (r: Result<Option<nat>, Fatal>)
    ensures r.Err? <==> current.Some? && tl.Some?
    ensures r.Ok? ==> r.value == tl
  {
    if current.Some? && tl.Some? then Err(ReplaceNonNull) else Ok(tl)
  }

  /** Clearing the current thread-local first makes any later set succeed. */
  lemma ClearThenSet(current: Option<nat>, tl: Option<nat>)
    ensures SetCurrent(current, None) == Ok(None)
    ensures SetCurrent(SetCurrent(current, None).value, tl) == Ok(tl)
  {
  }

  /** The static current_tl of the thread. */
  class Current {
    var tl: Option<nat>

    constructor ()
      ensures tl == None
    {
      tl := None;
    }

    /** au_vm_thread_local_set. */
    method Set(tl: Option<nat>) returns (r: Result<(), Fatal>)
      modifies this
      ensures r.Err? <==> SetCurrent(old(this.tl), tl).Err?
      ensures this.tl == if r.Err? then old(this.tl) else SetCurrent(old(this.tl), tl).value
    {
      if this.tl.Some? && tl.Some? {
        return Err(ReplaceNonNull);
      }
      this.tl := tl;
      return Ok(());
    }
  }

  // ---- the module registry, as a value -----------------------------------------

  /** The registry of loaded modules: the path map and the slots. */
  datatype Registry = Registry(paths: map<seq<byte>, nat>, slots: seq<Option<Program>>)

  /** Every path maps to a slot. */
  ghost predicate RegistryOk(g: Registry)
  {
    forall k | k in g.paths :: g.paths[k] < |g.slots|
  }

  /** What au_vm_thread_local_reserve_module does: fails (None) for a path
      already in the map; otherwise maps the path to the next slot, appends
      a null slot and returns the slot's index as a uint32_t. When the map
      cannot grow (mapFull) the path is not recorded, but the slot is
      still appended and returned. */
  function ReserveSpec(g: Registry, path: seq<byte>, mapFull: bool): (Option<nat>, Registry)
  {
    if !mapFull && path in g.paths then (None, g)
    else
      var idx := |g.slots|;
      (Some(idx % Two32), Registry(if mapFull then g.paths else g.paths[path := idx], g.slots + [None]))
  }

  /** What au_vm_thread_local_add_module does: fatal past the end, an abort
      when the slot is already filled, otherwise the slot holds the
      program. */
  function AddSpec(g: Registry, idx: nat, p: Program): (r: Result<Registry, Fatal>)
  {
    if idx >= |g.slots| then Err(FatalIndex(idx, |g.slots|))
    else if g.slots[idx].Some? then Err(Abort)
    else Ok(g.(slots := g.slots[idx := Some(p)]))
  }

  /** What au_vm_thread_local_get_module returns: null for an unknown path,
      otherwise the path's slot, which is null while the module is only
      reserved. */
  function GetSpec(g: Registry, path: seq<byte>): (r: Option<Program>)
    requires RegistryOk(g)
  {
    if path in g.paths then g.slots[g.paths[path]] else None
  }

  /** Reserving keeps every path on a slot, and a failed reservation
      changes nothing. A successful one adds exactly one slot, null, and
      leaves the other slots as they were. */
  lemma ReserveKeepsOk(g: Registry, path: seq<byte>, mapFull: bool)
    requires RegistryOk(g)
    ensures var (r, g') := ReserveSpec(g, path, mapFull);
      RegistryOk(g') &&
      (r.None? <==> !mapFull && path in g.paths) &&
      (r.None? ==> g' == g) &&
      (r.Some? ==> g'.slots == g.slots + [None] && r.value == |g.slots| % Two32)
  {
  }

  /** A path is reserved once: reserving it again, while the map can
      grow, fails. */
  lemma ReserveTwiceFails(g: Registry, path: seq<byte>)
    requires RegistryOk(g) && path !in g.paths
    ensures var g' := ReserveSpec(g, path, false).1;
      ReserveSpec(g', path, false) == (None, g')
  {
  }

  /** A reserved module reads as null until it is added, and as its
      program afterwards; a second add of the same slot aborts. */
  lemma ReserveAddGet(g: Registry, path: seq<byte>, p: Program)
    requires RegistryOk(g) && path !in g.paths
    ensures var g1 := ReserveSpec(g, path, false).1;
      RegistryOk(g1) && GetSpec(g1, path) == None &&
      AddSpec(g1, |g.slots|, p).Ok? &&
      var g2 := AddSpec(g1, |g.slots|, p).value;
      RegistryOk(g2) && GetSpec(g2, path) == Some(p) &&
      AddSpec(g2, |g.slots|, p) == Err(Abort)
  {
    var g1 := ReserveSpec(g, path, false).1;
    assert g1.paths[path] == |g.slots|;
  }

  /** Adding a module changes what no other path reads. */
  lemma AddKeepsOthers(g: Registry, idx: nat, p: Program, other: seq<byte>)
    requires RegistryOk(g) && AddSpec(g, idx, p).Ok?
    requires other in g.paths ==> g.paths[other] != idx
    ensures RegistryOk(AddSpec(g, idx, p).value)
    ensures GetSpec(AddSpec(g, idx, p).value, other) == GetSpec(g, other)
  {
  }

  // ---- the thread-local --------------------------------------------------------

  /** struct au_vm_thread_local: the constant cache, the map from module
      path to slot, and the loaded-modules array (IN_CAP 1). */
  class ThreadLocal {
    var constCache: seq<Value>
    const modulesMap: HmVars.Vars
    const loadedModules: GrowArray.Array<Option<Program>>

    ghost predicate Valid()
      reads this, modulesMap, modulesMap.buckets, loadedModules
    {
      modulesMap.Valid() && modulesMap.initialized &&
      loadedModules.Valid() && loadedModules.inCap == 1 &&
      forall k | k in modulesMap.Contents :: modulesMap.Contents[k] < loadedModules.len
    }

    /** The registry the map and the array hold. */
    ghost function State(): Registry
      reads this, modulesMap, modulesMap.buckets, loadedModules, loadedModules.data
      requires Valid()
    {
      Registry(modulesMap.Contents, loadedModules.Contents())
    }

    /** au_vm_thread_local_init: a cache of one none slot per constant of
        the main program (empty when it has none), and no module. */
    constructor (dataLen: nat)
      ensures Valid() && fresh(modulesMap) && fresh(modulesMap.buckets) && fresh(loadedModules) && fresh(loadedModules.data)
      ensures constCache == seq(dataLen, _ => Nil)
      ensures |constCache| == dataLen && Objects.SlotRefs(constCache) == multiset{}
      ensures State() == Registry(map[], [])
    {
      constCache := seq(dataLen, _ => Nil);
      modulesMap := new HmVars.Vars();
      loadedModules := new GrowArray.Array(1);
      new;
      modulesMap.Init();
      Objects.SlotRefsNone(dataLen);
    }

    /** au_vm_thread_local_add_const_cache: len more none slots after the
        existing ones, which keep their values. */
    method AddConstCache(len: nat)
      modifies this
      ensures constCache == old(constCache) + seq(len, _ => Nil)
      ensures |constCache| == |old(constCache)| + len && constCache[..|old(constCache)|] == old(constCache)
      ensures Objects.SlotRefs(constCache) == Objects.SlotRefs(old(constCache))
    {
      if len == 0 {
        assert old(constCache) + seq(len, _ => Nil) == old(constCache);
        return;
      }
      CacheGrowthHoldsNoRefs(constCache, len);
      constCache := constCache + seq(len, _ => Nil);
    }

    /** au_vm_thread_local_del_const_cache: gives up the count each cached
        value holds, then empties the cache. */
    method DelConstCache(counts: Objects.Counts)
      modifies this, counts
      ensures constCache == []
      ensures counts.rc == old(counts.rc) - Objects.SlotRefs(old(constCache))
    {
      var cache := constCache;
      ghost var rc0 := counts.rc;
      var i := 0;
      while i < |cache|
        invariant 0 <= i <= |cache|
        invariant counts.rc == rc0 - Objects.SlotRefs(cache[..i])
      {
        ghost var before := counts.rc;
        counts.DerefValue(cache[i]);
        DerefStep(rc0, cache, i, before, counts.rc);
        i := i + 1;
      }
      assert cache[..i] == cache;
      constCache := [];
    }

    /** au_vm_thread_local_reserve_module. */
    method ReserveModule(abspath: seq<byte>) returns (r: Option<nat>)
      requires Valid() && |abspath| > 0
      modifies modulesMap, modulesMap.buckets, loadedModules, loadedModules.data
      ensures Valid()
      ensures (r, State()) == ReserveSpec(old(State()), abspath,
                                          HmVars.GrowFails(true, old(modulesMap.size), old(modulesMap.nitems)))
    {
      var value := loadedModules.len;
      var prev := modulesMap.Add(abspath, value);
      if prev.Some? {
        return None;
      }
      loadedModules.Add(None);
      return Some(value % Two32);
    }

    /** au_vm_thread_local_add_module. */
    method AddModule(idx: nat, data: Program) returns (r: Result<(), Fatal>)
      requires Valid()
      modifies loadedModules.data
      ensures Valid()
      ensures match AddSpec(old(State()), idx, data)
        case Err(e) => r == Err(e) && State() == old(State())
        case Ok(g) => r == Ok(()) && State() == g
    {
      var cur := loadedModules.At(idx);
      if cur.Err? {
        return Err(FatalIndex(cur.error.idx, cur.error.len));
      }
      if cur.value.Some? {
        return Err(Abort);
      }
      var _ := loadedModules.Set(idx, Some(data));
      return Ok(());
    }

    /** au_vm_thread_local_get_module: never fatal, because every path in
        the map has its slot. */
    method GetModule(abspath: seq<byte>) returns (r: Option<Program>)
      requires Valid()
      ensures RegistryOk(State()) && r == GetSpec(State(), abspath)
    {
      var value := modulesMap.Get(abspath);
      if value.value.None? {
        return None;
      }
      var slot := loadedModules.At(value.value.value);
      return slot.value;
    }
  }

  /** One more cached value given up. */
  lemma DerefStep(rc0: multiset<Objects.Counted>, cache: seq<Value>, i: nat, before: multiset<Objects.Counted>, after: multiset<Objects.Counted>)
    requires i < |cache|
    requires before == rc0 - Objects.SlotRefs(cache[..i])
    requires after == before - Objects.Refs(cache[i])
    ensures after == rc0 - Objects.SlotRefs(cache[..i + 1])
  {
    assert cache[..i + 1] == cache[..i] + [cache[i]];
    Objects.SlotRefsAppend(cache[..i], cache[i]);
  }

  /** Growing the cache by none slots adds no counted reference. */
  lemma CacheGrowthHoldsNoRefs(cache: seq<Value>, len: nat)
    ensures Objects.SlotRefs(cache + seq(len, _ => Nil)) == Objects.SlotRefs(cache)
    decreases len
  {
    if len == 0 {
      assert cache + seq(len, _ => Nil) == cache;
    } else {
      var s := cache + seq(len - 1, _ => Nil);
      assert Objects.Refs(Nil) == multiset{};
      assert cache + seq(len, _ => Nil) == s + [Nil];
      Objects.SlotRefsAppend(s, Nil);
      CacheGrowthHoldsNoRefs(cache, len - 1);
    }
  }
}
