// The reference-counted object allocator of src/core/rt/malloc/static.c.
// Every object is preceded by a header holding its delete callback and a
// size_t reference count; misuse of the count (a ref past MAX_RC, a deref
// of a dead object, freeing or reallocating a shared object) aborts the
// process. The heap is modelled as the map from an object's address to its
// header; the address malloc or realloc picks is a parameter, and an abort
// is an Err that leaves the heap as it was.
module Malloc {
  import opened Wrappers

  /** MAX_RC, SIZE_MAX on the 64-bit targets. */
  const MaxRc: nat := 0xFFFF_FFFF_FFFF_FFFF

  /** The call to abort() a misuse ends in. */
  datatype Abort = Abort

  /** struct au_obj_malloc_header: whether a del_fn was given, and rc. */
  datatype Header = Header(hasDel: bool, rc: nat)

  /** The effect of au_obj_ref on a header: abort at MAX_RC, else rc + 1. */
  function RefHeader(h: Header): (r: Result<Header, Abort>)
    ensures r.Err? <==> h.rc == MaxRc
    ensures r.Ok? ==> r.value.rc == h.rc + 1 && r.value.hasDel == h.hasDel
  {
    if h.rc == MaxRc then Err(Abort) else Ok(h.(rc := h.rc + 1))
  }

  /** The effect of au_obj_deref on a header: abort at rc 0, else rc - 1;
      the object is freed when the new count is 0. */
  function DerefHeader(h: Header): (r: Result<Header, Abort>)
    ensures r.Err? <==> h.rc == 0
    ensures r.Ok? ==> r.value.rc + 1 == h.rc && r.value.hasDel == h.hasDel
  {
    if h.rc == 0 then Err(Abort) else Ok(h.(rc := h.rc - 1))
  }

  /** A deref undoes a ref: the header comes back to what it was. */
  lemma DerefUndoesRef(h: Header)
    requires h.rc < MaxRc
    ensures RefHeader(h).Ok?
    ensures DerefHeader(RefHeader(h).value) == Ok(h)
  {
  }

  /** A deref frees exactly when it takes the last reference. */
  lemma DerefFreesLast(h: Header)
    requires DerefHeader(h).Ok?
    ensures DerefHeader(h).value.rc == 0 <==> h.rc == 1
  {
  }

  class ObjHeap {
    /** The live objects, by address. */
    var objs: map<nat, Header>

    ghost predicate Valid()
      reads this
    {
      forall p | p in objs :: objs[p].rc <= MaxRc
    }

    constructor ()
      ensures Valid() && objs == map[]
    {
      objs := map[];
    }

    /** au_obj_malloc: a new object at the address malloc returned, whose
        count is 1. */
    method ObjMalloc(p: nat, hasDel: bool)
      requires Valid() && p !in objs
      modifies this
      ensures Valid()
      ensures objs == old(objs)[p := Header(hasDel, 1)]
    {
      objs := objs[p := Header(hasDel, 1)];
    }

    /** au_obj_ref: aborts when the count is MAX_RC, otherwise raises it by
        one; no other object changes. */
    method Ref(p: nat) returns (r: Result<(), Abort>)
      requires Valid() && p in objs
      modifies this
      ensures Valid()
      ensures r.Err? <==> old(objs[p].rc) == MaxRc
      ensures objs == if r.Err? then old(objs) else old(objs)[p := RefHeader(old(objs[p])).value]
    {
      var h := objs[p];
      if h.rc == MaxRc {
        return Err(Abort);
      }
      objs := objs[p := h.(rc := h.rc + 1)];
      return Ok(());
    }

    /** au_obj_free: aborts unless the count is 0; otherwise runs the
        delete callback, when there is one, and releases the object. The
        result says whether the callback ran. */
    method Free(p: nat) returns (r: Result<bool, Abort>)
      requires Valid() && p in objs
      modifies this
      ensures Valid()
      ensures r.Err? <==> old(objs[p].rc) != 0
      ensures r.Ok? ==> r.value == old(objs[p].hasDel) && objs == old(objs) - {p}
      ensures r.Err? ==> objs == old(objs)
    {
      var h := objs[p];
      if h.rc != 0 {
        return Err(Abort);
      }
      objs := objs - {p};
      return Ok(h.hasDel);
    }

    /** au_obj_deref: aborts at count 0; otherwise lowers the count, and
        frees the object when that was the last reference. The result says
        whether the object was freed. */
    method Deref(p: nat) returns (r: Result<bool, Abort>)
      requires Valid() && p in objs
      modifies this
      ensures Valid()
      ensures r.Err? <==> old(objs[p].rc) == 0
      ensures r.Ok? ==> (r.value <==> old(objs[p].rc) == 1)
      ensures r.Err? ==> objs == old(objs)
      ensures r.Ok? && r.value ==> objs == old(objs) - {p}
      ensures r.Ok? && !r.value ==> objs == old(objs)[p := DerefHeader(old(objs[p])).value]
    {
      var h := objs[p];
      if h.rc == 0 {
        return Err(Abort);
      }
      objs := objs[p := h.(rc := h.rc - 1)];
      if h.rc - 1 == 0 {
        var f := Free(p);
        assert f.Ok?;
        return Ok(true);
      }
      return Ok(false);
    }

    /** au_obj_realloc: aborts when the object is shared (count above 1);
        otherwise the object, header unchanged, moves to the address realloc
        returned, which is its old one or a free one. */
    method Realloc(p: nat, q: nat) returns (r: Result<(), Abort>)
      requires Valid() && p in objs && (q == p || q !in objs)
      modifies this
      ensures Valid()
      ensures r.Err? <==> old(objs[p].rc) > 1
      ensures r.Ok? ==> objs == (old(objs) - {p})[q := old(objs[p])]
      ensures r.Err? ==> objs == old(objs)
    {
      var h := objs[p];
      if h.rc > 1 {
        return Err(Abort);
      }
      objs := (objs - {p})[q := h];
      return Ok(());
    }
  }
}
