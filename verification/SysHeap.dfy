/** The Lua allocator of src/luaz_utils.c over an abstract sys_heap: a set of live blocks with
    the sizes they were requested with. A block may have room for more than was requested, and
    a fresh block holds arbitrary bytes. */
module SysHeap {
  import opened Bytes

  /** A call into sys_heap: sys_heap_free, or sys_heap_realloc and what it gave. */
  datatype HeapCall = Freed(ptr: array<Byte>) | Asked(was: array?<Byte>, size: nat, got: array?<Byte>)

  class RawHeap {
    var live: map<array<Byte>, nat>
    /** Every call into sys_heap, in order. */
    ghost var calls: seq<HeapCall>

    ghost predicate Valid()
      reads this
    {
      forall b | b in live :: 0 < live[b] <= b.Length
    }

    constructor ()
      ensures Valid() && live == map[] && calls == []
    {
      live, calls := map[], [];
    }

    /** sys_heap_free. */
    method Free(ptr: array<Byte>)
      requires Valid() && ptr in live
      modifies this
      ensures Valid() && live == old(live) - {ptr} && calls == old(calls) + [Freed(ptr)]
    {
      live := live - {ptr};
      calls := calls + [Freed(ptr)];
    }

    /** sys_heap_realloc. Whether it finds room, and whether it resizes the block in place or
        moves it, is up to the heap; when it finds none, the old block stays as it is. */
    method Realloc(ptr: array?<Byte>, size: nat) returns (res: array?<Byte>)
      requires Valid() && size > 0 && (ptr != null ==> ptr in live)
      modifies this
      ensures Valid() && calls == old(calls) + [Asked(ptr, size, res)]
      ensures res == null ==> live == old(live)
      ensures res != null ==>
                && (res == ptr || fresh(res)) && size <= res.Length
                && (ptr == null ==> res.Length == size)
                && live == (if ptr == null then old(live) else old(live) - {ptr})[res := size]
                && (ptr != null ==> forall k | 0 <= k < size && k < old(live)[ptr] :: res[k] == old(ptr[k]))
    {
      res := null;
      if ptr == null {
        if * {
          res := new Byte[size];
          live := live[res := size];
        }
      } else if * {
        var inPlace: bool := *;
        if inPlace && size <= ptr.Length {
          res := ptr;
        } else {
          var slack: int := *;
          if slack < 0 {
            slack := 0;
          }
          res := new Byte[size + slack];
          forall k | 0 <= k < size && k < live[ptr] {
            res[k] := ptr[k];
          }
        }
        live := (live - {ptr})[res := size];
      }
      calls := calls + [Asked(ptr, size, res)];
    }

    /** lua_zephyr_allocator: a size of 0 frees, any other size is one request to sys_heap. */
    method Allocator(ptr: array?<Byte>, osize: nat, nsize: nat) returns (res: array?<Byte>)
      requires Valid() && (ptr != null ==> ptr in live && live[ptr] == osize)
      modifies this
      ensures Valid()
      ensures nsize == 0 ==> res == null && live == (if ptr == null then old(live) else old(live) - {ptr})
      ensures calls == old(calls) + (if nsize > 0 then [Asked(ptr, nsize, res)] else if ptr != null then [Freed(ptr)] else [])
      ensures nsize > 0 && res == null ==> live == old(live)
      ensures nsize > 0 && res != null ==>
                && (res == ptr || fresh(res)) && nsize <= res.Length
                && (ptr == null ==> res.Length == nsize)
                && live == (if ptr == null then old(live) else old(live) - {ptr})[res := nsize]
                && (ptr != null ==> forall k | 0 <= k < nsize && k < osize :: res[k] == old(ptr[k]))
    {
      res := null;
      if nsize == 0 {
        if ptr != null {
          Free(ptr);
        }
      } else {
        res := Realloc(ptr, nsize);
      }
    }

    /** lua_alloc_raw: a size of 0 is a request to free, so it yields NULL. */
    method AllocRaw(size: nat) returns (res: array?<Byte>)
      requires Valid()
      modifies this
      ensures Valid()
      ensures calls == old(calls) + (if size > 0 then [Asked(null, size, res)] else [])
      ensures res == null ==> live == old(live)
      ensures res != null ==> size > 0 && fresh(res) && res.Length == size && live == old(live)[res := size]
    {
      res := Allocator(null, 0, size);
    }

    /** lua_free_raw: demands a live block and the size it was allocated with. */
    method FreeRaw(ptr: array<Byte>, size: nat)
      requires Valid() && ptr in live && live[ptr] == size
      modifies this
      ensures Valid() && live == old(live) - {ptr} && calls == old(calls) + [Freed(ptr)]
    {
      var _ := Allocator(ptr, size, 0);
    }
  }

  /** What a call of the bindings did to the raw heap: its one request was refused (a request for
      nothing is not even made), ... */
  predicate Refused(before: seq<HeapCall>, after: seq<HeapCall>, size: nat)
  {
    after == before + (if size > 0 then [Asked(null, size, null)] else [])
  }

  /** ... or it was granted a block and freed exactly that block, once, ... */
  predicate Borrowed(before: seq<HeapCall>, after: seq<HeapCall>, size: nat)
  {
    && |after| == |before| + 2 && before <= after && after[|before|].Asked? && after[|before|].got != null
    && after[|before|] == Asked(null, size, after[|before|].got) && after[|before| + 1] == Freed(after[|before|].got)
  }

  /** ... or it was granted a block and never freed it. */
  predicate Kept(before: seq<HeapCall>, after: seq<HeapCall>, size: nat)
  {
    && |after| == |before| + 1 && before <= after && after[|before|].Asked? && after[|before|].got != null
    && after[|before|] == Asked(null, size, after[|before|].got)
  }

  lemma {:induction false} IsRefused(before: seq<HeapCall>, after: seq<HeapCall>, size: nat)
    requires after == before + (if size > 0 then [Asked(null, size, null)] else [])
    ensures Refused(before, after, size)
  {
  }

  lemma {:induction false} IsKept(before: seq<HeapCall>, after: seq<HeapCall>, size: nat, block: array<Byte>)
    requires after == before + [Asked(null, size, block)]
    ensures Kept(before, after, size) && Borrowed(before, after + [Freed(block)], size)
  {
  }

  /** A refused block was asked for, and stays on record. */
  lemma {:induction false} RefusedAsked(before: seq<HeapCall>, after: seq<HeapCall>, later: seq<HeapCall>, size: nat)
    requires Refused(before, after, size) && size > 0 && after <= later
    ensures Asked(null, size, null) in later
  {
    assert later[|before|] == after[|before|] == Asked(null, size, null);
  }

  /** Whatever happened, the calls before are still on record. */
  lemma {:induction false} CallsGrow(before: seq<HeapCall>, after: seq<HeapCall>, size: nat)
    requires Refused(before, after, size) || Borrowed(before, after, size) || Kept(before, after, size)
    ensures before <= after
    ensures Refused(before, after, size) && size > 0 ==> |after| == |before| + 1
    ensures Borrowed(before, after, size) ==> |after| == |before| + 2
  {
  }
}
