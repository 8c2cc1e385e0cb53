/**
 * The allocation entry points of kern/vm/kheap.c: `kmalloc`, `kmalloc_p`
 * and `kmalloc_ap` hand a request to the smart mapper (the kernel heap,
 * through `kheap_smart_alloc`) once `use_smart_mapper` is set, and to the
 * dumb bump step before that. `kfree`, `krealloc` and `kcalloc` always go
 * to the heap: they are `Heap.Free`, `Heap.Realloc` and `Heap.Calloc`.
 */
module KernelMemory {
  import opened Types
  import opened HeapAlign
  import opened HeapLayout
  import opened HeapState
  import opened Placement
  import opened KernelHeap

  class Memory {
    /** `state.use_smart_mapper` and `state.s.dumb`. */
    const dumb: BumpAllocator
    /** The smart mapper. */
    const heap: Heap

    ghost predicate Valid()
      reads this, dumb, heap, heap.frames, heap.pm
    {
      dumb.Valid() && heap.Valid()
    }

    constructor (dumb: BumpAllocator, heap: Heap)
      requires dumb.Valid() && heap.Valid()
      ensures Valid() && this.dumb == dumb && this.heap == heap
    {
      this.dumb := dumb;
      this.heap := heap;
    }

    /**
     * `kmalloc`: in smart mode a new heap pointer reporting s bytes, or
     * NULL; in dumb mode the placement, bumped by s rounded up to 16.
     * The other allocator is left alone.
     */
    method Kmalloc(s: U32) returns (p: U32)
      requires Valid()
      modifies dumb, heap, heap.frames, heap.pm.frames
      ensures Valid() && dumb.useSmart == old(dumb.useSmart)
      ensures dumb.useSmart ==> DumbKept() && (p == 0 ==> LiveAll(heap.majors) == old(LiveAll(heap.majors)))
      ensures dumb.useSmart && p != 0 ==> p !in old(LiveAll(heap.majors)) && LiveAll(heap.majors) == old(LiveAll(heap.majors)) + {p}
      ensures dumb.useSmart && p != 0 ==> ReqOf(heap.majors, p) == s
      ensures !dumb.useSmart ==> HeapKept() && p == Start(old(dumb.startPlacement), dumb.kernEnd)
      ensures !dumb.useSmart ==> dumb.blocks == old(dumb.blocks) + [Block(p, Round16(s), false)]
    {
      var phys;
      p, phys := KmallocP(s);
    }

    /** `kmalloc_p`: `kmalloc` with the physical address of the result. */
    method KmallocP(s: U32) returns (p: U32, phys: U32)
      requires Valid()
      modifies dumb, heap, heap.frames, heap.pm.frames
      ensures Valid() && dumb.useSmart == old(dumb.useSmart)
      ensures dumb.useSmart ==> DumbKept() && (p == 0 ==> LiveAll(heap.majors) == old(LiveAll(heap.majors)))
      ensures dumb.useSmart && p != 0 ==> p !in old(LiveAll(heap.majors)) && LiveAll(heap.majors) == old(LiveAll(heap.majors)) + {p}
      ensures dumb.useSmart && p != 0 ==> ReqOf(heap.majors, p) == s
      ensures dumb.useSmart && p != 0 ==> phys == PhysOf(heap.mapped, p)
      ensures !dumb.useSmart ==> HeapKept() && p == Start(old(dumb.startPlacement), dumb.kernEnd)
      ensures !dumb.useSmart ==> dumb.blocks == old(dumb.blocks) + [Block(p, Round16(s), false)]
      ensures !dumb.useSmart ==> phys == DumbPhys(p)
    {
      if dumb.useSmart {
        ghost var q;
        p, phys, q := heap.SmartAlloc(s, false);
      } else {
        p := dumb.Bump(s, false);
        phys := DumbPhys(p);
      }
    }

    /**
     * `kmalloc_ap`: a result on a page boundary. In smart mode it lies in
     * a new heap record q, with s bytes from it inside what q reports
     * unless `s + 0x1000` wraps; in dumb mode it is the placement moved up
     * to a page boundary.
     */
    method KmallocAp(s: U32) returns (p: U32, phys: U32, ghost q: U32)
      requires Valid()
      modifies dumb, heap, heap.frames, heap.pm.frames
      ensures Valid() && dumb.useSmart == old(dumb.useSmart)
      ensures p % PAGE_SIZE == 0
      ensures dumb.useSmart ==> DumbKept() && (p == 0 ==> LiveAll(heap.majors) == old(LiveAll(heap.majors)))
      ensures dumb.useSmart && p != 0 ==> q !in old(LiveAll(heap.majors)) && LiveAll(heap.majors) == old(LiveAll(heap.majors)) + {q}
      ensures dumb.useSmart && p != 0 ==> q <= p <= q + PAGE_SIZE
      ensures dumb.useSmart && p != 0 && s + PAGE_SIZE < WORD_MOD ==> p + s <= q + ReqOf(heap.majors, q)
      ensures dumb.useSmart ==> phys == PhysOf(heap.mapped, p)
      ensures !dumb.useSmart ==> HeapKept() && p == PageUp(Start(old(dumb.startPlacement), dumb.kernEnd))
      ensures !dumb.useSmart ==> dumb.blocks == old(dumb.blocks) + [Block(p, Round16(s), true)]
      ensures !dumb.useSmart ==> phys == DumbPhys(p)
    {
      if dumb.useSmart {
        p, phys, q := heap.SmartAlloc(s, true);
      } else {
        p := dumb.Bump(s, true);
        phys := DumbPhys(p);
        q := p;
      }
    }

    /** The dumb allocator as it was. */
    twostate predicate DumbKept()
      reads this, dumb
    {
      dumb.startPlacement == old(dumb.startPlacement) && dumb.bytesAllocated == old(dumb.bytesAllocated)
      && dumb.blocks == old(dumb.blocks)
    }

    /** The heap as it was. */
    twostate predicate HeapKept()
      reads this, heap, heap.frames
    {
      heap.majors == old(heap.majors) && heap.frames[..] == old(heap.frames[..]) && heap.tags == old(heap.tags)
    }
  }
}
