/**
 * The kernel heap of kern/vm/kheap.c: the liballoc-style allocator behind
 * `kmalloc` once the kernel runs in smart mode.
 *
 * The allocator's globals live in one object: the list of majors from
 * `l_memRoot`, the best bet, the heap page bitmap `heap_frames`, the heap
 * pages mapped in `kernel_table`, and the statistics counters. Majors and
 * minors are values (module HeapLayout); the list as a whole keeps the
 * invariant of module HeapState.
 *
 * The memory the allocator hands out is not stored. The tag word a free
 * or a realloc reads below a pointer is passed in, and the allocator finds
 * the record behind a live pointer by searching for it, where the C code
 * reaches it by address arithmetic.
 */
module KernelHeap {
  import opened Types
  import opened Bitmap
  import opened HeapAlign
  import opened HeapLayout
  import opened HeapState
  import Physical

  /** `LIBALLOC_MAGIC` and `LIBALLOC_DEAD`, the multi-character constants 'MEMB' and 'DEAD' as GCC evaluates them. */
  const MEMB: U32 := 0x4D45_4D42
  const DEAD: U32 := 0x4445_4144

  /** The overrun test of a bad tag: its low three, two or one bytes match those of `MEMB`. */
  predicate Overrun(magic: U32)
  {
    magic % 0x100_0000 == MEMB % 0x100_0000
    || magic % 0x1_0000 == MEMB % 0x1_0000
    || magic % 0x100 == MEMB % 0x100
  }

  /** The three tests come down to the last one: an overrun is counted exactly when the low byte is 'B'. */
  lemma OverrunIffLowByte(magic: U32)
    ensures Overrun(magic) <==> magic % 0x100 == 0x42
  {
    LowByteOf(magic, magic / 0x100_0000 * 0x1_0000, magic % 0x100_0000);
    LowByteOf(magic, magic / 0x1_0000 * 0x100, magic % 0x1_0000);
  }

  /** Cutting off high bytes keeps the low byte. */
  lemma LowByteOf(x: nat, hi: nat, lo: nat)
    requires x == 0x100 * hi + lo
    ensures x % 0x100 == lo % 0x100
  {
    LowByteUnique(x, hi + lo / 0x100, lo % 0x100);
  }

  lemma LowByteUnique(x: nat, a: nat, b: nat)
    requires x == 0x100 * a + b && b < 0x100
    ensures x % 0x100 == b
  {
  }

  /**
   * `ptr += 0x1000; ptr &= 0xFFFFF000` as written in `kheap_smart_alloc`:
   * the first page boundary above ptr, in 32-bit arithmetic.
   */
  function PageAfterAsWritten(ptr: U32): (r: U32)
  {
    (ptr + PAGE_SIZE) % WORD_MOD / PAGE_SIZE * PAGE_SIZE
  }

  /** When the re-allocation fails, the page boundary taken above NULL is 0x1000, which the caller returns as memory. */
  lemma PageAfterNullAsWritten()
    ensures PageAfterAsWritten(0) == 0x1000
  {
  }

  /** The same rounding with NULL passed through, as the out-of-memory case is meant to end. */
  function PageAfter(ptr: U32): (r: U32)
  {
    if ptr == 0 then 0 else PageAfterAsWritten(ptr)
  }

  /** The rounded pointer is NULL exactly for NULL, and otherwise the first page boundary strictly above the pointer. */
  lemma PageAfterBounds(ptr: U32)
    requires ptr < WORD_MOD - PAGE_SIZE
    ensures ptr == 0 <==> PageAfter(ptr) == 0
    ensures ptr != 0 ==> PageAfter(ptr) % PAGE_SIZE == 0 && ptr < PageAfter(ptr) <= ptr + PAGE_SIZE
  {
    var t := ptr + PAGE_SIZE;
    assert t == t / PAGE_SIZE * PAGE_SIZE + t % PAGE_SIZE;
  }

  /**
   * `platform_pm_virt_to_phys(kernel_table, ptr & 0xFFFFF000) | (ptr & 0xFFF)`:
   * the physical address behind ptr, for a heap page the heap mapped.
   * What the page table answers for any other page is not part of this
   * model; 0 stands for it.
   */
  function PhysOf(mapped: PageMap, ptr: U32): (r: U32)
    requires forall g :: g in mapped ==> mapped[g] % PAGE_SIZE == 0
    ensures HEAP_START <= ptr && (ptr - HEAP_START) / PAGE_SIZE in mapped
            ==> r % PAGE_SIZE == ptr % PAGE_SIZE && r - r % PAGE_SIZE == mapped[(ptr - HEAP_START) / PAGE_SIZE]
  {
    if HEAP_START <= ptr && (ptr - HEAP_START) / PAGE_SIZE in mapped then
      mapped[(ptr - HEAP_START) / PAGE_SIZE] + ptr % PAGE_SIZE
    else
      0
  }

  /**
   * The record search of `lalloc_malloc` inside one major with records:
   * first the gap between the header and the first record, then the gap
   * after each record in list order, the last one reaching to the major's
   * end. Yields the first gap holding `need` bytes, or -1.
   */
  method FindGap(m: Major, need: nat) returns (k: int)
    requires |m.minors| > 0
    ensures k == FirstFit(m, need)
  {
    if m.minors[0].offset >= MAJOR_HEADER + need {
      return 0;
    }
    var j := 0;
    while j < |m.minors|
      invariant 0 <= j <= |m.minors|
      invariant FirstFit(m, need) == FirstFitFrom(m, need, j + 1)
    {
      if j + 1 == |m.minors| {
        // the space between the last record and the end of the major
        if m.size >= End(m.minors[j]) + need {
          return j + 1;
        }
      } else {
        // the space between this record and the next
        if m.minors[j + 1].offset >= End(m.minors[j]) + need {
          return j + 1;
        }
      }
      j := j + 1;
    }
    return -1;
  }

  class Heap {
    /** The majors from `l_memRoot` on, in list order. */
    var majors: seq<Major>
    /** `l_bestBet`, by the first frame of the major it points to. */
    var bestBet: Option<nat>
    /** `heap_frames`: bit g is set while heap page g belongs to a major. */
    const frames: array<bv32>
    /** The heap pages mapped in `kernel_table`, with the physical address behind each. */
    var mapped: PageMap
    /** `kernel_heap->size`: the pages the heap holds. */
    var heapPages: int
    /** `l_allocated`: the bytes of all majors. */
    var allocatedBytes: int
    /** `l_inuse`: the reserved bytes of all records. */
    var inuse: int
    /** `l_warningCount`, `l_errorCount` and `l_possibleOverruns`. */
    var warningCount: int
    var errorCount: int
    var possibleOverruns: int
    /**
     * The tag word the allocator last wrote into the record of each user
     * pointer: 'MEMB' when the record is placed, 'DEAD' when it is freed.
     */
    var tags: map<nat, U32>
    /** The physical frame allocator `vm_allocate_phys` draws on. */
    const pm: Physical.PhysicalAllocator

    /** The bitmap is a separate array of the scanned size, and every mapping points at a page boundary. */
    ghost predicate Tables()
      reads this`mapped, pm
    {
      frames.Length == NWORDS && frames != pm.frames && pm.Valid()
      && (forall g :: g in mapped ==> mapped[g] % PAGE_SIZE == 0)
    }

    /**
     * The heap invariant and the counters: `kernel_heap->size`,
     * `l_allocated` and `l_inuse` are the sums of pages, major sizes and
     * record sizes over the list, and the best bet is on the list.
     */
    ghost predicate Core()
      reads this`majors, this`bestBet, this`mapped, this`heapPages, this`allocatedBytes, this`inuse, frames, pm
    {
      Lists() && BetOk(majors, bestBet)
    }

    /** The part of `Core` that does not depend on the best bet. */
    ghost predicate Lists()
      reads this`majors, this`mapped, this`heapPages, this`allocatedBytes, this`inuse, frames, pm
    {
      Tables() && Inv(majors, frames[..], mapped)
      && heapPages == Total(majors, PagesOf) && allocatedBytes == Total(majors, SizeOf)
      && inuse == Total(majors, InUseOf)
    }

    /**
     * Between calls, besides, no major is empty (a major goes back as soon
     * as its last record does), and every live record carries 'MEMB'.
     */
    ghost predicate Valid()
      reads this, frames, pm
    {
      Core() && NoEmpty(majors) && Tagged()
    }

    /** The record of every live pointer was last tagged 'MEMB'. */
    ghost predicate Tagged()
      reads this`majors, this`tags
    {
      forall p :: p in LiveAll(majors) ==> p in tags && tags[p] == MEMB
    }

    /** `kheap_install`: an empty heap over a cleared bitmap. */
    constructor Install(pm: Physical.PhysicalAllocator)
      requires pm.Valid()
      ensures Valid() && this.pm == pm && fresh(frames)
      ensures majors == [] && bestBet == None && mapped == map[] && tags == map[]
      ensures heapPages == 0 && allocatedBytes == 0 && inuse == 0
      ensures warningCount == 0 && errorCount == 0 && possibleOverruns == 0
      ensures forall g: nat :: !Used(frames[..], g)
    {
      this.pm := pm;
      frames := new bv32[NWORDS](_ => 0);
      majors := [];
      bestBet := None;
      mapped := map[];
      tags := map[];
      heapPages, allocatedBytes, inuse := 0, 0, 0;
      warningCount, errorCount, possibleOverruns := 0, 0, 0;
      new;
      forall g: nat
        ensures !Used(frames[..], g)
      {
        if g / 32 < frames.Length {
          assert frames[..][g / 32] == 0;
        }
      }
    }

    /**
     * `allocator_alloc`: finds the lowest run of `pages` clear frames, maps
     * each of its pages to a physical frame, marks them in the bitmap and
     * adds `pages` to `kernel_heap->size`. Returns the run's address, or
     * NULL (changing nothing) when there is no run. The physical frames come
     * from the corrected `vm_allocate_phys`, which marks each frame it hands
     * out: ghost fs holds the frame of each page (-1 for none), no two pages
     * share a frame, and exactly those frames become marked.
     */
    method AllocatorAlloc(pages: nat) returns (start: U32, ghost s: int, ghost fs: seq<int>)
      requires Tables()
      modifies this`mapped, this`heapPages, frames, pm.frames
      ensures Tables()
      ensures s == -1 ==> start == 0 && frames[..] == old(frames[..]) && mapped == old(mapped) && heapPages == old(heapPages) && fs == []
      ensures s == -1 && pages > 0 ==> NoRun(old(frames[..]), pages)
      ensures s != -1 ==> 0 <= s && s + pages <= NFRAMES && start == HEAP_START + s * PAGE_SIZE
      ensures s != -1 ==> FreeRun(old(frames[..]), s, pages) && forall t: nat :: t < s ==> !FreeRun(old(frames[..]), t, pages)
      ensures s != -1 ==> forall h: nat :: Used(frames[..], h) <==> Used(old(frames[..]), h) || s <= h < s + pages
      ensures s != -1 ==> forall g :: g in mapped <==> g in old(mapped) || s <= g < s + pages
      ensures s != -1 ==> forall g :: g in old(mapped) && !(s <= g < s + pages) ==> mapped[g] == old(mapped)[g]
      ensures s != -1 ==> |fs| == pages && forall i :: 0 <= i < pages ==> fs[i] >= -1 && mapped[s + i] == Physical.FrameAddress(fs[i])
      ensures s != -1 ==> forall i, j :: 0 <= i < j < pages && fs[i] >= 0 ==> fs[i] != fs[j]
      ensures forall i :: 0 <= i < |fs| && fs[i] >= 0 ==> !Used(old(pm.frames[..]), fs[i])
      ensures forall h: nat :: Used(pm.frames[..], h) <==> Used(old(pm.frames[..]), h) || h in fs
      ensures s != -1 ==> heapPages == old(heapPages) + pages
    {
      var r := FindRun(frames, NWORDS, pages);
      if r == -1 {
        // "Could not allocate pages"
        return 0, -1, [];
      }
      s := r;
      var mp;
      mp, fs := MapRun(r, pages);
      mapped := mp;
      heapPages := heapPages + pages;
      start := HEAP_START + r * PAGE_SIZE;
    }

    /**
     * The page loop of `allocator_alloc`: each page of the run at r is
     * marked in the bitmap and mapped to the frame the corrected
     * `vm_allocate_phys` hands out and marks. Returns the extended page map
     * and, as ghost fs, the frame of each page (-1 for none).
     */
    method MapRun(r: nat, pages: nat) returns (mp: PageMap, ghost fs: seq<int>)
      requires Tables() && r + pages <= NFRAMES
      modifies frames, pm.frames
      ensures forall h: nat :: Used(frames[..], h) <==> Used(old(frames[..]), h) || r <= h < r + pages
      ensures forall g :: g in mp <==> g in mapped || r <= g < r + pages
      ensures forall g :: g in mapped && !(r <= g < r + pages) ==> mp[g] == mapped[g]
      ensures forall g :: g in mp ==> mp[g] % PAGE_SIZE == 0
      ensures |fs| == pages && forall i :: 0 <= i < pages ==> fs[i] >= -1 && mp[r + i] == Physical.FrameAddress(fs[i])
      ensures forall i, j :: 0 <= i < j < pages && fs[i] >= 0 ==> fs[i] != fs[j]
      ensures forall i :: 0 <= i < pages && fs[i] >= 0 ==> !Used(old(pm.frames[..]), fs[i])
      ensures forall h: nat :: Used(pm.frames[..], h) <==> Used(old(pm.frames[..]), h) || h in fs
    {
      ghost var w0 := frames[..];
      ghost var p0 := pm.frames[..];
      mp := mapped;
      fs := [];
      var q := 0;
      while q < pages
        invariant 0 <= q <= pages && |fs| == q && frames != pm.frames && pm.Valid() && frames.Length == NWORDS
        invariant forall h: nat :: Used(frames[..], h) <==> Used(w0, h) || r <= h < r + q
        invariant forall g :: g in mp <==> g in mapped || r <= g < r + q
        invariant forall g :: g in mapped && !(r <= g < r + q) ==> mp[g] == mapped[g]
        invariant forall g :: g in mp ==> mp[g] % PAGE_SIZE == 0
        invariant forall i :: 0 <= i < q ==> fs[i] >= -1 && mp[r + i] == Physical.FrameAddress(fs[i])
        invariant forall i :: 0 <= i < q && fs[i] >= 0 ==> Used(pm.frames[..], fs[i]) && !Used(p0, fs[i])
        invariant forall i, j :: 0 <= i < j < q && fs[i] >= 0 ==> fs[i] != fs[j]
        invariant forall h: nat :: Used(pm.frames[..], h) <==> Used(p0, h) || h in fs
      {
        ghost var before, wb := pm.frames[..], frames[..];
        var phys;
        ghost var f;
        phys, f := MapPage(r + q);
        MarkedStep(p0, before, pm.frames[..], WordsScanned(pm.nframes), fs, f);
        RunStep(w0, wb, frames[..], r, q);
        ghost var mq := mp;
        mp := mp[r + q := phys];
        PageStep(mapped, mq, mp, fs, r, q, phys, f);
        fs := fs + [f];
        q := q + 1;
      }
    }

    /** One page of the loop: page g is marked in the heap's bitmap and gets the frame `vm_allocate_phys` hands out and marks. */
    method MapPage(g: nat) returns (phys: U32, ghost f: int)
      requires frames.Length == NWORDS && frames != pm.frames && pm.Valid() && g < NFRAMES
      modifies frames, pm.frames
      ensures frames.Length == NWORDS && frames != pm.frames && pm.Valid()
      ensures forall h: nat :: Used(frames[..], h) <==> h == g || Used(old(frames[..]), h)
      ensures IsFirstClear(old(pm.frames[..]), WordsScanned(pm.nframes), f)
      ensures f >= -1 && phys == Physical.FrameAddress(f) && phys % PAGE_SIZE == 0
      ensures f == -1 ==> pm.frames[..] == old(pm.frames[..])
      ensures f >= 0 ==> forall h: nat :: Used(pm.frames[..], h) <==> h == f || Used(old(pm.frames[..]), h)
    {
      phys, f := pm.AllocatePhysMarked();
      Physical.FrameAddressAligned(f);
      SetBit(frames, g);
    }

    /**
     * `allocator_free`: for each of `pages` steps, if the page at the
     * current address is mapped, hands its physical frame back, clears its
     * bit and moves to the next page; an unmapped page is tested again at
     * the next step. Takes `pages` off `kernel_heap->size` in any case.
     * Ghost c is the number of pages released, from the first on.
     */
    method AllocatorFree(mem: U32, pages: nat) returns (ghost c: nat)
      requires Tables() && HEAP_START <= mem && (mem - HEAP_START) % PAGE_SIZE == 0
      requires (mem - HEAP_START) / PAGE_SIZE + pages <= NFRAMES
      modifies this`heapPages, frames
      ensures Tables()
      ensures heapPages == old(heapPages) - pages
      ensures c <= pages && (c < pages ==> (mem - HEAP_START) / PAGE_SIZE + c !in mapped)
      ensures forall h: nat :: Used(frames[..], h) <==> Used(old(frames[..]), h) && !((mem - HEAP_START) / PAGE_SIZE <= h < (mem - HEAP_START) / PAGE_SIZE + c)
    {
      ghost var s := (mem - HEAP_START) / PAGE_SIZE;
      ghost var w0 := frames[..];
      var address: nat := mem;
      var i := 0;
      c := 0;
      while i < pages
        modifies frames
        invariant 0 <= c <= i <= pages && address == HEAP_START + (s + c) * PAGE_SIZE
        invariant c < i ==> s + c !in mapped
        invariant forall h: nat :: Used(frames[..], h) <==> Used(w0, h) && !(s <= h < s + c)
      {
        var frame := (address - HEAP_START) / PAGE_SIZE;
        if frame in mapped {
          pm.DeallocatePhys(mapped[frame]);
          ClearBit(frames, frame);
          address := address + PAGE_SIZE;
          c := c + 1;
        }
        i := i + 1;
      }
      heapPages := heapPages - pages;
    }

    /**
     * `allocate_new_page`: a major of `PagesFor(size)` pages at the lowest
     * free run, with `usage` counting its header and no records; its bytes
     * are added to `l_allocated`. NULL, with a warning counted, when no run
     * is free. The major is not linked yet; linked at the end of the list
     * it keeps the heap invariant.
     */
    method AllocateNewPage(size: nat) returns (m: Option<Major>)
      requires Core()
      modifies this`mapped, this`heapPages, this`allocatedBytes, this`warningCount, frames, pm.frames
      ensures Tables()
      ensures m.None? ==> warningCount == old(warningCount) + 1 && frames[..] == old(frames[..]) && mapped == old(mapped)
      ensures m.None? ==> heapPages == old(heapPages) && allocatedBytes == old(allocatedBytes) && NoRun(old(frames[..]), PagesFor(size))
      ensures m.Some? ==> warningCount == old(warningCount)
      ensures m.Some? ==> m.value == Major(m.value.frame, PagesFor(size), PagesFor(size) * PAGE_SIZE, MAJOR_HEADER, [])
      ensures m.Some? ==> FreeRun(old(frames[..]), m.value.frame, m.value.pages)
      ensures m.Some? ==> forall t: nat :: t < m.value.frame ==> !FreeRun(old(frames[..]), t, m.value.pages)
      ensures m.Some? ==> FreeBytes(m.value) >= size + MINOR_HEADER
      ensures m.Some? ==> Inv(majors + [m.value], frames[..], mapped)
      ensures m.Some? ==> heapPages == old(heapPages) + m.value.pages && allocatedBytes == old(allocatedBytes) + m.value.size
    {
      var pages := PagesFor(size);
      PagesForLeast(size);
      var start;
      ghost var s, fs;
      start, s, fs := AllocatorAlloc(pages);
      if start == 0 {
        warningCount := warningCount + 1;
        return None;
      }
      var maj := Major((start - HEAP_START) / PAGE_SIZE, pages, pages * PAGE_SIZE, MAJOR_HEADER, []);
      assert maj.frame == s;
      allocatedBytes := allocatedBytes + maj.size;
      InvAppend(majors, maj, old(frames[..]), frames[..], old(mapped), mapped);
      m := Some(maj);
    }

    /**
     * The record placement shared by the four cases of `lalloc_malloc`: a
     * record of reserved size `size` goes into gap k of major i, `usage`
     * and `l_inuse` grow, and the aligned pointer to its payload is
     * returned.
     */
    method PlaceAt(i: nat, k: nat, size: nat, req: nat) returns (p: U32)
      requires Core() && i < |majors| && k <= |majors[i].minors| && Room(majors[i], k, size + MINOR_HEADER)
      modifies this`majors, this`inuse, this`tags
      ensures Core()
      ensures majors == old(majors)[i := Place(old(majors)[i], k, size, req)]
      ensures inuse == old(inuse) + size
      ensures p == Ptr(majors[i], k) && p % ALIGNMENT == 0
      ensures p !in old(LiveAll(majors)) && LiveAll(majors) == old(LiveAll(majors)) + {p}
      ensures ReqOf(majors, p) == req && tags == old(tags)[p := MEMB]
    {
      var m' := Place(majors[i], k, size, req);
      PlaceStep(majors, i, k, size, req, frames[..], mapped);
      PlacePtr(majors, i, k, size, req, frames[..], mapped);
      BetOkUpdate(majors, i, m', bestBet);
      majors := majors[i := m'];
      inuse := inuse + size;
      p := Ptr(m', k);
      tags := tags[p := MEMB];
    }
  
    /**
     * The step that ends the walk in `lalloc_malloc` (and starts the first
     * one): `allocate_new_page(size)` linked after the last major. On
     * failure nothing changes but the warning count.
     */
    method LinkNewMajor(size: nat) returns (ok: bool)
      requires Core()
      modifies this`majors, this`mapped, this`heapPages, this`allocatedBytes, this`warningCount, frames, pm.frames
      ensures Core()
      ensures LiveAll(majors) == old(LiveAll(majors))
      ensures !ok ==> warningCount == old(warningCount) + 1 && majors == old(majors) && frames[..] == old(frames[..])
      ensures !ok ==> mapped == old(mapped) && heapPages == old(heapPages) && allocatedBytes == old(allocatedBytes)
      ensures !ok ==> NoRun(old(frames[..]), PagesFor(size))
      ensures ok ==> warningCount == old(warningCount) && |majors| == |old(majors)| + 1 && majors[..|old(majors)|] == old(majors)
      ensures ok ==> |majors[|old(majors)|].minors| == 0 && FreeBytes(majors[|old(majors)|]) >= size + MINOR_HEADER
    {
      var m := AllocateNewPage(size);
      if m.None? {
        return false;
      }
      AppendStep(majors, m.value);
      BetOkAppend(majors, m.value, bestBet);
      LiveAllAppendEmpty(majors, m.value);
      majors := majors + [m.value];
      assert majors[..|old(majors)|] == old(majors);
      return true;
    }

    /**
     * `lalloc_malloc`: reserves `Reserve(req)` bytes (NULL with a warning
     * when that wraps to 0). The first call creates the root major. The
     * walk (`SearchMajors`) starts at the best bet when that has more than
     * `size + 24` bytes free, else at the root, and remembers the major
     * with the most free bytes as the new best bet. The record goes into
     * the first gap that holds it in the first major with one. When no
     * major has one, a new major is linked at the end and takes the record
     * after its header, or the result is NULL when no run of pages is free.
     * Ghost i and k say where the record went, and `before` is that major
     * as it was.
     */
    method Malloc(req: U32) returns (p: U32, ghost i: int, ghost k: int, ghost before: Major)
      requires Valid()
      modifies this, frames, pm.frames
      ensures Valid()
      ensures errorCount == old(errorCount) && possibleOverruns == old(possibleOverruns)
      ensures warningCount == old(warningCount) + (if p == 0 then 1 else 0)
      ensures Reserve(req) == 0 ==> p == 0
      ensures p == 0 ==> majors == old(majors) && frames[..] == old(frames[..]) && mapped == old(mapped)
      ensures p == 0 ==> inuse == old(inuse) && heapPages == old(heapPages) && allocatedBytes == old(allocatedBytes)
      ensures p == 0 && Reserve(req) != 0 ==> AllNoFit(old(majors), Reserve(req) + MINOR_HEADER)
      ensures p == 0 && Reserve(req) != 0 ==> NoRun(old(frames[..]), PagesFor(Reserve(req)))
      ensures p != 0 ==> inuse == old(inuse) + Reserve(req)
      ensures p != 0 ==> Placed(old(majors), old(LiveAll(majors)), Reserve(req), req, p, i, k, before)
      ensures p != 0 ==> i == old(WalkChoice(majors, bestBet, Reserve(req) + MINOR_HEADER))
      ensures tags == if p == 0 then old(tags) else old(tags)[p := MEMB]
    {
      var size := Reserve(req);
      if size == 0 {
        warningCount := warningCount + 1;
        return 0, 0, 0, Major(0, 0, 0, 0, []);
      }
      if |majors| == 0 {
        assert WalkChoice(majors, bestBet, size + MINOR_HEADER) == 0;
        p, i, k, before := GrowAndPlace(size, req, 0);
      } else {
        p, i, k, before := WalkAndPlace(size, req);
      }
    }

    /**
     * The walk of `lalloc_malloc` over a non-empty major list, for a record
     * of `size` bytes: the best bet or the root is the start, and the
     * record goes into the first major found with room, or into a new one.
     */
    method WalkAndPlace(size: nat, req: U32) returns (p: U32, ghost i: int, ghost k: int, ghost before: Major)
      requires Valid() && |majors| > 0 && size > 0
      modifies this, frames, pm.frames
      ensures Valid()
      ensures errorCount == old(errorCount) && possibleOverruns == old(possibleOverruns)
      ensures warningCount == old(warningCount) + (if p == 0 then 1 else 0)
      ensures p == 0 ==> majors == old(majors) && frames[..] == old(frames[..]) && mapped == old(mapped)
      ensures p == 0 ==> inuse == old(inuse) && heapPages == old(heapPages) && allocatedBytes == old(allocatedBytes)
      ensures p == 0 ==> AllNoFit(old(majors), size + MINOR_HEADER) && NoRun(old(frames[..]), PagesFor(size))
      ensures p != 0 ==> inuse == old(inuse) + size
      ensures p != 0 ==> Placed(old(majors), old(LiveAll(majors)), size, req, p, i, k, before)
      ensures p != 0 ==> i == old(WalkChoice(majors, bestBet, size + MINOR_HEADER))
      ensures tags == if p == 0 then old(tags) else old(tags)[p := MEMB]
    {
      var need := size + MINOR_HEADER;
      var maj, startedBet, bestSize := WalkStart(need);
      var r, gap, best, newBest := SearchMajors(majors, maj, startedBet, bestSize, need);
      WalkFindsChoice(majors, bestBet, need, maj, startedBet, r);
      KeepBest(best);
      p, i, k, before := PlaceOrGrow(r, gap, size, req, newBest);
    }

    /**
     * Where the walk for a record of `need` bytes begins: at the best bet
     * when it has more than `need` bytes free, else at the root; bestSize
     * is the best bet's free bytes, or 0 without one.
     */
    method WalkStart(need: nat) returns (maj: nat, startedBet: bool, bestSize: int)
      requires Core() && |majors| > 0
      ensures maj < |majors| && (!startedBet ==> maj == 0)
      ensures startedBet <==> bestBet.Some? && FreeBytes(majors[IndexOfFrame(majors, bestBet.value)]) > need
      ensures startedBet ==> maj == IndexOfFrame(majors, bestBet.value)
      ensures bestSize == if bestBet.Some? then FreeBytes(majors[IndexOfFrame(majors, bestBet.value)]) else 0
    {
      maj, startedBet, bestSize := 0, false, 0;
      if bestBet.Some? {
        // start at the major with the most free bytes
        var b := IndexOfFrame(majors, bestBet.value);
        bestSize := FreeBytes(majors[b]);
        if bestSize > need {
          maj, startedBet := b, true;
        }
      }
    }

    /** After the walk: the major at best, if the walk found one, becomes `l_bestBet`. */
    method KeepBest(best: int)
      requires Valid() && best < |majors|
      modifies this`bestBet
      ensures Valid()
      ensures bestBet == if best >= 0 then Some(majors[best].frame) else old(bestBet)
      ensures majors == old(majors) && mapped == old(mapped) && tags == old(tags)
      ensures inuse == old(inuse) && heapPages == old(heapPages) && allocatedBytes == old(allocatedBytes)
      ensures errorCount == old(errorCount) && warningCount == old(warningCount) && possibleOverruns == old(possibleOverruns)
    {
      if best >= 0 {
        SetBestBet(best);
      }
    }

    /** The end of the walk: the record goes into gap `gap` of major r, or, when r is -1, into a new major. */
    method PlaceOrGrow(r: int, gap: int, size: nat, req: U32, newBest: int) returns (p: U32, ghost i: int, ghost k: int, ghost before: Major)
      requires Valid() && size > 0
      requires r >= 0 ==> r < |majors| && 0 <= gap <= |majors[r].minors| && Room(majors[r], gap, size + MINOR_HEADER)
      requires r >= 0 ==> gap == FirstFit(majors[r], size + MINOR_HEADER)
      requires r < 0 ==> AllNoFit(majors, size + MINOR_HEADER) && forall j :: 0 <= j < |majors| ==> FreeBytes(majors[j]) <= newBest
      modifies this, frames, pm.frames
      ensures Valid()
      ensures errorCount == old(errorCount) && possibleOverruns == old(possibleOverruns)
      ensures warningCount == old(warningCount) + (if p == 0 then 1 else 0)
      ensures p == 0 ==> majors == old(majors) && frames[..] == old(frames[..]) && mapped == old(mapped)
      ensures p == 0 ==> inuse == old(inuse) && heapPages == old(heapPages) && allocatedBytes == old(allocatedBytes)
      ensures p == 0 ==> AllNoFit(old(majors), size + MINOR_HEADER) && NoRun(old(frames[..]), PagesFor(size))
      ensures p != 0 ==> inuse == old(inuse) + size
      ensures p != 0 ==> Placed(old(majors), old(LiveAll(majors)), size, req, p, i, k, before)
      ensures p != 0 ==> i == if r >= 0 then r else |old(majors)|
      ensures tags == if p == 0 then old(tags) else old(tags)[p := MEMB]
    {
      if r >= 0 {
        p, i, k, before := PlaceFound(r, gap, size, req);
      } else {
        p, i, k, before := GrowAndPlace(size, req, newBest);
      }
    }

    /**
     * No major has room for the record: a new one goes at the end of the
     * list and takes it right after its header, or the result is NULL when
     * no run of pages is free. `newBest` is the most free bytes the walk
     * saw; the new major becomes the best bet when it has more.
     */
    method GrowAndPlace(size: nat, req: U32, newBest: int) returns (p: U32, ghost i: int, ghost k: int, ghost before: Major)
      requires Valid() && AllNoFit(majors, size + MINOR_HEADER)
      requires forall j :: 0 <= j < |majors| ==> FreeBytes(majors[j]) <= newBest
      modifies this, frames, pm.frames
      ensures Valid()
      ensures errorCount == old(errorCount) && possibleOverruns == old(possibleOverruns)
      ensures warningCount == old(warningCount) + (if p == 0 then 1 else 0)
      ensures p == 0 ==> majors == old(majors) && frames[..] == old(frames[..]) && mapped == old(mapped)
      ensures p == 0 ==> inuse == old(inuse) && heapPages == old(heapPages) && allocatedBytes == old(allocatedBytes)
      ensures p == 0 ==> NoRun(old(frames[..]), PagesFor(size))
      ensures p != 0 ==> inuse == old(inuse) + size
      ensures p != 0 ==> Placed(old(majors), old(LiveAll(majors)), size, req, p, i, k, before)
      ensures p != 0 ==> i == |old(majors)|
      ensures tags == if p == 0 then old(tags) else old(tags)[p := MEMB]
    {
      // a last major with too few free bytes links the new one and places
      // into it at once; one that is merely full goes round the walk again
      var revisit := |majors| == 0 || FreeBytes(majors[|majors| - 1]) >= size + MINOR_HEADER;
      var ok := LinkNewMajor(size);
      if !ok {
        return 0, 0, 0, Major(0, 0, 0, 0, []);
      }
      p, i, k, before := PlaceNew(size, req, revisit && newBest < FreeBytes(majors[|majors| - 1]));
    }

    /**
     * A record of `size` bytes for `req` placed at p, starting from the
     * major list ms0 with pointers live0: in gap k, the first that fits, of
     * major i, which was `before`; either a major of ms0, or a new one after
     * all of them, linked because none of them had room. The pointer is
     * aligned, was not in use, and is the one pointer added.
     */
    ghost predicate Placed(ms0: seq<Major>, live0: set<nat>, size: nat, req: nat, p: U32, i: int, k: int, before: Major)
      reads this
    {
      0 <= i < |majors| && 0 <= k <= |before.minors| && majors[i] == Place(before, k, size, req)
      && k == FirstFit(before, size + MINOR_HEADER) && p == Ptr(majors[i], k) && p % ALIGNMENT == 0
      && p !in live0 && LiveAll(majors) == live0 + {p} && ReqOf(majors, p) == req
      && (i < |ms0| ==> before == ms0[i] && majors == ms0[i := majors[i]])
      && (i >= |ms0| ==> i == |ms0| && |majors| == i + 1 && majors[..i] == ms0
                         && |before.minors| == 0 && AllNoFit(ms0, size + MINOR_HEADER))
    }

    /** `l_bestBet = maj` for the major at position j. */
    method SetBestBet(j: nat)
      requires Core() && j < |majors|
      modifies this`bestBet
      ensures Core() && bestBet == Some(majors[j].frame)
    {
      bestBet := Some(majors[j].frame);
    }

    /** The record goes into gap k of major r, found by the walk. */
    method PlaceFound(r: nat, gap: nat, size: nat, req: U32) returns (p: U32, ghost i: int, ghost k: int, ghost before: Major)
      requires Valid() && r < |majors| && gap <= |majors[r].minors| && Room(majors[r], gap, size + MINOR_HEADER)
      requires gap == FirstFit(majors[r], size + MINOR_HEADER)
      modifies this`majors, this`inuse, this`tags
      ensures Valid()
      ensures inuse == old(inuse) + size && p != 0 && tags == old(tags)[p := MEMB]
      ensures Placed(old(majors), old(LiveAll(majors)), size, req, p, i, k, before)
      ensures i == r
    {
      i, k, before := r, gap, majors[r];
      NoEmptyPlace(majors, r, gap, size, req);
      p := PlaceAt(r, gap, size, req);
      LiveAllInHeap(majors, frames[..], mapped);
    }

    /** The record goes right after the header of the major just linked at the end of the list. */
    method PlaceNew(size: nat, req: U32, promote: bool) returns (p: U32, ghost i: int, ghost k: int, ghost before: Major)
      requires Core() && |majors| > 0 && NoEmpty(majors[..|majors| - 1])
      requires |majors[|majors| - 1].minors| == 0 && FreeBytes(majors[|majors| - 1]) >= size + MINOR_HEADER
      requires AllNoFit(majors[..|majors| - 1], size + MINOR_HEADER) && Tagged()
      modifies this`majors, this`bestBet, this`inuse, this`tags
      ensures Valid()
      ensures bestBet == if promote then Some(old(majors)[|old(majors)| - 1].frame) else old(bestBet)
      ensures inuse == old(inuse) + size && p != 0 && tags == old(tags)[p := MEMB]
      ensures |majors| == |old(majors)| && before == old(majors)[|majors| - 1]
      ensures Placed(old(majors)[..|majors| - 1], old(LiveAll(majors)), size, req, p, i, k, before)
      ensures i == |majors| - 1
    {
      if promote {
        SetBestBet(|majors| - 1);
      }
      i, k, before := |majors| - 1, 0, majors[|majors| - 1];
      UsageWithin(before);
      EmptyFirstFit(before, size + MINOR_HEADER);
      NoEmptyPlaceLast(majors, size, req);
      p := PlaceAt(|majors| - 1, 0, size, req);
      LiveAllInHeap(majors, frames[..], mapped);
      assert majors[..i] == old(majors)[..i];
    }

    /**
     * `lalloc_free`. `tag` is the word below the pointer, where the record
     * of a live pointer keeps 'MEMB' unless something overran it. NULL
     * counts a warning, and a tag other than 'MEMB' an error (`BadTag`);
     * nothing else changes then. Otherwise the record of ptr, at (i, k), is
     * unlinked and `l_inuse` loses its size (`Released` says how the list,
     * the best bet and the bitmap end up); no other pointer changes.
     */
    method Free(ptr: U32, tag: U32) returns (ghost i: nat, ghost k: nat)
      requires Valid()
      requires ptr != 0 && tag == MEMB ==> ptr in LiveAll(majors)
      modifies this, frames
      ensures Valid() && mapped == old(mapped)
      ensures warningCount == old(warningCount) + (if ptr == 0 then 1 else 0)
      ensures errorCount == old(errorCount) + (if ptr != 0 && tag != MEMB then 1 else 0)
      ensures possibleOverruns == old(possibleOverruns) + (if ptr != 0 && tag != MEMB && Overrun(tag) then 1 else 0)
      ensures ptr == 0 || tag != MEMB ==> majors == old(majors) && bestBet == old(bestBet) && frames[..] == old(frames[..]) && inuse == old(inuse)
      ensures tags == if ptr == 0 || tag != MEMB then old(tags) else old(tags)[ptr := DEAD]
      ensures ptr != 0 && tag == MEMB ==> Locate(old(majors), ptr) == Some((i, k))
      ensures ptr != 0 && tag == MEMB ==> Released(old(majors), old(bestBet), old(frames[..]), i, k)
      ensures ptr != 0 && tag == MEMB ==> inuse == old(inuse) - old(majors)[i].minors[k].size
      ensures ptr != 0 && tag == MEMB ==> LiveAll(majors) == old(LiveAll(majors)) - {ptr}
      ensures forall y :: y in old(LiveAll(majors)) && y != ptr ==> y in LiveAll(majors) && ReqOf(majors, y) == old(ReqOf(majors, y))
    {
      if ptr == 0 {
        warningCount := warningCount + 1;
        return 0, 0;
      }
      if tag != MEMB {
        BadTag(tag);
        return 0, 0;
      }
      // the search stands for `UNALIGN` and the step back over the record header
      var at := Locate(majors, ptr);
      var a, b := at.value.0, at.value.1;
      i, k := a, b;
      FreeRecord(a, b);
    }

    /** The error path shared by `lalloc_free` and `lalloc_realloc`: an error, and a possible overrun when the tag's low byte still matches. */
    method BadTag(tag: U32)
      modifies this`errorCount, this`possibleOverruns
      ensures errorCount == old(errorCount) + 1
      ensures possibleOverruns == old(possibleOverruns) + (if Overrun(tag) then 1 else 0)
    {
      errorCount := errorCount + 1;
      if Overrun(tag) {
        possibleOverruns := possibleOverruns + 1;
      }
    }

    /** The list after the record at (i, k) of ms0 is freed, with bet0 the best bet and w0 the bitmap before (`Tidied`). */
    ghost predicate Released(ms0: seq<Major>, bet0: Option<nat>, w0: seq<bv32>, i: nat, k: nat)
      reads this, frames
      requires i < |ms0| && k < |ms0[i].minors| && BetOk(ms0, bet0)
    {
      BetOkUpdate(ms0, i, Remove(ms0[i], k), bet0);
      Tidied(ms0[i := Remove(ms0[i], k)], bet0, w0, i)
    }

    /**
     * The list after major i of ms1 lost a record, with bet0 the best bet
     * and w0 the bitmap before. A major left without records is unlinked,
     * the best bet is cleared if it named that major, and the major's
     * pages are cleared in the bitmap. Otherwise the list stays, and the
     * major becomes the best bet when there is one and the major now has
     * more free bytes than the best bet.
     */
    ghost predicate Tidied(ms1: seq<Major>, bet0: Option<nat>, w0: seq<bv32>, i: nat)
      reads this, frames
      requires i < |ms1| && BetOk(ms1, bet0)
    {
      var m := ms1[i];
      if |m.minors| == 0 then
        majors == ms1[..i] + ms1[i + 1..]
        && bestBet == (if bet0 == Some(m.frame) then None else bet0)
        && forall h: nat :: Used(frames[..], h) <==> Used(w0, h) && !(m.frame <= h < m.frame + m.pages)
      else
        majors == ms1 && frames[..] == w0
        && bestBet == (if bet0.Some? && FreeBytes(m) > FreeBytes(ms1[IndexOfFrame(ms1, bet0.value)]) then Some(m.frame) else bet0)
    }

    /** The body of `lalloc_free` once the tag matched: the record at (i, k) goes, and its major with it when it was the last. */
    method FreeRecord(i: nat, k: nat)
      requires Valid() && i < |majors| && k < |majors[i].minors|
      modifies this`majors, this`bestBet, this`allocatedBytes, this`heapPages, this`inuse, this`tags, frames
      ensures Valid()
      ensures Released(old(majors), old(bestBet), old(frames[..]), i, k)
      ensures inuse == old(inuse) - old(majors)[i].minors[k].size && tags == old(tags)[Ptr(old(majors)[i], k) := DEAD]
      ensures LiveAll(majors) == old(LiveAll(majors)) - {Ptr(old(majors)[i], k)}
      ensures forall y :: y in old(LiveAll(majors)) && y != Ptr(old(majors)[i], k) ==> y in LiveAll(majors) && ReqOf(majors, y) == old(ReqOf(majors, y))
    {
      tags := tags[Ptr(majors[i], k) := DEAD];
      RemoveRecord(i, k);
    }

    /** The record at (i, k) unlinked, and the list tidied after it. */
    method RemoveRecord(i: nat, k: nat)
      requires Core() && NoEmpty(majors) && i < |majors| && k < |majors[i].minors|
      modifies this`majors, this`bestBet, this`allocatedBytes, this`heapPages, this`inuse, frames
      ensures Core() && NoEmpty(majors)
      ensures Released(old(majors), old(bestBet), old(frames[..]), i, k)
      ensures inuse == old(inuse) - old(majors)[i].minors[k].size
      ensures LiveAll(majors) == old(LiveAll(majors)) - {Ptr(old(majors)[i], k)}
      ensures forall y :: y in old(LiveAll(majors)) && y != Ptr(old(majors)[i], k) ==> y in LiveAll(majors) && ReqOf(majors, y) == old(ReqOf(majors, y))
    {
      NoEmptyBut(majors, i, k);
      BetOkUpdate(majors, i, Remove(majors[i], k), bestBet);
      UnlinkRecord(i, k);
      Tidy(i);
    }

    /**
     * The end of `lalloc_free`, after the record left major i: the major
     * goes back when it is empty, or else may become the best bet.
     */
    method Tidy(i: nat)
      requires Core() && i < |majors| && NoEmptyExcept(majors, i)
      modifies this`majors, this`bestBet, this`allocatedBytes, this`heapPages, frames
      ensures Core() && NoEmpty(majors)
      ensures Tidied(old(majors), old(bestBet), old(frames[..]), i)
      ensures LiveAll(majors) == old(LiveAll(majors))
      ensures forall y :: y in old(LiveAll(majors)) ==> y in LiveAll(majors) && ReqOf(majors, y) == old(ReqOf(majors, y))
    {
      if |majors[i].minors| == 0 {
        ReleaseMajor(i);
        NoEmptyDelete(old(majors), i);
      } else if bestBet.Some? {
        var b := IndexOfFrame(majors, bestBet.value);
        if FreeBytes(majors[i]) > FreeBytes(majors[b]) {
          SetBestBet(i);
        }
      }
    }

    /** The record at (i, k) unlinked from its major, and its size taken off `l_inuse`. */
    method UnlinkRecord(i: nat, k: nat)
      requires Core() && i < |majors| && k < |majors[i].minors|
      modifies this`majors, this`inuse
      ensures Core()
      ensures majors == old(majors)[i := Remove(old(majors)[i], k)]
      ensures inuse == old(inuse) - old(majors)[i].minors[k].size
      ensures LiveAll(majors) == old(LiveAll(majors)) - {Ptr(old(majors)[i], k)}
      ensures forall y :: y in old(LiveAll(majors)) && y != Ptr(old(majors)[i], k) ==> y in LiveAll(majors) && ReqOf(majors, y) == old(ReqOf(majors, y))
    {
      var ms := majors;
      var m := Remove(ms[i], k);
      RemoveStep(ms, i, k, frames[..], mapped);
      BetOkUpdate(ms, i, m, bestBet);
      ReqsKeptRemove(ms, i, k, frames[..], mapped);
      majors := ms[i := m];
      inuse := inuse - ms[i].minors[k].size;
    }

    /**
     * A major left without records: unlinked, dropped as the best bet, its
     * bytes taken off `l_allocated`, and its pages handed back by
     * `allocator_free`, all of them, since every page of a major is mapped.
     */
    method ReleaseMajor(i: nat)
      requires Core() && i < |majors| && |majors[i].minors| == 0
      modifies this`majors, this`bestBet, this`allocatedBytes, this`heapPages, frames
      ensures Core()
      ensures majors == old(majors)[..i] + old(majors)[i + 1..]
      ensures bestBet == (if old(bestBet) == Some(old(majors)[i].frame) then None else old(bestBet))
      ensures forall h: nat :: Used(frames[..], h) <==> Used(old(frames[..]), h) && !(old(majors)[i].frame <= h < old(majors)[i].frame + old(majors)[i].pages)
      ensures LiveAll(majors) == old(LiveAll(majors))
      ensures forall y :: y in old(LiveAll(majors)) ==> y in LiveAll(majors) && ReqOf(majors, y) == old(ReqOf(majors, y))
    {
      var ms := majors;
      ghost var w0 := frames[..];
      var m := ms[i];
      assert WellFormed(m) && m.frame + m.pages <= NFRAMES;
      if bestBet == Some(m.frame) {
        bestBet := None;
      } else {
        BetOkDelete(ms, i, bestBet);
      }
      majors := ms[..i] + ms[i + 1..];
      allocatedBytes := allocatedBytes - m.size;
      BaseFrame(m.frame);
      var c := AllocatorFree(Base(m), m.pages);
      // every page of the major is mapped, so none is skipped
      assert c == m.pages;
      DeleteStep(ms, i, w0, frames[..], mapped);
      ReqsKeptDelete(ms, i, w0, frames[..], mapped);
    }

    /**
     * `lalloc_realloc`. Size 0 frees p and gives NULL; NULL is a plain
     * `lalloc_malloc`; a tag other than 'MEMB' counts an error and gives
     * NULL. A record whose `req_size` is at least `size` keeps its place and
     * records the new size. A larger size takes a new record, and p is
     * freed whether or not one was found (the payload copy is not part of
     * this model, as the heap's bytes are not stored).
     */
    method Realloc(p: U32, size: U32, tag: U32) returns (r: U32)
      requires Valid()
      requires p != 0 && tag == MEMB ==> p in LiveAll(majors)
      modifies this, frames, pm.frames
      ensures Valid()
      ensures size == 0 ==> r == 0
      ensures size == 0 && p == 0 ==> warningCount == old(warningCount) + 1 && majors == old(majors)
      ensures p != 0 && tag != MEMB ==> r == 0 && majors == old(majors) && errorCount == old(errorCount) + 1
      ensures p != 0 && tag != MEMB ==> possibleOverruns == old(possibleOverruns) + (if Overrun(tag) then 1 else 0)
      ensures size == 0 && p != 0 && tag == MEMB ==> LiveAll(majors) == old(LiveAll(majors)) - {p} && tags == old(tags)[p := DEAD]
      ensures size != 0 && p == 0 && r == 0 ==> majors == old(majors)
      ensures size != 0 && p == 0 && r != 0 ==> r !in old(LiveAll(majors)) && LiveAll(majors) == old(LiveAll(majors)) + {r} && ReqOf(majors, r) == size
      ensures size != 0 && p != 0 && tag == MEMB && size <= old(ReqOf(majors, p)) ==>
                r == p && LiveAll(majors) == old(LiveAll(majors)) && ReqOf(majors, p) == size && inuse == old(inuse) && tags == old(tags)
      ensures size != 0 && p != 0 && tag == MEMB && size > old(ReqOf(majors, p)) && r == 0 ==>
                LiveAll(majors) == old(LiveAll(majors)) - {p}
      ensures size != 0 && p != 0 && tag == MEMB && size > old(ReqOf(majors, p)) && r != 0 ==>
                r !in old(LiveAll(majors)) && LiveAll(majors) == old(LiveAll(majors)) - {p} + {r} && ReqOf(majors, r) == size
      ensures size != 0 && p != 0 && tag == MEMB && size > old(ReqOf(majors, p)) ==>
                tags == (if r == 0 then old(tags) else old(tags)[r := MEMB])[p := DEAD]
    {
      if size == 0 {
        ghost var _, _ := Free(p, tag);
        return 0;
      }
      if p == 0 {
        r := Allocate(size);
        return;
      }
      if tag != MEMB {
        BadTag(tag);
        return 0;
      }
      var at := Locate(majors, p);
      var i, k := at.value.0, at.value.1;
      if majors[i].minors[k].reqSize >= size {
        ShrinkRequest(i, k, size);
        return p;
      }
      r := Move(p, size);
    }

    /** A smaller size kept in the record of (i, k): only its `req_size` changes. */
    method ShrinkRequest(i: nat, k: nat, size: nat)
      requires Valid() && i < |majors| && k < |majors[i].minors|
      modifies this`majors
      ensures Valid()
      ensures majors == old(majors)[i := SetReq(old(majors)[i], k, size)]
      ensures LiveAll(majors) == old(LiveAll(majors)) && Ptr(old(majors)[i], k) in LiveAll(majors)
      ensures ReqOf(majors, Ptr(old(majors)[i], k)) == size
    {
      var ms := majors;
      var m := SetReq(ms[i], k, size);
      SetReqStep(ms, i, k, size, frames[..], mapped);
      SetReqPtr(ms, i, k, size, frames[..], mapped);
      BetOkUpdate(ms, i, m, bestBet);
      majors := ms[i := m];
    }

    /** The growing case of `lalloc_realloc`: a new record of `size`, then p freed. */
    method Move(p: U32, size: U32) returns (r: U32)
      requires Valid() && p in LiveAll(majors)
      modifies this, frames, pm.frames
      ensures Valid()
      ensures r == 0 ==> LiveAll(majors) == old(LiveAll(majors)) - {p}
      ensures r != 0 ==> r !in old(LiveAll(majors)) && LiveAll(majors) == old(LiveAll(majors)) - {p} + {r} && ReqOf(majors, r) == size
      ensures tags == (if r == 0 then old(tags) else old(tags)[r := MEMB])[p := DEAD]
    {
      r := Allocate(size);
      // the record of p still carries its tag
      ghost var _, _ := Free(p, MEMB);
    }

    /** `lalloc_malloc` as its callers in this file see it: a new pointer reporting `req`, or NULL and no change of pointers. */
    method Allocate(req: U32) returns (p: U32)
      requires Valid()
      modifies this, frames, pm.frames
      ensures Valid()
      ensures p == 0 ==> majors == old(majors)
      ensures p != 0 ==> p !in old(LiveAll(majors)) && LiveAll(majors) == old(LiveAll(majors)) + {p} && ReqOf(majors, p) == req
      ensures tags == if p == 0 then old(tags) else old(tags)[p := MEMB]
    {
      ghost var i, k, before;
      p, i, k, before := Malloc(req);
    }

    /**
     * `lalloc_calloc` as written: the product of `nobj` and `size` wraps
     * modulo 2^32 and the wrapped value is the request.
     */
    method CallocAsWritten(nobj: U32, size: U32) returns (p: U32)
      requires Valid()
      modifies this, frames, pm.frames
      ensures Valid()
      ensures p == 0 ==> majors == old(majors)
      ensures p != 0 ==> p !in old(LiveAll(majors)) && LiveAll(majors) == old(LiveAll(majors)) + {p}
      ensures p != 0 ==> ReqOf(majors, p) == CallocRequest(nobj, size)
      ensures tags == if p == 0 then old(tags) else old(tags)[p := MEMB]
    {
      p := Allocate(CallocRequest(nobj, size));
    }

    /**
     * `lalloc_calloc` with the product of `nobj` and `size` checked: NULL
     * when it does not fit in 32 bits, else a pointer reporting exactly
     * that many bytes (`CallocRequest` is the product as written).
     */
    method Calloc(nobj: U32, size: U32) returns (p: U32)
      requires Valid()
      modifies this, frames, pm.frames
      ensures Valid()
      ensures CheckedRequest(nobj, size).None? ==> p == 0 && majors == old(majors) && tags == old(tags)
      ensures p == 0 ==> majors == old(majors)
      ensures p != 0 ==> p !in old(LiveAll(majors)) && LiveAll(majors) == old(LiveAll(majors)) + {p} && ReqOf(majors, p) == nobj * size
      ensures tags == if p == 0 then old(tags) else old(tags)[p := MEMB]
    {
      var checked := CheckedRequest(nobj, size);
      if checked.None? {
        return 0;
      }
      p := Allocate(checked.value);
    }

    /**
     * `kheap_smart_alloc`: an unaligned request is a plain `lalloc_malloc`.
     * An aligned one keeps the pointer when it is already on a page
     * boundary, and otherwise re-allocates the record with 4096 more bytes
     * and hands out the first page boundary above the new pointer. `phys`
     * is the physical address behind the result, on the aligned path even
     * when that is NULL; an unaligned failure returns before `*phys` is
     * written. Ghost q is the pointer of the record that holds the result.
     */
    method SmartAlloc(size: U32, aligned: bool) returns (p: U32, phys: U32, ghost q: U32)
      requires Valid()
      modifies this, frames, pm.frames
      ensures Valid()
      ensures p == 0 ==> LiveAll(majors) == old(LiveAll(majors))
      ensures p != 0 ==> q !in old(LiveAll(majors)) && LiveAll(majors) == old(LiveAll(majors)) + {q}
      ensures p != 0 && !aligned ==> p == q && ReqOf(majors, q) == size
      ensures p != 0 && aligned ==> p % PAGE_SIZE == 0 && q <= p <= q + PAGE_SIZE
      ensures p != 0 && aligned && size + PAGE_SIZE < WORD_MOD ==> p + size <= q + ReqOf(majors, q)
      ensures aligned || p != 0 ==> phys == PhysOf(mapped, p)
    {
      if !aligned {
        p := Allocate(size);
        q := p;
      } else {
        p, q := AlignedAlloc(size);
      }
      phys := PhysOf(mapped, p);
    }

    /** The aligned branch of `kheap_smart_alloc`, with the rounding of a NULL re-allocation passed through as NULL. */
    method AlignedAlloc(size: U32) returns (p: U32, ghost q: U32)
      requires Valid()
      modifies this, frames, pm.frames
      ensures Valid()
      ensures p == 0 ==> LiveAll(majors) == old(LiveAll(majors))
      ensures p != 0 ==> q !in old(LiveAll(majors)) && LiveAll(majors) == old(LiveAll(majors)) + {q}
      ensures p != 0 ==> p % PAGE_SIZE == 0 && q <= p <= q + PAGE_SIZE
      ensures p != 0 && size + PAGE_SIZE < WORD_MOD ==> p + size <= q + ReqOf(majors, q)
    {
      var first := Allocate(size);
      if first % PAGE_SIZE == 0 {
        return first, first;
      }
      p, q := Realign(first, size);
    }

    /**
     * `ptr = krealloc(ptr, size + 0x1000)` and the rounding to the next
     * page boundary, for a pointer `first` that reports `size` bytes and
     * is not on a page boundary.
     */
    method Realign(first: U32, size: U32) returns (p: U32, ghost q: U32)
      requires Valid() && first in LiveAll(majors) && ReqOf(majors, first) == size
      modifies this, frames, pm.frames
      ensures Valid()
      ensures p == 0 ==> LiveAll(majors) == old(LiveAll(majors)) - {first}
      ensures p != 0 ==> q !in old(LiveAll(majors)) - {first} && LiveAll(majors) == old(LiveAll(majors)) - {first} + {q}
      ensures p != 0 ==> p % PAGE_SIZE == 0 && q <= p <= q + PAGE_SIZE
      ensures p != 0 && size + PAGE_SIZE < WORD_MOD ==> p + size <= q + ReqOf(majors, q)
    {
      LiveAllInHeap(majors, frames[..], mapped);
      // `size + 0x1000` in 32-bit arithmetic
      var grown: U32 := if size + PAGE_SIZE < WORD_MOD then size + PAGE_SIZE else size + PAGE_SIZE - WORD_MOD;
      var r := Realloc(first, grown, MEMB);
      if r != 0 {
        LiveAllInHeap(majors, frames[..], mapped);
        PageAfterBounds(r);
      }
      p, q := PageAfter(r), r;
    }
  }

/** `real_size = nobj * size` in `lalloc_calloc`: the product in 32-bit arithmetic. */
  function CallocRequest(nobj: U32, size: U32): U32
  {
    (nobj * size) % WORD_MOD
  }

  /** A product past 2^32 wraps to a smaller request: 65537 objects of 65536 bytes get 65536 bytes. */
  lemma CallocShortGrant()
    ensures CallocRequest(0x1_0001, 0x1_0000) == 0x1_0000 < 0x1_0001 * 0x1_0000
  {
  }

  /** The product of `nobj` and `size` as a request, or None when it does not fit in 32 bits. */
  function CheckedRequest(nobj: U32, size: U32): (r: Option<U32>)
    ensures r.Some? <==> nobj * size < WORD_MOD
    ensures r.Some? ==> r.value == nobj * size && r.value == CallocRequest(nobj, size)
  {
    var n := nobj * size;
    if n < WORD_MOD then Some(n) else None
  }

  /**
   * `size + sizeof(struct allocator_minor)`, the room `lalloc_malloc` asks
   * a gap for, as it computes it in `unsigned long`.
   */
  function NeedAsWritten(size: U32): (need: U32)
    ensures size + MINOR_HEADER < WORD_MOD ==> need == size + MINOR_HEADER
    ensures size + MINOR_HEADER >= WORD_MOD ==> need < MINOR_HEADER
  {
    (size + MINOR_HEADER) % WORD_MOD
  }

  /**
   * For a request from 0xFFFFFFC8 to 0xFFFFFFDF the reserved size is within
   * a header of 2^32, so the need wraps to less than a header. The major
   * `allocate_new_page` builds for it has 16 pages (its page count wraps as
   * well), and its empty gap passes the as-written test: the record placed
   * there claims almost 4 GiB inside a 64 KiB block.
   */
  lemma NeedWrapPlacesOversized(req: U32)
    requires 0xFFFF_FFC8 <= req <= 0xFFFF_FFDF
    ensures NeedAsWritten(Reserve(req)) < MINOR_HEADER
    ensures PagesForAsWritten(Reserve(req)) == PAGE_COUNT
    ensures Room(Major(0, PAGE_COUNT, PAGE_COUNT * PAGE_SIZE, MAJOR_HEADER, []), 0, NeedAsWritten(Reserve(req)))
    ensures Reserve(req) > PAGE_COUNT * PAGE_SIZE
  {
  }

  /**
   * With the need kept exact, such a request fits no major the heap can
   * hold and asks `allocate_new_page` for more pages than the heap has, so
   * `Malloc` answers NULL.
   */
  lemma WrappedNeedRefused(req: U32)
    requires 0xFFFF_FFC8 <= req <= 0xFFFF_FFDF
    ensures PagesFor(Reserve(req)) > NFRAMES
    ensures forall words: seq<bv32> :: NoRun(words, PagesFor(Reserve(req)))
    ensures forall m: Major :: WellFormed(m) && m.frame + m.pages <= NFRAMES ==> NoFit(m, Reserve(req) + MINOR_HEADER)
  {
    forall m: Major | WellFormed(m) && m.frame + m.pages <= NFRAMES
      ensures NoFit(m, Reserve(req) + MINOR_HEADER)
    {
      assert m.size <= NFRAMES * PAGE_SIZE;
      UsageWithin(m);
    }
  }

  /** One page of `allocator_alloc`'s loop, on the page map: page r + q maps to the frame address phys of frame f. */
  lemma PageStep(mapped: PageMap, mp: PageMap, mp': PageMap, fs: seq<int>, r: nat, q: nat, phys: U32, f: int)
    requires |fs| == q && f >= -1 && phys == Physical.FrameAddress(f) && phys % PAGE_SIZE == 0 && mp' == mp[r + q := phys]
    requires forall g :: g in mp <==> g in mapped || r <= g < r + q
    requires forall g :: g in mapped && !(r <= g < r + q) ==> mp[g] == mapped[g]
    requires forall g :: g in mp ==> mp[g] % PAGE_SIZE == 0
    requires forall i :: 0 <= i < q ==> fs[i] >= -1 && mp[r + i] == Physical.FrameAddress(fs[i])
    ensures forall g :: g in mp' <==> g in mapped || r <= g < r + q + 1
    ensures forall g :: g in mapped && !(r <= g < r + q + 1) ==> mp'[g] == mapped[g]
    ensures forall g :: g in mp' ==> mp'[g] % PAGE_SIZE == 0
    ensures forall i :: 0 <= i < q + 1 ==> (fs + [f])[i] >= -1 && mp'[r + i] == Physical.FrameAddress((fs + [f])[i])
  {
  }

  /** One page of `allocator_alloc`'s loop, on the heap's own bitmap: marking page r + q extends the marked run by one. */
  lemma RunStep(w0: seq<bv32>, before: seq<bv32>, after: seq<bv32>, r: nat, q: nat)
    requires forall h: nat :: Used(before, h) <==> Used(w0, h) || r <= h < r + q
    requires forall h: nat :: Used(after, h) <==> h == r + q || Used(before, h)
    ensures forall h: nat :: Used(after, h) <==> Used(w0, h) || r <= h < r + q + 1
  {
  }

  /**
   * One page of `allocator_alloc`'s loop, on the physical bitmap: the
   * frames fs handed out so far are marked, were free at the start (p0)
   * and differ from each other; marking the next first clear frame f keeps
   * all three for fs + [f].
   */
  lemma MarkedStep(p0: seq<bv32>, before: seq<bv32>, after: seq<bv32>, nwords: nat, fs: seq<int>, f: int)
    requires forall i :: 0 <= i < |fs| && fs[i] >= 0 ==> Used(before, fs[i]) && !Used(p0, fs[i])
    requires forall i, j :: 0 <= i < j < |fs| && fs[i] >= 0 ==> fs[i] != fs[j]
    requires forall h: nat :: Used(before, h) <==> Used(p0, h) || h in fs
    requires IsFirstClear(before, nwords, f)
    requires f == -1 ==> after == before
    requires f >= 0 ==> forall h: nat :: Used(after, h) <==> h == f || Used(before, h)
    ensures forall i :: 0 <= i < |fs| + 1 && (fs + [f])[i] >= 0 ==> Used(after, (fs + [f])[i]) && !Used(p0, (fs + [f])[i])
    ensures forall i, j :: 0 <= i < j < |fs| + 1 && (fs + [f])[i] >= 0 ==> (fs + [f])[i] != (fs + [f])[j]
    ensures forall h: nat :: Used(after, h) <==> Used(p0, h) || h in fs + [f]
  {
    var fs' := fs + [f];
    forall i, j | 0 <= i < j < |fs'| && fs'[i] >= 0
      ensures fs'[i] != fs'[j]
    {
      if j == |fs| && f >= 0 {
        assert Used(before, fs[i]) && !Used(before, f);
      }
    }
  }

    /** A record unlinked from major i leaves every other major with records. */
  lemma NoEmptyBut(ms: seq<Major>, i: nat, k: nat)
    requires NoEmpty(ms) && i < |ms| && k < |ms[i].minors|
    ensures NoEmptyExcept(ms[i := Remove(ms[i], k)], i)
  {
  }

  /** No major but the i-th is without records. */
  ghost predicate NoEmptyExcept(ms: seq<Major>, i: nat)
  {
    forall j :: 0 <= j < |ms| && j != i ==> |ms[j].minors| > 0
  }

  /** Unlinking the one empty major leaves none empty. */
  lemma NoEmptyDelete(ms: seq<Major>, i: nat)
    requires i < |ms| && NoEmptyExcept(ms, i)
    ensures NoEmpty(ms[..i] + ms[i + 1..])
  {
    var ms' := ms[..i] + ms[i + 1..];
    forall j | 0 <= j < |ms'|
      ensures |ms'[j].minors| > 0
    {
      assert ms'[j] == ms[if j < i then j else j + 1];
    }
  }

  /** The address of heap frame f, and back. */
  lemma BaseFrame(f: nat)
    requires f < NFRAMES
    ensures HEAP_START + f * PAGE_SIZE < WORD_MOD
    ensures (HEAP_START + f * PAGE_SIZE - HEAP_START) % PAGE_SIZE == 0
    ensures (HEAP_START + f * PAGE_SIZE - HEAP_START) / PAGE_SIZE == f
  {
  }

  /** A record placed in major r of a list without empty majors leaves none empty. */
  lemma NoEmptyPlace(ms: seq<Major>, r: nat, k: nat, size: nat, req: nat)
    requires NoEmpty(ms) && r < |ms| && k <= |ms[r].minors|
    ensures NoEmpty(ms[r := Place(ms[r], k, size, req)])
  {
  }

  /** A record placed in the last major, the only empty one, leaves none empty. */
  lemma NoEmptyPlaceLast(ms: seq<Major>, size: nat, req: nat)
    requires |ms| > 0 && NoEmpty(ms[..|ms| - 1])
    ensures NoEmpty(ms[|ms| - 1 := Place(ms[|ms| - 1], 0, size, req)])
  {
    var n := |ms| - 1;
    forall j | 0 <= j < n
      ensures |ms[j].minors| > 0
    {
      assert ms[j] == ms[..n][j];
    }
  }

  /** The first major from position j on that has the free bytes and a gap of `need` bytes, or -1. */
  function FirstMajorFrom(ms: seq<Major>, j: nat, need: nat): (r: int)
    requires j <= |ms|
    ensures r == -1 || (j <= r < |ms| && !NoFit(ms[r], need))
    ensures forall t {:trigger NoFit(ms[t], need)} :: j <= t < |ms| && (r == -1 || t < r) ==> NoFit(ms[t], need)
    decreases |ms| - j
  {
    if j == |ms| then -1 else if !NoFit(ms[j], need) then j else FirstMajorFrom(ms, j + 1, need)
  }

  /**
   * The position of the major `lalloc_malloc` puts a record of `need`
   * bytes into, among the majors `ms` with best bet `bet`: the first with
   * room from the best bet on, when the best bet has more than `need`
   * bytes free and some major from it on has room; else the first with
   * room from the root; else |ms|, the new major linked at the end.
   */
  function WalkChoice(ms: seq<Major>, bet: Option<nat>, need: nat): (i: nat)
    requires BetOk(ms, bet)
    ensures i <= |ms|
    ensures i < |ms| ==> !NoFit(ms[i], need)
    ensures i == |ms| <==> AllNoFit(ms, need)
  {
    if bet.Some? && FreeBytes(ms[IndexOfFrame(ms, bet.value)]) > need
       && FirstMajorFrom(ms, IndexOfFrame(ms, bet.value), need) >= 0
    then FirstMajorFrom(ms, IndexOfFrame(ms, bet.value), need)
    else if FirstMajorFrom(ms, 0, need) >= 0 then FirstMajorFrom(ms, 0, need)
    else |ms|
  }

  /** The walk's start and its result, as `SearchMajors` finds it, are the major `WalkChoice` names. */
  lemma WalkFindsChoice(ms: seq<Major>, bet: Option<nat>, need: nat, start: nat, startedBet: bool, r: int)
    requires BetOk(ms, bet) && start <= |ms|
    requires startedBet <==> bet.Some? && FreeBytes(ms[IndexOfFrame(ms, bet.value)]) > need
    requires startedBet ==> start == IndexOfFrame(ms, bet.value)
    requires r == (if startedBet && FirstMajorFrom(ms, start, need) >= 0 then FirstMajorFrom(ms, start, need)
                   else FirstMajorFrom(ms, 0, need))
    ensures (if r >= 0 then r else |ms|) == WalkChoice(ms, bet, need)
  {
  }

  /**
   * The walk of `lalloc_malloc` over the majors `ms`, from `start` on (the
   * best bet, or the root), with `bestSize` the best bet's free bytes (or
   * 0). Finds the first major in walk order whose free bytes and some gap
   * hold `need` bytes, and the gap in it; a walk begun at the best bet
   * that reaches the end of the list starts over at the root. Along the
   * way, best is the last major whose free bytes exceeded all seen before
   * (-1 if none did), with newBest its free bytes. Returns r = -1 when no
   * major has room; every major has then been seen.
   */
  method SearchMajors(ms: seq<Major>, start: nat, startedBet: bool, bestSize: int, need: nat)
    returns (r: int, k: int, best: int, newBest: int)
    requires start < |ms| && (!startedBet ==> start == 0)
    requires forall j {:trigger WellFormed(ms[j])} :: 0 <= j < |ms| ==> WellFormed(ms[j])
    ensures r == (if startedBet && FirstMajorFrom(ms, start, need) >= 0 then FirstMajorFrom(ms, start, need)
                  else FirstMajorFrom(ms, 0, need))
    ensures r >= 0 ==> r < |ms| && FreeBytes(ms[r]) >= need && k == FirstFit(ms[r], need) && 0 <= k <= |ms[r].minors|
    ensures r == -1 ==> AllNoFit(ms, need)
    ensures -1 <= best < |ms|
    ensures best == -1 ==> newBest == bestSize
    ensures best >= 0 ==> newBest == FreeBytes(ms[best]) && bestSize < newBest
    ensures r == -1 ==> forall j :: 0 <= j < |ms| ==> FreeBytes(ms[j]) <= newBest
  {
    var maj, bet := start, startedBet;
    best, newBest, k := -1, bestSize, -1;
    while true
      invariant 0 <= maj < |ms| && -1 <= best < |ms|
      invariant best == -1 ==> newBest == bestSize
      invariant best >= 0 ==> newBest == FreeBytes(ms[best]) && bestSize < newBest
      invariant bet ==> startedBet && start <= maj && forall t :: start <= t < maj ==> NoFit(ms[t], need)
      invariant !bet ==> (forall t :: 0 <= t < maj ==> NoFit(ms[t], need) && FreeBytes(ms[t]) <= newBest)
      invariant !bet && startedBet ==> FirstMajorFrom(ms, start, need) == -1
      decreases (if bet then 1 else 0), |ms| - maj
    {
      var diff := FreeBytes(ms[maj]);
      if newBest < diff {
        best, newBest := maj, diff;
      }
      var fits := false;
      if diff >= need {
        if |ms[maj].minors| == 0 {
          // a brand new major: the record goes right after its header
          UsageWithin(ms[maj]);
          EmptyFirstFit(ms[maj], need);
          k := 0;
        } else {
          k := FindGap(ms[maj], need);
        }
        fits := k >= 0;
      }
      if fits {
        ThisMajor(ms, start, maj, need, bet);
        return maj, k, best, newBest;
      }
      if maj + 1 < |ms| {
        maj := maj + 1;
      } else if bet {
        // the walk began at the best bet: start all over from the root
        NoneFrom(ms, start, need);
        maj, bet := 0, false;
      } else {
        NoneFrom(ms, 0, need);
        return -1, k, best, newBest;
      }
    }
  }

  /** When all majors from j on have no room, the search from j finds none. */
  lemma NoneFrom(ms: seq<Major>, j: nat, need: nat)
    requires j <= |ms| && forall t :: j <= t < |ms| ==> NoFit(ms[t], need)
    ensures FirstMajorFrom(ms, j, need) == -1
  {
  }

  /** The first major with room after a stretch of majors without is the one the search from the stretch's start finds. */
  lemma ThisMajor(ms: seq<Major>, start: nat, maj: nat, need: nat, bet: bool)
    requires maj < |ms| && !NoFit(ms[maj], need)
    requires bet ==> start <= maj && forall t :: start <= t < maj ==> NoFit(ms[t], need)
    requires !bet ==> forall t :: 0 <= t < maj ==> NoFit(ms[t], need)
    ensures bet ==> FirstMajorFrom(ms, start, need) == maj
    ensures !bet ==> FirstMajorFrom(ms, 0, need) == maj
  {
    var j := if bet then start else 0;
    var r := FirstMajorFrom(ms, j, need);
    assert r != -1 && r <= maj;
  }
}
