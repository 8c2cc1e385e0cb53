/**
 * The pure arithmetic of the kernel heap in kern/vm/kheap.c: the `ALIGN`
 * and `UNALIGN` macros that move a user pointer to a 16-byte boundary, the
 * size every request reserves, and the number of pages a new major block
 * is given.
 */
module HeapAlign {
  import opened Types

  /** `ALIGNMENT`: user pointers are multiples of 16. */
  const ALIGNMENT: nat := 16
  /** `ALIGN_INFO`: 16 bytes below the user pointer hold the shift, in a `char`. */
  const ALIGN_INFO: nat := 16
  /** What every request reserves beyond the requested bytes: room to align plus the shift byte. */
  const RESERVE: nat := ALIGNMENT + ALIGN_INFO

  /** The user pointer `ALIGN` produces and the shift it stores 16 bytes below it. */
  datatype Aligned = Aligned(ptr: nat, shift: Byte)

  /**
   * `ALIGN(p)` on the payload address p of a minor record: 16 is added,
   * then the pointer is rounded up to a multiple of 16, and the distance
   * back to p is stored in the byte 16 below the result.
   */
  function Align(payload: nat): (a: Aligned)
    ensures a.ptr % ALIGNMENT == 0
    ensures payload + ALIGN_INFO <= a.ptr < payload + RESERVE
    ensures a.shift == a.ptr - payload
    ensures ALIGN_INFO <= a.shift < RESERVE
  {
    var p := payload + ALIGN_INFO;
    var diff := p % ALIGNMENT;
    if diff != 0 then
      Aligned(p + (ALIGNMENT - diff), ALIGNMENT - diff + ALIGN_INFO)
    else
      Aligned(p, ALIGN_INFO)
  }

  /**
   * `UNALIGN(ptr)` given the byte found 16 below ptr: a value below 32 is
   * taken as a shift and subtracted (in 32-bit arithmetic); anything else,
   * including a byte with its sign bit set, leaves the pointer as it is.
   */
  function Unalign(ptr: U32, stored: Byte): (r: U32)
    ensures stored < RESERVE ==> (r + stored) % WORD_MOD == ptr
    ensures stored >= RESERVE ==> r == ptr
  {
    if stored < RESERVE then (ptr - stored) % WORD_MOD else ptr
  }

  /** `UNALIGN` undoes `ALIGN`: the stored shift leads back to the payload. */
  lemma UnalignAlign(payload: nat)
    requires Align(payload).ptr < WORD_MOD
    ensures Unalign(Align(payload).ptr, Align(payload).shift) == payload
  {
  }

  /** The byte holding the shift lies inside the payload, never in the record header before it. */
  lemma ShiftByteInPayload(payload: nat)
    ensures payload <= Align(payload).ptr - ALIGN_INFO < payload + ALIGNMENT
  {
  }

  /**
   * `size = req_size + 16 + 16` in `unsigned long`, which is 32 bits wide
   * on i386: the bytes a request reserves, wrapping for requests within 32
   * of 2^32.
   */
  function Reserve(req: U32): (size: U32)
    ensures req + RESERVE < WORD_MOD ==> size == req + RESERVE
    ensures req + RESERVE >= WORD_MOD ==> size == req + RESERVE - WORD_MOD
  {
    (req + RESERVE) % WORD_MOD
  }

  /** Without wrap-around the aligned user area of req bytes ends inside the reserved size. */
  lemma RequestFits(payload: nat, req: U32)
    requires req + RESERVE < WORD_MOD
    ensures payload <= Align(payload).ptr
    ensures Align(payload).ptr + req <= payload + Reserve(req)
  {
  }

  /**
   * `lalloc_malloc(0)` is not refused: the zero test on the size comes
   * after the 32 bytes are added, so it fires for one request only, the one
   * whose sum wraps to exactly 2^32.
   */
  lemma ZeroOnlyOnWrap(req: U32)
    ensures Reserve(0) == RESERVE
    ensures Reserve(req) == 0 <==> req == WORD_MOD - RESERVE
  {
  }

  /** Requests in the top 32 values of the 32-bit range reserve less than they ask for. */
  lemma WrappedReserveShrinks(req: U32)
    requires req + RESERVE >= WORD_MOD
    ensures Reserve(req) < RESERVE && Reserve(req) < req
  {
  }

  const PAGE_SIZE: nat := 4096
  /** `l_pageCount`: the least number of pages a major block gets. */
  const PAGE_COUNT: nat := 16
  /** `sizeof(struct allocator_major)` and `sizeof(struct allocator_minor)` on i386. */
  const MAJOR_HEADER: nat := 24
  const MINOR_HEADER: nat := 24

  /**
   * The page count of `allocate_new_page(size)`: the size plus both headers,
   * divided by the page size and rounded up, but at least 16.
   */
  function PagesFor(size: nat): (pages: nat)
  {
    var st := size + MAJOR_HEADER + MINOR_HEADER;
    var n := if st % PAGE_SIZE == 0 then st / PAGE_SIZE else st / PAGE_SIZE + 1;
    if n < PAGE_COUNT then PAGE_COUNT else n
  }

  /**
   * The page count is the least number of pages, not below 16, that holds
   * the requested size together with a major and a minor header.
   */
  lemma PagesForLeast(size: nat)
    ensures PagesFor(size) >= PAGE_COUNT
    ensures PagesFor(size) * PAGE_SIZE >= size + MAJOR_HEADER + MINOR_HEADER
    ensures PagesFor(size) == PAGE_COUNT || (PagesFor(size) - 1) * PAGE_SIZE < size + MAJOR_HEADER + MINOR_HEADER
  {
    var st := size + MAJOR_HEADER + MINOR_HEADER;
    assert st == (st / PAGE_SIZE) * PAGE_SIZE + st % PAGE_SIZE;
  }

  /**
   * The page count as `allocate_new_page` computes it, with `st` an
   * `unsigned int`: for a size within 48 of 2^32 the sum wraps.
   */
  function PagesForAsWritten(size: U32): (pages: nat)
    ensures pages >= PAGE_COUNT
  {
    var st := (size + MAJOR_HEADER + MINOR_HEADER) % WORD_MOD;
    var n := if st % PAGE_SIZE == 0 then st / PAGE_SIZE else st / PAGE_SIZE + 1;
    if n < PAGE_COUNT then PAGE_COUNT else n
  }

  /** Below the wrap the page count as written is PagesFor. */
  lemma PagesForAsWrittenAgrees(size: U32)
    requires size + MAJOR_HEADER + MINOR_HEADER < WORD_MOD
    ensures PagesForAsWritten(size) == PagesFor(size)
  {
  }

  /**
   * A reserved size whose sum with the headers wraps gets the minimum of 16
   * pages, too few for the record the block is made for. `malloc(0xFFFFFFC0)`
   * reserves 0xFFFFFFE0 bytes and lands here.
   */
  lemma PagesForWrapShort(size: U32)
    requires size + MAJOR_HEADER + MINOR_HEADER >= WORD_MOD
    ensures PagesForAsWritten(size) == PAGE_COUNT
    ensures PagesForAsWritten(size) * PAGE_SIZE < size + MINOR_HEADER
    ensures Reserve(0xFFFF_FFC0) + MAJOR_HEADER + MINOR_HEADER >= WORD_MOD
  {
  }
}
