/**
 * The placement ("dumb") allocator of kern/vm/kmalloc.c, used before the
 * kernel heap exists: a pointer that starts at the end of the kernel image
 * and is bumped by each request rounded up to 16 bytes. Nothing is ever
 * given back. kern/vm/kheap.c carries the same bump step in the dumb
 * branches of `kmalloc`, `kmalloc_p` and `kmalloc_ap`, the last of which
 * first moves the placement up to a page boundary.
 */
module Placement {
  import opened Types
  import opened HeapAlign

  /**
   * A size rounded up to a multiple of 16 as the allocator does it: the low
   * four bits are cleared and 16 is added in 32-bit arithmetic when any of
   * them was set.
   */
  function Round16(s: U32): (r: U32)
    ensures r % 16 == 0
    ensures s % 16 == 0 ==> r == s
    ensures s <= 0xFFFF_FFF0 ==> s <= r < s + 16
    ensures s > 0xFFFF_FFF0 ==> r == 0
  {
    if s % 16 != 0 then (s - s % 16 + 0x10) % WORD_MOD else s
  }

  /** One region handed out: its address, its rounded size, and whether the placement was page-aligned first. */
  datatype Block = Block(address: U32, size: U32, aligned: bool)

  /** Sum of the rounded sizes, without wrap-around. */
  function Total(blocks: seq<Block>): nat
  {
    if |blocks| == 0 then 0 else Total(blocks[..|blocks| - 1]) + blocks[|blocks| - 1].size
  }

  /** Where the next region starts: a zero placement is replaced by the end of the kernel. */
  function Start(placement: U32, kernEnd: U32): U32
  {
    if placement == 0 then kernEnd else placement
  }

  /**
   * `start_placement += 0x1000 - (start_placement & 0xFFF)` when the low
   * twelve bits are not all clear: the next page boundary, in 32-bit
   * arithmetic.
   */
  function PageUp(x: U32): (r: U32)
    ensures r % PAGE_SIZE == 0
    ensures x + PAGE_SIZE <= WORD_MOD ==> x <= r < x + PAGE_SIZE
    ensures x % PAGE_SIZE == 0 ==> r == x
  {
    if x % PAGE_SIZE == 0 then x else (x + PAGE_SIZE - x % PAGE_SIZE) % WORD_MOD
  }

  /** Where a region goes: the start, moved up to a page boundary for an aligned request. */
  function Place(placement: U32, kernEnd: U32, aligned: bool): U32
  {
    if aligned then PageUp(Start(placement, kernEnd)) else Start(placement, kernEnd)
  }

  /** `*physical = address - 0xC0000000`: the kernel is mapped 3 GiB above its physical load address. */
  function DumbPhys(address: U32): (r: U32)
    ensures address >= 0xC000_0000 ==> r == address - 0xC000_0000
  {
    (address - 0xC000_0000) % WORD_MOD
  }

  /** First byte after a region, in 32-bit arithmetic. */
  function End(b: Block): U32
  {
    (b.address + b.size) % WORD_MOD
  }

  /** Each region starts where the previous one ended. */
  predicate Chained(blocks: seq<Block>, kernEnd: U32)
  {
    forall k :: 0 < k < |blocks| ==> blocks[k].address == Place(End(blocks[k - 1]), kernEnd, blocks[k].aligned)
  }

  /** No region was page-aligned: the chain `kmalloc` of kern/vm/kmalloc.c builds. */
  predicate Unaligned(blocks: seq<Block>)
  {
    forall k :: 0 <= k < |blocks| ==> !blocks[k].aligned
  }

  /** Every region starts above 0 and ends at least a page below 2^32, so no step of the placement wraps. */
  predicate NoWrap(blocks: seq<Block>)
  {
    forall k :: 0 <= k < |blocks| ==> 0 < blocks[k].address && blocks[k].address + blocks[k].size + PAGE_SIZE <= WORD_MOD
  }

  class BumpAllocator {
    /** `state.use_smart_mapper`. */
    var useSmart: bool
    /** `state.s.dumb.start_placement`; 0 until the first request. */
    var startPlacement: U32
    /** `state.s.dumb.bytes_allocated`. */
    var bytesAllocated: U32
    /** The address of `__kern_end`, fixed by the linker. */
    const kernEnd: U32
    /** Every region handed out so far, in order. */
    ghost var blocks: seq<Block>

    ghost predicate Valid()
      reads this
    {
      bytesAllocated == Total(blocks) % WORD_MOD
      && Chained(blocks, kernEnd)
      && (|blocks| > 0 ==> startPlacement == End(blocks[|blocks| - 1]))
      && (|blocks| == 0 ==> startPlacement == 0)
    }

    /** The zero-initialised static state. */
    constructor (kernEnd: U32, useSmart: bool)
      ensures Valid() && this.kernEnd == kernEnd && this.useSmart == useSmart
      ensures startPlacement == 0 && bytesAllocated == 0 && blocks == []
    {
      this.kernEnd := kernEnd;
      this.useSmart := useSmart;
      startPlacement := 0;
      bytesAllocated := 0;
      blocks := [];
    }

    /**
     * `kmalloc`: NULL in smart mode with nothing changed; otherwise the
     * current placement (the end of the kernel on the first call), which
     * then advances by the rounded size, as does the byte count.
     */
    method Kmalloc(s: U32) returns (p: U32)
      requires Valid()
      modifies this
      ensures Valid()
      ensures useSmart == old(useSmart)
      ensures useSmart ==> (p == 0 && startPlacement == old(startPlacement)
                            && bytesAllocated == old(bytesAllocated) && blocks == old(blocks))
      ensures !useSmart ==> (p == Start(old(startPlacement), kernEnd)
                             && startPlacement == (p + Round16(s)) % WORD_MOD
                             && bytesAllocated == (old(bytesAllocated) + Round16(s)) % WORD_MOD
                             && blocks == old(blocks) + [Block(p, Round16(s), false)])
    {
      if useSmart {
        return 0;
      }
      p := Bump(s, false);
    }

    /**
     * The dumb branch of the allocation functions: the placement (the end
     * of the kernel when still 0), moved up to a page boundary for an
     * aligned request, is the result, and the placement and the byte count
     * then advance by the size rounded up to 16.
     */
    method Bump(s: U32, aligned: bool) returns (p: U32)
      requires Valid()
      modifies this`startPlacement, this`bytesAllocated, this`blocks
      ensures Valid()
      ensures p == Place(old(startPlacement), kernEnd, aligned)
      ensures aligned ==> p % PAGE_SIZE == 0
      ensures startPlacement == (p + Round16(s)) % WORD_MOD
      ensures bytesAllocated == (old(bytesAllocated) + Round16(s)) % WORD_MOD
      ensures blocks == old(blocks) + [Block(p, Round16(s), aligned)]
    {
      var size := Round16(s);
      p := Start(startPlacement, kernEnd);
      if aligned && p % PAGE_SIZE != 0 {
        p := (p + PAGE_SIZE - p % PAGE_SIZE) % WORD_MOD;
      }
      AppendKeepsChain(blocks, kernEnd, startPlacement, Block(p, size, aligned));
      startPlacement := (p + size) % WORD_MOD;
      bytesAllocated := (bytesAllocated + size) % WORD_MOD;
      blocks := blocks + [Block(p, size, aligned)];
    }

    /** `kfree`: has no effect in either mode. */
    method Kfree(p: U32)
      requires Valid()
      ensures Valid()
    {
    }

    /** `kheap_dumb_get_bytes`: the sum of all rounded sizes handed out, modulo 2^32. */
    method GetBytes() returns (n: U32)
      requires Valid()
      ensures n == Total(blocks) % WORD_MOD
    {
      n := bytesAllocated;
    }
  }

  /**
   * A region that starts at the placement left by the earlier ones extends
   * the chain, and the running total grows by its size, modulo 2^32 too.
   */
  lemma AppendKeepsChain(blocks: seq<Block>, kernEnd: U32, placement: U32, b: Block)
    requires Chained(blocks, kernEnd)
    requires |blocks| > 0 ==> placement == End(blocks[|blocks| - 1])
    requires |blocks| == 0 ==> placement == 0
    requires b.address == Place(placement, kernEnd, b.aligned)
    ensures Chained(blocks + [b], kernEnd)
    ensures Total(blocks + [b]) == Total(blocks) + b.size
    ensures Total(blocks + [b]) % WORD_MOD == (Total(blocks) % WORD_MOD + b.size) % WORD_MOD
  {
    var bs := blocks + [b];
    forall k | 0 < k < |bs|
      ensures bs[k].address == Place(End(bs[k - 1]), kernEnd, bs[k].aligned)
    {
      if k < |blocks| {
        assert bs[k] == blocks[k] && bs[k - 1] == blocks[k - 1];
      } else {
        assert bs[k] == b && bs[k - 1] == blocks[|blocks| - 1];
      }
    }
    assert bs[..|blocks|] == blocks;
    ModAdd(Total(blocks), b.size);
  }

  /** Reducing the first summand modulo 2^32 first does not change the sum modulo 2^32. */
  lemma ModAdd(a: nat, b: nat)
    ensures (a % WORD_MOD + b) % WORD_MOD == (a + b) % WORD_MOD
  {
    var q := a / WORD_MOD;
    assert a + b == q * WORD_MOD + (a % WORD_MOD + b);
    ShiftMod(q, a % WORD_MOD + b);
  }

  lemma ShiftMod(q: nat, x: nat)
    ensures (q * WORD_MOD + x) % WORD_MOD == x % WORD_MOD
  {
    if q > 0 {
      ShiftMod(q - 1, x);
      assert q * WORD_MOD + x == (q - 1) * WORD_MOD + x + WORD_MOD;
    }
  }

  /** Without wrap-around, region m of an unaligned chain starts after all the earlier sizes. */
  lemma {:induction false} AddressIsOffset(blocks: seq<Block>, kernEnd: U32, m: nat)
    requires Chained(blocks, kernEnd) && Unaligned(blocks) && m < |blocks|
    requires blocks[0].address > 0 && blocks[0].address + Total(blocks) < WORD_MOD
    ensures blocks[m].address == blocks[0].address + Total(blocks[..m])
  {
    if m > 0 {
      TotalPrefix(blocks, m);
      TotalPrefix(blocks, m - 1);
      AddressIsOffset(blocks, kernEnd, m - 1);
      var e := blocks[m - 1].address + blocks[m - 1].size;
      assert e == blocks[0].address + Total(blocks[..m]);
      assert 0 < e < WORD_MOD;
      assert End(blocks[m - 1]) == e;
    }
  }

  /** Prefix totals grow with the prefix and never exceed the whole. */
  lemma {:induction false} TotalPrefix(blocks: seq<Block>, m: nat)
    requires m <= |blocks|
    ensures Total(blocks[..m]) <= Total(blocks)
    ensures m < |blocks| ==> Total(blocks[..m + 1]) == Total(blocks[..m]) + blocks[m].size
    decreases |blocks|
  {
    if m == |blocks| {
      assert blocks[..m] == blocks;
    } else {
      assert blocks[..m + 1][..m] == blocks[..m];
      var n := |blocks| - 1;
      TotalPrefix(blocks[..n], m);
      assert blocks[..n][..m] == blocks[..m];
    }
  }

  /**
   * As long as the placement of an unaligned chain does not wrap around
   * 2^32, the regions handed out are in increasing address order and
   * pairwise disjoint.
   */
  lemma BlocksDisjoint(blocks: seq<Block>, kernEnd: U32, k: nat, m: nat)
    requires Chained(blocks, kernEnd) && Unaligned(blocks) && k < m < |blocks|
    requires blocks[0].address > 0 && blocks[0].address + Total(blocks) < WORD_MOD
    ensures blocks[k].address + blocks[k].size <= blocks[m].address
  {
    AddressIsOffset(blocks, kernEnd, k);
    AddressIsOffset(blocks, kernEnd, m);
    TotalPrefix(blocks, k);
    MonotonePrefix(blocks, k + 1, m);
  }

  lemma {:induction false} MonotonePrefix(blocks: seq<Block>, a: nat, b: nat)
    requires a <= b <= |blocks|
    ensures Total(blocks[..a]) <= Total(blocks[..b])
    decreases b - a
  {
    if a < b {
      TotalPrefix(blocks, a);
      MonotonePrefix(blocks, a + 1, b);
    }
  }

  /**
   * A region follows the one before it: right at its end, or for an
   * aligned request at the first page boundary from there, less than a
   * page further.
   */
  lemma NextAfter(prev: Block, next: Block, kernEnd: U32)
    requires 0 < prev.address && prev.address + prev.size + PAGE_SIZE <= WORD_MOD
    requires next.address == Place(End(prev), kernEnd, next.aligned)
    ensures prev.address + prev.size <= next.address < prev.address + prev.size + PAGE_SIZE
    ensures !next.aligned ==> next.address == prev.address + prev.size
  {
  }

  /**
   * As long as no region comes within a page of 2^32, the regions handed
   * out, aligned or not, are in increasing address order and pairwise
   * disjoint.
   */
  lemma {:induction false} BlocksOrdered(blocks: seq<Block>, kernEnd: U32, k: nat, m: nat)
    requires Chained(blocks, kernEnd) && NoWrap(blocks) && k < m < |blocks|
    ensures blocks[k].address + blocks[k].size <= blocks[m].address
    decreases m - k
  {
    NextAfter(blocks[m - 1], blocks[m], kernEnd);
    if k < m - 1 {
      BlocksOrdered(blocks, kernEnd, k, m - 1);
    }
  }
}
