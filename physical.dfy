/**
 * The physical frame allocator of kern/vm/physical.c: one bit per 4 KiB
 * frame of physical memory, a first-clear-bit search, reservation of every
 * frame below an address, and a release that does nothing.
 */
module Physical {
  import opened Types
  import opened Bitmap

  const PAGE_SIZE: nat := 0x1000

  /**
   * `address` rounded up to a page boundary the way vm_reserve_phys does it:
   * a page is added when any offset bit is set, in 32-bit arithmetic, and
   * the offset bits are then cleared.
   */
  function RoundUpPage(address: U32): (r: U32)
    ensures r % PAGE_SIZE == 0
    ensures address <= 0xFFFF_F000 ==> address <= r < address + PAGE_SIZE
    ensures address > 0xFFFF_F000 ==> r == 0
  {
    var a := if address % PAGE_SIZE != 0 then (address + PAGE_SIZE) % WORD_MOD else address;
    a - a % PAGE_SIZE
  }

  /** The frame number vm_allocate_phys turns into an address: -1 stands for "none". */
  function FrameAddress(frame: int): (r: U32)
    requires frame >= -1
    ensures frame == -1 ==> r == 0xFFFF_F000
    ensures 0 <= frame < 0x10_0000 ==> r == frame * PAGE_SIZE
  {
    // find_free_frame returns an unsigned -1, and the product wraps
    ((if frame == -1 then WORD_MOD - 1 else frame) * PAGE_SIZE) % WORD_MOD
  }

  /** Every address vm_allocate_phys hands out, the "none" value included, is page aligned. */
  lemma FrameAddressAligned(frame: int)
    requires frame >= -1
    ensures FrameAddress(frame) % PAGE_SIZE == 0
  {
    var x := (if frame == -1 then WORD_MOD - 1 else frame) * PAGE_SIZE;
    var q := x / WORD_MOD;
    assert x == q * WORD_MOD + x % WORD_MOD;
    assert q * WORD_MOD == (q * 0x10_0000) * PAGE_SIZE;
  }

  /** The address of a frame below 4 GiB names that frame again. */
  lemma FrameAddressFrame(frame: int)
    requires 0 <= frame < 0x10_0000
    ensures FrameAddress(frame) / PAGE_SIZE == frame && FrameAddress(frame) % PAGE_SIZE == 0
  {
    assert FrameAddress(frame) == frame * PAGE_SIZE;
  }

  class PhysicalAllocator {
    /** The frames bitmap, as many words as the scan covers. */
    var frames: array<bv32>
    /** Number of frames tracked. */
    var nframes: nat

    ghost predicate Valid()
      reads this
    {
      frames.Length == WordsScanned(nframes) && nframes < WORD_MOD
    }

    /**
     * `vm_init_phys_allocator`: bytes/4096 frames plus 0x100, every one clear.
     * The buffer holds INDEX_FROM_BIT(nframes) words, the amount the scan reads.
     */
    constructor Init(bytes: U32)
      ensures Valid() && fresh(frames)
      ensures nframes == bytes / PAGE_SIZE + 0x100
      ensures forall g: nat :: !Used(frames[..], g)
    {
      nframes := bytes / PAGE_SIZE + 0x100;
      frames := new bv32[(bytes / PAGE_SIZE + 0x100) / 32](i => 0);
      new;
      forall g: nat
        ensures !Used(frames[..], g)
      {
        if g / 32 < frames.Length {
          assert frames[..][g / 32] == 0;
        }
      }
    }

    /** `set_frame`: marks the frame holding physical address `address`. */
    method SetFrame(address: U32)
      requires Valid() && address / PAGE_SIZE / 32 < frames.Length
      modifies frames
      ensures Valid()
      ensures frames[..] == Bitmap.SetFrame(old(frames[..]), address / PAGE_SIZE)
    {
      SetBit(frames, address / PAGE_SIZE);
    }

    /** `find_free_frame`: the lowest clear frame of the scanned words, or -1. */
    method FindFreeFrame() returns (r: int)
      requires Valid()
      ensures IsFirstClear(frames[..], WordsScanned(nframes), r)
    {
      r := FindFirstClear(frames, WordsScanned(nframes));
    }

    /**
     * `vm_allocate_phys`: the address of the lowest clear frame, or 0xFFFFF000
     * when none is clear. The frame is NOT marked, so the bitmap is unchanged.
     */
    method AllocatePhys() returns (p: U32, ghost frame: int)
      requires Valid()
      ensures IsFirstClear(frames[..], WordsScanned(nframes), frame)
      ensures p == FrameAddress(frame)
      ensures 0 <= frame < 0x10_0000 ==> p % PAGE_SIZE == 0 && !Used(frames[..], p / PAGE_SIZE)
    {
      var page := FindFreeFrame();
      frame := page;
      p := FrameAddress(page);
      if 0 <= frame < 0x10_0000 {
        FrameAddressFrame(frame);
      }
    }

    /**
     * `vm_allocate_phys` with the frame it finds marked in the bitmap before
     * its address is returned, so that no later allocation offers it again;
     * with no frame clear, 0xFFFFF000 and nothing marked, as written.
     */
    method AllocatePhysMarked() returns (p: U32, ghost frame: int)
      requires Valid()
      modifies frames
      ensures Valid()
      ensures IsFirstClear(old(frames[..]), WordsScanned(nframes), frame)
      ensures p == FrameAddress(frame)
      ensures frame == -1 ==> frames[..] == old(frames[..])
      ensures frame >= 0 ==> frame / 32 < frames.Length && frames[..] == Bitmap.SetFrame(old(frames[..]), frame)
    {
      var page := FindFreeFrame();
      frame := page;
      if page >= 0 {
        SetBit(frames, page);
      }
      p := FrameAddress(page);
    }

    /** `vm_deallocate_phys`: releases nothing. */
    method DeallocatePhys(address: U32)
      requires Valid()
      ensures Valid() && unchanged(frames)
    {
    }

    /**
     * `vm_reserve_phys`: marks every frame below the address rounded up to a
     * page. The frames reserved must lie inside the bitmap.
     */
    method ReservePhys(address: U32)
      requires Valid()
      requires RoundUpPage(address) / PAGE_SIZE <= frames.Length * 32
      modifies frames
      ensures Valid()
      ensures forall g: nat :: Used(frames[..], g) <==> g < RoundUpPage(address) / PAGE_SIZE || Used(old(frames[..]), g)
    {
      var limit := RoundUpPage(address);
      var i := 0;
      ghost var n := 0;
      while i < limit
        invariant 0 <= i <= limit && i == n * PAGE_SIZE
        invariant forall g: nat :: Used(frames[..], g) <==> g < n || Used(old(frames[..]), g)
      {
        assert i / PAGE_SIZE == n;
        ghost var before := frames[..];
        SetFrame(i);
        assert forall g: nat :: Used(frames[..], g) <==> g == n || Used(before, g);
        i := i + PAGE_SIZE;
        n := n + 1;
      }
      assert n == limit / PAGE_SIZE;
    }
  }

  /**
   * After a reservation, no address below the rounded limit can be handed
   * out, and two allocations with no reservation between them agree.
   */
  lemma ReservedNotAllocated(words: seq<bv32>, nwords: nat, frame: int, limit: U32)
    requires forall g: nat :: g < RoundUpPage(limit) / PAGE_SIZE ==> Used(words, g)
    requires IsFirstClear(words, nwords, frame)
    ensures frame == -1 || frame * PAGE_SIZE >= RoundUpPage(limit)
  {
    FirstClearAbove(words, nwords, frame, RoundUpPage(limit) / PAGE_SIZE);
  }

  /**
   * With the frame marked, the next allocation offers a higher frame or
   * none: the same frame is never handed out twice, and below 4 GiB the
   * two addresses differ.
   */
  lemma MarkedAllocationsDiffer(words: seq<bv32>, nwords: nat, f1: int, f2: int)
    requires IsFirstClear(words, nwords, f1) && 0 <= f1 && f1 / 32 < |words|
    requires IsFirstClear(Bitmap.SetFrame(words, f1), nwords, f2)
    ensures f2 == -1 || f2 > f1
    ensures 0 <= f2 < 0x10_0000 ==> FrameAddress(f1) < FrameAddress(f2)
  {
    if 0 <= f2 < 0x10_0000 {
      assert FrameAddress(f1) == f1 * PAGE_SIZE;
      assert FrameAddress(f2) == f2 * PAGE_SIZE;
    }
  }

  /** vm_allocate_phys marks nothing, so asking twice yields the same address. */
  lemma AllocateTwiceSame(words: seq<bv32>, nwords: nat, f1: int, f2: int)
    requires IsFirstClear(words, nwords, f1) && IsFirstClear(words, nwords, f2)
    ensures FrameAddress(f1) == FrameAddress(f2)
  {
    FirstClearUnique(words, nwords, f1, f2);
  }
}
