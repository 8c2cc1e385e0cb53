/**
 * Real-address-mode pointers of kern/platform_x86/bios.h. A real-mode
 * address is segment·16 + offset (Intel SDM Vol. 3A, section 20.1.1);
 * `x86_bios_linear_to_far` splits a linear address below 1 MiB into a
 * segment that is a multiple of 0x1000 and a 16-bit offset. Each output
 * pointer may be NULL, in which case that output is not written: the
 * model takes a flag per output and returns `None` for a skipped one.
 */
module Bios {
  import opened Types

  /** The outputs of `x86_bios_linear_to_far`: the segment and the offset, each unless its pointer was NULL. */
  datatype Far = Far(segment: Option<bv16>, offset: Option<bv16>)

  /** The segment written by `x86_bios_linear_to_far`: bits 16–19 of the address, moved down four places. */
  function Segment(linear: bv32): (s: bv16)
    ensures s & 0x0FFF == 0
    ensures (s as bv32) << 4 == linear & 0x000F_0000
  {
    ((linear & 0x0F0000) >> 4) as bv16
  }

  /** The offset written by `x86_bios_linear_to_far`: the low 16 bits of the address. */
  function Offset(linear: bv32): (o: bv16)
    ensures o as bv32 == linear & 0xFFFF
  {
    (linear & 0xFFFF) as bv16
  }

  /** `x86_bios_linear_to_far(linear, segment, offset)`, with a flag for each non-NULL output pointer. */
  function LinearToFar(linear: bv32, wantSegment: bool, wantOffset: bool): (r: Far)
    ensures r.segment.Some? <==> wantSegment
    ensures r.offset.Some? <==> wantOffset
    ensures r.segment.Some? ==> r.segment.value & 0x0FFF == 0 && (r.segment.value as bv32) << 4 == linear & 0x000F_0000
    ensures r.offset.Some? ==> r.offset.value as bv32 == linear & 0xFFFF
  {
    Far(if wantSegment then Some(Segment(linear)) else None,
        if wantOffset then Some(Offset(linear)) else None)
  }

  /** The commented-out inverse `x86_bios_far_to_linear`: segment·16 + offset, which cannot carry out of 32 bits. */
  function FarToLinear(segment: bv16, offset: bv16): bv32
  {
    ((segment as bv32) << 4) + offset as bv32
  }

  /** Converting any address to segment:offset and back keeps its low 20 bits: the address modulo 1 MiB. */
  lemma FarRoundTrip(linear: bv32)
    ensures FarToLinear(Segment(linear), Offset(linear)) == linear & 0xF_FFFF
  {
    SplitJoin(linear, Segment(linear), Offset(linear));
  }

  lemma SplitJoin(linear: bv32, s: bv16, o: bv16)
    requires (s as bv32) << 4 == linear & 0x000F_0000 && o as bv32 == linear & 0xFFFF
    ensures ((s as bv32) << 4) + o as bv32 == linear & 0xF_FFFF
  {
  }

  /** Below 1 MiB the round trip through both outputs is exact. */
  lemma FarRoundTripBelow1M(linear: bv32)
    requires linear < 0x10_0000
    ensures var r := LinearToFar(linear, true, true);
      FarToLinear(r.segment.value, r.offset.value) == linear
  {
    FarRoundTrip(linear);
    assert linear & 0xF_FFFF == linear;
  }

  /** The two conversions documented beside `x86_bios_linear_to_far`. */
  lemma DocumentedExamples()
    ensures LinearToFar(0x00D000, true, true) == Far(Some(0x0000), Some(0xD000))
    ensures LinearToFar(0x0B8000, true, true) == Far(Some(0xB000), Some(0x8000))
  {
  }
}
