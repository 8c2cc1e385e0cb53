/**
 * The interrupt descriptor table of kern/platform_x86/interrupt.c. The
 * table `sys_idt` is a fixed array of 256 packed 8-byte gate descriptors
 * (Intel SDM Vol. 3A, section 6.11): the handler address split into two
 * 16-bit halves, a code segment selector, a zero byte and the type and
 * attribute byte. The handler addresses (`x86_isr0`..`x86_isr18`,
 * `x86_irq_dummy`) and the selector `GDT_KERNEL_CODE` are defined outside
 * this file and are parameters here. `lidt`, `pushf`, `sti` and `cli` are
 * instructions: the IDTR the table is loaded with is recorded in a field,
 * and the flags word read by `pushf` is a parameter.
 */
module Interrupt {
  import opened Types

  /** One `idt_entry_t`, field by field. */
  datatype Gate = Gate(offset1: bv16, selector: bv16, zero: bv8, flags: bv8, offset2: bv16)

  /** A `uint16_t`. */
  type U16 = x: int | 0 <= x < 0x1_0000

  /** The contents of the IDTR: the limit and the linear base address of the table. */
  datatype Idtr = Idtr(length: U16, base: U32)

  const ENTRIES: nat := 256
  const GATE_SIZE: nat := 8
  const EXCEPTIONS: nat := 19

  /** Present, privilege level 0, 32-bit interrupt gate. */
  const INTERRUPT_GATE: bv8 := 0x8E

  /** The low half of a handler address, as stored in `offset_1`. */
  function Low16(handler: bv32): (h: bv16)
    ensures h as bv32 == handler & 0xFFFF
  {
    (handler & 0xFFFF) as bv16
  }

  /** The high half of a handler address, as stored in `offset_2`. */
  function High16(handler: bv32): (h: bv16)
    ensures (h as bv32) << 16 == handler & 0xFFFF_0000
  {
    ((handler >> 0x10) & 0xFFFF) as bv16
  }

  /** The gate `x86_idt_set_gate(entry, function, segment, flags)` writes; the selector parameter is a `uint8_t`. */
  function SetGateValue(handler: bv32, segment: bv8, flags: bv8): (g: Gate)
    ensures g.selector == segment as bv16 && g.flags == flags && g.zero == 0
    ensures Handler(g) == handler
  {
    HalvesJoin(handler, Low16(handler), High16(handler));
    Gate(Low16(handler), segment as bv16, 0, flags, High16(handler))
  }

  /** The handler address a gate points to: `offset_2` above `offset_1`. */
  function Handler(g: Gate): bv32
  {
    ((g.offset2 as bv32) << 16) | g.offset1 as bv32
  }

  lemma HalvesJoin(handler: bv32, lo: bv16, hi: bv16)
    requires lo as bv32 == handler & 0xFFFF && (hi as bv32) << 16 == handler & 0xFFFF_0000
    ensures ((hi as bv32) << 16) | lo as bv32 == handler
  {
  }

  /** The zeroed descriptor `memclr` leaves. */
  const EMPTY: Gate := Gate(0, 0, 0, 0, 0)

  /** The gate `platform_int_init` leaves at vector v. */
  function InitialGate(v: nat, isr: seq<bv32>, dummy: bv32, kernelCode: bv8): Gate
    requires |isr| == EXCEPTIONS
  {
    SetGateValue(if v < EXCEPTIONS then isr[v] else dummy, kernelCode, INTERRUPT_GATE)
  }

  class InterruptTable {
    /** `sys_idt`. */
    const idt: array<Gate>
    /** The address of `sys_idt`. */
    const base: U32
    /** The IDTR loaded by the last `lidt`, if any. */
    var idtr: Option<Idtr>

    ghost predicate Valid()
      reads this
    {
      idt.Length == ENTRIES
    }

    constructor (base: U32)
      ensures Valid() && fresh(idt) && this.base == base && idtr.None?
      ensures forall v :: 0 <= v < ENTRIES ==> idt[v] == EMPTY
    {
      idt := new Gate[ENTRIES](_ => EMPTY);
      this.base := base;
      idtr := None;
    }

    /** `x86_idt_set_gate`: only entry `entry` changes, and it points to `handler`. */
    method SetGate(entry: Byte, handler: bv32, segment: bv8, flags: bv8)
      requires Valid()
      modifies idt
      ensures idt[..] == old(idt[..])[entry := SetGateValue(handler, segment, flags)]
      ensures Handler(idt[entry]) == handler
    {
      var g := idt[entry];
      g := g.(offset1 := (handler & 0xFFFF) as bv16);
      g := g.(offset2 := ((handler >> 0x10) & 0xFFFF) as bv16);
      g := g.(selector := segment as bv16);
      g := g.(flags := flags);
      g := g.(zero := 0x00);
      idt[entry] := g;
    }

    /**
     * `platform_int_init`: clear the table, point every vector at the dummy
     * handler, then vectors 0..18 at the exception handlers, all as kernel
     * interrupt gates; then load the IDTR with the table through the
     * corrected `Install`, so its limit is 2047 where the source loads 2048.
     */
    method Init(isr: seq<bv32>, dummy: bv32, kernelCode: bv8)
      requires Valid() && |isr| == EXCEPTIONS
      modifies this, idt
      ensures Valid()
      ensures forall v :: 0 <= v < ENTRIES ==> idt[v] == InitialGate(v, isr, dummy, kernelCode)
      ensures idtr == Some(Idtr(GATE_SIZE * ENTRIES - 1, base))
    {
      var i := 0;
      while i < ENTRIES
        invariant 0 <= i <= ENTRIES
        invariant forall v :: 0 <= v < i ==> idt[v] == EMPTY
      {
        idt[i] := EMPTY;
        i := i + 1;
      }
      i := 0;
      while i < ENTRIES
        invariant 0 <= i <= ENTRIES
        invariant forall v :: 0 <= v < i ==> idt[v] == SetGateValue(dummy, kernelCode, INTERRUPT_GATE)
      {
        SetGate(i, dummy, kernelCode, INTERRUPT_GATE);
        i := i + 1;
      }
      i := 0;
      while i < EXCEPTIONS
        invariant 0 <= i <= EXCEPTIONS
        invariant forall v :: 0 <= v < i ==> idt[v] == SetGateValue(isr[v], kernelCode, INTERRUPT_GATE)
        invariant forall v :: i <= v < ENTRIES ==> idt[v] == SetGateValue(dummy, kernelCode, INTERRUPT_GATE)
      {
        SetGate(i, isr[i], kernelCode, INTERRUPT_GATE);
        i := i + 1;
      }
      Install(GATE_SIZE * ENTRIES);
    }

    /**
     * `x86_idt_install` as the processor needs it: the IDTR limit is the
     * offset of the last valid byte of the table, one less than its size.
     */
    method Install(size: U16)
      requires size != 0
      modifies this
      ensures idtr.Some? && idtr.value.base == base
      ensures idtr.value.length + 1 == size
    {
      idtr := Some(Idtr(size - 1, base));
    }

    /** `x86_idt_install` as written: the size itself is stored as the limit. */
    method InstallAsWritten(size: U16)
      modifies this
      ensures idtr == Some(Idtr(size, base))
    {
      idtr := Some(Idtr(size, base));
    }
  }

  /** The byte offsets an IDTR limit admits: 0 to the limit inclusive. */
  predicate Admits(limit: U16, offset: int)
  {
    0 <= offset <= limit
  }

  /** The corrected limit admits exactly the 2048 bytes of the 256 gates. */
  lemma InstalledLimitExact(limit: U16, offset: int)
    requires limit + 1 == GATE_SIZE * ENTRIES
    ensures Admits(limit, offset) <==> 0 <= offset < GATE_SIZE * ENTRIES
  {
  }

  /** As written, `platform_int_init` loads the limit 2048, which admits byte 2048, one past the end of the table. */
  lemma InstallAsWrittenOverreach()
    ensures Admits(GATE_SIZE * ENTRIES, GATE_SIZE * ENTRIES)
  {
  }

  /** `platform_int_enabled`: whether the interrupt-enable flag, bit 9 of EFLAGS, is set in the word `pushf` produced. */
  function IntEnabled(flags: bv32): (r: bool)
    ensures r <==> (flags >> 9) & 1 == 1
  {
    flags & (1 << 9) != 0
  }
}
