/**
 * Processor identification of kern/platform_x86/cpuid.c. The `cpuid`
 * instruction (Intel SDM Vol. 2A, "CPUID—CPU Identification") is an input
 * here: a function from the leaf requested in EAX to the four registers it
 * returns. The vendor string of leaf 0 is read EBX, EDX, ECX; the kernel
 * recognises the vendor by the last four characters, in ECX, compared with
 * GCC multi-character constants whose bytes are swapped.
 */
module Cpuid {
  import opened Types
  import opened StdString
  import opened StdMemory

  /** What one `cpuid` returns: four unsigned 32-bit registers. */
  datatype Regs = Regs(eax: U32, ebx: U32, ecx: U32, edx: U32)

  // ---------------------------------------------------------------------
  // Register bytes
  // ---------------------------------------------------------------------

  /** x shifted right by 8·k bits. */
  function Shr8(x: U32, k: nat): (q: U32)
    ensures q <= x
  {
    if k == 0 then x else Shr8(x, k - 1) / 0x100
  }

  /** The `char` that `x >> (8 * k)` is truncated to: byte k of x, the least significant first. */
  function ByteOf(x: U32, k: nat): Byte
  {
    Shr8(x, k) % 0x100
  }

  /** The four bytes of a register in memory order (little-endian). */
  function Bytes(x: U32): (s: seq<Byte>)
    ensures |s| == 4 && forall k :: 0 <= k < 4 ==> s[k] == ByteOf(x, k)
  {
    [ByteOf(x, 0), ByteOf(x, 1), ByteOf(x, 2), ByteOf(x, 3)]
  }

  /** The bytes weighted by powers of 256 add up to the register. */
  lemma Digits(x: U32)
    ensures x == ByteOf(x, 0) + 0x100 * (ByteOf(x, 1) + 0x100 * (ByteOf(x, 2) + 0x100 * ByteOf(x, 3)))
  {
    assert Shr8(x, 1) == x / 0x100 && Shr8(x, 2) == Shr8(x, 1) / 0x100;
    assert Shr8(x, 3) == Shr8(x, 2) / 0x100 < 0x100;
  }

  /** A register is determined by its bytes. */
  lemma BytesDetermine(x: U32, y: U32)
    requires Bytes(x) == Bytes(y)
    ensures x == y
  {
    assert ByteOf(x, 0) == ByteOf(y, 0) && ByteOf(x, 1) == ByteOf(y, 1);
    assert ByteOf(x, 2) == ByteOf(y, 2) && ByteOf(x, 3) == ByteOf(y, 3);
    Digits(x);
    Digits(y);
  }

  /** Dividing by d and then by 256 is dividing by 256·d. */
  lemma DivDiv(n: nat, d: nat)
    requires d == 0x100 || d == 0x1_0000
    ensures n / d / 0x100 == n / (d * 0x100)
  {
    var q := n / d;
    var a := q / 0x100;
    assert d * q <= n < d * q + d;
    assert 0x100 * a <= q < 0x100 * a + 0x100;
    assert d * 0x100 * a <= n < d * 0x100 * a + d * 0x100;
  }

  /** The bytes of a register as divisions by powers of 256. */
  lemma BytesValue(x: U32)
    ensures Bytes(x) == [x % 0x100, x / 0x100 % 0x100, x / 0x1_0000 % 0x100, x / 0x100_0000 % 0x100]
  {
    DivDiv(x, 0x100);
    DivDiv(x, 0x1_0000);
    assert Shr8(x, 1) == x / 0x100;
    assert Shr8(x, 2) == x / 0x1_0000;
    assert Shr8(x, 3) == x / 0x100_0000;
  }

  /** The register that supplies byte k of a converted string: eax, ebx, ecx, edx in turn. */
  function Lane(r: Regs, q: nat): U32
    requires q < 4
  {
    if q == 0 then r.eax else if q == 1 then r.ebx else if q == 2 then r.ecx else r.edx
  }

  /** Byte k of a converted string: byte k % 4 of register k / 4. */
  function RegByte(r: Regs, k: nat): Byte
    requires k < 16
  {
    ByteOf(Lane(r, k / 4), k % 4)
  }

  /** The 16 bytes `cpuid_convert_string(string, a, b, c, d)` stores before its terminator. */
  function RegString(r: Regs): (s: seq<Byte>)
    ensures |s| == 16 && forall k :: 0 <= k < 16 ==> s[k] == RegByte(r, k)
  {
    Bytes(r.eax) + Bytes(r.ebx) + Bytes(r.ecx) + Bytes(r.edx)
  }

  /** Memory after `cpuid_convert_string(&m[d], …)`: the 16 register bytes and a NUL from d on. */
  function Converted(m: seq<Byte>, d: nat, r: Regs): (c: seq<Byte>)
    requires d + 17 <= |m|
    ensures |c| == |m| && c[d + 16] == 0 && c[d..d + 16] == RegString(r)
    ensures forall k :: 0 <= k < |m| && !(d <= k <= d + 16) ==> c[k] == m[k]
  {
    OverlaySlice(m, d, RegString(r) + [0]);
    Overlay(m, d, RegString(r) + [0])
  }

  /**
   * `cpuid_convert_string`: byte j of eax, ebx, ecx and edx goes to
   * positions j, j + 4, j + 8 and j + 12, and position 16 gets a NUL.
   */
  method ConvertString(mem: array<Byte>, s: nat, r: Regs) returns (ret: nat)
    requires s + 17 <= mem.Length
    modifies mem
    ensures ret == s
    ensures mem[..] == Converted(old(mem[..]), s, r)
  {
    ghost var m0 := mem[..];
    mem[s + 16] := 0;
    var j := 0;
    while j < 4
      invariant 0 <= j <= 4
      invariant forall k :: 0 <= k < mem.Length ==>
        mem[k] == (if s <= k < s + 16 && (k - s) % 4 < j then RegByte(r, k - s) else if k == s + 16 then 0 else m0[k])
    {
      mem[s + j] := ByteOf(r.eax, j);
      mem[s + j + 4] := ByteOf(r.ebx, j);
      mem[s + j + 8] := ByteOf(r.ecx, j);
      mem[s + j + 12] := ByteOf(r.edx, j);
      j := j + 1;
    }
    ret := s;
    Converts(m0, mem[..], s, r);
  }

  /** Memory holding the register bytes at d.., a NUL after them and nothing else changed is the converted memory. */
  lemma Converts(m0: seq<Byte>, m: seq<Byte>, d: nat, r: Regs)
    requires d + 17 <= |m0| == |m|
    requires forall k :: 0 <= k < |m| ==>
      m[k] == (if d <= k < d + 16 then RegByte(r, k - d) else if k == d + 16 then 0 else m0[k])
    ensures m == Converted(m0, d, r)
  {
    var c := Converted(m0, d, r);
    forall k | 0 <= k < |m| ensures m[k] == c[k] {
      if d <= k < d + 16 {
        assert c[k] == c[d..d + 16][k - d];
      }
    }
  }

  // ---------------------------------------------------------------------
  // The CPU record of cpuid.h
  // ---------------------------------------------------------------------

  /** The `manufacturer` enumeration. */
  datatype Manufacturer = Intel | AMD | Via | Transmeta | Cyrix | Centaur | Nexgen | UMC | SiS | NSC | RISE | Unknown

  /** The numeric value of each enumerator. */
  function Code(m: Manufacturer): (c: int)
    ensures c == -1 <==> m == Unknown
    ensures m != Unknown ==> 1 <= c <= 11
  {
    match m
    case Intel => 1
    case AMD => 2
    case Via => 3
    case Transmeta => 4
    case Cyrix => 5
    case Centaur => 6
    case Nexgen => 7
    case UMC => 8
    case SiS => 9
    case NSC => 10
    case RISE => 11
    case Unknown => -1
  }

  /** Distinct manufacturers have distinct codes. */
  lemma CodeInjective(m: Manufacturer, n: Manufacturer)
    requires Code(m) == Code(n)
    ensures m == n
  {
  }

  /** The Intel processor type field. */
  datatype CpuType = OEM | Overdrive | DualCapable | Reserved

  /**
   * The union `manufacturer_info`: which member a record uses follows
   * its manufacturer. 
   */
  datatype Info =
    | IntelInfo(cpuType: CpuType, family: int, extendedFamily: int, model: int, brand: int,
                brandString: seq<Byte>, stepping: int, reserved: int)
    | AmdInfo(family: int, model: int, brand: int, brandString: seq<Byte>,
              hasTempDiode: bool, stepping: int, reserved: int)
    | Generic(name: seq<Byte>)

  datatype Cpu = Cpu(manufacturer: Manufacturer, info: Info)

  /** The length of `brandString`. */
  const BRAND_LENGTH: nat := 50

  /** The length of `generic.name`. */
  const NAME_LENGTH: nat := 17

  // ---------------------------------------------------------------------
  // Vendor tags
  // ---------------------------------------------------------------------

  /** A character string as the bytes the compiler stores for it. */
  function Ascii(s: string): (r: seq<Byte>)
    ensures |r| == |s|
  {
    seq(|s|, i requires 0 <= i < |s| => s[i] as int % 0x100)
  }

  // GCC evaluates a four-character constant 'abcd' to a·2^24 + b·2^16 + c·2^8 + d.
  const TAG_NTEL: bv32 := 0x6E74_656C
  const TAG_CAMD: bv32 := 0x6341_4D44
  const TAG_TER: bv32 := 0x7465_7221
  const TAG_VIA: bv32 := 0x5649_4120
  const TAG_ACPU: bv32 := 0x6143_5055
  const TAG_MX86: bv32 := 0x4D78_3836
  const TAG_TEAD: bv32 := 0x7465_6164
  const TAG_AULS: bv32 := 0x6175_6C73
  const TAG_IVEN: bv32 := 0x6976_656E
  const TAG_UMC: bv32 := 0x554D_4320
  const TAG_SIS: bv32 := 0x5369_5320
  const TAG_NSC: bv32 := 0x204E_5343
  const TAG_RISE: bv32 := 0x5269_7365

  /** `case ENDIAN_DWORD_SWAP(tag):` compares ECX with this value. */
  function Swapped(tag: bv32): U32
  {
    DwordSwap(tag) as int
  }

  /** Swapped, a tag is the register whose bytes spell its characters in memory order. */
  predicate Spells(tag: bv32, text: string)
  {
    Bytes(Swapped(tag)) == Ascii(text)
  }

  lemma SpellsNtel()
    ensures Spells(TAG_NTEL, "ntel")
  {
    assert Swapped(TAG_NTEL) == 0x6C65_746E;
    BytesValue(0x6C65_746E);
  }

  lemma SpellsCamd()
    ensures Spells(TAG_CAMD, "cAMD")
  {
    assert Swapped(TAG_CAMD) == 0x444D_4163;
    BytesValue(0x444D_4163);
  }

  lemma SpellsTer()
    ensures Spells(TAG_TER, "ter!")
  {
    assert Swapped(TAG_TER) == 0x2172_6574;
    BytesValue(0x2172_6574);
  }

  lemma SpellsVia()
    ensures Spells(TAG_VIA, "VIA ")
  {
    assert Swapped(TAG_VIA) == 0x2041_4956;
    BytesValue(0x2041_4956);
  }

  lemma SpellsAcpu()
    ensures Spells(TAG_ACPU, "aCPU")
  {
    assert Swapped(TAG_ACPU) == 0x5550_4361;
    BytesValue(0x5550_4361);
  }

  lemma SpellsMx86()
    ensures Spells(TAG_MX86, "Mx86")
  {
    assert Swapped(TAG_MX86) == 0x3638_784D;
    BytesValue(0x3638_784D);
  }

  lemma SpellsTead()
    ensures Spells(TAG_TEAD, "tead")
  {
    assert Swapped(TAG_TEAD) == 0x6461_6574;
    BytesValue(0x6461_6574);
  }

  lemma SpellsAuls()
    ensures Spells(TAG_AULS, "auls")
  {
    assert Swapped(TAG_AULS) == 0x736C_7561;
    BytesValue(0x736C_7561);
  }

  lemma SpellsIven()
    ensures Spells(TAG_IVEN, "iven")
  {
    assert Swapped(TAG_IVEN) == 0x6E65_7669;
    BytesValue(0x6E65_7669);
  }

  lemma SpellsUmc()
    ensures Spells(TAG_UMC, "UMC ")
  {
    assert Swapped(TAG_UMC) == 0x2043_4D55;
    BytesValue(0x2043_4D55);
  }

  lemma SpellsSis()
    ensures Spells(TAG_SIS, "SiS ")
  {
    assert Swapped(TAG_SIS) == 0x2053_6953;
    BytesValue(0x2053_6953);
  }

  lemma SpellsNsc()
    ensures Spells(TAG_NSC, " NSC")
  {
    assert Swapped(TAG_NSC) == 0x4353_4E20;
    BytesValue(0x4353_4E20);
  }

  lemma SpellsRise()
    ensures Spells(TAG_RISE, "Rise")
  {
    assert Swapped(TAG_RISE) == 0x6573_6952;
    BytesValue(0x6573_6952);
  }

  /** The inner `switch (ecx)` of `x86_detect_cpu` for vendors without their own detection. */
  function OtherVendor(ecx: U32): (m: Manufacturer)
    ensures m != Intel && m != AMD
  {
    if ecx == Swapped(TAG_VIA) then Via
    else if ecx == Swapped(TAG_ACPU) || ecx == Swapped(TAG_MX86) then Transmeta
    else if ecx == Swapped(TAG_TEAD) then Cyrix
    else if ecx == Swapped(TAG_AULS) then Centaur
    else if ecx == Swapped(TAG_IVEN) then Nexgen
    else if ecx == Swapped(TAG_UMC) then UMC
    else if ecx == Swapped(TAG_SIS) then SiS
    else if ecx == Swapped(TAG_NSC) then NSC
    else if ecx == Swapped(TAG_RISE) then RISE
    else Unknown
  }

  /** The vendor-string endings the inner switch recognises for each of its manufacturers. */
  function Endings(m: Manufacturer): seq<seq<Byte>>
  {
    match m
    case Via => [Ascii("VIA ")]
    case Transmeta => [Ascii("aCPU"), Ascii("Mx86")]
    case Cyrix => [Ascii("tead")]
    case Centaur => [Ascii("auls")]
    case Nexgen => [Ascii("iven")]
    case UMC => [Ascii("UMC ")]
    case SiS => [Ascii("SiS ")]
    case NSC => [Ascii(" NSC")]
    case RISE => [Ascii("Rise")]
    case _ => []
  }

  /** The inner switch names the manufacturer whose ending the register spells. */
  lemma OtherVendorSpelled(ecx: U32, m: Manufacturer)
    requires m != Intel && m != AMD && m != Unknown
    ensures OtherVendor(ecx) == m <==> Bytes(ecx) in Endings(m)
  {
    SpellsVia(); SpellsAcpu(); SpellsMx86(); SpellsTead(); SpellsAuls();
    SpellsIven(); SpellsUmc(); SpellsSis(); SpellsNsc(); SpellsRise();
    if Bytes(ecx) in Endings(m) {
      var t :| t in Endings(m) && Bytes(ecx) == t;
      match m
      case Via => BytesDetermine(ecx, Swapped(TAG_VIA));
      case Transmeta =>
        if t == Ascii("aCPU") { BytesDetermine(ecx, Swapped(TAG_ACPU)); } else { BytesDetermine(ecx, Swapped(TAG_MX86)); }
      case Cyrix => BytesDetermine(ecx, Swapped(TAG_TEAD));
      case Centaur => BytesDetermine(ecx, Swapped(TAG_AULS));
      case Nexgen => BytesDetermine(ecx, Swapped(TAG_IVEN));
      case UMC => BytesDetermine(ecx, Swapped(TAG_UMC));
      case SiS => BytesDetermine(ecx, Swapped(TAG_SIS));
      case NSC => BytesDetermine(ecx, Swapped(TAG_NSC));
      case RISE => BytesDetermine(ecx, Swapped(TAG_RISE));
    }
  }

  // ---------------------------------------------------------------------
  // Signature fields (leaf 1, EAX). On an unsigned value `(x >> n) & m`
  // with m = 2^w - 1 is x / 2^n % 2^w.
  // ---------------------------------------------------------------------

  /** Bits 0–3. */
  function Stepping(eax: U32): (v: int)
    ensures 0 <= v < 16
  {
    eax % 0x10
  }

  /** Bits 4–7. */
  function Model(eax: U32): (v: int)
    ensures 0 <= v < 16
  {
    eax / 0x10 % 0x10
  }

  /** Bits 8–11. */
  function Family(eax: U32): (v: int)
    ensures 0 <= v < 16
  {
    eax / 0x100 % 0x10
  }

  /** `extendedFamily`: bits 20–27 of eax, but only for family 15. */
  function ExtendedFamily(eax: U32): (v: int)
    ensures 0 <= v < 0x100
    ensures v != 0 ==> Family(eax) == 15
  {
    if Family(eax) == 15 then eax / 0x10_0000 % 0x100 else 0
  }

  /** The processor type, from bits 12 and 13. */
  function TypeOf(eax: U32): CpuType
  {
    var t := eax / 0x1000 % 4;
    if t == 0 then OEM else if t == 1 then Overdrive else if t == 2 then DualCapable else Reserved
  }

  /** The two-bit encoding of each processor type. */
  function TypeBits(t: CpuType): (b: int)
    ensures 0 <= b < 4
  {
    match t
    case OEM => 0
    case Overdrive => 1
    case DualCapable => 2
    case Reserved => 3
  }

  /** The type field is decoded without loss: encoding it gives back bits 12 and 13. */
  lemma TypeOfBits(eax: U32)
    ensures TypeBits(TypeOf(eax)) == eax / 0x1000 % 4
  {
  }

  /** The Intel fields stepping, model, family, type and reserved (`eax >> 14`) reassemble the signature. */
  lemma {:induction false} IntelSignatureRoundTrip(eax: U32)
    ensures Stepping(eax) + 0x10 * Model(eax) + 0x100 * Family(eax) + 0x1000 * TypeBits(TypeOf(eax)) + 0x4000 * (eax / 0x4000) == eax
  {
    TypeOfBits(eax);
    AmdSignatureRoundTrip(eax);
    assert eax / 0x1000 == eax / 0x1000 / 4 * 4 + eax / 0x1000 % 4;
    assert eax / 0x1000 / 4 == eax / 0x4000;
  }

  /** The AMD fields stepping, model, family and reserved (`eax >> 12`) reassemble the signature. */
  lemma AmdSignatureRoundTrip(eax: U32)
    ensures Stepping(eax) + 0x10 * Model(eax) + 0x100 * Family(eax) + 0x1000 * (eax / 0x1000) == eax
  {
    assert eax == eax / 0x10 * 0x10 + eax % 0x10;
    assert eax / 0x10 == eax / 0x10 / 0x10 * 0x10 + eax / 0x10 % 0x10;
    assert eax / 0x10 / 0x10 == eax / 0x100;
    assert eax / 0x100 == eax / 0x100 / 0x10 * 0x10 + eax / 0x100 % 0x10;
    assert eax / 0x100 / 0x10 == eax / 0x1000;
  }

  // ---------------------------------------------------------------------
  // Brand strings
  // ---------------------------------------------------------------------

  const INTEL_BRANDS: seq<string> := [
    "Brand ID Not Supported.",
    "Intel(R) Celeron(R) processor",
    "Intel(R) Pentium(R) III processor",
    "Intel(R) Pentium(R) III Xeon(R) processor",
    "Intel(R) Pentium(R) III processor",
    "Reserved",
    "Mobile Intel(R) Pentium(R) III processor-M",
    "Mobile Intel(R) Celeron(R) processor",
    "Intel(R) Pentium(R) 4 processor",
    "Intel(R) Pentium(R) 4 processor",
    "Intel(R) Celeron(R) processor",
    "Intel(R) Xeon(R) Processor",
    "Intel(R) Xeon(R) processor MP",
    "Reserved",
    "Mobile Intel(R) Pentium(R) 4 processor-M",
    "Mobile Intel(R) Pentium(R) Celeron(R) processor",
    "Reserved",
    "Mobile Genuine Intel(R) processor",
    "Intel(R) Celeron(R) M processor",
    "Mobile Intel(R) Celeron(R) processor",
    "Intel(R) Celeron(R) processor",
    "Mobile Geniune Intel(R) processor",
    "Intel(R) Pentium(R) M processor",
    "Mobile Intel(R) Celeron(R) processor"
  ]

  /** The entries that differ for the signatures 0x6B1 and 0xF13. */
  const INTEL_BRANDS_OTHER: seq<string> := [
    "Reserved", "Reserved", "Reserved", "Intel(R) Celeron(R) processor",
    "Reserved", "Reserved", "Reserved", "Reserved",
    "Reserved", "Reserved", "Reserved", "Intel(R) Xeon(R) processor MP",
    "Reserved", "Reserved", "Intel(R) Xeon(R) processor", "Reserved",
    "Reserved", "Reserved", "Reserved", "Reserved",
    "Reserved", "Reserved", "Reserved", "Reserved"
  ]

  /** The 48-byte processor brand string of leaves 0x80000002..0x80000004, written into a zeroed buffer. */
  function LeafBrand(cpuid: U32 -> Regs): (s: seq<Byte>)
    ensures |s| == BRAND_LENGTH
  {
    Converted(Converted(Converted(Zeros(BRAND_LENGTH), 0, cpuid(0x8000_0002)), 16, cpuid(0x8000_0003)), 32, cpuid(0x8000_0004))
  }

  /** The three leaves end to end, followed by two zero bytes. */
  lemma LeafBrandLayout(cpuid: U32 -> Regs)
    ensures LeafBrand(cpuid) == RegString(cpuid(0x8000_0002)) + RegString(cpuid(0x8000_0003))
                                + RegString(cpuid(0x8000_0004)) + [0, 0]
  {
    var a, b, c := RegString(cpuid(0x8000_0002)), RegString(cpuid(0x8000_0003)), RegString(cpuid(0x8000_0004));
    var s1 := Converted(Zeros(BRAND_LENGTH), 0, cpuid(0x8000_0002));
    var s2 := Converted(s1, 16, cpuid(0x8000_0003));
    var s3 := Converted(s2, 32, cpuid(0x8000_0004));
    var t := a + b + c + [0, 0];
    forall k | 0 <= k < BRAND_LENGTH ensures s3[k] == t[k] {
      if k < 16 {
        assert s1[k] == s1[0..16][k];
      } else if k < 32 {
        assert s2[k] == s2[16..32][k - 16];
      } else if k < 48 {
        assert s3[k] == s3[32..48][k - 32];
      }
    }
  }

  /** The table `cpuid_detect_intel` consults for a signature. */
  function BrandTable(signature: U32): (t: seq<string>)
    ensures |t| == 0x18
  {
    if signature == 0x0000_06B1 || signature == 0x0000_0F13 then INTEL_BRANDS_OTHER else INTEL_BRANDS
  }

  /**
   * `brandString` of `cpuid_detect_intel`: the leaves when the highest
   * extended leaf reaches 0x80000004, otherwise `strncpy` of the table
   * entry for brand indices 1..0x17 into the zeroed buffer, otherwise
   * left zero.
   */
  function IntelBrand(cpuid: U32 -> Regs, signature: U32, brand: Byte, maxEax: U32): (s: seq<Byte>)
    ensures |s| == BRAND_LENGTH
  {
    if maxEax >= 0x8000_0004 then LeafBrand(cpuid)
    else if brand > 0 then
      if brand < 0x18 then Overlay(Zeros(BRAND_LENGTH), 0, PadTo(Ascii(BrandTable(signature)[brand]), BRAND_LENGTH))
      else Zeros(BRAND_LENGTH)
    else Zeros(BRAND_LENGTH)
  }

  /** Every table entry fits the buffer with room for its terminator. */
  lemma TablesFit(signature: U32, b: nat)
    requires b < 0x18
    ensures |BrandTable(signature)[b]| < BRAND_LENGTH
  {
  }

  /** Without the leaves, a brand index 1..0x17 leaves its table entry padded with zero bytes; any other leaves the buffer zero. */
  lemma IntelBrandFromTable(cpuid: U32 -> Regs, signature: U32, brand: Byte, maxEax: U32)
    requires maxEax < 0x8000_0004
    ensures 0 < brand < 0x18 ==>
      IntelBrand(cpuid, signature, brand, maxEax) ==
      Ascii(BrandTable(signature)[brand]) + Zeros(BRAND_LENGTH - |BrandTable(signature)[brand]|)
    ensures !(0 < brand < 0x18) ==> IntelBrand(cpuid, signature, brand, maxEax) == Zeros(BRAND_LENGTH)
  {
    if 0 < brand < 0x18 {
      var e := Ascii(BrandTable(signature)[brand]);
      TablesFit(signature, brand);
      var p := PadTo(e, BRAND_LENGTH);
      OverlayWhole(Zeros(BRAND_LENGTH), p);
      assert p == e + Zeros(BRAND_LENGTH - |e|);
    }
  }

  // ---------------------------------------------------------------------
  // Detection
  // ---------------------------------------------------------------------

  /** `cpuid_detect_intel`. */
  function DetectIntel(cpuid: U32 -> Regs): (c: Cpu)
    ensures c.manufacturer == Intel && c.info.IntelInfo? && |c.info.brandString| == BRAND_LENGTH
  {
    var eax := cpuid(1).eax;
    var brand := cpuid(1).ebx % 0x100;
    Cpu(Intel, IntelInfo(TypeOf(eax), Family(eax), ExtendedFamily(eax), Model(eax), brand,
                         IntelBrand(cpuid, eax, brand, cpuid(0x8000_0000).eax), Stepping(eax), eax / 0x4000))
  }

  /** `cpuid_detect_amd`: with no extended leaves nothing beyond the signature is filled in. */
  function DetectAmd(cpuid: U32 -> Regs): (c: Cpu)
    ensures c.manufacturer == AMD && c.info.AmdInfo? && |c.info.brandString| == BRAND_LENGTH
  {
    var eax := cpuid(1).eax;
    var extended := cpuid(0x8000_0000).eax;
    var brandString := if extended != 0 && extended >= 0x8000_0002 then LeafBrand(cpuid) else Zeros(BRAND_LENGTH);
    var diode := extended != 0 && extended >= 0x8000_0007 && cpuid(0x8000_0007).edx % 2 == 1;
    Cpu(AMD, AmdInfo(Family(eax), Model(eax), 0, brandString, diode, Stepping(eax), eax / 0x1000))
  }

  /**
   * The loop of `cpuid_detect_amd` that fills the brand string sixteen
   * bytes per leaf, for leaves 0x80000002 to 0x80000004.
   */
  method AmdBrand(cpuid: U32 -> Regs) returns (brand: seq<Byte>)
    ensures brand == LeafBrand(cpuid)
  {
    var buf := new Byte[BRAND_LENGTH](_ => 0);
    var p := 0;
    var leaf := 0x8000_0002;
    while leaf <= 0x8000_0004
      invariant 0x8000_0002 <= leaf <= 0x8000_0005
      invariant p == 16 * (leaf - 0x8000_0002)
      invariant leaf == 0x8000_0002 ==> buf[..] == Zeros(BRAND_LENGTH)
      invariant leaf == 0x8000_0003 ==> buf[..] == Converted(Zeros(BRAND_LENGTH), 0, cpuid(0x8000_0002))
      invariant leaf == 0x8000_0004 ==> buf[..] == Converted(Converted(Zeros(BRAND_LENGTH), 0, cpuid(0x8000_0002)), 16, cpuid(0x8000_0003))
      invariant leaf == 0x8000_0005 ==> buf[..] == LeafBrand(cpuid)
    {
      var r := ConvertString(buf, p, cpuid(leaf));
      p := p + 16;
      leaf := leaf + 1;
    }
    brand := buf[..];
  }

  /** `x86_detect_cpu`: dispatch on the last four characters of the vendor string. */
  function DetectCpu(cpuid: U32 -> Regs): (c: Cpu)
    ensures c.info.Generic? <==> c.manufacturer != Intel && c.manufacturer != AMD
    ensures c.info.Generic? ==> |c.info.name| == NAME_LENGTH
  {
    var r := cpuid(0);
    if r.ecx == Swapped(TAG_NTEL) then DetectIntel(cpuid)
    else if r.ecx == Swapped(TAG_CAMD) || r.ecx == Swapped(TAG_TER) then DetectAmd(cpuid)
    else Cpu(OtherVendor(r.ecx), Generic(RegString(Regs(r.ebx, r.edx, r.ecx, 0)) + [0]))
  }

  /** The vendor string of leaf 0: EBX, EDX, ECX. */
  function Vendor(cpuid: U32 -> Regs): (v: seq<Byte>)
    ensures |v| == 12
  {
    Bytes(cpuid(0).ebx) + Bytes(cpuid(0).edx) + Bytes(cpuid(0).ecx)
  }

  /** A vendor string ending in `ntel` is an Intel processor, and only such a one. */
  lemma DetectIntelVendor(cpuid: U32 -> Regs)
    ensures DetectCpu(cpuid).manufacturer == Intel <==> Vendor(cpuid)[8..] == Ascii("ntel")
  {
    SpellsNtel();
    var ecx := cpuid(0).ecx;
    assert Vendor(cpuid)[8..] == Bytes(ecx);
    if Bytes(ecx) == Ascii("ntel") {
      BytesDetermine(ecx, Swapped(TAG_NTEL));
    }
  }

  /** A vendor string ending in `cAMD` or `ter!` is an AMD processor, and only such a one. */
  lemma DetectAmdVendor(cpuid: U32 -> Regs)
    ensures DetectCpu(cpuid).manufacturer == AMD <==>
      (Vendor(cpuid)[8..] == Ascii("cAMD") || Vendor(cpuid)[8..] == Ascii("ter!"))
  {
    SpellsNtel();
    SpellsCamd();
    SpellsTer();
    var ecx := cpuid(0).ecx;
    assert Vendor(cpuid)[8..] == Bytes(ecx);
    if Bytes(ecx) == Ascii("cAMD") {
      BytesDetermine(ecx, Swapped(TAG_CAMD));
    }
    if Bytes(ecx) == Ascii("ter!") {
      BytesDetermine(ecx, Swapped(TAG_TER));
    }
  }

  /** Another vendor keeps its 12-character vendor string as `name`, followed by five zero bytes. */
  lemma GenericName(cpuid: U32 -> Regs)
    requires DetectCpu(cpuid).info.Generic?
    ensures DetectCpu(cpuid).info.name == Vendor(cpuid) + [0, 0, 0, 0, 0]
  {
    assert Bytes(0) == [0, 0, 0, 0];
  }

  /** The brand string of an Intel processor reporting the leaves is the three leaves in order. */
  lemma IntelBrandFromLeaves(cpuid: U32 -> Regs)
    requires cpuid(0x8000_0000).eax >= 0x8000_0004
    ensures DetectIntel(cpuid).info.brandString ==
      RegString(cpuid(0x8000_0002)) + RegString(cpuid(0x8000_0003)) + RegString(cpuid(0x8000_0004)) + [0, 0]
  {
    LeafBrandLayout(cpuid);
  }

  /** The AMD brand string is the leaves exactly when leaf 0x80000002 is reported, else empty. */
  lemma AmdBrandFromLeaves(cpuid: U32 -> Regs)
    ensures cpuid(0x8000_0000).eax >= 0x8000_0002 ==>
      (DetectAmd(cpuid).info.brandString ==
       RegString(cpuid(0x8000_0002)) + RegString(cpuid(0x8000_0003)) + RegString(cpuid(0x8000_0004)) + [0, 0])
    ensures cpuid(0x8000_0000).eax < 0x8000_0002 ==> DetectAmd(cpuid).info.brandString == Zeros(BRAND_LENGTH)
  {
    LeafBrandLayout(cpuid);
  }

  /** `hasTempDiode` holds iff leaf 0x80000007 is reported and bit 0 of its EDX is set. */
  lemma AmdTempDiode(cpuid: U32 -> Regs)
    ensures DetectAmd(cpuid).info.hasTempDiode <==>
      (cpuid(0x8000_0000).eax >= 0x8000_0007 && cpuid(0x8000_0007).edx % 2 == 1)
  {
  }

  /** The Intel fields decode the signature of leaf 1 without loss, and the brand index is its own byte of EBX. */
  lemma IntelFields(cpuid: U32 -> Regs)
    ensures var i := DetectIntel(cpuid).info;
      i.stepping + 0x10 * i.model + 0x100 * i.family + 0x1000 * TypeBits(i.cpuType) + 0x4000 * i.reserved == cpuid(1).eax
    ensures DetectIntel(cpuid).info.brand == ByteOf(cpuid(1).ebx, 0)
  {
    IntelSignatureRoundTrip(cpuid(1).eax);
  }

  /** The AMD fields decode the signature of leaf 1 without loss. */
  lemma AmdFields(cpuid: U32 -> Regs)
    ensures var i := DetectAmd(cpuid).info;
      i.stepping + 0x10 * i.model + 0x100 * i.family + 0x1000 * i.reserved == cpuid(1).eax
  {
    AmdSignatureRoundTrip(cpuid(1).eax);
  }
}
