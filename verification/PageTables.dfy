/** The first-level translation table of os/mmu/mmu.c and the kernel mapping loop of
    boot/bootloader.c: 4096 section descriptors, one for each megabyte of address space. */
module PageTables {
  import opened Options
  import opened Words
  import opened Bits

  const ENTRIES: nat := 4096
  const SECTION: uint32 := 0x10_0000
  const SECTION_DESCRIPTOR: uint32 := 2

  const SRAM_FLAGS: uint32 := 0x1_0408
  const DEVICE_FLAGS: uint32 := 0x1_0414
  const DRAM_FLAGS: uint32 := 0x5_0C0E
  const KERNEL_FLAGS: uint32 := 0x1_0408

  const PHYS_BASE: uint32 := 0x8000_0000
  const PHYS_SIZE: uint32 := 0x2000_0000
  const KERNEL_BASE: uint32 := 0xA000_0000

  type Table = t: seq<uint32> | |t| == 4096 witness seq(4096, _ => 0)

  // ---------- Translation ----------

  /** The section descriptor format of section B3.5.1 of the ARMv7-A Architecture Reference
      Manual: type in bits 1:0, base in bits 31:20. Anything but a section faults. */
  function Translate(table: Table, va: uint32): (pa: Option<uint32>) {
    var entry := table[va / SECTION];
    if entry % 4 == SECTION_DESCRIPTOR then Some(entry / SECTION * SECTION + va % SECTION) else None
  }

  /** The word `MMU_map_section` stores. */
  function Descriptor(paddr: uint32, flags: uint32): (entry: nat) {
    Or(Or(paddr, SECTION_DESCRIPTOR), flags)
  }

  lemma DescriptorIsWord(paddr: uint32, flags: uint32)
    ensures Descriptor(paddr, flags) < TWO32
  {
    WordIsPow2();
    OrLowField(0, paddr, SECTION_DESCRIPTOR, 32);
    OrLowField(0, Or(paddr, SECTION_DESCRIPTOR), flags, 32);
  }

  /** Attribute bits only: they leave the base and the type alone. */
  predicate Attributes(flags: uint32) {
    flags < SECTION && flags % 2 == 0
  }

  lemma SectionIsPow2()
    ensures Pow2(20) == SECTION
  {
    assert Pow2(5) == 32;
    assert Pow2(10) == 1024;
    assert Pow2(15) == 0x8000;
  }

  lemma WordIsPow2()
    ensures Pow2(32) == TWO32
  {
    SectionIsPow2();
    assert Pow2(24) == 0x100_0000;
    assert Pow2(28) == 0x1000_0000;
  }

  /** A descriptor made of a megabyte-aligned base and attribute bits decodes to that base. */
  lemma DescriptorDecodes(section: nat, flags: uint32)
    requires section < ENTRIES && Attributes(flags)
    ensures var entry := Descriptor(section * SECTION, flags);
            entry < TWO32 && entry % 4 == SECTION_DESCRIPTOR && entry / SECTION == section
  {
    SectionIsPow2();
    OrLowField(section, 0, SECTION_DESCRIPTOR, 20);
    assert Or(0, SECTION_DESCRIPTOR) == SECTION_DESCRIPTOR;
    OrLowField(section, SECTION_DESCRIPTOR, flags, 20);
    LowTwoBits(flags);
    SplitWord(section, Or(SECTION_DESCRIPTOR, flags));
  }

  lemma SplitWord(section: nat, low: nat)
    requires section < ENTRIES && low < SECTION
    ensures var w := section * SECTION + low; w < TWO32 && w / SECTION == section && w % 4 == low % 4
  {
    DivModUnique(section, low, SECTION);
    assert section * SECTION + low == (section * 0x4_0000 + low / 4) * 4 + low % 4;
    DivModUnique(section * 0x4_0000 + low / 4, low % 4, 4);
  }

  lemma LowTwoBits(flags: nat)
    requires flags % 2 == 0
    ensures Or(2, flags) % 4 == 2
  {
    if flags > 0 {
      assert Or(2, flags) == 2 * Or(1, flags / 2);
      if flags / 2 > 0 {
        assert Or(1, flags / 2) == 1 + 2 * Or(0, flags / 2 / 2);
      }
    }
  }

  // ---------- The map the boot code builds ----------

  /** On-chip RAM and the L4 wake-up peripherals. */
  predicate SingleSection(i: nat) {
    0x402 <= i < 0x404 || 0x44C <= i < 0x450
  }

  /** Identity-mapped sections: on-chip RAM, the peripheral windows and DRAM. */
  predicate IdentitySection(i: nat) {
    || SingleSection(i)
    || 0x480 <= i < 0x490
    || 0x4A0 <= i < 0x4B0
    || 0x4C0 <= i < 0x4D0
    || 0x500 <= i < 0x510
    || 0x800 <= i < 0xA00
  }

  predicate KernelSection(i: nat, kernelSections: nat) {
    0xA00 <= i < 0xA00 + kernelSections
  }

  function FlagsOf(i: nat): uint32 {
    if 0x402 <= i < 0x404 then SRAM_FLAGS
    else if 0x800 <= i < 0xA00 then DRAM_FLAGS
    else if i >= 0xA00 then KERNEL_FLAGS
    else DEVICE_FLAGS
  }

  /** Entry `i` of the finished table. */
  function BootEntry(i: nat, kernelSections: nat): nat
    requires i < ENTRIES
  {
    if IdentitySection(i) then Descriptor(i * SECTION, FlagsOf(i))
    else if KernelSection(i, kernelSections) then Descriptor((i - 0x200) * SECTION, FlagsOf(i))
    else 0
  }

  /** The table after `MMU_init` and the kernel mapping loop. */
  ghost predicate IsBootTable(table: Table, kernelSections: nat) {
    forall i: nat :: i < ENTRIES ==> table[i] == BootEntry(i, kernelSections)
  }

  /** On-chip RAM, L4 wake-up, L4 peripherals, L4 fast, EMIF0, GPMC and DRAM. */
  predicate IdentityAddress(va: uint32) {
    || 0x4020_0000 <= va < 0x4040_0000
    || 0x44C0_0000 <= va < 0x4500_0000
    || 0x4800_0000 <= va < 0x4900_0000
    || 0x4A00_0000 <= va < 0x4B00_0000
    || 0x4C00_0000 <= va < 0x4D00_0000
    || 0x5000_0000 <= va < 0x5100_0000
    || 0x8000_0000 <= va < 0xA000_0000
  }

  /** The kernel window. */
  predicate KernelAddress(va: uint32, kernelSections: nat) {
    0xA000_0000 <= va < 0xA000_0000 + 0x10_0000 * kernelSections
  }

  lemma SectionsOfAddress(va: uint32, kernelSections: nat)
    ensures IdentitySection(va / SECTION) <==> IdentityAddress(va)
    ensures KernelSection(va / SECTION, kernelSections) <==> KernelAddress(va, kernelSections)
  {}

  /** Every 32-bit address translates to itself in the device and DRAM ranges, to the same
      offset of physical memory in the kernel window, and faults elsewhere. */
  lemma BootTranslation(table: Table, kernelSections: nat, va: uint32)
    requires IsBootTable(table, kernelSections) && kernelSections <= 0x600
    ensures Translate(table, va)
         == if IdentityAddress(va) then Some(va)
            else if KernelAddress(va, kernelSections) then Some(va - 0x2000_0000)
            else None
  {
    SectionsOfAddress(va, kernelSections);
    var i := va / SECTION;
    assert table[i] == BootEntry(i, kernelSections);
    if IdentitySection(i) {
      DescriptorDecodes(i, FlagsOf(i));
    } else if KernelSection(i, kernelSections) {
      DescriptorDecodes(i - 0x200, FlagsOf(i));
    }
  }

  /** The attribute bits of an entry, as the table holds them: on-chip RAM and kernel shareable
      and cacheable, devices shareable, buffered and never executable, DRAM as the source's
      literal. */
  lemma BootAttributes(table: Table, kernelSections: nat, va: uint32)
    requires IsBootTable(table, kernelSections) && kernelSections <= 0x600
    requires IdentityAddress(va) || KernelAddress(va, kernelSections)
    ensures table[va / 0x10_0000] % 0x10_0000
         == if 0x4020_0000 <= va < 0x4040_0000 || va >= 0xA000_0000 then 0x1_040A
            else if 0x8000_0000 <= va < 0xA000_0000 then 0x5_0C0E
            else 0x1_0416
  {
    var i := va / SECTION;
    SectionsOfAddress(va, kernelSections);
    assert table[i] == BootEntry(i, kernelSections);
    AttributeWords();
    if IdentitySection(i) {
      LowBits(i, FlagsOf(i));
    } else {
      LowBits(i - 0x200, FlagsOf(i));
    }
  }

  /** The low bits of a descriptor are its type and its attributes. */
  lemma LowBits(section: nat, flags: uint32)
    requires section < ENTRIES && Attributes(flags)
    ensures Descriptor(section * SECTION, flags) % SECTION == Or(SECTION_DESCRIPTOR, flags)
  {
    SectionIsPow2();
    OrLowField(section, 0, SECTION_DESCRIPTOR, 20);
    assert Or(0, SECTION_DESCRIPTOR) == SECTION_DESCRIPTOR;
    OrLowField(section, SECTION_DESCRIPTOR, flags, 20);
    DivModUnique(section, Or(SECTION_DESCRIPTOR, flags), SECTION);
  }

  lemma AttributeWords()
    ensures Or(SECTION_DESCRIPTOR, SRAM_FLAGS) == 0x1_040A == Or(SECTION_DESCRIPTOR, KERNEL_FLAGS)
    ensures Or(SECTION_DESCRIPTOR, DEVICE_FLAGS) == 0x1_0416
    ensures Or(SECTION_DESCRIPTOR, DRAM_FLAGS) == 0x5_0C0E
  {}

  /** Distinct kernel-window addresses have distinct physical addresses, and they stay in
      physical memory exactly while the kernel has at most 512 sections. */
  lemma KernelWindowInDram(table: Table, kernelSections: nat)
    requires IsBootTable(table, kernelSections) && kernelSections <= 0x600
    ensures (forall va: uint32 :: KernelAddress(va, kernelSections) ==>
               Translate(table, va).Some? && 0x8000_0000 <= Translate(table, va).value < 0xA000_0000)
            <==> kernelSections <= 512
  {
    forall va: uint32 | KernelAddress(va, kernelSections)
      ensures Translate(table, va) == Some(va - 0x2000_0000)
    {
      BootTranslation(table, kernelSections, va);
    }
    if kernelSections > 512 {
      var past: uint32 := KERNEL_BASE + PHYS_SIZE;
      assert KernelAddress(past, kernelSections);
      assert Translate(table, past) == Some(PHYS_BASE + PHYS_SIZE);
    }
  }

  // ---------- Building it ----------

  class Mmu {
    const table: array<uint32>

    ghost predicate Valid() {
      table.Length == ENTRIES
    }

    constructor ()
      ensures Valid() && fresh(table)
    {
      table := new uint32[ENTRIES];
    }

    /** `clear_boot_tables`. */
    method Clear()
      requires Valid()
      modifies table
      ensures forall i :: 0 <= i < ENTRIES ==> table[i] == 0
    {
      for i := 0 to ENTRIES
        invariant forall j :: 0 <= j < i ==> table[j] == 0
      {
        table[i] := 0;
      }
    }

    /** `MMU_map_section`: unaligned addresses are refused. */
    method MapSection(vaddr: uint32, paddr: uint32, flags: uint32)
      requires Valid()
      modifies table
      ensures table[..] == if vaddr % SECTION != 0 || paddr % SECTION != 0 then old(table[..])
                           else old(table[..])[vaddr / SECTION := Descriptor(paddr, flags)]
    {
      if vaddr % SECTION != 0 || paddr % SECTION != 0 {
        return;
      }
      DescriptorIsWord(paddr, flags);
      table[vaddr / SECTION] := Or(Or(paddr, SECTION_DESCRIPTOR), flags);
    }

    /** The mapping loops: `count` consecutive sections. */
    method MapRange(vaddr: uint32, paddr: uint32, count: nat, flags: uint32)
      requires Valid() && Attributes(flags)
      requires vaddr % SECTION == 0 && vaddr + count * SECTION <= TWO32
      requires paddr % SECTION == 0 && paddr + count * SECTION <= TWO32
      modifies table
      ensures forall j :: 0 <= j < ENTRIES ==>
        table[j] == if vaddr / SECTION <= j < vaddr / SECTION + count
                    then Descriptor(paddr + (j - vaddr / SECTION) * SECTION, flags) else old(table[j])
    {
      ghost var first := vaddr / SECTION;
      for i := 0 to count
        invariant forall j :: 0 <= j < ENTRIES ==>
          table[j] == if first <= j < first + i then Descriptor(paddr + (j - first) * SECTION, flags) else old(table[j])
      {
        DescriptorDecodes(paddr / SECTION + i, flags);
        assert (paddr / SECTION + i) * SECTION == paddr + i * SECTION;
        assert (vaddr + i * SECTION) / SECTION == first + i && (vaddr + i * SECTION) % SECTION == 0;
        MapSection(vaddr + i * SECTION, paddr + i * SECTION, flags);
        assert table[..][first + i] == table[first + i];
      }
    }

    /** The on-chip RAM and L4 wake-up sections, mapped one by one. */
    method MapSinglePages()
      requires Valid()
      modifies table
      ensures forall j :: 0 <= j < ENTRIES ==>
        table[j] == if SingleSection(j) then Descriptor(j * SECTION, FlagsOf(j)) else old(table[j])
    {
      MapSection(0x4020_0000, 0x4020_0000, SRAM_FLAGS);
      MapSection(0x4030_0000, 0x4030_0000, SRAM_FLAGS);
      MapSection(0x44C0_0000, 0x44C0_0000, DEVICE_FLAGS);
      MapSection(0x44D0_0000, 0x44D0_0000, DEVICE_FLAGS);
      MapSection(0x44E0_0000, 0x44E0_0000, DEVICE_FLAGS);
      MapSection(0x44F0_0000, 0x44F0_0000, DEVICE_FLAGS);
      forall j | 0 <= j < ENTRIES
        ensures table[j] == if SingleSection(j) then Descriptor(j * SECTION, FlagsOf(j)) else old(table[j])
      {
        assert table[j] == table[..][j] && old(table[j]) == old(table[..])[j];
      }
    }

    /** `mmu_map_hardware_pages`. */
    method MapHardwarePages()
      requires Valid()
      modifies table
      ensures forall j :: 0 <= j < ENTRIES ==>
        table[j] == if IdentitySection(j) then Descriptor(j * SECTION, FlagsOf(j)) else old(table[j])
    {
      MapSinglePages();
      MapRange(0x4800_0000, 0x4800_0000, 16, DEVICE_FLAGS);
      MapRange(0x4A00_0000, 0x4A00_0000, 16, DEVICE_FLAGS);
      MapRange(0x4C00_0000, 0x4C00_0000, 16, DEVICE_FLAGS);
      MapRange(0x5000_0000, 0x5000_0000, 16, DEVICE_FLAGS);
      MapRange(PHYS_BASE, PHYS_BASE, PHYS_SIZE / SECTION, DRAM_FLAGS);
    }

    /** `MMU_init` followed by the kernel mapping loop of the bootloader. */
    method Boot(kernelSections: nat)
      requires Valid() && kernelSections <= 0x600
      modifies table
      ensures IsBootTable(table[..], kernelSections)
    {
      Clear();
      MapHardwarePages();
      MapRange(KERNEL_BASE, PHYS_BASE, kernelSections, KERNEL_FLAGS);
    }

    /** `mmu_copy_bootloader_entries`: the copy translates every address as the boot table. */
    method CopyTo(target: array<uint32>)
      requires Valid() && target.Length == ENTRIES
      modifies target
      ensures target[..] == old(table[..])
    {
      for i := 0 to ENTRIES
        invariant forall j :: 0 <= j < i ==> target[j] == old(table[j])
        invariant forall j :: i <= j < ENTRIES ==> table[j] == old(table[j])
      {
        target[i] := table[i];
      }
    }
  }
}
