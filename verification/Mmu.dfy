/** The page tables (kernel/mmu.c) and what they mean to the translation walk: 4 KB granule, 39-bit
    addresses, so the walk starts at level 1 (Arm VMSAv8-64). */
module Mmu {
  import opened Machine
  import Modulo
  import opened Bits

  const BLOCK: nat := 0x20_0000
  const GIGABYTE: nat := 0x4000_0000
  const KERNEL_BASE: nat := 0x4000_0000
  const FRAMEBUFFER: nat := 0x2000_0000
  const VA_LIMIT: nat := 0x80_0000_0000

  // Descriptor bits, already combined as the code combines them.
  const DESC_TABLE: u64 := 0x3                 // table | valid
  const KERNEL_BLOCK: u64 := 0x405             // normal | RW EL1 | AF | block | valid
  const USER_BLOCK: u64 := 0x445               // normal | RW any | AF | block | valid
  const DEVICE_BLOCK: u64 := 0x401             // device | RW EL1 | AF | block | valid
  const DEVICE_PAGE: u64 := 0x403              // device | RW EL1 | AF | page | valid
  const USER_PAGE: u64 := 0x447                // normal | RW any | AF | page | valid

  type Table = t: seq<u64> | |t| == 512 witness seq(512, _ => 0)

  /** Where the linker put the tables below level 1. */
  datatype Bases = Bases(l2User: u64, l2Kernel: u64, l3Mmio: u64, l3Fb0: u64, l3Fb1: u64)

  datatype Tables = Tables(l1: Table, l2User: Table, l2Kernel: Table, l3Mmio: Table, l3Fb0: Table, l3Fb1: Table)

  predicate PageAligned(a: u64) { a % 4096 == 0 && a + 4096 <= 0x1_0000_0000_0000 }

  predicate Placed(b: Bases) {
    && PageAligned(b.l2User) && PageAligned(b.l2Kernel) && PageAligned(b.l3Mmio)
    && PageAligned(b.l3Fb0) && PageAligned(b.l3Fb1)
    && b.l2User != b.l2Kernel && b.l2User != b.l3Mmio && b.l2User != b.l3Fb0 && b.l2User != b.l3Fb1
    && b.l2Kernel != b.l3Mmio && b.l2Kernel != b.l3Fb0 && b.l2Kernel != b.l3Fb1
    && b.l3Mmio != b.l3Fb0 && b.l3Mmio != b.l3Fb1 && b.l3Fb0 != b.l3Fb1
  }

  // ---- The walk ----

  datatype Translation = Fault | Mapped(pa: nat, el0: bool)

  function TableAt(t: Tables, b: Bases, base: nat): Option<Table> {
    if base == b.l2User then Some(t.l2User)
    else if base == b.l2Kernel then Some(t.l2Kernel)
    else if base == b.l3Mmio then Some(t.l3Mmio)
    else if base == b.l3Fb0 then Some(t.l3Fb0)
    else if base == b.l3Fb1 then Some(t.l3Fb1)
    else None
  }

  predicate Valid(d: u64) { d % 2 == 1 }
  predicate TableOrPage(d: u64) { d / 2 % 2 == 1 }
  predicate Accessed(d: u64) { d / 1024 % 2 == 1 }
  predicate UserBit(d: u64) { d / 64 % 2 == 1 }

  /** Bits 47..12 of a descriptor. */
  function NextBase(d: u64): nat { d % 0x1_0000_0000_0000 / 4096 * 4096 }

  /** A leaf of the given size: the high bits from the descriptor, the low ones from the address. */
  function Leaf(d: u64, size: nat, va: nat): Translation
    requires size > 0
  {
    if Accessed(d) then Mapped(d % 0x1_0000_0000_0000 / size * size + va % size, UserBit(d)) else Fault
  }

  function WalkL3(table: Table, va: nat): Translation {
    var d := table[va / 0x1000 % 512];
    if Valid(d) && TableOrPage(d) then Leaf(d, 0x1000, va) else Fault
  }

  /** One entry of a level-2 table. */
  function WalkEntry(t: Tables, b: Bases, d: u64, va: nat): Translation {
    if !Valid(d) then Fault
    else if !TableOrPage(d) then Leaf(d, 0x20_0000, va)
    else match TableAt(t, b, NextBase(d))
      case None => Fault
      case Some(next) => WalkL3(next, va)
  }

  function WalkL2(t: Tables, b: Bases, table: Table, va: nat): Translation {
    WalkEntry(t, b, table[va / 0x20_0000 % 512], va)
  }

  function Translate(t: Tables, b: Bases, va: nat): Translation
    requires va < VA_LIMIT
  {
    var d := t.l1[va / 0x4000_0000 % 512];
    if !Valid(d) then Fault
    else if !TableOrPage(d) then Leaf(d, 0x4000_0000, va)
    else match TableAt(t, b, NextBase(d))
      case None => Fault
      case Some(next) => WalkL2(t, b, next, va)
  }

  // ---- What the tables hold after initialisation ----

  /** The EL0 image and stack, somewhere at or above the start of kernel RAM. */
  datatype Region = Region(start: u64, end: u64)

  predicate RegionFits(r: Region) { KERNEL_BASE <= r.start <= r.end <= VA_LIMIT }

  function FirstBlock(r: Region): nat
    requires RegionFits(r)
  {
    (r.start - 0x4000_0000) / 0x20_0000
  }

  function EndBlock(r: Region): nat
    requires RegionFits(r)
  {
    (r.end - 0x4000_0000 + 0x20_0000 - 1) / 0x20_0000
  }

  function L1Entry(b: Bases, i: nat): u64 {
    if i == 0 then Or(b.l2User, DESC_TABLE) else if i == 1 then Or(b.l2Kernel, DESC_TABLE) else 0
  }

  function KernelEntry(r: Region, i: nat): u64
    requires RegionFits(r) && i < 512
  {
    if i == 128 then Or(0x5000_0000, DEVICE_BLOCK)
    else if i == 129 then Or(0x5020_0000, DEVICE_BLOCK)
    else if i >= 64 then 0
    else if FirstBlock(r) <= i < EndBlock(r) then Or(0x4000_0000 + i * 0x20_0000, USER_BLOCK)
    else Or(0x4000_0000 + i * 0x20_0000, KERNEL_BLOCK)
  }

  function UserEntry(b: Bases, i: nat): u64 {
    if i == 64 then Or(0x0800_0000, DEVICE_BLOCK)
    else if i == 72 then Or(0x0900_0000, DEVICE_BLOCK)
    else if i == 80 then Or(b.l3Mmio, DESC_TABLE)
    else 0
  }

  function MmioEntry(i: nat): u64
    requires i < 512
  {
    if i < 32 then Or(0x0A00_0000 + i * 4096, DEVICE_PAGE) else 0
  }

  predicate Initialised(t: Tables, b: Bases, r: Region)
    requires RegionFits(r)
  {
    && (forall i :: 0 <= i < 512 ==> t.l1[i] == L1Entry(b, i))
    && (forall i :: 0 <= i < 512 ==> t.l2Kernel[i] == KernelEntry(r, i))
    && (forall i :: 0 <= i < 512 ==> t.l2User[i] == UserEntry(b, i))
    && (forall i :: 0 <= i < 512 ==> t.l3Mmio[i] == MmioEntry(i))
    && (forall i :: 0 <= i < 512 ==> t.l3Fb0[i] == 0)
    && (forall i :: 0 <= i < 512 ==> t.l3Fb1[i] == 0)
  }

  // ---- Descriptors decode to what was put in ----

  lemma Reorder(k: nat, m: nat, q: nat)
    ensures k * m * 2 * q == k * (2 * (m * q))
  {
    assert k * m * 2 * q == (k * m) * (2 * q);
    assert (k * m) * (2 * q) == k * (m * (2 * q));
  }

  /** A bit below the page offset is a bit of the flags. */
  lemma FlagBit(q: nat, f: nat, k: nat, m: nat)
    requires f < 4096 && k > 0 && k * m * 2 == 4096
    ensures (4096 * q + f) / k % 2 == f / k % 2
  {
    var h, l := f / k, f % k;
    assert f == k * h + l;
    assert 4096 * q == k * (2 * (m * q)) by { Reorder(k, m, q); }
    assert k * (2 * (m * q) + h) == k * (2 * (m * q)) + k * h;
    Modulo.Unique(4096 * q + f, k, 2 * (m * q) + h, l);
    Modulo.AddMultiple(h, 2, m * q);
  }

  /** Address and attributes do not disturb each other inside a descriptor. */
  lemma DescriptorDecodes(a: u64, flags: u64)
    requires PageAligned(a) && flags < 4096
    ensures var d := Or(a, flags);
            && d == a + flags
            && Valid(d) == Valid(flags) && TableOrPage(d) == TableOrPage(flags)
            && Accessed(d) == Accessed(flags) && UserBit(d) == UserBit(flags)
  {
    OrPage(a, flags);
    var q := a / 4096;
    assert a == 4096 * q;
    FlagBit(q, flags, 1, 2048);
    FlagBit(q, flags, 2, 1024);
    FlagBit(q, flags, 64, 32);
    FlagBit(q, flags, 1024, 2);
  }

  /** The output address of a leaf descriptor, for pages and for 2 MB blocks. */
  lemma OutputAddress(a: nat, flags: nat, size: nat)
    requires a < 0x1_0000_0000_0000 && flags < 4096 && size >= 4096 && a % size == 0 && a + size <= 0x1_0000_0000_0000
    ensures (a + flags) % 0x1_0000_0000_0000 / size * size == a
  {
    var q := a / size;
    assert a == size * q;
    Modulo.Unique(a + flags, 0x1_0000_0000_0000, 0, a + flags);
    Modulo.Unique(a + flags, size, q, flags);
    assert q * size == a;
  }

  /** The 2 MB block of an address meets the EL0 region. */
  predicate InUserBlock(r: Region, va: nat) {
    var low := va - va % 0x20_0000;
    low < r.end && r.start < low + 0x20_0000
  }

  /** The 64 blocks of kernel RAM. */
  predicate InRam(va: nat) { KERNEL_BASE <= va < KERNEL_BASE + 64 * BLOCK }

  /** The addresses the kernel maps: RAM, the DMA heap, the interrupt controller, the UART and the
      VirtIO registers. */
  predicate Covered(va: nat) {
    || InRam(va)
    || 0x5000_0000 <= va < 0x5040_0000
    || 0x0800_0000 <= va < 0x0820_0000
    || 0x0900_0000 <= va < 0x0920_0000
    || 0x0A00_0000 <= va < 0x0A02_0000
  }

  lemma TableStep(base: u64)
    requires PageAligned(base)
    ensures var d := Or(base, DESC_TABLE); Valid(d) && TableOrPage(d) && NextBase(d) == base
  {
    DescriptorDecodes(base, DESC_TABLE);
    OutputAddress(base, DESC_TABLE, 4096);
  }

  lemma BlockAligned(a: nat)
    requires a % 0x20_0000 == 0 && a < 0x8000_0000
    ensures PageAligned(a)
  {
    var q := a / 0x20_0000;
    assert a == 4096 * (512 * q);
    Modulo.AddMultiple(0, 4096, 512 * q);
  }

  lemma BlockLeaf(a: u64, flags: u64, va: nat)
    requires a % 0x20_0000 == 0 && a < 0x8000_0000 && flags < 4096 && a <= va < a + 0x20_0000
    requires Accessed(flags)
    ensures Leaf(Or(a, flags), 0x20_0000, va) == Mapped(va, UserBit(flags))
  {
    BlockAligned(a);
    DescriptorDecodes(a, flags);
    OutputAddress(a, flags, 0x20_0000);
    Modulo.Unique(va, 0x20_0000, a / 0x20_0000, va - a);
  }

  lemma PageLeaf(a: u64, flags: u64, va: nat)
    requires PageAligned(a) && flags < 4096 && Accessed(flags)
    ensures Leaf(Or(a, flags), 0x1000, va) == Mapped(a + va % 0x1000, UserBit(flags))
  {
    DescriptorDecodes(a, flags);
    OutputAddress(a, flags, 4096);
  }

  /** What the walk does with one entry of a level-2 table. */
  lemma BlockEntry(t: Tables, b: Bases, a: u64, flags: u64, va: nat)
    requires a % 0x20_0000 == 0 && a < 0x8000_0000 && a <= va < a + 0x20_0000
    requires flags < 4096 && Valid(flags) && !TableOrPage(flags) && Accessed(flags)
    ensures WalkEntry(t, b, Or(a, flags), va) == Mapped(va, UserBit(flags))
  {
    BlockAligned(a);
    DescriptorDecodes(a, flags);
    BlockLeaf(a, flags, va);
  }

  lemma BlockFlags(flags: u64)
    requires flags == USER_BLOCK || flags == KERNEL_BLOCK || flags == DEVICE_BLOCK
    ensures flags < 4096 && Valid(flags) && !TableOrPage(flags) && Accessed(flags)
    ensures UserBit(flags) == (flags == USER_BLOCK)
  {
  }

  lemma BlockMeans(t: Tables, b: Bases, a: u64, flags: u64, va: nat)
    requires a % 0x20_0000 == 0 && a < 0x8000_0000 && a <= va < a + 0x20_0000
    requires flags == USER_BLOCK || flags == KERNEL_BLOCK || flags == DEVICE_BLOCK
    ensures WalkEntry(t, b, Or(a, flags), va) == Mapped(va, flags == USER_BLOCK)
  {
    BlockFlags(flags);
    BlockEntry(t, b, a, flags, va);
  }

  lemma TableEntry(t: Tables, b: Bases, base: u64, va: nat)
    requires PageAligned(base)
    ensures WalkEntry(t, b, Or(base, DESC_TABLE), va)
         == match TableAt(t, b, base) { case None => Fault case Some(next) => WalkL3(next, va) }
  {
    TableStep(base);
  }

  lemma GigabyteIndex(va: nat, g: nat)
    requires g < 512 && g * 0x4000_0000 <= va < g * 0x4000_0000 + 0x4000_0000
    ensures va / 0x4000_0000 % 512 == g
  {
  }

  lemma BlockIndex(va: nat, g: nat)
    requires g < 2 && g * 0x4000_0000 <= va < g * 0x4000_0000 + 0x4000_0000
    ensures var i := va / 0x20_0000 % 512;
            g * 0x4000_0000 + i * 0x20_0000 <= va < g * 0x4000_0000 + i * 0x20_0000 + 0x20_0000
  {
    assert va / 0x20_0000 == g * 512 + va / 0x20_0000 % 512;
  }

  /** The first gigabyte and the second each have one level-2 table. */
  lemma Upper(t: Tables, b: Bases, va: nat)
    requires Placed(b) && va < VA_LIMIT && forall i :: 0 <= i < 512 ==> t.l1[i] == L1Entry(b, i)
    ensures Translate(t, b, va)
         == if va < GIGABYTE then WalkL2(t, b, t.l2User, va)
            else if va < 2 * GIGABYTE then WalkL2(t, b, t.l2Kernel, va)
            else Fault
  {
    GigabyteIndex(va, va / 0x4000_0000);
    if va < GIGABYTE { TableStep(b.l2User); }
    else if va < 2 * GIGABYTE { TableStep(b.l2Kernel); }
  }

  lemma BlockStart(i: nat)
    ensures (0x4000_0000 + i * 0x20_0000) % 0x20_0000 == 0
  {
    Modulo.AddMultiple(0, 0x20_0000, 512 + i);
  }

  lemma KernelCovered(va: nat, i: nat)
    requires i < 512 && 0x4000_0000 + i * 0x20_0000 <= va < 0x4000_0000 + i * 0x20_0000 + 0x20_0000
    ensures InRam(va) <==> i < 64
    ensures Covered(va) <==> i < 64 || i == 128 || i == 129
  {
  }

  lemma UserBlocksMeet(r: Region, i: nat, va: nat)
    requires RegionFits(r) && i < 64
    requires 0x4000_0000 + i * 0x20_0000 <= va < 0x4000_0000 + i * 0x20_0000 + 0x20_0000
    ensures FirstBlock(r) <= i < EndBlock(r) <==> InUserBlock(r, va)
  {
    Modulo.Unique(va, 0x20_0000, 512 + i, va - 0x4000_0000 - i * 0x20_0000);
  }

  lemma KernelEntryMeans(t: Tables, b: Bases, r: Region, va: nat, i: nat)
    requires RegionFits(r) && i < 512
    requires 0x4000_0000 + i * 0x20_0000 <= va < 0x4000_0000 + i * 0x20_0000 + 0x20_0000
    ensures WalkEntry(t, b, KernelEntry(r, i), va)
         == if Covered(va) then Mapped(va, InRam(va) && InUserBlock(r, va)) else Fault
  {
    var a := 0x4000_0000 + i * 0x20_0000;
    KernelCovered(va, i);
    if i < 64 {
      UserBlocksMeet(r, i, va);
      BlockStart(i);
      BlockMeans(t, b, a, if FirstBlock(r) <= i < EndBlock(r) then USER_BLOCK else KERNEL_BLOCK, va);
    } else if i == 128 || i == 129 {
      BlockStart(i);
      BlockMeans(t, b, a, DEVICE_BLOCK, va);
    }
  }

  lemma KernelBlockMeans(t: Tables, b: Bases, r: Region, va: nat)
    requires RegionFits(r) && KERNEL_BASE <= va < 2 * GIGABYTE
    requires forall i :: 0 <= i < 512 ==> t.l2Kernel[i] == KernelEntry(r, i)
    ensures WalkL2(t, b, t.l2Kernel, va)
         == if Covered(va) then Mapped(va, InRam(va) && InUserBlock(r, va)) else Fault
  {
    BlockIndex(va, 1);
    KernelEntryMeans(t, b, r, va, va / 0x20_0000 % 512);
  }

  lemma UserCovered(va: nat, i: nat)
    requires i < 512 && i * 0x20_0000 <= va < i * 0x20_0000 + 0x20_0000
    ensures Covered(va) <==> i == 64 || i == 72 || (i == 80 && va < 0x0A02_0000)
  {
  }

  lemma PageIndex(va: nat, first: nat)
    requires first * 0x20_0000 <= va < first * 0x20_0000 + 0x20_0000
    ensures var j := va / 0x1000 % 512; va == first * 0x20_0000 + j * 0x1000 + va % 0x1000
  {
    var k := va / 0x1000;
    assert va == 0x1000 * k + va % 0x1000;
    assert 512 * first <= k < 512 * first + 512;
    Modulo.Unique(k, 512, first, k - 512 * first);
  }

  lemma MmioMeans(table: Table, va: nat)
    requires 0x0A00_0000 <= va < 0x0A20_0000 && forall i :: 0 <= i < 512 ==> table[i] == MmioEntry(i)
    ensures WalkL3(table, va) == if va < 0x0A02_0000 then Mapped(va, false) else Fault
  {
    PageIndex(va, 80);
    var j := va / 0x1000 % 512;
    if j < 32 {
      var a := 0x0A00_0000 + j * 4096;
      assert a == 4096 * (0xA000 + j) && a % 4096 == 0;
      PageLeaf(a, DEVICE_PAGE, va);
      DescriptorDecodes(a, DEVICE_PAGE);
    }
  }

  lemma MmioEntryMeans(t: Tables, b: Bases, va: nat)
    requires Placed(b) && 0x0A00_0000 <= va < 0x0A20_0000
    requires forall i :: 0 <= i < 512 ==> t.l3Mmio[i] == MmioEntry(i)
    ensures WalkEntry(t, b, Or(b.l3Mmio, DESC_TABLE), va) == if va < 0x0A02_0000 then Mapped(va, false) else Fault
  {
    TableEntry(t, b, b.l3Mmio, va);
    MmioMeans(t.l3Mmio, va);
  }

  /** The entry covers 2 MB; these are the three that are mapped. */
  lemma UserEntryMeans(t: Tables, b: Bases, va: nat, i: nat)
    requires Placed(b) && i < 512 && i * 0x20_0000 <= va < i * 0x20_0000 + 0x20_0000
    requires forall i :: 0 <= i < 512 ==> t.l3Mmio[i] == MmioEntry(i)
    ensures WalkEntry(t, b, UserEntry(b, i), va) == if Covered(va) then Mapped(va, false) else Fault
  {
    UserCovered(va, i);
    if i == 64 { BlockMeans(t, b, 0x0800_0000, DEVICE_BLOCK, va); }
    else if i == 72 { BlockMeans(t, b, 0x0900_0000, DEVICE_BLOCK, va); }
    else if i == 80 { MmioEntryMeans(t, b, va); }
  }

  lemma UserBlockMeans(t: Tables, b: Bases, va: nat)
    requires Placed(b) && va < GIGABYTE
    requires var i := va / 0x20_0000 % 512; t.l2User[i] == UserEntry(b, i)
    requires forall i :: 0 <= i < 512 ==> t.l3Mmio[i] == MmioEntry(i)
    ensures WalkL2(t, b, t.l2User, va) == if Covered(va) then Mapped(va, false) else Fault
  {
    BlockIndex(va, 0);
    UserEntryMeans(t, b, va, va / 0x20_0000 % 512);
  }

  /** After initialisation every 39-bit address faults or translates to itself, and user code may
      touch exactly the kernel-RAM blocks that meet the EL0 region, whose part past RAM is not mapped. */
  lemma InitialMeaning(t: Tables, b: Bases, r: Region, va: nat)
    requires Placed(b) && RegionFits(r) && Initialised(t, b, r) && va < VA_LIMIT
    ensures Translate(t, b, va) == if Covered(va) then Mapped(va, InRam(va) && InUserBlock(r, va)) else Fault
  {
    Upper(t, b, va);
    if va < GIGABYTE {
      UserBlockMeans(t, b, va);
    } else if va < 2 * GIGABYTE {
      KernelBlockMeans(t, b, r, va);
    }
  }

  // ---- The framebuffer ----

  /** How many pages the mapping loop fills: two tables hold 1024. */
  function PagesMapped(size: u32): nat {
    var wanted := (size + 4095) / 4096;
    if wanted < 1024 then wanted else 1024
  }

  function FbEntry(phys: u64, page: nat, size: u32, before: u64): u64
    requires phys + 1024 * 4096 < TWO_64
  {
    if page < PagesMapped(size) then Or(phys + page * 4096, USER_PAGE) else before
  }

  /** The tables after a framebuffer was mapped. */
  predicate FramebufferMapped(t: Tables, t': Tables, b: Bases, phys: u64, size: u32)
    requires phys + 1024 * 4096 < TWO_64
  {
    && t'.l1 == t.l1 && t'.l2Kernel == t.l2Kernel && t'.l3Mmio == t.l3Mmio
    && t'.l2User == t.l2User[256 := Or(b.l3Fb0, DESC_TABLE)][257 := Or(b.l3Fb1, DESC_TABLE)]
    && (forall i :: 0 <= i < 512 ==> t'.l3Fb0[i] == FbEntry(phys, i, size, t.l3Fb0[i]))
    && (forall i :: 0 <= i < 512 ==> t'.l3Fb1[i] == FbEntry(phys, 512 + i, size, t.l3Fb1[i]))
  }

  /** The virtual pages of the mapping. */
  predicate InFramebuffer(size: u32, va: nat) { FRAMEBUFFER <= va < FRAMEBUFFER + PagesMapped(size) * 4096 }

  lemma FbPageMeans(table: Table, first: nat, phys: u64, size: u32, va: nat)
    requires phys % 4096 == 0 && phys + 1024 * 4096 <= 0x1_0000_0000_0000 && (first == 0 || first == 512)
    requires forall i :: 0 <= i < 512 ==> table[i] == FbEntry(phys, first + i, size, 0)
    requires FRAMEBUFFER + first * 4096 <= va < FRAMEBUFFER + first * 4096 + 0x20_0000
    ensures WalkL3(table, va) == if InFramebuffer(size, va) then Mapped(phys + (va - FRAMEBUFFER), true) else Fault
  {
    PageIndex(va, if first == 0 then 256 else 257);
    var j := va / 0x1000 % 512;
    var page := first + j;
    assert table[j] == FbEntry(phys, page, size, 0);
    if page < PagesMapped(size) {
      var a := phys + page * 4096;
      Modulo.AddMultiple(phys, 4096, page);
      PageLeaf(a, USER_PAGE, va);
      DescriptorDecodes(a, USER_PAGE);
    }
  }

  lemma WindowMeans(t: Tables, t': Tables, b: Bases, phys: u64, size: u32, va: nat)
    requires Placed(b) && va < GIGABYTE
    requires phys % 4096 == 0 && phys + 1024 * 4096 <= 0x1_0000_0000_0000
    requires forall i :: 0 <= i < 512 ==> t.l2User[i] == UserEntry(b, i)
    requires forall i :: 0 <= i < 512 ==> t.l3Mmio[i] == MmioEntry(i)
    requires forall i :: 0 <= i < 512 ==> t.l3Fb0[i] == 0 && t.l3Fb1[i] == 0
    requires FramebufferMapped(t, t', b, phys, size)
    ensures WalkL2(t', b, t'.l2User, va)
         == if InFramebuffer(size, va) then Mapped(phys + (va - FRAMEBUFFER), true)
            else if Covered(va) then Mapped(va, false) else Fault
  {
    BlockIndex(va, 0);
    var i := va / 0x20_0000 % 512;
    if i == 256 {
      TableEntry(t', b, b.l3Fb0, va);
      FbPageMeans(t'.l3Fb0, 0, phys, size, va);
    } else if i == 257 {
      TableEntry(t', b, b.l3Fb1, va);
      FbPageMeans(t'.l3Fb1, 512, phys, size, va);
    } else {
      UserBlockMeans(t', b, va);
    }
  }

  /** After mapping a page-aligned framebuffer over the initial tables: its pages appear at 0x20000000,
      open to user code, and every other translation is unchanged. */
  lemma FramebufferMeaning(t: Tables, t': Tables, b: Bases, r: Region, phys: u64, size: u32, va: nat)
    requires Placed(b) && RegionFits(r) && Initialised(t, b, r) && va < VA_LIMIT
    requires phys % 4096 == 0 && phys + 1024 * 4096 <= 0x1_0000_0000_0000
    requires FramebufferMapped(t, t', b, phys, size)
    ensures Translate(t', b, va)
         == if InFramebuffer(size, va) then Mapped(phys + (va - FRAMEBUFFER), true) else Translate(t, b, va)
  {
    Upper(t, b, va);
    Upper(t', b, va);
    if va < GIGABYTE {
      UserBlockMeans(t, b, va);
      WindowMeans(t, t', b, phys, size, va);
    } else if va < 2 * GIGABYTE {
      KernelBlockMeans(t, b, r, va);
      KernelBlockMeans(t', b, r, va);
    }
  }
}
