/** The code that fills the page tables (kernel/mmu.c), entry by entry. */
module MmuDriver {
  import opened Machine
  import opened Bits
  import opened Mmu

  class PageTables {
    const l1: array<u64>
    const l2User: array<u64>
    const l2Kernel: array<u64>
    const l3Mmio: array<u64>
    const l3Fb0: array<u64>
    const l3Fb1: array<u64>
    const bases: Bases

    /** Six static tables of 512 entries, at the places the linker chose. */
    constructor (placement: Bases)
      ensures Valid() && bases == placement
      ensures fresh(l1) && fresh(l2User) && fresh(l2Kernel) && fresh(l3Mmio) && fresh(l3Fb0) && fresh(l3Fb1)
    {
      l1, l2User, l2Kernel := new u64[512], new u64[512], new u64[512];
      l3Mmio, l3Fb0, l3Fb1 := new u64[512], new u64[512], new u64[512];
      bases := placement;
    }

    ghost predicate Valid() {
      && l1.Length == l2User.Length == l2Kernel.Length == 512
      && l3Mmio.Length == l3Fb0.Length == l3Fb1.Length == 512
      && l1 != l2User && l1 != l2Kernel && l1 != l3Mmio && l1 != l3Fb0 && l1 != l3Fb1
      && l2User != l2Kernel && l2User != l3Mmio && l2User != l3Fb0 && l2User != l3Fb1
      && l2Kernel != l3Mmio && l2Kernel != l3Fb0 && l2Kernel != l3Fb1
      && l3Mmio != l3Fb0 && l3Mmio != l3Fb1 && l3Fb0 != l3Fb1
    }

    ghost function Contents(): Tables
      requires Valid()
      reads l1, l2User, l2Kernel, l3Mmio, l3Fb0, l3Fb1
    {
      Tables(l1[..], l2User[..], l2Kernel[..], l3Mmio[..], l3Fb0[..], l3Fb1[..])
    }

    method Clear()
      requires Valid()
      modifies l1, l2User, l2Kernel, l3Mmio, l3Fb0, l3Fb1
      ensures forall i :: 0 <= i < 512 ==>
                l1[i] == l2Kernel[i] == l2User[i] == 0 && l3Mmio[i] == l3Fb0[i] == l3Fb1[i] == 0
    {
      for i := 0 to 512
        invariant forall j :: 0 <= j < i ==>
                    l1[j] == l2Kernel[j] == l2User[j] == 0 && l3Mmio[j] == l3Fb0[j] == l3Fb1[j] == 0
      {
        l1[i], l2Kernel[i], l2User[i] := 0, 0, 0;
        l3Mmio[i], l3Fb0[i], l3Fb1[i] := 0, 0, 0;
      }
    }

    /** Kernel RAM first as privileged blocks, then the EL0 region over it. */
    method FillKernel(r: Region)
      requires Valid() && RegionFits(r) && forall i :: 0 <= i < 512 ==> l2Kernel[i] == 0
      modifies l2Kernel
      ensures forall i :: 0 <= i < 512 ==> l2Kernel[i] == KernelEntry(r, i)
    {
      for i := 0 to 64
        invariant forall j :: 0 <= j < i ==> l2Kernel[j] == Or(0x4000_0000 + j * 0x20_0000, KERNEL_BLOCK)
        invariant forall j :: i <= j < 512 ==> l2Kernel[j] == 0
      {
        l2Kernel[i] := Or(0x4000_0000 + i * 0x20_0000, KERNEL_BLOCK);
      }
      var i := (r.start - 0x4000_0000) / 0x20_0000;
      var end := (r.end - 0x4000_0000 + 0x20_0000 - 1) / 0x20_0000;
      while i < end && i < 64
        invariant FirstBlock(r) <= i && end == EndBlock(r)
        invariant forall j :: 0 <= j < 64 ==>
                    l2Kernel[j] == Or(0x4000_0000 + j * 0x20_0000,
                                      if FirstBlock(r) <= j < i && j < end then USER_BLOCK else KERNEL_BLOCK)
        invariant forall j :: 64 <= j < 512 ==> l2Kernel[j] == 0
      {
        l2Kernel[i] := Or(0x4000_0000 + i * 0x20_0000, USER_BLOCK);
        i := i + 1;
      }
      l2Kernel[128] := Or(0x5000_0000, DEVICE_BLOCK);
      l2Kernel[129] := Or(0x5020_0000, DEVICE_BLOCK);
    }

    method FillDevices()
      requires Valid() && forall i :: 0 <= i < 512 ==> l2User[i] == 0
      modifies l2User
      ensures forall i :: 0 <= i < 512 ==> l2User[i] == UserEntry(bases, i)
    {
      l2User[64] := Or(0x0800_0000, DEVICE_BLOCK);
      l2User[72] := Or(0x0900_0000, DEVICE_BLOCK);
      l2User[80] := Or(bases.l3Mmio, DESC_TABLE);
    }

    method FillMmio()
      requires Valid() && forall i :: 0 <= i < 512 ==> l3Mmio[i] == 0
      modifies l3Mmio
      ensures forall i :: 0 <= i < 512 ==> l3Mmio[i] == MmioEntry(i)
    {
      for i := 0 to 32
        invariant forall j :: 0 <= j < i ==> l3Mmio[j] == Or(0x0A00_0000 + j * 4096, DEVICE_PAGE)
        invariant forall j :: i <= j < 512 ==> l3Mmio[j] == 0
      {
        l3Mmio[i] := Or(0x0A00_0000 + i * 4096, DEVICE_PAGE);
      }
    }

    method InitTables(r: Region)
      requires Valid() && RegionFits(r)
      modifies l1, l2User, l2Kernel, l3Mmio, l3Fb0, l3Fb1
      ensures Initialised(Contents(), bases, r)
    {
      Clear();
      l1[1] := Or(bases.l2Kernel, DESC_TABLE);
      l1[0] := Or(bases.l2User, DESC_TABLE);
      FillKernel(r);
      FillDevices();
      FillMmio();
    }

    /** A null address maps nothing. Pages past the second table are dropped. */
    method MapFramebuffer(phys: u64, size: u32)
      requires Valid() && phys + size + 1024 * 4096 < TWO_64
      modifies l2User, l3Fb0, l3Fb1
      ensures if phys == 0 then Contents() == old(Contents())
              else FramebufferMapped(old(Contents()), Contents(), bases, phys, size)
    {
      if phys == 0 { return; }
      l2User[256] := Or(bases.l3Fb0, DESC_TABLE);
      l2User[257] := Or(bases.l3Fb1, DESC_TABLE);
      var offset := 0;
      ghost var page := 0;
      while offset < size
        invariant offset == page * 4096 && (page == 0 || (page - 1) * 4096 < size)
        invariant forall i :: 0 <= i < 512 ==>
                    l3Fb0[i] == if i < page then Or(phys + i * 4096, USER_PAGE) else old(l3Fb0[i])
        invariant forall i :: 0 <= i < 512 ==>
                    l3Fb1[i] == if 512 + i < page then Or(phys + (512 + i) * 4096, USER_PAGE) else old(l3Fb1[i])
        invariant l2User[..] == old(l2User[..])[256 := Or(bases.l3Fb0, DESC_TABLE)][257 := Or(bases.l3Fb1, DESC_TABLE)]
        decreases size + 4096 - offset
      {
        var index := offset / 4096;
        if index < 512 {
          l3Fb0[index] := Or(phys + offset, USER_PAGE);
        } else if index < 1024 {
          l3Fb1[index - 512] := Or(phys + offset, USER_PAGE);
        }
        offset := offset + 4096;
        page := page + 1;
      }
    }
  }
}
