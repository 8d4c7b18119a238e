/** The framebuffer from allocation (kernel/virtio.c, gpu_init) to the window user code sees. */
module Framebuffer {
  import opened Machine
  import opened DmaHeap
  import opened Mmu
  import Modulo
  import opened Bits

  predicate Owns(k: Block, pa: nat) { k.addr <= pa < k.addr + k.size }

  /** Tables with the framebuffer mapped over the initial ones. */
  predicate Window(t: Tables, t': Tables, b: Bases, r: Region, phys: u64, size: u32) {
    && Placed(b) && RegionFits(r) && Initialised(t, b, r)
    && phys % 4096 == 0 && phys + 1024 * 4096 <= 0x1_0000_0000_0000
    && FramebufferMapped(t, t', b, phys, size)
  }

  /** User code reaches this physical byte through the window. */
  ghost predicate Shows(t': Tables, b: Bases, pa: nat) {
    exists va: nat :: FRAMEBUFFER <= va < FRAMEBUFFER + 2 * BLOCK && Translate(t', b, va) == Mapped(pa, true)
  }

  /** The window shows exactly the mapped pages. */
  lemma WindowShows(t: Tables, t': Tables, b: Bases, r: Region, phys: u64, size: u32, pa: nat)
    requires Window(t, t', b, r, phys, size)
    ensures Shows(t', b, pa) <==> phys <= pa < phys + PagesMapped(size) * 4096
  {
    if phys <= pa < phys + PagesMapped(size) * 4096 {
      FramebufferMeaning(t, t', b, r, phys, size, FRAMEBUFFER + (pa - phys));
    }
    if Shows(t', b, pa) {
      var va: nat :| FRAMEBUFFER <= va < FRAMEBUFFER + 2 * BLOCK && Translate(t', b, va) == Mapped(pa, true);
      FramebufferMeaning(t, t', b, r, phys, size, va);
      InitialMeaning(t, b, r, va);
    }
  }

  lemma WholePages(size: u32)
    ensures size % 4096 == 0 ==> PagesMapped(size) * 4096 <= size
  {
    if size % 4096 == 0 {
      var q := size / 4096;
      assert size == 4096 * q;
      Modulo.Unique(size + 4095, 4096, q, 4095);
    }
  }

  /** When the size is whole pages the window holds no byte of any other allocation of the run. */
  lemma WindowIsPrivate(current: nat, requests: seq<Request>, i: nat, j: nat,
                        t: Tables, t': Tables, b: Bases, r: Region, pa: nat)
    requires current + Room(requests) < TWO_64
    requires forall k :: 0 <= k < |requests| ==> Alignment(requests[k].align) && requests[k].align > 0
    requires i < |requests| && j < |requests| && i != j && requests[i].size % 4096 == 0
    requires |Blocks(current, requests)| == |requests|
    requires var fb := Blocks(current, requests)[i]; fb.addr < TWO_64 && Window(t, t', b, r, fb.addr, requests[i].size)
    requires Shows(t', b, pa)
    ensures !Owns(Blocks(current, requests)[j], pa)
  {
    RunsAreDisjoint(current, requests);
    var fb := Blocks(current, requests)[i];
    WindowShows(t, t', b, r, fb.addr, fb.size, pa);
    WholePages(fb.size);
  }

  lemma NextRequest(fb: u64, size: u32)
    requires fb % 4096 == 0 && fb + size + 8 < TWO_64
    ensures AlignUp(fb + size, 8) == fb + (size + 7) / 8 * 8
  {
    assert Alignment(8) by { assert Pow2(3) == 8; }
    MaskRounds(fb + size, 8);
    var q := fb / 4096;
    assert fb == 8 * (512 * q);
    Modulo.AddMultiple(size, 8, 512 * q);
    Modulo.AddMultiple(size + 7, 8, 512 * q);
  }

  /** gpu_init takes 48 bytes right after the framebuffer. The window shows a byte of them exactly when
      the size, rounded up to 8, stops short of the mapped pages. */
  lemma WindowShowsNext(current: nat, size: u32, t: Tables, t': Tables, b: Bases, r: Region)
    requires current + size + 4096 + 56 < TWO_64
    requires var fb := AlignUp(current, 4096); fb < TWO_64 && fb + size + 8 < TWO_64 && Window(t, t', b, r, fb, size)
    ensures var fb := AlignUp(current, 4096);
            (exists pa: nat :: Shows(t', b, pa) && Owns(Block(AlignUp(fb + size, 8), 48), pa))
            <==> (size + 7) / 8 * 8 < PagesMapped(size) * 4096
  {
    var fb := AlignUp(current, 4096);
    var next := AlignUp(fb + size, 8);
    NextRequest(fb, size);
    WindowShows(t, t', b, r, fb, size, next);
    if pa: nat :| Shows(t', b, pa) && Owns(Block(next, 48), pa) {
      WindowShows(t, t', b, r, fb, size, pa);
    }
    if next < fb + PagesMapped(size) * 4096 {
      assert Shows(t', b, next) && Owns(Block(next, 48), next);
    }
  }
}
