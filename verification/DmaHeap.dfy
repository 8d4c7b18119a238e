/** The DMA bump allocator (kernel/virtio.c). */
module DmaHeap {
  import opened Machine
  import Modulo
  import opened Bits

  const HEAP_START: u64 := 0x5000_0000

  /** A power of two that fits the 32-bit alignment argument. */
  ghost predicate Alignment(align: u32) { exists k: nat :: k <= 31 && align == Pow2(k) }

  /** Round up as the code does: only when needed, by adding and masking. */
  function AlignUp(addr: u64, align: u32): nat
    requires align > 0 && addr + align < TWO_64
  {
    if addr % align != 0 then AndNot(addr + align - 1, align - 1) else addr
  }

  /** Rounding addr + align - 1 down lands on the first multiple at or above addr. */
  lemma FirstMultiple(addr: nat, align: nat)
    requires align > 0 && addr % align != 0
    ensures var a := addr + align - 1; addr <= a - a % align < addr + align && (a - a % align) % align == 0
  {
    var p, t := addr / align, addr % align;
    assert addr == align * p + t;
    assert addr + align - 1 == align * (p + 1) + (t - 1);
    Modulo.Unique(addr + align - 1, align, p + 1, t - 1);
    Modulo.AddMultiple(0, align, p + 1);
  }

  lemma NoneBetween(r: nat, align: nat)
    requires align > 0 && r % align == 0
    ensures forall x: nat :: r - align < x < r ==> x % align != 0
  {
    forall x: nat | r - align < x < r ensures x % align != 0 {
      Modulo.SlotsDiffer(x, r, align);
    }
  }

  lemma MaskRounds(addr: u64, align: u32)
    requires Alignment(align) && align > 0 && addr + align < TWO_64
    ensures var a := addr + align - 1; AndNot(a, align - 1) == a - a % align
  {
    var k: nat :| k <= 31 && align == Pow2(k);
    AndNotRoundsDown(addr + align - 1, k);
  }

  lemma Rounded(addr: u64, align: u32)
    requires Alignment(align) && align > 0 && addr + align < TWO_64
    ensures addr <= AlignUp(addr, align) < addr + align && AlignUp(addr, align) % align == 0
  {
    MaskRounds(addr, align);
    if addr % align != 0 { FirstMultiple(addr, align); }
  }

  /** The result is the first aligned address at or above the cursor. */
  lemma AlignUpIsLeast(addr: u64, align: u32)
    requires Alignment(align) && align > 0 && addr + align < TWO_64
    ensures var r := AlignUp(addr, align);
            && addr <= r < addr + align && r % align == 0
            && forall x: nat :: addr <= x < r ==> x % align != 0
  {
    Rounded(addr, align);
    NoneBetween(AlignUp(addr, align), align);
  }

  datatype Request = Request(size: u32, align: u32)

  datatype Block = Block(addr: nat, size: u32)

  lemma {:induction false} ClearAtMost(a: nat, m: nat, width: nat)
    ensures ClearBits(a, m, width) <= a
  {
    if width > 0 { ClearAtMost(a / 2, m / 2, width - 1); }
  }

  lemma MaskBelow(a: u64, m: u64)
    ensures AndNot(a, m) <= a
  {
    ClearAtMost(a, m, 64);
  }

  class Heap {
    var current: nat
    var memory: map<nat, u8>

    constructor ()
      ensures current == HEAP_START && memory == map[]
    {
      current := HEAP_START;
      memory := map[];
    }

    /** Allocate and clear. Addresses never wrap in a 64-bit space as long as fewer than 2^31
        requests have been made, so running out is the caller's concern. */
    method Allocate(size: u32, align: u32) returns (addr: u64)
      requires align > 0 && current + align + size < TWO_64
      modifies this
      ensures addr == AlignUp(old(current), align) && current == addr + size
      ensures forall x :: addr <= x < addr + size ==> x in memory && memory[x] == 0
      ensures forall x :: x in old(memory) && !(addr <= x < addr + size) ==> x in memory && memory[x] == old(memory)[x]
    {
      ghost var start, before := AlignUp(current, align), memory;
      var at := current;
      if at % align != 0 {
        MaskBelow(at + align - 1, align - 1);
        at := AndNot(at + align - 1, align - 1);
      }
      assert at == start;
      current := at + size;
      for i := 0 to size
        invariant current == at + size
        invariant forall x :: at <= x < at + i ==> x in memory && memory[x] == 0
        invariant forall x :: x in before && !(at <= x < at + size) ==> x in memory && memory[x] == before[x]
      {
        memory := memory[at + i := 0];
      }
      return at;
    }
  }

  // ---- Runs of allocations ----

  /** No request in the run can carry the cursor past the end of the address space. */
  function Room(requests: seq<Request>): nat {
    if requests == [] then 0 else requests[0].align + requests[0].size + Room(requests[1..])
  }

  function Blocks(current: nat, requests: seq<Request>): seq<Block>
    requires current + Room(requests) < TWO_64
    requires forall i :: 0 <= i < |requests| ==> requests[i].align > 0
    decreases |requests|
  {
    if requests == [] then []
    else
      var r := requests[0];
      MaskBelow(current + r.align - 1, r.align - 1);
      var addr := AlignUp(current, r.align);
      [Block(addr, r.size)] + Blocks(addr + r.size, requests[1..])
  }

  /** Every run of the allocator returns aligned, pairwise disjoint blocks at rising addresses. */
  lemma {:induction false} RunsAreDisjoint(current: nat, requests: seq<Request>)
    requires current + Room(requests) < TWO_64
    requires forall i :: 0 <= i < |requests| ==> requests[i].align > 0 && Alignment(requests[i].align)
    ensures var b := Blocks(current, requests);
            && |b| == |requests|
            && (forall i :: 0 <= i < |b| ==>
                  b[i].addr >= current && b[i].size == requests[i].size && b[i].addr % requests[i].align == 0)
            && (forall i, j :: 0 <= i < j < |b| ==> b[i].addr + b[i].size <= b[j].addr)
    decreases |requests|
  {
    if requests != [] {
      var r := requests[0];
      AlignUpIsLeast(current, r.align);
      RunsAreDisjoint(AlignUp(current, r.align) + r.size, requests[1..]);
    }
  }
}
