/** Where setup_virtqueue places the rings of one queue (kernel/virtio.c), against where a legacy device
    looks for them (section 2.6.2 of VirtIO 1.1, with a queue alignment of 4096). */
module QueueLayout {
  import opened Bits
  import Modulo

  function DescriptorBytes(n: nat): nat { 16 * n }

  function AvailBytes(n: nat): nat { 6 + 2 * n }

  /** The code's padding is never empty. */
  function UsedOffset(n: nat): nat {
    var head := DescriptorBytes(n) + AvailBytes(n);
    head + (4096 - head % 4096)
  }

  /** The first page boundary at or after the available ring. */
  predicate DeviceExpects(n: nat, offset: nat) {
    var head := DescriptorBytes(n) + AvailBytes(n);
    offset % 4096 == 0 && head <= offset < head + 4096
  }

  /** The rings never overlap, and driver and device agree on the used ring exactly when the
      available ring does not itself end on a page boundary. */
  lemma RingsAgree(n: nat)
    ensures DescriptorBytes(n) + AvailBytes(n) < UsedOffset(n) && UsedOffset(n) % 4096 == 0
    ensures DeviceExpects(n, UsedOffset(n)) <==> (18 * n + 6) % 4096 != 0
  {
    var head := 18 * n + 6;
    var q, r := head / 4096, head % 4096;
    assert head == 4096 * q + r;
    Modulo.Unique(UsedOffset(n), 4096, q + 1, 0);
  }

  /** Every legal queue size is a power of two, and those always agree. */
  lemma LegalSizesAgree(k: nat)
    ensures DeviceExpects(Pow2(k), UsedOffset(Pow2(k)))
  {
    var n := Pow2(k);
    RingsAgree(n);
    if k > 0 {
      var h := Pow2(k - 1);
      assert 18 * n + 6 == 4 * (9 * h + 1) + 2;
      Modulo.ModOfMod(18 * n + 6, 4096, 4);
      Modulo.Unique(18 * n + 6, 4, 9 * h + 1, 2);
    }
  }
}
