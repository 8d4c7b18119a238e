/** Mounting: what the boot sector must say for the geometry the file system relies on. */
module FatMount {
  import opened Machine
  import Modulo
  import opened FatDisk
  import opened FatFiles

  function Larger(a: nat, b: nat): nat { if a < b then b else a }

  /** A boot sector that describes a FAT32 volume with 512-byte sectors: at least one FAT, a non-empty
      FAT, a root cluster, and all of the first 128 clusters (and the root's) below 2^32 sectors. */
  predicate SoundBoot(b: Sector) {
    var spc, fats, fatSize: nat, reserved: nat := b[13], b[16], U32At(b, 36), U16At(b, 14);
    && b[510] == 0x55 && b[511] == 0xAA
    && U16At(b, 11) == 512 && spc >= 1 && fats >= 1 && fatSize >= 1
    && U32At(b, 44) >= 2
    && reserved + fats * fatSize + Larger(126, U32At(b, 44) - 1) * spc <= 0x1_0000_0000
  }

  lemma TimesMonotone(a: nat, b: nat, n: nat)
    requires a <= b
    ensures a * n <= b * n
  {
    if a < b {
      if n > 0 { Modulo.TimesSpreads(n, b - a); }
      assert b * n == a * n + n * (b - a);
    }
  }

  /** Mounting such a volume gives the layout every other operation assumes: one sector run for the
      FAT below the data area, and clusters that map to distinct sectors. */
  lemma MountGivesLayout(disk: Disk)
    requires 0 in disk && SoundBoot(disk[0])
    ensures MountVolume(disk).Ready?
    ensures var v := MountVolume(disk).volume; v.maxClusters < TWO_32 - 1 ==> Layout(v)
  {
    var b := disk[0];
    var spc: nat, fats: nat, fatSize: nat, reserved: nat := b[13], b[16], U32At(b, 36), U16At(b, 14);
    var v := MountVolume(disk).volume;
    var root: nat := U32At(b, 44);
    var most := Larger(126, root - 1);
    assert most * spc >= 0 by { TimesMonotone(0, most, spc); }
    Modulo.TimesSpreads(fatSize, fats);
    assert fats * fatSize == fatSize * fats;
    TimesMonotone(1, most, spc);
    assert v.dataStart == reserved + fats * fatSize;
    assert SectorsPerCluster(v) == spc;
    forall c: u32 | 2 <= c <= most + 1 ensures InRange(v, c) {
      TimesMonotone(c - 1, most, spc);
      assert (c - 1) * spc == (c - 2) * spc + spc;
    }
  }

  lemma QuotientAtLeast(total: nat, per: nat, n: nat)
    requires per > 0 && n * per <= total
    ensures total / per >= n
  {
    var q := total / per;
    assert total == per * q + total % per;
    assert total < (q + 1) * per;
    if q < n { TimesMonotone(q + 1, n, per); }
  }

  /** The guard's limit is at least the number of clusters the data area holds. */
  lemma GuardCoversClusters(disk: Disk, clusters: nat)
    requires 0 in disk && SoundBoot(disk[0]) && MountVolume(disk).Ready?
    requires var total: nat := if U32At(disk[0], 32) != 0 then U32At(disk[0], 32) else U16At(disk[0], 19);
             MountVolume(disk).volume.dataStart + clusters * disk[0][13] <= total
    ensures MountVolume(disk).volume.maxClusters >= clusters
  {
    var total: nat := if U32At(disk[0], 32) != 0 then U32At(disk[0], 32) else U16At(disk[0], 19);
    QuotientAtLeast(total, disk[0][13], clusters);
  }
}
