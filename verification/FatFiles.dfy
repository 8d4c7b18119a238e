/** The file system the FAT32 code maintains: which disks are sound, what a write does to every
    file, and what a sequence of appends leaves in one. */
module FatFiles {
  import opened Machine
  import Modulo
  import opened FatNames
  import opened FatDisk

  // ---- Geometry ----

  function SectorsPerCluster(v: Volume): nat { v.bytesPerCluster / 512 }

  /** The cluster's sectors lie in the 32-bit range. */
  predicate InRange(v: Volume, c: u32) {
    2 <= c && v.dataStart + (c - 2) * SectorsPerCluster(v) < TWO_32
  }

  predicate Layout(v: Volume) {
    && SectorsPerCluster(v) >= 1 && v.fatStart < v.dataStart && InRange(v, v.rootCluster)
    && v.maxClusters < TWO_32 - 1
    && forall c :: 2 <= c < 128 ==> InRange(v, c)
  }

  lemma SectorOf(v: Volume, c: u32)
    requires Layout(v) && InRange(v, c)
    ensures ClusterToSector(v, c) == v.dataStart + (c - 2) * SectorsPerCluster(v) > v.fatStart
  {
    var spc := SectorsPerCluster(v);
    assert (c - 2) % 0x1_0000_0000 == c - 2;
    if c > 2 { Modulo.TimesSpreads(spc, c - 2); }
    assert spc * (c - 2) == (c - 2) * spc;
  }

  lemma SectorsDiffer(v: Volume, c: u32, d: u32)
    requires Layout(v) && InRange(v, c) && InRange(v, d) && c != d
    ensures ClusterToSector(v, c) != ClusterToSector(v, d)
  {
    SectorOf(v, c);
    SectorOf(v, d);
    var spc := SectorsPerCluster(v);
    Modulo.TimesSpreads(spc, c - d);
    assert spc * (c - d) == (c - 2) * spc - (d - 2) * spc;
  }

  // ---- Soundness ----

  /** Every sector the operations touch can be read and written. */
  predicate Mounted(v: Volume, disk: Disk) {
    && v.fatStart in disk && RootSector(v) in disk
    && forall c :: 2 <= c < 128 ==> ClusterToSector(v, c) in disk
  }

  function Fat(v: Volume, disk: Disk): Sector
    requires Mounted(v, disk)
  {
    disk[v.fatStart]
  }

  function Dir(v: Volume, disk: Disk): Sector
    requires Mounted(v, disk)
  {
    disk[RootSector(v)]
  }

  /** After the first unused slot the directory holds nothing. */
  predicate Terminated(dir: Sector) {
    forall i, j :: 0 <= i < j < SLOTS && NameAt(dir, i)[0] == 0 ==> NameAt(dir, j)[0] == 0
  }

  predicate Live(dir: Sector, i: nat) { i < SLOTS && !SlotFree(dir, i) }

  /** An entry owns no cluster, or one that is allocated and is not the directory's. */
  predicate Owns(v: Volume, fat: Sector, c: u32) {
    c == 0 || (InRange(v, c) && c != v.rootCluster && (c < 128 ==> FatAt(fat, c) != 0))
  }

  predicate Separate(dir: Sector) {
    forall i, j :: 0 <= i < j < SLOTS && Live(dir, i) && Live(dir, j) && EntryAt(dir, i).cluster != 0
      ==> EntryAt(dir, i).cluster != EntryAt(dir, j).cluster
  }

  predicate Inv(v: Volume, disk: Disk) {
    && Layout(v) && Mounted(v, disk) && Terminated(Dir(v, disk)) && Separate(Dir(v, disk))
    && (v.rootCluster < 128 ==> FatAt(Fat(v, disk), v.rootCluster) != 0)
    && forall i :: 0 <= i < SLOTS && Live(Dir(v, disk), i) ==>
         Owns(v, Fat(v, disk), EntryAt(Dir(v, disk), i).cluster)
  }

  /** A name a user can give a file: it starts neither with the end mark nor the deleted mark. */
  predicate Usable(name: Bytes) { |name| == 11 && name[0] != 0 && name[0] != DELETED }

  /** A freshly formatted volume: nothing in the directory, nothing allocated but the directory's
      own cluster. */
  predicate Formatted(v: Volume, disk: Disk) {
    && Layout(v) && Mounted(v, disk) && 2 <= v.rootCluster < 128
    && (forall k :: 0 <= k < 512 ==> Dir(v, disk)[k] == 0)
    && forall c :: 2 <= c < 128 ==> (FatAt(Fat(v, disk), c) == 0 <==> c != v.rootCluster)
  }

  /** Such a volume is sound, holds no file, and has room for one. */
  lemma FormattedIsSound(v: Volume, disk: Disk, name: Bytes)
    requires Formatted(v, disk)
    ensures Inv(v, disk) && Lookup(Dir(v, disk), name).None?
    ensures FreeSlot(Dir(v, disk)) == Some(0) && FreeCluster(Fat(v, disk)) == Some(if v.rootCluster == 2 then 3 else 2)
  {
    forall i | 0 <= i < SLOTS ensures NameAt(Dir(v, disk), i)[0] == 0 {
      assert NameAt(Dir(v, disk), i)[0] == Dir(v, disk)[32 * i];
    }
    var fat := Fat(v, disk);
    if v.rootCluster == 2 { assert FatAt(fat, 3) == 0; } else { assert FatAt(fat, 2) == 0; }
  }

  // ---- Searching the directory ----

  lemma {:induction false} LookupFound(dir: Sector, name: Bytes, i: nat)
    requires LookupFrom(dir, name, i).Some? && name != [] && name[0] != DELETED
    ensures Live(dir, LookupFrom(dir, name, i).value)
    decreases SLOTS - i
  {
    if NameAt(dir, i) != name {
      assert LookupFrom(dir, name, i) == LookupFrom(dir, name, i + 1);
      LookupFound(dir, name, i + 1);
    }
  }

  lemma {:induction false} LookupAgrees(dir: Sector, other: Sector, name: Bytes, i: nat)
    requires forall k :: 0 <= k < SLOTS ==> NameAt(other, k) == NameAt(dir, k)
    ensures LookupFrom(dir, name, i) == LookupFrom(other, name, i)
    decreases SLOTS - i
  {
    if i < SLOTS { LookupAgrees(dir, other, name, i + 1); }
  }

  lemma {:induction false} NothingAfterEnd(dir: Sector, name: Bytes, i: nat)
    requires Terminated(dir) && Usable(name) && i < SLOTS && NameAt(dir, i)[0] == 0
    ensures SearchFrom(dir, name, i).None? && LookupFrom(dir, name, i).None?
    decreases SLOTS - i
  {
    if i + 1 < SLOTS { NothingAfterEnd(dir, name, i + 1); }
  }

  lemma {:induction false} SearchIsLookup(dir: Sector, name: Bytes, i: nat)
    requires Terminated(dir) && Usable(name)
    ensures SearchFrom(dir, name, i) == LookupFrom(dir, name, i)
    decreases SLOTS - i
  {
    if i < SLOTS {
      SearchIsLookup(dir, name, i + 1);
      if NameAt(dir, i)[0] == 0 { NothingAfterEnd(dir, name, i); }
    }
  }

  /** One directory differs from the other only in the name of one slot. */
  predicate Renamed(dir: Sector, dir': Sector, slot: nat, name: Bytes) {
    && slot < SLOTS && |name| == 11 && NameAt(dir', slot) == name
    && forall k :: 0 <= k < SLOTS && k != slot ==> NameAt(dir', k) == NameAt(dir, k)
  }

  lemma SetEntryRenames(dir: Sector, slot: nat, name: Bytes, c: u32, size: u32)
    requires slot < SLOTS && |name| == 11
    ensures Renamed(dir, SetEntry(dir, slot, name, c, size), slot, name)
    ensures forall k :: 0 <= k < SLOTS ==>
              EntryAt(SetEntry(dir, slot, name, c, size), k)
              == if k == slot then Entry(name, ARCHIVE, c, size) else EntryAt(dir, k)
  {
    forall k | 0 <= k < SLOTS
      ensures EntryAt(SetEntry(dir, slot, name, c, size), k)
           == if k == slot then Entry(name, ARCHIVE, c, size) else EntryAt(dir, k)
    {
      EntrySet(dir, slot, name, c, size, k);
    }
  }

  /** Putting a new entry in the first free slot leaves every other name where it was. */
  lemma {:induction false} LookupOther(dir: Sector, dir': Sector, slot: nat, name: Bytes, m: Bytes, i: nat)
    requires Terminated(dir) && FreeSlot(dir) == Some(slot) && Renamed(dir, dir', slot, name) && name[0] != 0
    requires Usable(m) && m != name
    ensures LookupFrom(dir', m, i) == LookupFrom(dir, m, i)
    decreases SLOTS - i
  {
    if i < SLOTS {
      LookupOther(dir, dir', slot, name, m, i + 1);
      if i == slot && NameAt(dir, i)[0] == 0 && i + 1 < SLOTS {
        assert NameAt(dir, i + 1)[0] == 0;
      }
    }
  }

  lemma {:induction false} LookupIs(dir: Sector, name: Bytes, i: nat, k: nat)
    requires i <= k < SLOTS && NameAt(dir, k) == name && name[0] != 0
    requires forall j :: i <= j < k ==> NameAt(dir, j) != name && NameAt(dir, j)[0] != 0
    ensures LookupFrom(dir, name, i) == Some(k)
    decreases k - i
  {
    if i < k { LookupIs(dir, name, i + 1, k); }
  }

  lemma {:induction false} LookupFirst(dir: Sector, name: Bytes, i: nat)
    requires LookupFrom(dir, name, i).Some?
    ensures forall j :: i <= j < LookupFrom(dir, name, i).value ==> NameAt(dir, j) != name
    decreases SLOTS - i
  {
    if NameAt(dir, i) != name { LookupFirst(dir, name, i + 1); }
  }

  lemma {:induction false} LookupAtMost(dir: Sector, name: Bytes, i: nat, k: nat)
    requires i <= k < SLOTS && NameAt(dir, k) == name && name[0] != 0
    requires forall j :: i <= j < k ==> NameAt(dir, j)[0] != 0
    ensures LookupFrom(dir, name, i).Some? && LookupFrom(dir, name, i).value <= k
    decreases k - i
  {
    if i < k { LookupAtMost(dir, name, i + 1, k); }
  }

  /** The new entry is what its own name finds, unless an older one comes first. */
  lemma LookupOwn(dir: Sector, dir': Sector, slot: nat, name: Bytes)
    requires slot < SLOTS && (forall k :: 0 <= k < slot ==> !SlotFree(dir, k))
    requires Renamed(dir, dir', slot, name) && Usable(name)
    ensures var before := Lookup(dir, name);
            Lookup(dir', name) == if before.Some? && before.value < slot then before else Some(slot)
  {
    var before := Lookup(dir, name);
    assert forall j :: 0 <= j < slot ==> !SlotFree(dir, j) && NameAt(dir', j) == NameAt(dir, j);
    if before.Some? && before.value < slot {
      LookupFirst(dir, name, 0);
      LookupIs(dir', name, 0, before.value);
    } else {
      forall j | 0 <= j < slot ensures NameAt(dir, j) != name {
        if NameAt(dir, j) == name { LookupAtMost(dir, name, 0, j); }
      }
      LookupIs(dir', name, 0, slot);
    }
  }

  lemma TerminatedStays(dir: Sector, dir': Sector, slot: nat, name: Bytes)
    requires Terminated(dir) && FreeSlot(dir) == Some(slot) && Renamed(dir, dir', slot, name) && name[0] != 0
    ensures Terminated(dir')
  {
    forall i, j | 0 <= i < j < SLOTS && NameAt(dir', i)[0] == 0 ensures NameAt(dir', j)[0] == 0 {
      assert NameAt(dir, i)[0] == 0;
      if j == slot { assert SlotFree(dir, i); }
    }
  }

  // ---- Writing a file ----

  /** The cluster a write allocates is not the directory's, and its sector is nobody else's. */
  lemma FillShape(v: Volume, disk: Disk, data: Bytes)
    requires Inv(v, disk) && FreeCluster(Fat(v, disk)).Some?
    ensures var c := FreeCluster(Fat(v, disk)).value;
            var at := ClusterToSector(v, c);
            && InRange(v, c) && c != v.rootCluster
            && at != v.fatStart && at != RootSector(v) && v.fatStart != RootSector(v)
            && Fill(v, disk, c, data) == disk[v.fatStart := MarkUsed(Fat(v, disk), c)][at := FirstSector(data)]
  {
    var c := FreeCluster(Fat(v, disk)).value;
    SectorOf(v, v.rootCluster);
    SectorOf(v, c);
    SectorsDiffer(v, c, v.rootCluster);
  }

  /** The sectors a write changes, and the only ones. */
  lemma WriteShape(v: Volume, disk: Disk, filename: Bytes, data: Bytes)
    requires Inv(v, disk) && |data| < TWO_32
    ensures FreeCluster(Fat(v, disk)).None? ==> WriteFile(v, disk, filename, data) == disk
    ensures FreeCluster(Fat(v, disk)).Some? ==>
      var c := FreeCluster(Fat(v, disk)).value;
      var filled := Fill(v, disk, c, data);
      && RootSector(v) in filled && filled[RootSector(v)] == Dir(v, disk)
      && WriteFile(v, disk, filename, data)
         == match FreeSlot(Dir(v, disk))
            case None => filled
            case Some(i) => filled[RootSector(v) := SetEntry(Dir(v, disk), i, FatName(filename), c, |data|)]
  {
    if FreeCluster(Fat(v, disk)).Some? { FillShape(v, disk, data); }
  }

  /** No live entry has the cluster that is about to be allocated. */
  lemma FreshCluster(v: Volume, disk: Disk, i: nat)
    requires Inv(v, disk) && FreeCluster(Fat(v, disk)).Some? && Live(Dir(v, disk), i)
    ensures EntryAt(Dir(v, disk), i).cluster != FreeCluster(Fat(v, disk)).value
  {
  }

  predicate StillOwned(v: Volume, fat: Sector, fat': Sector) {
    forall k :: 2 <= k < 128 && FatAt(fat, k) != 0 ==> FatAt(fat', k) != 0
  }

  lemma MarkingKeepsOwners(v: Volume, fat: Sector, c: nat)
    requires c < 128
    ensures StillOwned(v, fat, MarkUsed(fat, c)) && FatAt(MarkUsed(fat, c), c) == END_OF_CHAIN
  {
    forall k | 2 <= k < 128 && FatAt(fat, k) != 0 ensures FatAt(MarkUsed(fat, c), k) != 0 { MarkedFat(fat, c, k); }
    MarkedFat(fat, c, c);
  }

  lemma MountedStays(v: Volume, disk: Disk, disk': Disk)
    requires Mounted(v, disk) && disk.Keys <= disk'.Keys
    ensures Mounted(v, disk')
  {
  }

  lemma DirectoryStaysSound(v: Volume, disk: Disk, disk': Disk, slot: nat, name: Bytes, size: u32)
    requires Inv(v, disk) && Mounted(v, disk') && FreeCluster(Fat(v, disk)).Some? && slot < SLOTS && |name| == 11
    requires var c := FreeCluster(Fat(v, disk)).value;
      && InRange(v, c) && c != v.rootCluster && FatAt(Fat(v, disk'), c) != 0
      && StillOwned(v, Fat(v, disk), Fat(v, disk')) && SlotFree(Dir(v, disk), slot)
      && Renamed(Dir(v, disk), Dir(v, disk'), slot, name)
      && forall k :: 0 <= k < SLOTS ==>
           EntryAt(Dir(v, disk'), k) == if k == slot then Entry(name, ARCHIVE, c, size) else EntryAt(Dir(v, disk), k)
    ensures Separate(Dir(v, disk'))
    ensures forall i :: 0 <= i < SLOTS && Live(Dir(v, disk'), i) ==>
              Owns(v, Fat(v, disk'), EntryAt(Dir(v, disk'), i).cluster)
  {
    var dir, dir' := Dir(v, disk), Dir(v, disk');
    forall i | 0 <= i < SLOTS && Live(dir', i) ensures Owns(v, Fat(v, disk'), EntryAt(dir', i).cluster) {
      if i != slot { assert Live(dir, i); }
    }
    forall i, j | 0 <= i < j < SLOTS && Live(dir', i) && Live(dir', j) && EntryAt(dir', i).cluster != 0
      ensures EntryAt(dir', i).cluster != EntryAt(dir', j).cluster
    {
      if i != slot { assert Live(dir, i); FreshCluster(v, disk, i); }
      if j != slot { assert Live(dir, j); FreshCluster(v, disk, j); }
    }
  }

  /** Every write, successful or not, keeps the file system sound. */
  lemma WriteKeepsInv(v: Volume, disk: Disk, filename: Bytes, data: Bytes)
    requires Inv(v, disk) && |data| < TWO_32 && FatName(filename)[0] != 0
    ensures Inv(v, WriteFile(v, disk, filename, data))
  {
    var disk' := WriteFile(v, disk, filename, data);
    var name := FatName(filename);
    WriteShape(v, disk, filename, data);
    if FreeCluster(Fat(v, disk)).Some? {
      FillShape(v, disk, data);
      var c := FreeCluster(Fat(v, disk)).value;
      MountedStays(v, disk, disk');
      var dir, dir' := Dir(v, disk), Dir(v, disk');
      MarkingKeepsOwners(v, Fat(v, disk), c);
      if FreeSlot(dir).Some? {
        var slot := FreeSlot(dir).value;
        SetEntryRenames(dir, slot, name, c, |data|);
        TerminatedStays(dir, dir', slot, name);
        DirectoryStaysSound(v, disk, disk', slot, name, |data|);
      } else {
        assert dir' == dir;
      }
    }
  }

  // ---- What reads see ----

  /** Reading depends on the directory entry found and on the first sector of its cluster. */
  lemma ReadDepends(v: Volume, disk: Disk, disk': Disk, filename: Bytes, maxLen: u32)
    requires Mounted(v, disk) && Mounted(v, disk') && maxLen > 0
    requires Lookup(Dir(v, disk'), FatName(filename)) == Lookup(Dir(v, disk), FatName(filename))
    requires var found := Lookup(Dir(v, disk), FatName(filename));
      found.Some? ==>
        var e := EntryAt(Dir(v, disk), found.value);
        var at := ClusterToSector(v, e.cluster);
        && EntryAt(Dir(v, disk'), found.value) == e
        && (e.cluster != 0 ==> (at in disk <==> at in disk') && (at in disk ==> disk'[at] == disk[at]))
    ensures ReadFile(v, disk', filename, maxLen) == ReadFile(v, disk, filename, maxLen)
  {
  }

  /** The disks differ at most in one sector. */
  predicate SameExcept(disk: Disk, disk': Disk, at: nat) {
    disk'.Keys == disk.Keys && forall k :: k in disk && k != at ==> disk'[k] == disk[k]
  }

  /** A new entry in the first free slot: every other name is found where it was. */
  lemma EntrySparesOthers(dir: Sector, dir': Sector, slot: nat, name: Bytes, c: u32, size: u32, m: Bytes)
    requires Terminated(dir) && FreeSlot(dir) == Some(slot) && |name| == 11 && name[0] != 0
    requires dir' == SetEntry(dir, slot, name, c, size) && Usable(m) && m != name
    ensures Lookup(dir', m) == Lookup(dir, m)
    ensures Lookup(dir, m).Some? ==>
              Live(dir, Lookup(dir, m).value) && EntryAt(dir', Lookup(dir, m).value) == EntryAt(dir, Lookup(dir, m).value)
  {
    SetEntryRenames(dir, slot, name, c, size);
    LookupOther(dir, dir', slot, name, m, 0);
    if Lookup(dir, m).Some? { LookupFound(dir, m, 0); }
  }

  lemma WriteTouches(v: Volume, disk: Disk, filename: Bytes, data: Bytes)
    requires Inv(v, disk) && |data| < TWO_32 && FreeCluster(Fat(v, disk)).Some?
    ensures var disk' := WriteFile(v, disk, filename, data);
            && Mounted(v, disk')
            && SameExcept(Fill(v, disk, FreeCluster(Fat(v, disk)).value, data), disk', RootSector(v))
            && Dir(v, disk') == match FreeSlot(Dir(v, disk))
                                case None => Dir(v, disk)
                                case Some(i) => SetEntry(Dir(v, disk), i, FatName(filename),
                                                         FreeCluster(Fat(v, disk)).value, |data|)
  {
    WriteShape(v, disk, filename, data);
    FillShape(v, disk, data);
    MountedStays(v, disk, WriteFile(v, disk, filename, data));
  }

  /** Every other name is found where it was, with the same entry. */
  lemma WriteFindsOthers(v: Volume, disk: Disk, filename: Bytes, data: Bytes, m: Bytes)
    requires Inv(v, disk) && |data| < TWO_32 && FreeCluster(Fat(v, disk)).Some?
    requires FatName(filename)[0] != 0 && Usable(m) && m != FatName(filename)
    ensures var disk' := WriteFile(v, disk, filename, data);
            && Mounted(v, disk')
            && Lookup(Dir(v, disk'), m) == Lookup(Dir(v, disk), m)
            && (Lookup(Dir(v, disk), m).Some? ==>
                  var i := Lookup(Dir(v, disk), m).value;
                  Live(Dir(v, disk), i) && EntryAt(Dir(v, disk'), i) == EntryAt(Dir(v, disk), i))
  {
    var disk' := WriteFile(v, disk, filename, data);
    WriteTouches(v, disk, filename, data);
    var dir := Dir(v, disk);
    if Lookup(dir, m).Some? { LookupFound(dir, m, 0); }
    if FreeSlot(dir).Some? {
      EntrySparesOthers(dir, Dir(v, disk'), FreeSlot(dir).value, FatName(filename),
                        FreeCluster(Fat(v, disk)).value, |data|, m);
    }
  }

  /** The sector of a live file is neither the FAT, nor the directory, nor the fresh cluster. */
  lemma SectorUntouched(v: Volume, disk: Disk, disk': Disk, data: Bytes, i: nat)
    requires Inv(v, disk) && FreeCluster(Fat(v, disk)).Some? && Live(Dir(v, disk), i)
    requires SameExcept(Fill(v, disk, FreeCluster(Fat(v, disk)).value, data), disk', RootSector(v))
    ensures var c := EntryAt(Dir(v, disk), i).cluster;
            var at := ClusterToSector(v, c);
            c != 0 ==> (at in disk <==> at in disk') && (at in disk ==> disk'[at] == disk[at])
  {
    var c := EntryAt(Dir(v, disk), i).cluster;
    if c != 0 {
      FillShape(v, disk, data);
      FreshCluster(v, disk, i);
      SectorOf(v, c);
      SectorsDiffer(v, c, v.rootCluster);
      SectorsDiffer(v, c, FreeCluster(Fat(v, disk)).value);
    }
  }

  /** A write disturbs no other file: whatever name is read, for whatever buffer. */
  lemma WriteSparesOthers(v: Volume, disk: Disk, filename: Bytes, data: Bytes, other: Bytes, maxLen: u32)
    requires Inv(v, disk) && |data| < TWO_32 && maxLen > 0
    requires FatName(filename)[0] != 0 && Usable(FatName(other)) && FatName(other) != FatName(filename)
    ensures ReadFile(v, WriteFile(v, disk, filename, data), other, maxLen) == ReadFile(v, disk, other, maxLen)
  {
    var disk' := WriteFile(v, disk, filename, data);
    if FreeCluster(Fat(v, disk)).Some? {
      var m := FatName(other);
      WriteFindsOthers(v, disk, filename, data, m);
      WriteTouches(v, disk, filename, data);
      if Lookup(Dir(v, disk), m).Some? {
        SectorUntouched(v, disk, disk', data, Lookup(Dir(v, disk), m).value);
      }
      ReadDepends(v, disk, disk', other, maxLen);
    } else {
      WriteShape(v, disk, filename, data);
    }
  }

  /** Bytes a caller with a buffer of maxLen gets back. */
  function Visible(content: Bytes, maxLen: u32): Bytes
    requires maxLen > 0
  {
    Take(content, maxLen - 1)
  }

  /** Writing a name that already exists makes a second entry. Readers get the new one exactly when
      it landed in a slot before the old one, that is, when a deleted slot precedes it. */
  lemma WriteExistingShadows(v: Volume, disk: Disk, filename: Bytes, data: Bytes)
    requires Inv(v, disk) && |data| < TWO_32 && Usable(FatName(filename))
    requires FreeCluster(Fat(v, disk)).Some? && FreeSlot(Dir(v, disk)).Some?
    ensures var slot := FreeSlot(Dir(v, disk)).value;
            var before := Lookup(Dir(v, disk), FatName(filename));
            var disk' := WriteFile(v, disk, filename, data);
            && RootSector(v) in disk'
            && (Lookup(disk'[RootSector(v)], FatName(filename)) == Some(slot)
                <==> !(before.Some? && before.value < slot))
            && (before.Some? && before.value < slot ==> Lookup(disk'[RootSector(v)], FatName(filename)) == before)
  {
    var slot := FreeSlot(Dir(v, disk)).value;
    WriteShape(v, disk, filename, data);
    FillShape(v, disk, data);
    SetEntryRenames(Dir(v, disk), slot, FatName(filename), FreeCluster(Fat(v, disk)).value, |data|);
    LookupOwn(Dir(v, disk), WriteFile(v, disk, filename, data)[RootSector(v)], slot, FatName(filename));
  }

  /** With the FAT full nothing is written; with the directory full nothing a reader can see changes. */
  lemma FullVolume(v: Volume, disk: Disk, filename: Bytes, data: Bytes, other: Bytes, maxLen: u32)
    requires Inv(v, disk) && |data| < TWO_32 && maxLen > 0 && Usable(FatName(other))
    requires FreeCluster(Fat(v, disk)).None? || FreeSlot(Dir(v, disk)).None?
    ensures FreeCluster(Fat(v, disk)).None? ==> WriteFile(v, disk, filename, data) == disk
    ensures ReadFile(v, WriteFile(v, disk, filename, data), other, maxLen) == ReadFile(v, disk, other, maxLen)
  {
    WriteShape(v, disk, filename, data);
    if FreeCluster(Fat(v, disk)).Some? {
      FillShape(v, disk, data);
      var disk' := WriteFile(v, disk, filename, data);
      MountedStays(v, disk, disk');
      var m := FatName(other);
      if Lookup(Dir(v, disk), m).Some? {
        LookupFound(Dir(v, disk), m, 0);
        SectorUntouched(v, disk, disk', data, Lookup(Dir(v, disk), m).value);
      }
      ReadDepends(v, disk, disk', other, maxLen);
    }
  }

  // ---- Files of one cluster ----

  /** The name has a live entry, and its one cluster ends its chain. */
  predicate SingleCluster(v: Volume, disk: Disk, name: Bytes) {
    && Inv(v, disk) && Usable(name)
    && var found := Lookup(Dir(v, disk), name);
       && found.Some?
       && var c := EntryAt(Dir(v, disk), found.value).cluster;
          2 <= c < 128 && !IsLink(FatAt(Fat(v, disk), c))
  }

  function Slot(v: Volume, disk: Disk, name: Bytes): nat
    requires SingleCluster(v, disk, name)
  {
    Lookup(Dir(v, disk), name).value
  }

  /** The sector that holds the file's data. */
  function Home(v: Volume, disk: Disk, name: Bytes): nat
    requires SingleCluster(v, disk, name)
  {
    ClusterToSector(v, EntryAt(Dir(v, disk), Slot(v, disk, name)).cluster)
  }

  function OldSize(v: Volume, disk: Disk, name: Bytes): u32
    requires SingleCluster(v, disk, name)
  {
    EntryAt(Dir(v, disk), Slot(v, disk, name)).size
  }

  /** The file holds exactly these bytes, in one cluster that is the end of its chain. */
  predicate Holds(v: Volume, disk: Disk, name: Bytes, content: Bytes) {
    && SingleCluster(v, disk, name) && Home(v, disk, name) in disk
    && |content| <= 512 && OldSize(v, disk, name) == |content|
    && disk[Home(v, disk, name)][..|content|] == content
  }

  /** A file that holds some bytes reads as those bytes. */
  lemma HeldReads(v: Volume, disk: Disk, filename: Bytes, content: Bytes, maxLen: u32)
    requires Holds(v, disk, FatName(filename), content) && maxLen > 0
    ensures ReadFile(v, disk, filename, maxLen) == Content(Visible(content, maxLen))
  {
    var e := EntryAt(Dir(v, disk), Lookup(Dir(v, disk), FatName(filename)).value);
    var s := disk[ClusterToSector(v, e.cluster)];
    var n := if |content| < maxLen - 1 then |content| else maxLen - 1;
    assert s[..n] == s[..|content|][..n];
  }

  /** A written file holds its data. */
  lemma WriteHolds(v: Volume, disk: Disk, filename: Bytes, data: Bytes)
    requires Inv(v, disk) && |data| <= 512 && Usable(FatName(filename))
    requires Lookup(Dir(v, disk), FatName(filename)).None?
    requires FreeCluster(Fat(v, disk)).Some? && FreeSlot(Dir(v, disk)).Some?
    ensures Holds(v, WriteFile(v, disk, filename, data), FatName(filename), data)
  {
    var name := FatName(filename);
    var c := FreeCluster(Fat(v, disk)).value;
    var slot := FreeSlot(Dir(v, disk)).value;
    var disk' := WriteFile(v, disk, filename, data);
    WriteKeepsInv(v, disk, filename, data);
    WriteShape(v, disk, filename, data);
    FillShape(v, disk, data);
    SetEntryRenames(Dir(v, disk), slot, name, c, |data|);
    LookupOwn(Dir(v, disk), Dir(v, disk'), slot, name);
    MarkedFat(Fat(v, disk), c, c);
    assert FirstSector(data)[..|data|] == data;
  }

  lemma HomeIsSeparate(v: Volume, disk: Disk, name: Bytes)
    requires SingleCluster(v, disk, name)
    ensures Slot(v, disk, name) < SLOTS && Live(Dir(v, disk), Slot(v, disk, name))
    ensures var at := Home(v, disk, name); at in disk && at != RootSector(v) && at != v.fatStart
    ensures RootSector(v) != v.fatStart
    ensures Search(Dir(v, disk), name) == Some(Slot(v, disk, name))
  {
    LookupFound(Dir(v, disk), name, 0);
    SearchIsLookup(Dir(v, disk), name, 0);
    var c := EntryAt(Dir(v, disk), Slot(v, disk, name)).cluster;
    SectorOf(v, c);
    SectorOf(v, v.rootCluster);
    SectorsDiffer(v, c, v.rootCluster);
  }

  /** A new file reads back as it was written. */
  lemma WriteThenRead(v: Volume, disk: Disk, filename: Bytes, data: Bytes, maxLen: u32)
    requires Inv(v, disk) && |data| <= 512 && maxLen > 0 && Usable(FatName(filename))
    requires Lookup(Dir(v, disk), FatName(filename)).None?
    requires FreeCluster(Fat(v, disk)).Some? && FreeSlot(Dir(v, disk)).Some?
    ensures ReadFile(v, WriteFile(v, disk, filename, data), filename, maxLen) == Content(Visible(data, maxLen))
  {
    WriteHolds(v, disk, filename, data);
    HeldReads(v, WriteFile(v, disk, filename, data), filename, data, maxLen);
  }
}
