/** What appending does (modules/fs/fat32.c): to which sector the bytes go, what that leaves of the
    file, and what of everything else. */
module FatAppend {
  import opened Machine
  import Modulo
  import opened FatNames
  import opened FatDisk
  import opened FatFiles

  // ---- Where the bytes go ----

  /** The sector an append to a present name writes: that of the last cluster of the chain. */
  function Target(v: Volume, disk: Disk, name: Bytes): Option<nat>
    requires Mounted(v, disk)
  {
    match Search(Dir(v, disk), name)
    case None => None
    case Some(i) =>
      match WalkFrom(Fat(v, disk), EntryAt(Dir(v, disk), i).cluster, 0, v.maxClusters)
      case Last(c) => Some(ClusterToSector(v, c))
      case _ => None
  }

  /** The bytes that fit behind the current end. */
  function Added(size: u32, data: Bytes): Bytes { Take(data, 512 - size % 512) }

  function NextSize(size: u32, data: Bytes): u32 { (size + |Added(size, data)|) % 0x1_0000_0000 }

  /** A sector after an append at the given size. */
  function Filled(s: Sector, size: u32, data: Bytes): Sector { Splice(s, size % 512, Added(size, data)) }

  lemma GrowShape(v: Volume, disk: Disk, i: nat, at: nat, size: u32, data: Bytes)
    requires RootSector(v) in disk && at in disk && at != RootSector(v) && i < SLOTS
    requires EntryAt(disk[RootSector(v)], i).size == size
    ensures Grow(v, disk, i, at, size, data)
         == disk[at := Filled(disk[at], size, data)]
                [RootSector(v) := SetSize(disk[RootSector(v)], i, NextSize(size, data))]
  {
  }

  lemma ResizeShape(dir: Sector, i: nat, size: u32)
    requires i < SLOTS
    ensures forall k :: 0 <= k < SLOTS ==>
              EntryAt(SetSize(dir, i, size), k)
              == if k == i then EntryAt(dir, k).(size := size) else EntryAt(dir, k)
  {
    forall k | 0 <= k < SLOTS
      ensures EntryAt(SetSize(dir, i, size), k) == if k == i then EntryAt(dir, k).(size := size) else EntryAt(dir, k)
    {
      SizeSet(dir, i, size, k);
    }
  }

  /** The disk after an append to the entry in slot i whose bytes went to the sector: that sector
      and the entry's size changed, and nothing else. */
  predicate Grew(v: Volume, disk: Disk, disk': Disk, i: nat, at: nat, data: Bytes)
    requires Mounted(v, disk) && i < SLOTS && at in disk
  {
    var size := EntryAt(Dir(v, disk), i).size;
    && Mounted(v, disk') && disk'.Keys == disk.Keys
    && (forall k :: 0 <= k < SLOTS ==>
          EntryAt(Dir(v, disk'), k) == if k == i then EntryAt(Dir(v, disk), k).(size := NextSize(size, data))
                                       else EntryAt(Dir(v, disk), k))
    && (forall s :: s in disk && s != at && s != RootSector(v) ==> disk'[s] == disk[s])
    && disk'[at] == Filled(disk[at], size, data)
  }

  lemma TwoUpdates(v: Volume, disk: Disk, at: nat, body: Sector, dir: Sector)
    requires Mounted(v, disk) && at in disk && at != RootSector(v)
    ensures var disk': Disk := disk[at := body][RootSector(v) := dir];
            && disk'.Keys == disk.Keys && Mounted(v, disk') && Dir(v, disk') == dir && disk'[at] == body
            && forall s :: s in disk && s != at && s != RootSector(v) ==> disk'[s] == disk[s]
  {
  }

  /** An append to a present name: unless the chain is bad or its last sector cannot be read, the
      target sector is filled up and the entry enlarged. */
  lemma AppendEffect(v: Volume, disk: Disk, filename: Bytes, data: Bytes)
    requires Mounted(v, disk) && |data| < TWO_32 && Search(Dir(v, disk), FatName(filename)).Some?
    requires Target(v, disk, FatName(filename)) != Some(RootSector(v))
    ensures var i := Search(Dir(v, disk), FatName(filename)).value;
            var target := Target(v, disk, FatName(filename));
            var r := AppendFile(v, disk, filename, data);
            if target.Some? && target.value in disk
            then r.0 == Appended && Grew(v, disk, r.1, i, target.value, data)
            else r.1 == disk
  {
    var i := Search(Dir(v, disk), FatName(filename)).value;
    var target := Target(v, disk, FatName(filename));
    if target.Some? && target.value in disk {
      var at, size := target.value, EntryAt(Dir(v, disk), i).size;
      GrowShape(v, disk, i, at, size, data);
      ResizeShape(Dir(v, disk), i, NextSize(size, data));
      TwoUpdates(v, disk, at, Filled(disk[at], size, data), SetSize(Dir(v, disk), i, NextSize(size, data)));
    }
  }

  // ---- Soundness and other files ----

  predicate SameNames(dir: Sector, dir': Sector) {
    forall k :: 0 <= k < SLOTS ==> NameAt(dir', k) == NameAt(dir, k)
  }

  lemma GrewSameNames(v: Volume, disk: Disk, disk': Disk, i: nat, at: nat, data: Bytes)
    requires Mounted(v, disk) && i < SLOTS && at in disk && Grew(v, disk, disk', i, at, data)
    ensures SameNames(Dir(v, disk), Dir(v, disk'))
    ensures forall k :: 0 <= k < SLOTS ==> EntryAt(Dir(v, disk'), k).cluster == EntryAt(Dir(v, disk), k).cluster
  {
    forall k | 0 <= k < SLOTS ensures NameAt(Dir(v, disk'), k) == NameAt(Dir(v, disk), k) {
      assert EntryAt(Dir(v, disk'), k).name == EntryAt(Dir(v, disk), k).name;
    }
  }

  lemma SameCatalogue(v: Volume, disk: Disk, disk': Disk)
    requires Inv(v, disk) && Mounted(v, disk') && Fat(v, disk') == Fat(v, disk)
    requires SameNames(Dir(v, disk), Dir(v, disk'))
    requires forall k :: 0 <= k < SLOTS ==> EntryAt(Dir(v, disk'), k).cluster == EntryAt(Dir(v, disk), k).cluster
    ensures Inv(v, disk')
  {
    var dir, dir' := Dir(v, disk), Dir(v, disk');
    forall i | 0 <= i < SLOTS && Live(dir', i) ensures Owns(v, Fat(v, disk'), EntryAt(dir', i).cluster) {
      assert Live(dir, i);
    }
    forall i, j | 0 <= i < j < SLOTS && Live(dir', i) && Live(dir', j) && EntryAt(dir', i).cluster != 0
      ensures EntryAt(dir', i).cluster != EntryAt(dir', j).cluster
    {
      assert Live(dir, i) && Live(dir, j);
    }
    forall i, j | 0 <= i < j < SLOTS && NameAt(dir', i)[0] == 0 ensures NameAt(dir', j)[0] == 0 {
      assert NameAt(dir, i)[0] == 0;
    }
  }

  /** Appending, creation included, keeps the file system sound unless its bytes go to the FAT or
      the directory. */
  lemma AppendKeepsInv(v: Volume, disk: Disk, filename: Bytes, data: Bytes)
    requires Inv(v, disk) && |data| < TWO_32 && FatName(filename)[0] != 0
    requires Target(v, disk, FatName(filename)) != Some(RootSector(v))
    requires Target(v, disk, FatName(filename)) != Some(v.fatStart)
    ensures Inv(v, AppendFile(v, disk, filename, data).1)
    ensures Search(Dir(v, disk), FatName(filename)).Some? ==>
              SameNames(Dir(v, disk), Dir(v, AppendFile(v, disk, filename, data).1))
  {
    var name := FatName(filename);
    if Search(Dir(v, disk), name).None? {
      WriteKeepsInv(v, disk, filename, data);
    } else {
      AppendEffect(v, disk, filename, data);
      var disk' := AppendFile(v, disk, filename, data).1;
      var target := Target(v, disk, name);
      if target.Some? && target.value in disk {
        SectorOf(v, v.rootCluster);
        GrewSameNames(v, disk, disk', Search(Dir(v, disk), name).value, target.value, data);
        SameCatalogue(v, disk, disk');
      }
    }
  }

  /** The sector a read of the name looks at. */
  function DataSector(v: Volume, disk: Disk, name: Bytes): Option<nat>
    requires Mounted(v, disk)
  {
    match Lookup(Dir(v, disk), name)
    case None => None
    case Some(i) =>
      var c := EntryAt(Dir(v, disk), i).cluster;
      if c == 0 then None else Some(ClusterToSector(v, c))
  }

  lemma GrewSparesOthers(v: Volume, disk: Disk, disk': Disk, name: Bytes, at: nat, data: Bytes, other: Bytes, maxLen: u32)
    requires Inv(v, disk) && maxLen > 0 && Usable(FatName(other)) && FatName(other) != name
    requires Search(Dir(v, disk), name).Some? && at in disk && DataSector(v, disk, FatName(other)) != Some(at)
    requires Grew(v, disk, disk', Search(Dir(v, disk), name).value, at, data)
    ensures ReadFile(v, disk', other, maxLen) == ReadFile(v, disk, other, maxLen)
  {
    var m := FatName(other);
    var i := Search(Dir(v, disk), name).value;
    GrewSameNames(v, disk, disk', i, at, data);
    LookupAgrees(Dir(v, disk), Dir(v, disk'), m, 0);
    var found := Lookup(Dir(v, disk), m);
    if found.Some? {
      LookupFound(Dir(v, disk), m, 0);
      var c := EntryAt(Dir(v, disk), found.value).cluster;
      if c != 0 { SectorsDiffer(v, c, v.rootCluster); }
    }
    ReadDepends(v, disk, disk', other, maxLen);
  }

  /** Appending changes no read of any other name, unless its bytes go to the directory or to the
      very sector that other name reads. */
  lemma AppendSparesOthers(v: Volume, disk: Disk, filename: Bytes, data: Bytes, other: Bytes, maxLen: u32)
    requires Inv(v, disk) && |data| < TWO_32 && maxLen > 0 && FatName(filename)[0] != 0
    requires Usable(FatName(other)) && FatName(other) != FatName(filename)
    requires Target(v, disk, FatName(filename)) != Some(RootSector(v))
    requires Target(v, disk, FatName(filename)).Some? ==>
               Target(v, disk, FatName(filename)) != DataSector(v, disk, FatName(other))
    ensures ReadFile(v, AppendFile(v, disk, filename, data).1, other, maxLen) == ReadFile(v, disk, other, maxLen)
  {
    var name, m := FatName(filename), FatName(other);
    if Search(Dir(v, disk), name).None? {
      WriteSparesOthers(v, disk, filename, data, other, maxLen);
    } else {
      AppendEffect(v, disk, filename, data);
      var target := Target(v, disk, name);
      if target.Some? && target.value in disk {
        GrewSparesOthers(v, disk, AppendFile(v, disk, filename, data).1, name, target.value, data, other, maxLen);
      }
    }
  }

  // ---- Files of one cluster ----

  lemma WalkStops(fat: Sector, c: nat, maxClusters: u32)
    requires c < 128 && !IsLink(FatAt(fat, c))
    ensures WalkFrom(fat, c, 0, maxClusters) == Last(c)
  {
  }

  lemma TargetIsHome(v: Volume, disk: Disk, name: Bytes)
    requires SingleCluster(v, disk, name)
    ensures Search(Dir(v, disk), name) == Some(Slot(v, disk, name))
    ensures Target(v, disk, name) == Some(Home(v, disk, name)) == DataSector(v, disk, name)
    ensures Home(v, disk, name) in disk && Home(v, disk, name) != RootSector(v) && Home(v, disk, name) != v.fatStart
  {
    HomeIsSeparate(v, disk, name);
    WalkStops(Fat(v, disk), EntryAt(Dir(v, disk), Slot(v, disk, name)).cluster, v.maxClusters);
  }

  lemma OtherHome(v: Volume, disk: Disk, i: nat, j: nat)
    requires Inv(v, disk) && i != j && Live(Dir(v, disk), i) && Live(Dir(v, disk), j)
    requires EntryAt(Dir(v, disk), i).cluster != 0 && EntryAt(Dir(v, disk), j).cluster != 0
    ensures var ci, cj := EntryAt(Dir(v, disk), i).cluster, EntryAt(Dir(v, disk), j).cluster;
            && ClusterToSector(v, ci) != ClusterToSector(v, cj)
            && ClusterToSector(v, cj) != RootSector(v) && ClusterToSector(v, cj) != v.fatStart
  {
    var ci, cj := EntryAt(Dir(v, disk), i).cluster, EntryAt(Dir(v, disk), j).cluster;
    assert ci != cj;
    SectorsDiffer(v, ci, cj);
    SectorsDiffer(v, cj, v.rootCluster);
    SectorOf(v, cj);
  }

  /** The sector of such a file is read under no other name. */
  lemma HomeIsOwn(v: Volume, disk: Disk, name: Bytes, m: Bytes)
    requires SingleCluster(v, disk, name) && Usable(m) && m != name
    ensures DataSector(v, disk, m) != Some(Home(v, disk, name))
  {
    var found := Lookup(Dir(v, disk), m);
    if found.Some? && EntryAt(Dir(v, disk), found.value).cluster != 0 {
      HomeIsSeparate(v, disk, name);
      LookupFound(Dir(v, disk), m, 0);
      OtherHome(v, disk, Slot(v, disk, name), found.value);
    }
  }

  /** The file is still in its place, longer. */
  predicate Longer(v: Volume, disk: Disk, disk': Disk, name: Bytes, data: Bytes)
    requires SingleCluster(v, disk, name)
  {
    && SingleCluster(v, disk', name) && Home(v, disk', name) == Home(v, disk, name)
    && OldSize(v, disk', name) == NextSize(OldSize(v, disk, name), data)
    && Home(v, disk, name) in disk && Home(v, disk, name) in disk'
    && disk'[Home(v, disk, name)] == Filled(disk[Home(v, disk, name)], OldSize(v, disk, name), data)
  }

  lemma GrewLengthens(v: Volume, disk: Disk, disk': Disk, name: Bytes, data: Bytes)
    requires SingleCluster(v, disk, name) && Slot(v, disk, name) < SLOTS && Home(v, disk, name) in disk
    requires Home(v, disk, name) != RootSector(v) && Home(v, disk, name) != v.fatStart && RootSector(v) != v.fatStart
    requires Grew(v, disk, disk', Slot(v, disk, name), Home(v, disk, name), data) && Inv(v, disk')
    ensures Longer(v, disk, disk', name, data)
  {
    GrewSameNames(v, disk, disk', Slot(v, disk, name), Home(v, disk, name), data);
    LookupAgrees(Dir(v, disk), Dir(v, disk'), name, 0);
  }

  lemma AppendLengthens(v: Volume, disk: Disk, filename: Bytes, data: Bytes)
    requires SingleCluster(v, disk, FatName(filename)) && |data| < TWO_32
    ensures Longer(v, disk, AppendFile(v, disk, filename, data).1, FatName(filename), data)
    ensures SameNames(Dir(v, disk), Dir(v, AppendFile(v, disk, filename, data).1))
  {
    SectorOf(v, v.rootCluster);
    TargetIsHome(v, disk, FatName(filename));
    AppendKeepsInv(v, disk, filename, data);
    AppendEffect(v, disk, filename, data);
    GrewLengthens(v, disk, AppendFile(v, disk, filename, data).1, FatName(filename), data);
  }

  /** What a full-sector read shows of such a file, whatever its size. */
  function Shown(s: Sector, size: u32): Bytes { if size < 512 then s[..size] else s }

  lemma SingleReads(v: Volume, disk: Disk, filename: Bytes)
    requires SingleCluster(v, disk, FatName(filename))
    ensures Home(v, disk, FatName(filename)) in disk
    ensures ReadFile(v, disk, filename, 513)
         == Content(Shown(disk[Home(v, disk, FatName(filename))], OldSize(v, disk, FatName(filename))))
  {
    HomeIsSeparate(v, disk, FatName(filename));
    var s := disk[Home(v, disk, FatName(filename))];
    assert s[..512] == s;
  }

  /** After an append to a file of one cluster, of any size, a read shows the sector with the new
      bytes behind the old size modulo 512, as far as the new size goes. */
  lemma AppendReads(v: Volume, disk: Disk, filename: Bytes, data: Bytes)
    requires SingleCluster(v, disk, FatName(filename)) && |data| < TWO_32
    ensures var s, n := disk[Home(v, disk, FatName(filename))], OldSize(v, disk, FatName(filename));
            && Home(v, disk, FatName(filename)) in disk
            && ReadFile(v, disk, filename, 513) == Content(Shown(s, n))
            && ReadFile(v, AppendFile(v, disk, filename, data).1, filename, 513)
               == Content(Shown(Filled(s, n, data), NextSize(n, data)))
  {
    SingleReads(v, disk, filename);
    AppendLengthens(v, disk, filename, data);
    SingleReads(v, AppendFile(v, disk, filename, data).1, filename);
  }

  // ---- Below one sector, appending concatenates ----

  lemma AddedBytes(s: Sector, size: u32, data: Bytes)
    requires size < 512 || (size == 512 && data == [])
    ensures NextSize(size, data) == |Take(s[..size] + data, 512)|
    ensures Filled(s, size, data)[..NextSize(size, data)] == Take(s[..size] + data, 512)
  {
    var added := Added(size, data);
    if size == 512 {
      assert added == [] && s[..size] == s && s + data == s;
      assert Splice(s, 0, added) == s;
    } else {
      assert Take(s[..size] + data, 512) == s[..size] + added;
    }
  }

  /** Appending to a file that is shorter than one sector leaves the first 512 bytes of the
      concatenation. */
  lemma AppendHolds(v: Volume, disk: Disk, filename: Bytes, content: Bytes, data: Bytes)
    requires Holds(v, disk, FatName(filename), content) && |data| < TWO_32
    requires |content| < 512 || data == []
    ensures Holds(v, AppendFile(v, disk, filename, data).1, FatName(filename), Take(content + data, 512))
  {
    AppendLengthens(v, disk, filename, data);
    AddedBytes(disk[Home(v, disk, FatName(filename))], |content|, data);
  }

  // ---- From one sector on, it overwrites ----

  lemma SplicedSame(s: Sector, at: nat, added: Bytes)
    requires at + |added| <= 512
    ensures Splice(s, at, added) == s <==> added == s[at..at + |added|]
  {
    var t := Splice(s, at, added);
    assert t[at..at + |added|] == added;
    if added == s[at..at + |added|] {
      forall k | 0 <= k < 512 ensures t[k] == s[k] {
        if at <= k < at + |added| { assert s[at..at + |added|][k - at] == s[k]; }
      }
    }
  }

  lemma PastSector(s: Sector, n: u32, data: Bytes)
    requires n >= 512 && n + |Added(n, data)| < TWO_32
    ensures Shown(s, n) == s && Shown(Filled(s, n, data), NextSize(n, data)) == Filled(s, n, data)
    ensures Filled(s, n, data) == Take(s + data, 512) <==> Added(n, data) == s[n % 512..n % 512 + |Added(n, data)|]
  {
    SplicedSame(s, n % 512, Added(n, data));
    assert NextSize(n, data) == n + |Added(n, data)|;
    if data == [] { assert s + data == s; } else { assert (s + data)[..512] == s; }
  }

  /** From 512 bytes on an append overwrites what it finds at the size modulo 512, so a read shows the
      concatenation, of which it could only ever show the first sector, exactly if the new bytes
      repeat the old ones. */
  lemma AppendPastSector(v: Volume, disk: Disk, filename: Bytes, data: Bytes)
    requires SingleCluster(v, disk, FatName(filename)) && |data| < TWO_32
    requires var n := OldSize(v, disk, FatName(filename)); n >= 512 && n + |Added(n, data)| < TWO_32
    ensures var s, n := disk[Home(v, disk, FatName(filename))], OldSize(v, disk, FatName(filename));
            var after := ReadFile(v, AppendFile(v, disk, filename, data).1, filename, 513);
            && Home(v, disk, FatName(filename)) in disk
            && ReadFile(v, disk, filename, 513) == Content(s) && after == Content(Filled(s, n, data))
            && (after == Content(Take(s + data, 512)) <==> Added(n, data) == s[n % 512..n % 512 + |Added(n, data)|])
  {
    AppendReads(v, disk, filename, data);
    PastSector(disk[Home(v, disk, FatName(filename))], OldSize(v, disk, FatName(filename)), data);
  }

  // ---- Entries without a cluster ----

  lemma RootWraps(dataStart: nat, root: nat, spc: nat)
    requires root >= 2 && 1 <= spc <= 0x80_0000 && dataStart + (root - 2) * spc < TWO_32
    ensures (dataStart - 2 * spc) % 0x1_0000_0000 == dataStart + (root - 2) * spc <==> root * spc == TWO_32
  {
    var r := dataStart + (root - 2) * spc;
    var p := root * spc;
    assert (root - 2) * spc == p - 2 * spc;
    assert r - p == dataStart - 2 * spc;
    Modulo.TimesSpreads(spc, root);
    assert spc * root == p;
    if p == TWO_32 {
      Modulo.Unique(dataStart - 2 * spc, 0x1_0000_0000, -1, r);
    }
    if (dataStart - 2 * spc) % 0x1_0000_0000 == r {
      var q := (dataStart - 2 * spc) / 0x1_0000_0000;
      assert dataStart - 2 * spc == 0x1_0000_0000 * q + r;
    }
  }

  /** The sector below the data area that cluster 0 stands for. */
  lemma ClusterZero(v: Volume)
    requires Layout(v)
    ensures ClusterToSector(v, 0) == (v.dataStart - 2 * SectorsPerCluster(v)) % 0x1_0000_0000
    ensures ClusterToSector(v, 0) == RootSector(v) <==> v.rootCluster * SectorsPerCluster(v) == TWO_32
  {
    var spc := SectorsPerCluster(v);
    assert 0xFFFF_FFFE * spc == 0x1_0000_0000 * spc - 2 * spc;
    Modulo.AddMultiple(v.dataStart - 2 * spc, 0x1_0000_0000, spc);
    SectorOf(v, v.rootCluster);
    RootWraps(v.dataStart, v.rootCluster, spc);
  }

  /** The entry of a present name, and what the guard of the walk sees of it. */
  predicate Unlinked(v: Volume, disk: Disk, name: Bytes) {
    && Inv(v, disk) && Usable(name) && Lookup(Dir(v, disk), name).Some?
    && var c := EntryAt(Dir(v, disk), Lookup(Dir(v, disk), name).value).cluster;
       c < 128 && !IsLink(FatAt(Fat(v, disk), c))
  }

  /** A file without a cluster, as one created empty elsewhere. */
  predicate Clusterless(v: Volume, disk: Disk, name: Bytes) {
    Unlinked(v, disk, name) && EntryAt(Dir(v, disk), Lookup(Dir(v, disk), name).value).cluster == 0
  }

  lemma ClusterlessTarget(v: Volume, disk: Disk, name: Bytes)
    requires Clusterless(v, disk, name)
    ensures Search(Dir(v, disk), name) == Lookup(Dir(v, disk), name)
    ensures Target(v, disk, name) == Some(ClusterToSector(v, 0))
  {
    SearchIsLookup(Dir(v, disk), name, 0);
    WalkStops(Fat(v, disk), 0, v.maxClusters);
  }

  /** An append to such a file writes the sector of cluster 0, below the data area, if that sector
      exists; the file still cannot be found afterwards. */
  lemma ClusterlessAppend(v: Volume, disk: Disk, filename: Bytes, data: Bytes)
    requires Clusterless(v, disk, FatName(filename)) && |data| < TWO_32
    requires v.rootCluster * SectorsPerCluster(v) != TWO_32
    ensures var i := Lookup(Dir(v, disk), FatName(filename)).value;
            var at, r := ClusterToSector(v, 0), AppendFile(v, disk, filename, data);
            && at == (v.dataStart - 2 * SectorsPerCluster(v)) % 0x1_0000_0000
            && (if at in disk then r.0 == Appended && Grew(v, disk, r.1, i, at, data) else r.1 == disk)
            && ReadFile(v, disk, filename, 513) == NotFound && ReadFile(v, r.1, filename, 513) == NotFound
  {
    ClusterZero(v);
    ClusterlessTarget(v, disk, FatName(filename));
    AppendEffect(v, disk, filename, data);
    var i, at := Lookup(Dir(v, disk), FatName(filename)).value, ClusterToSector(v, 0);
    if at in disk {
      var disk' := AppendFile(v, disk, filename, data).1;
      GrewSameNames(v, disk, disk', i, at, data);
      LookupAgrees(Dir(v, disk), Dir(v, disk'), FatName(filename), 0);
    }
  }

  /** With two sectors per cluster unit between FAT and data, as on a volume with two one-sector FATs
      and one sector per cluster, that sector is the FAT itself. */
  lemma ClusterlessHitsFat(v: Volume, disk: Disk, filename: Bytes, data: Bytes)
    requires Clusterless(v, disk, FatName(filename)) && |data| < TWO_32
    requires v.rootCluster * SectorsPerCluster(v) != TWO_32
    ensures var disk' := AppendFile(v, disk, filename, data).1;
            var size := EntryAt(Dir(v, disk), Lookup(Dir(v, disk), FatName(filename)).value).size;
            && v.fatStart in disk'
            && disk'[v.fatStart] == if (v.dataStart - 2 * SectorsPerCluster(v)) % 0x1_0000_0000 == v.fatStart
                                    then Filled(Fat(v, disk), size, data) else Fat(v, disk)
  {
    ClusterlessAppend(v, disk, filename, data);
    SectorOf(v, v.rootCluster);
  }

  lemma RootTaken(v: Volume, disk: Disk)
    requires v.fatStart in disk && v.rootCluster < 128 && FatAt(disk[v.fatStart], v.rootCluster) == 0
    ensures !Inv(v, disk)
  {
  }

  lemma ZeroedSector(s: Sector, data: Bytes, c: nat)
    requires c < 128 && |data| == 512 && forall k :: 0 <= k < 512 ==> data[k] == 0
    ensures FatAt(Filled(s, 0, data), c) == 0
  {
    assert Filled(s, 0, data) == data;
  }

  /** Such an append can free every cluster of the volume: 512 zero bytes do. */
  lemma ClusterlessWipesFat(v: Volume, disk: Disk, filename: Bytes, data: Bytes)
    requires Clusterless(v, disk, FatName(filename)) && v.rootCluster < 128
    requires EntryAt(Dir(v, disk), Lookup(Dir(v, disk), FatName(filename)).value).size == 0
    requires v.rootCluster * SectorsPerCluster(v) != TWO_32 && v.dataStart == v.fatStart + 2 * SectorsPerCluster(v)
    requires |data| == 512 && forall k :: 0 <= k < 512 ==> data[k] == 0
    ensures !Inv(v, AppendFile(v, disk, filename, data).1)
  {
    ClusterlessHitsFat(v, disk, filename, data);
    Modulo.Unique(v.fatStart, 0x1_0000_0000, 0, v.fatStart);
    ZeroedSector(Fat(v, disk), data, v.rootCluster);
    RootTaken(v, AppendFile(v, disk, filename, data).1);
  }

  /** When appending to a present file is concatenation: exactly when the file owns a cluster. This is
      for every file below one sector whose first cluster is in the FAT sector and not linked on. */
  lemma AppendConcatenates(v: Volume, disk: Disk, filename: Bytes, data: Bytes)
    requires Unlinked(v, disk, FatName(filename)) && |data| < TWO_32
    requires EntryAt(Dir(v, disk), Lookup(Dir(v, disk), FatName(filename)).value).size < 512
    requires v.rootCluster * SectorsPerCluster(v) != TWO_32
    ensures var e := EntryAt(Dir(v, disk), Lookup(Dir(v, disk), FatName(filename)).value);
            var at := ClusterToSector(v, e.cluster);
            var content: Bytes := if at in disk then disk[at][..e.size] else [];
            && (ReadFile(v, AppendFile(v, disk, filename, data).1, filename, 513) == Content(Take(content + data, 512))
                <==> e.cluster != 0)
            && (ReadFile(v, disk, filename, 513) == Content(content) <==> e.cluster != 0)
  {
    var name := FatName(filename);
    var e := EntryAt(Dir(v, disk), Lookup(Dir(v, disk), name).value);
    if e.cluster == 0 {
      ClusterlessAppend(v, disk, filename, data);
    } else {
      LookupFound(Dir(v, disk), name, 0);
      AppendReads(v, disk, filename, data);
      AddedBytes(disk[Home(v, disk, name)], e.size, data);
    }
  }

  lemma EntryRewritten(dir: Sector, name: Bytes, c: u32, data: Bytes)
    requires |name| == 11 && data == EntryBytes(name, c, 0)[..28] && EntryAt(dir, 0).size == 0
    ensures EntryAt(Splice(dir, 0, data), 0).size == 0
    ensures SetSize(Splice(dir, 0, data), 0, 28) == SetEntry(dir, 0, name, c, 28)
  {
    var t := Splice(dir, 0, data);
    assert t[28] == dir[28] && t[29] == dir[29] && t[30] == dir[30] && t[31] == dir[31];
    assert EntryBytes(name, c, 28) == data + U32Bytes(28);
  }

  lemma DirectoryGrows(v: Volume, disk: Disk, name: Bytes, data: Bytes)
    requires Mounted(v, disk) && |name| == 11 && data == EntryBytes(name, v.rootCluster, 0)[..28]
    requires EntryAt(Dir(v, disk), 0).size == 0
    ensures Grow(v, disk, 0, RootSector(v), 0, data)
         == disk[RootSector(v) := SetEntry(Dir(v, disk), 0, name, v.rootCluster, 28)]
  {
    EntryRewritten(Dir(v, disk), name, v.rootCluster, data);
  }

  /** Why that geometry is left out: where cluster 0 stands for the directory, the bytes appended can
      themselves give the entry a cluster, here the directory's, and with it the concatenation. */
  lemma ClusterlessDirectory(v: Volume, disk: Disk, filename: Bytes, data: Bytes)
    requires Clusterless(v, disk, FatName(filename)) && v.rootCluster * SectorsPerCluster(v) == TWO_32
    requires Lookup(Dir(v, disk), FatName(filename)) == Some(0) && EntryAt(Dir(v, disk), 0).size == 0
    requires data == EntryBytes(FatName(filename), v.rootCluster, 0)[..28]
    ensures ReadFile(v, disk, filename, 513) == NotFound
    ensures ReadFile(v, AppendFile(v, disk, filename, data).1, filename, 513) == Content(Take([] + data, 512))
  {
    var name, dir := FatName(filename), Dir(v, disk);
    ClusterZero(v);
    ClusterlessTarget(v, disk, name);
    WalkStops(Fat(v, disk), 0, v.maxClusters);
    DirectoryGrows(v, disk, name, data);
    EntrySet(dir, 0, name, v.rootCluster, 28, 0);
    assert SetEntry(dir, 0, name, v.rootCluster, 28)[..28] == data == [] + data by {
      assert EntryBytes(name, v.rootCluster, 28)[..28] == data;
    }
  }

  // ---- Runs of appends ----

  /** A run of appends to one file. */
  function AppendAll(v: Volume, disk: Disk, filename: Bytes, chunks: seq<Bytes>): Disk
    requires forall i :: 0 <= i < |chunks| ==> |chunks[i]| < TWO_32
    decreases |chunks|
  {
    if chunks == [] then disk
    else AppendAll(v, AppendFile(v, disk, filename, chunks[0]).1, filename, chunks[1..])
  }

  function Concat(chunks: seq<Bytes>): Bytes {
    if chunks == [] then [] else chunks[0] + Concat(chunks[1..])
  }

  /** Appends that fit in one sector read back as their concatenation, and touch no other file. */
  lemma {:induction false} AppendAllHolds(v: Volume, disk: Disk, filename: Bytes, content: Bytes, chunks: seq<Bytes>)
    requires Holds(v, disk, FatName(filename), content) && |content + Concat(chunks)| <= 512
    requires forall i :: 0 <= i < |chunks| ==> |chunks[i]| < TWO_32
    ensures Holds(v, AppendAll(v, disk, filename, chunks), FatName(filename), content + Concat(chunks))
    ensures forall other: Bytes, maxLen: u32 :: maxLen > 0 && Usable(FatName(other)) && FatName(other) != FatName(filename)
              ==> ReadFile(v, AppendAll(v, disk, filename, chunks), other, maxLen) == ReadFile(v, disk, other, maxLen)
    decreases |chunks|
  {
    if chunks == [] {
      assert content + Concat(chunks) == content;
    } else {
      var disk1 := AppendFile(v, disk, filename, chunks[0]).1;
      var grown := content + chunks[0];
      assert grown + Concat(chunks[1..]) == content + Concat(chunks);
      AppendHolds(v, disk, filename, content, chunks[0]);
      assert Take(grown, 512) == grown;
      AppendAllHolds(v, disk1, filename, grown, chunks[1..]);
      forall other: Bytes, maxLen: u32 | maxLen > 0 && Usable(FatName(other)) && FatName(other) != FatName(filename)
        ensures ReadFile(v, AppendAll(v, disk, filename, chunks), other, maxLen) == ReadFile(v, disk, other, maxLen)
      {
        TargetIsHome(v, disk, FatName(filename));
        HomeIsOwn(v, disk, FatName(filename), FatName(other));
        AppendSparesOthers(v, disk, filename, chunks[0], other, maxLen);
      }
    }
  }

  /** The same from nothing: the first append creates the file. */
  lemma AppendAllCreates(v: Volume, disk: Disk, filename: Bytes, chunks: seq<Bytes>)
    requires Inv(v, disk) && Usable(FatName(filename)) && Lookup(Dir(v, disk), FatName(filename)).None?
    requires FreeCluster(Fat(v, disk)).Some? && FreeSlot(Dir(v, disk)).Some?
    requires chunks != [] && |Concat(chunks)| <= 512
    requires forall i :: 0 <= i < |chunks| ==> |chunks[i]| < TWO_32
    ensures Holds(v, AppendAll(v, disk, filename, chunks), FatName(filename), Concat(chunks))
    ensures forall other: Bytes, maxLen: u32 :: maxLen > 0 && Usable(FatName(other)) && FatName(other) != FatName(filename)
              ==> ReadFile(v, AppendAll(v, disk, filename, chunks), other, maxLen) == ReadFile(v, disk, other, maxLen)
  {
    SearchIsLookup(Dir(v, disk), FatName(filename), 0);
    var disk1 := WriteFile(v, disk, filename, chunks[0]);
    assert AppendFile(v, disk, filename, chunks[0]) == (Created, disk1);
    WriteHolds(v, disk, filename, chunks[0]);
    AppendAllHolds(v, disk1, filename, chunks[0], chunks[1..]);
    forall other: Bytes, maxLen: u32 | maxLen > 0 && Usable(FatName(other)) && FatName(other) != FatName(filename)
      ensures ReadFile(v, AppendAll(v, disk, filename, chunks), other, maxLen) == ReadFile(v, disk, other, maxLen)
    {
      WriteSparesOthers(v, disk, filename, chunks[0], other, maxLen);
    }
  }
}
