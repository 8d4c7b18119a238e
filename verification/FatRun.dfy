/** Whole runs of the file system (modules/fs/fat32.c): from a formatted volume on, every sequence of
    writes and appends, and every read after it, is that of a plain map from names to files. */
module FatRun {
  import opened Machine
  import opened FatNames
  import opened FatDisk
  import opened FatFiles
  import opened FatAppend

  // ---- The plain map ----

  /** A size and the one sector a file has. */
  datatype File = File(size: u32, sector: Sector)

  /** The files, and how many of the sixteen directory slots are taken. */
  datatype Catalog = Catalog(files: map<Bytes, File>, slots: nat)

  datatype Op = WriteOp(filename: Bytes, data: Bytes) | AppendOp(filename: Bytes, data: Bytes)

  function Fresh(data: Bytes): File
    requires |data| < TWO_32
  {
    File(|data|, FirstSector(data))
  }

  function Extended(f: File, data: Bytes): File { File(NextSize(f.size, data), Filled(f.sector, f.size, data)) }

  /** A new entry takes a slot; under a name that exists nobody will see it. */
  function Enter(c: Catalog, name: Bytes, data: Bytes): Catalog
    requires |data| < TWO_32
  {
    if c.slots >= SLOTS then c
    else Catalog(if name in c.files then c.files else c.files[name := Fresh(data)], c.slots + 1)
  }

  function Do(c: Catalog, op: Op): Catalog
    requires |op.data| < TWO_32
  {
    var name := FatName(op.filename);
    if op.AppendOp? && name in c.files then c.(files := c.files[name := Extended(c.files[name], op.data)])
    else Enter(c, name, op.data)
  }

  /** What a read of the name answers. */
  function ReadEntry(c: Catalog, name: Bytes, maxLen: u32): ReadResult
    requires maxLen > 0
  {
    if name !in c.files then NotFound else
    var n := if c.files[name].size < maxLen - 1 then c.files[name].size else maxLen - 1;
    if n > 512 then Overrun(c.files[name].sector, n) else Content(c.files[name].sector[..n])
  }

  // ---- The same operations on the disk ----

  function Perform(v: Volume, disk: Disk, op: Op): Disk
    requires |op.data| < TWO_32
  {
    match op
    case WriteOp(filename, data) => WriteFile(v, disk, filename, data)
    case AppendOp(filename, data) => AppendFile(v, disk, filename, data).1
  }

  predicate Proper(op: Op) { Usable(FatName(op.filename)) && |op.data| < TWO_32 }

  predicate AllProper(ops: seq<Op>) { forall i :: 0 <= i < |ops| ==> Proper(ops[i]) }

  function PerformAll(v: Volume, disk: Disk, ops: seq<Op>): Disk
    requires AllProper(ops)
    decreases |ops|
  {
    if ops == [] then disk else PerformAll(v, Perform(v, disk, ops[0]), ops[1..])
  }

  function DoAll(c: Catalog, ops: seq<Op>): Catalog
    requires AllProper(ops)
    decreases |ops|
  {
    if ops == [] then c else DoAll(Do(c, ops[0]), ops[1..])
  }

  // ---- The disk represents the map ----

  /** The name's entry, cluster and sector hold the file. */
  predicate Stores(v: Volume, disk: Disk, name: Bytes, f: File) {
    && SingleCluster(v, disk, name) && Home(v, disk, name) in disk
    && disk[Home(v, disk, name)] == f.sector && OldSize(v, disk, name) == f.size
  }

  /** The first clusters are taken in order; from this one on all but the directory's are free. */
  function FirstUntouched(root: u32, slots: nat): nat { if root <= 2 + slots then 3 + slots else 2 + slots }

  predicate SlotsPacked(dir: Sector, slots: nat) {
    && slots <= SLOTS
    && (forall i :: 0 <= i < slots ==> !SlotFree(dir, i))
    && (forall i :: slots <= i < SLOTS ==> NameAt(dir, i)[0] == 0)
  }

  predicate ClustersPacked(fat: Sector, root: u32, slots: nat) {
    forall c :: FirstUntouched(root, slots) <= c < 128 && c != root ==> FatAt(fat, c) == 0
  }

  /** The slots fill up from the front; as long as one is left there is a free cluster too. */
  predicate Packed(v: Volume, disk: Disk, slots: nat)
    requires Mounted(v, disk)
  {
    SlotsPacked(Dir(v, disk), slots) && (slots < SLOTS ==> ClustersPacked(Fat(v, disk), v.rootCluster, slots))
  }

  ghost predicate Represents(v: Volume, disk: Disk, c: Catalog) {
    && Inv(v, disk) && Packed(v, disk, c.slots)
    && (forall name :: name in c.files ==> Usable(name) && Stores(v, disk, name, c.files[name]))
    && forall name :: Usable(name) && name !in c.files ==> Lookup(Dir(v, disk), name).None?
  }

  const EMPTY: Catalog := Catalog(map[], 0)

  lemma FormattedRepresents(v: Volume, disk: Disk)
    requires Formatted(v, disk)
    ensures Represents(v, disk, EMPTY)
  {
    forall i | 0 <= i < SLOTS ensures NameAt(Dir(v, disk), i)[0] == 0 {
      assert NameAt(Dir(v, disk), i)[0] == Dir(v, disk)[32 * i];
    }
    FormattedIsSound(v, disk, []);
    forall name | Usable(name) ensures Lookup(Dir(v, disk), name).None? { FormattedIsSound(v, disk, name); }
  }

  /** A file stays stored as long as its entry, its link and its sector stay. */
  lemma StoresStay(v: Volume, disk: Disk, disk': Disk, name: Bytes, f: File)
    requires Stores(v, disk, name, f) && Inv(v, disk')
    requires Lookup(Dir(v, disk'), name) == Some(Slot(v, disk, name)) && Slot(v, disk, name) < SLOTS
    requires EntryAt(Dir(v, disk'), Slot(v, disk, name)) == EntryAt(Dir(v, disk), Slot(v, disk, name))
    requires var c := EntryAt(Dir(v, disk), Slot(v, disk, name)).cluster; FatAt(Fat(v, disk'), c) == FatAt(Fat(v, disk), c)
    requires Home(v, disk, name) in disk' && disk'[Home(v, disk, name)] == disk[Home(v, disk, name)]
    ensures Stores(v, disk', name, f)
  {
  }

  // ---- Writing ----

  /** The FAT after a write. */
  lemma WriteMarks(v: Volume, disk: Disk, filename: Bytes, data: Bytes)
    requires Inv(v, disk) && |data| < TWO_32 && FreeCluster(Fat(v, disk)).Some?
    ensures Mounted(v, WriteFile(v, disk, filename, data))
    ensures Fat(v, WriteFile(v, disk, filename, data)) == MarkUsed(Fat(v, disk), FreeCluster(Fat(v, disk)).value)
  {
    WriteTouches(v, disk, filename, data);
    FillShape(v, disk, data);
  }

  lemma WrittenElsewhere(v: Volume, disk: Disk, filename: Bytes, data: Bytes, m: Bytes, f: File)
    requires Inv(v, disk) && |data| < TWO_32 && FreeCluster(Fat(v, disk)).Some?
    requires Stores(v, disk, m, f) && Inv(v, WriteFile(v, disk, filename, data))
    requires var disk' := WriteFile(v, disk, filename, data);
      && Lookup(Dir(v, disk'), m) == Some(Slot(v, disk, m)) && Slot(v, disk, m) < SLOTS
      && EntryAt(Dir(v, disk'), Slot(v, disk, m)) == EntryAt(Dir(v, disk), Slot(v, disk, m))
    ensures Stores(v, WriteFile(v, disk, filename, data), m, f)
  {
    var disk' := WriteFile(v, disk, filename, data);
    HomeIsSeparate(v, disk, m);
    WriteTouches(v, disk, filename, data);
    SectorUntouched(v, disk, disk', data, Slot(v, disk, m));
    var c := EntryAt(Dir(v, disk), Slot(v, disk, m)).cluster;
    FreshCluster(v, disk, Slot(v, disk, m));
    WriteMarks(v, disk, filename, data);
    MarkedFat(Fat(v, disk), FreeCluster(Fat(v, disk)).value, c);
    StoresStay(v, disk, disk', m, f);
  }

  /** A write leaves every stored file under another name stored. */
  lemma WriteKeepsStored(v: Volume, disk: Disk, filename: Bytes, data: Bytes, m: Bytes, f: File)
    requires Inv(v, disk) && |data| < TWO_32 && Usable(FatName(filename)) && FreeCluster(Fat(v, disk)).Some?
    requires Stores(v, disk, m, f) && m != FatName(filename)
    ensures Stores(v, WriteFile(v, disk, filename, data), m, f)
  {
    WriteKeepsInv(v, disk, filename, data);
    WriteFindsOthers(v, disk, filename, data, m);
    WrittenElsewhere(v, disk, filename, data, m, f);
  }

  /** An older entry stands before the new one and keeps the name. */
  lemma ShadowedStays(v: Volume, disk: Disk, filename: Bytes, data: Bytes, f: File)
    requires Inv(v, disk) && |data| < TWO_32 && FreeCluster(Fat(v, disk)).Some?
    requires Stores(v, disk, FatName(filename), f)
    requires FreeSlot(Dir(v, disk)).Some? ==> Slot(v, disk, FatName(filename)) < FreeSlot(Dir(v, disk)).value
    ensures Stores(v, WriteFile(v, disk, filename, data), FatName(filename), f)
  {
    var name := FatName(filename);
    HomeIsSeparate(v, disk, name);
    WriteKeepsInv(v, disk, filename, data);
    WriteTouches(v, disk, filename, data);
    if FreeSlot(Dir(v, disk)).Some? {
      var slot := FreeSlot(Dir(v, disk)).value;
      SetEntryRenames(Dir(v, disk), slot, name, FreeCluster(Fat(v, disk)).value, |data|);
      LookupOwn(Dir(v, disk), Dir(v, WriteFile(v, disk, filename, data)), slot, name);
    }
    WrittenElsewhere(v, disk, filename, data, name, f);
  }

  /** A new name stores its data, of whatever length. */
  lemma WriteStores(v: Volume, disk: Disk, filename: Bytes, data: Bytes)
    requires Inv(v, disk) && |data| < TWO_32 && Usable(FatName(filename))
    requires Lookup(Dir(v, disk), FatName(filename)).None?
    requires FreeCluster(Fat(v, disk)).Some? && FreeSlot(Dir(v, disk)).Some?
    ensures Stores(v, WriteFile(v, disk, filename, data), FatName(filename), Fresh(data))
  {
    var name := FatName(filename);
    var c := FreeCluster(Fat(v, disk)).value;
    var slot := FreeSlot(Dir(v, disk)).value;
    WriteKeepsInv(v, disk, filename, data);
    WriteShape(v, disk, filename, data);
    FillShape(v, disk, data);
    SetEntryRenames(Dir(v, disk), slot, name, c, |data|);
    LookupOwn(Dir(v, disk), Dir(v, WriteFile(v, disk, filename, data)), slot, name);
    MarkedFat(Fat(v, disk), c, c);
  }

  lemma {:induction false} FreeByThen(fat: Sector, i: nat, c: nat)
    requires i <= c < 128 && FatAt(fat, c) == 0
    ensures FreeFrom(fat, i).Some? && FreeFrom(fat, i).value <= c
    decreases c - i
  {
    if i < c { FreeByThen(fat, i + 1, c); }
  }

  lemma {:induction false} SlotByThen(dir: Sector, i: nat, slots: nat)
    requires i <= slots < SLOTS && NameAt(dir, slots)[0] == 0 && forall k :: i <= k < slots ==> !SlotFree(dir, k)
    ensures FreeSlotFrom(dir, i) == Some(slots)
    decreases slots - i
  {
    if i < slots { SlotByThen(dir, i + 1, slots); }
  }

  /** While a slot is left, it is the next one, and a cluster is free. */
  lemma RoomLeft(v: Volume, disk: Disk, slots: nat)
    requires Mounted(v, disk) && v.rootCluster >= 2 && Packed(v, disk, slots) && slots < SLOTS
    ensures FreeSlot(Dir(v, disk)) == Some(slots)
    ensures FreeCluster(Fat(v, disk)).Some?
    ensures FreeCluster(Fat(v, disk)).value < FirstUntouched(v.rootCluster, slots + 1)
    ensures FirstUntouched(v.rootCluster, slots + 1) >= FirstUntouched(v.rootCluster, slots)
  {
    SlotByThen(Dir(v, disk), 0, slots);
    FreeByThen(Fat(v, disk), 2, FirstUntouched(v.rootCluster, slots));
  }

  lemma SlotPacks(dir: Sector, slots: nat, name: Bytes, c: u32, size: u32)
    requires SlotsPacked(dir, slots) && slots < SLOTS && Usable(name)
    ensures SlotsPacked(SetEntry(dir, slots, name, c, size), slots + 1)
  {
    SetEntryRenames(dir, slots, name, c, size);
    var dir' := SetEntry(dir, slots, name, c, size);
    forall i | 0 <= i < slots + 1 ensures !SlotFree(dir', i) {
      if i < slots { assert !SlotFree(dir, i); }
    }
  }

  lemma ClusterPacks(fat: Sector, root: u32, slots: nat, c: nat)
    requires ClustersPacked(fat, root, slots) && c < FirstUntouched(root, slots + 1) && c < 128
    requires FirstUntouched(root, slots + 1) >= FirstUntouched(root, slots)
    ensures ClustersPacked(MarkUsed(fat, c), root, slots + 1)
  {
    forall k | FirstUntouched(root, slots + 1) <= k < 128 && k != root ensures FatAt(MarkUsed(fat, c), k) == 0 {
      MarkedFat(fat, c, k);
    }
  }

  lemma WritePacks(v: Volume, disk: Disk, filename: Bytes, data: Bytes, slots: nat)
    requires Inv(v, disk) && |data| < TWO_32 && Usable(FatName(filename)) && Packed(v, disk, slots) && slots < SLOTS
    ensures Inv(v, WriteFile(v, disk, filename, data)) && Packed(v, WriteFile(v, disk, filename, data), slots + 1)
  {
    var disk' := WriteFile(v, disk, filename, data);
    RoomLeft(v, disk, slots);
    var c := FreeCluster(Fat(v, disk)).value;
    WriteKeepsInv(v, disk, filename, data);
    WriteTouches(v, disk, filename, data);
    SlotPacks(Dir(v, disk), slots, FatName(filename), c, |data|);
    WriteMarks(v, disk, filename, data);
    ClusterPacks(Fat(v, disk), v.rootCluster, slots, c);
  }

  /** With the directory full a write costs at most a cluster. */
  lemma WriteInVain(v: Volume, disk: Disk, filename: Bytes, data: Bytes, c: Catalog)
    requires Represents(v, disk, c) && |data| < TWO_32 && Usable(FatName(filename)) && c.slots == SLOTS
    ensures Represents(v, WriteFile(v, disk, filename, data), c)
  {
    var disk' := WriteFile(v, disk, filename, data);
    WriteKeepsInv(v, disk, filename, data);
    assert FreeSlot(Dir(v, disk)).None?;
    if FreeCluster(Fat(v, disk)).None? {
      WriteShape(v, disk, filename, data);
    } else {
      WriteTouches(v, disk, filename, data);
      forall m | m in c.files ensures Stores(v, disk', m, c.files[m]) {
        if m == FatName(filename) { ShadowedStays(v, disk, filename, data, c.files[m]); }
        else { WriteKeepsStored(v, disk, filename, data, m, c.files[m]); }
      }
    }
  }

  lemma TakenSlot(v: Volume, disk: Disk, name: Bytes, slots: nat)
    requires SingleCluster(v, disk, name) && Packed(v, disk, slots)
    ensures Slot(v, disk, name) < slots
  {
    LookupFound(Dir(v, disk), name, 0);
  }

  lemma WriteRepresents(v: Volume, disk: Disk, filename: Bytes, data: Bytes, c: Catalog)
    requires Represents(v, disk, c) && |data| < TWO_32 && Usable(FatName(filename))
    ensures Represents(v, WriteFile(v, disk, filename, data), Enter(c, FatName(filename), data))
  {
    if c.slots >= SLOTS {
      WriteInVain(v, disk, filename, data, c);
    } else {
      var disk', c', name := WriteFile(v, disk, filename, data), Enter(c, FatName(filename), data), FatName(filename);
      RoomLeft(v, disk, c.slots);
      WritePacks(v, disk, filename, data, c.slots);
      forall m | m in c'.files ensures Usable(m) && Stores(v, disk', m, c'.files[m]) {
        if m != name {
          WriteKeepsStored(v, disk, filename, data, m, c.files[m]);
        } else if name in c.files {
          TakenSlot(v, disk, name, c.slots);
          ShadowedStays(v, disk, filename, data, c.files[m]);
        } else {
          WriteStores(v, disk, filename, data);
        }
      }
      forall m | Usable(m) && m !in c'.files ensures Lookup(Dir(v, disk'), m).None? {
        WriteFindsOthers(v, disk, filename, data, m);
      }
    }
  }

  // ---- Appending ----

  lemma SamePacked(dir: Sector, dir': Sector, slots: nat)
    requires SlotsPacked(dir, slots) && SameNames(dir, dir')
    ensures SlotsPacked(dir', slots)
  {
    forall i | 0 <= i < slots ensures !SlotFree(dir', i) { assert !SlotFree(dir, i); }
  }

  /** What a single-cluster append leaves of the whole volume. */
  lemma AppendInv(v: Volume, disk: Disk, filename: Bytes, data: Bytes, slots: nat)
    requires SingleCluster(v, disk, FatName(filename)) && |data| < TWO_32 && Packed(v, disk, slots)
    ensures var disk' := AppendFile(v, disk, filename, data).1;
            Inv(v, disk') && SameNames(Dir(v, disk), Dir(v, disk')) && Packed(v, disk', slots)
  {
    TargetIsHome(v, disk, FatName(filename));
    AppendKeepsInv(v, disk, filename, data);
    AppendEffect(v, disk, filename, data);
    AppendLengthens(v, disk, filename, data);
    SectorOf(v, v.rootCluster);
    SamePacked(Dir(v, disk), Dir(v, AppendFile(v, disk, filename, data).1), slots);
  }

  lemma AppendKeepsStored(v: Volume, disk: Disk, disk': Disk, name: Bytes, data: Bytes, m: Bytes, f: File)
    requires SingleCluster(v, disk, name) && Stores(v, disk, m, f) && m != name && Inv(v, disk')
    requires Slot(v, disk, name) < SLOTS && Home(v, disk, name) in disk
    requires Grew(v, disk, disk', Slot(v, disk, name), Home(v, disk, name), data)
    requires Fat(v, disk') == Fat(v, disk)
    ensures Stores(v, disk', m, f)
  {
    GrewSameNames(v, disk, disk', Slot(v, disk, name), Home(v, disk, name), data);
    LookupAgrees(Dir(v, disk), Dir(v, disk'), m, 0);
    HomeIsSeparate(v, disk, name);
    HomeIsSeparate(v, disk, m);
    OtherHome(v, disk, Slot(v, disk, name), Slot(v, disk, m));
    StoresStay(v, disk, disk', m, f);
  }

  lemma AppendStores(v: Volume, disk: Disk, filename: Bytes, data: Bytes, f: File, m: Bytes, g: File)
    requires |data| < TWO_32 && Stores(v, disk, FatName(filename), f) && Stores(v, disk, m, g)
    ensures Stores(v, AppendFile(v, disk, filename, data).1, m, if m == FatName(filename) then Extended(f, data) else g)
  {
    TargetIsHome(v, disk, FatName(filename));
    AppendKeepsInv(v, disk, filename, data);
    AppendEffect(v, disk, filename, data);
    AppendLengthens(v, disk, filename, data);
    SectorOf(v, v.rootCluster);
    if m != FatName(filename) {
      HomeIsSeparate(v, disk, FatName(filename));
      AppendKeepsStored(v, disk, AppendFile(v, disk, filename, data).1, FatName(filename), data, m, g);
    }
  }

  lemma AppendStoresAll(v: Volume, disk: Disk, filename: Bytes, data: Bytes, c: Catalog)
    requires |data| < TWO_32 && FatName(filename) in c.files
    requires forall m :: m in c.files ==> Stores(v, disk, m, c.files[m])
    ensures forall m :: m in c.files ==>
              Stores(v, AppendFile(v, disk, filename, data).1, m,
                     if m == FatName(filename) then Extended(c.files[FatName(filename)], data) else c.files[m])
  {
    forall m | m in c.files
      ensures Stores(v, AppendFile(v, disk, filename, data).1, m,
                     if m == FatName(filename) then Extended(c.files[FatName(filename)], data) else c.files[m])
    {
      AppendStores(v, disk, filename, data, c.files[FatName(filename)], m, c.files[m]);
    }
  }

  lemma SameAbsent(dir: Sector, dir': Sector, names: set<Bytes>)
    requires SameNames(dir, dir') && forall m :: Usable(m) && m !in names ==> Lookup(dir, m).None?
    ensures forall m :: Usable(m) && m !in names ==> Lookup(dir', m).None?
  {
    forall m | Usable(m) && m !in names ensures Lookup(dir', m).None? { LookupAgrees(dir, dir', m, 0); }
  }

  lemma Updated(v: Volume, disk: Disk, c: Catalog, name: Bytes, f: File)
    requires Inv(v, disk) && Packed(v, disk, c.slots) && name in c.files
    requires forall m :: m in c.files ==> Usable(m) && Stores(v, disk, m, if m == name then f else c.files[m])
    requires forall m :: Usable(m) && m !in c.files ==> Lookup(Dir(v, disk), m).None?
    ensures Represents(v, disk, c.(files := c.files[name := f]))
  {
  }

  lemma AppendRepresents(v: Volume, disk: Disk, filename: Bytes, data: Bytes, c: Catalog)
    requires Represents(v, disk, c) && |data| < TWO_32 && FatName(filename) in c.files
    ensures Represents(v, AppendFile(v, disk, filename, data).1,
                       c.(files := c.files[FatName(filename) := Extended(c.files[FatName(filename)], data)]))
  {
    var name := FatName(filename);
    var disk' := AppendFile(v, disk, filename, data).1;
    AppendInv(v, disk, filename, data, c.slots);
    AppendStoresAll(v, disk, filename, data, c);
    SameAbsent(Dir(v, disk), Dir(v, disk'), c.files.Keys);
    Updated(v, disk', c, name, Extended(c.files[name], data));
  }

  // ---- Runs ----

  /** Every operation on the disk is that operation on the map. */
  lemma StepRepresents(v: Volume, disk: Disk, op: Op, c: Catalog)
    requires Represents(v, disk, c) && Proper(op)
    ensures Represents(v, Perform(v, disk, op), Do(c, op))
  {
    var name := FatName(op.filename);
    if op.AppendOp? && name in c.files {
      AppendRepresents(v, disk, op.filename, op.data, c);
    } else {
      if op.AppendOp? { SearchIsLookup(Dir(v, disk), name, 0); }
      WriteRepresents(v, disk, op.filename, op.data, c);
    }
  }

  lemma {:induction false} RunRepresents(v: Volume, disk: Disk, ops: seq<Op>, c: Catalog)
    requires Represents(v, disk, c) && AllProper(ops)
    ensures Represents(v, PerformAll(v, disk, ops), DoAll(c, ops))
    decreases |ops|
  {
    if ops != [] {
      StepRepresents(v, disk, ops[0], c);
      RunRepresents(v, Perform(v, disk, ops[0]), ops[1..], Do(c, ops[0]));
    }
  }

  lemma ReadRepresents(v: Volume, disk: Disk, c: Catalog, filename: Bytes, maxLen: u32)
    requires Represents(v, disk, c) && Usable(FatName(filename)) && maxLen > 0
    ensures ReadFile(v, disk, filename, maxLen) == ReadEntry(c, FatName(filename), maxLen)
  {
  }

  /** From a formatted volume, after every run of writes and appends of any length under any names,
      every read answers what the plain map answers. */
  lemma EveryRead(v: Volume, disk: Disk, ops: seq<Op>, filename: Bytes, maxLen: u32)
    requires Formatted(v, disk) && AllProper(ops) && Usable(FatName(filename)) && maxLen > 0
    ensures ReadFile(v, PerformAll(v, disk, ops), filename, maxLen)
         == ReadEntry(DoAll(EMPTY, ops), FatName(filename), maxLen)
  {
    FormattedRepresents(v, disk);
    RunRepresents(v, disk, ops, EMPTY);
    ReadRepresents(v, PerformAll(v, disk, ops), DoAll(EMPTY, ops), filename, maxLen);
  }

  // ---- The files as texts ----

  /** The bytes of a file of at most one sector. */
  function Text(f: File): Bytes
    requires f.size <= 512
  {
    f.sector[..f.size]
  }

  lemma FreshText(data: Bytes)
    requires |data| <= 512
    ensures Fresh(data).size <= 512 && Text(Fresh(data)) == data
  {
  }

  lemma ExtendedText(f: File, data: Bytes)
    requires f.size < 512 || (f.size == 512 && data == [])
    ensures Extended(f, data).size <= 512 && Text(Extended(f, data)) == Take(Text(f) + data, 512)
  {
    AddedBytes(f.sector, f.size, data);
  }

  lemma ReadsText(c: Catalog, name: Bytes, maxLen: u32)
    requires name in c.files && c.files[name].size <= 512 && maxLen > 0
    ensures ReadEntry(c, name, maxLen) == Content(Visible(Text(c.files[name]), maxLen))
  {
    var f := c.files[name];
    var n := if f.size < maxLen - 1 then f.size else maxLen - 1;
    assert f.sector[..n] == Text(f)[..n];
  }
}
