/** The disk as the FAT32 code (modules/fs/fat32.c) sees it: sectors of 512 bytes, one FAT sector and
    one root-directory sector, and what each operation does to them. */
module FatDisk {
  import opened Machine
  import opened FatNames

  type Sector = s: seq<u8> | |s| == 512 witness seq(512, _ => 0)

  /** A sector that is not on the disk cannot be read or written. */
  type Disk = map<nat, Sector>

  function Write(disk: Disk, at: nat, data: Sector): Disk { if at in disk then disk[at := data] else disk }

  // ---- Little-endian fields ----

  function U16At(s: Sector, at: nat): u16
    requires at + 2 <= 512
  {
    var lo: int, hi: int := s[at], s[at + 1];
    lo + 0x100 * hi
  }

  function U32At(s: Sector, at: nat): u32
    requires at + 4 <= 512
  {
    var lo: int, hi: int := U16At(s, at), U16At(s, at + 2);
    lo + 0x1_0000 * hi
  }

  function U16Bytes(v: u16): (r: Bytes)
    ensures |r| == 2
  {
    [v % 0x100, v / 0x100]
  }

  function U32Bytes(v: u32): (r: Bytes)
    ensures |r| == 4
  {
    U16Bytes(v % 0x1_0000) + U16Bytes(v / 0x1_0000)
  }

  /** Overwrite the bytes from a position on. */
  function Splice(s: Sector, at: nat, data: Bytes): Sector
    requires at + |data| <= 512
  {
    s[..at] + data + s[at + |data|..]
  }

  lemma SpliceBytes(s: Sector, at: nat, data: Bytes, k: nat)
    requires at + |data| <= 512 && k < 512
    ensures Splice(s, at, data)[k] == if at <= k < at + |data| then data[k - at] else s[k]
  {
  }

  lemma SpliceU32(s: Sector, at: nat, v: u32, other: nat)
    requires at + 4 <= 512 && other + 4 <= 512
    ensures U32At(Splice(s, at, U32Bytes(v)), at) == v
    ensures other + 4 <= at || at + 4 <= other ==> U32At(Splice(s, at, U32Bytes(v)), other) == U32At(s, other)
  {
    var t := Splice(s, at, U32Bytes(v));
    assert t[at] == v % 0x1_0000 % 0x100 && t[at + 1] == v % 0x1_0000 / 0x100;
    assert t[at + 2] == v / 0x1_0000 % 0x100 && t[at + 3] == v / 0x1_0000 / 0x100;
  }

  // ---- The FAT sector ----

  const END_OF_CHAIN: u32 := 0x0FFF_FFFF
  const FIRST_END: u32 := 0x0FFF_FFF8

  function FatAt(fat: Sector, c: nat): u32
    requires c < 128
  {
    U32At(fat, 4 * c) % 0x1000_0000
  }

  function MarkUsed(fat: Sector, c: nat): Sector
    requires c < 128
  {
    Splice(fat, 4 * c, U32Bytes(END_OF_CHAIN))
  }

  lemma MarkedFat(fat: Sector, c: nat, other: nat)
    requires c < 128 && other < 128
    ensures FatAt(MarkUsed(fat, c), other) == if other == c then END_OF_CHAIN else FatAt(fat, other)
  {
    SpliceU32(fat, 4 * c, END_OF_CHAIN, 4 * other);
  }

  /** First fit from the given cluster on. */
  function FreeFrom(fat: Sector, c: nat): (r: Option<nat>)
    ensures r.Some? ==> c <= r.value < 128 && FatAt(fat, r.value) == 0
    ensures r.Some? ==> forall k :: c <= k < r.value ==> FatAt(fat, k) != 0
    ensures r.None? ==> forall k :: c <= k < 128 ==> FatAt(fat, k) != 0
    decreases 128 - c
  {
    if c >= 128 then None else if FatAt(fat, c) == 0 then Some(c) else FreeFrom(fat, c + 1)
  }

  function FreeCluster(fat: Sector): Option<nat> { FreeFrom(fat, 2) }

  // ---- The root directory ----

  const SLOTS: nat := 16
  const DELETED: u8 := 0xE5
  const ARCHIVE: u8 := 0x20
  const LONG_NAME: u8 := 0x0F

  datatype Entry = Entry(name: Bytes, attr: u8, cluster: u32, size: u32)

  function NameAt(dir: Sector, i: nat): (r: Bytes)
    requires i < SLOTS
    ensures |r| == 11
  {
    dir[32 * i..32 * i + 11]
  }

  function EntryAt(dir: Sector, i: nat): Entry
    requires i < SLOTS
  {
    Entry(NameAt(dir, i), dir[32 * i + 11],
          U16At(dir, 32 * i + 20) * 0x1_0000 + U16At(dir, 32 * i + 26), U32At(dir, 32 * i + 28))
  }

  /** The 32 bytes of a freshly written entry; every time and date is zero. */
  function EntryBytes(name: Bytes, cluster: u32, size: u32): (r: Bytes)
    requires |name| == 11
    ensures |r| == 32
  {
    name + [ARCHIVE] + [0, 0, 0, 0, 0, 0, 0, 0] + U16Bytes(cluster / 0x1_0000) + [0, 0, 0, 0]
    + U16Bytes(cluster % 0x1_0000) + U32Bytes(size)
  }

  function SetEntry(dir: Sector, i: nat, name: Bytes, cluster: u32, size: u32): Sector
    requires i < SLOTS && |name| == 11
  {
    Splice(dir, 32 * i, EntryBytes(name, cluster, size))
  }

  function SetSize(dir: Sector, i: nat, size: u32): Sector
    requires i < SLOTS
  {
    Splice(dir, 32 * i + 28, U32Bytes(size))
  }

  lemma EntryDepends(d: Sector, e: Sector, i: nat)
    requires i < SLOTS && forall k :: 32 * i <= k < 32 * i + 32 ==> d[k] == e[k]
    ensures EntryAt(d, i) == EntryAt(e, i)
  {
    assert d[32 * i..32 * i + 11] == e[32 * i..32 * i + 11];
  }

  lemma NewEntryFields(t: Sector, i: nat, name: Bytes, cluster: u32, size: u32)
    requires i < SLOTS && |name| == 11
    requires forall k :: 0 <= k < 32 ==> t[32 * i + k] == EntryBytes(name, cluster, size)[k]
    ensures EntryAt(t, i) == Entry(name, ARCHIVE, cluster, size)
  {
    var b := EntryBytes(name, cluster, size);
    assert t[32 * i..32 * i + 11] == name by {
      forall k | 0 <= k < 11 ensures t[32 * i + k] == name[k] { assert b[k] == name[k]; }
    }
    assert b[11] == ARCHIVE && t[32 * i + 11] == b[11];
    assert b[20..22] == U16Bytes(cluster / 0x1_0000) && b[26..28] == U16Bytes(cluster % 0x1_0000);
    assert b[20] == b[20..22][0] && b[21] == b[20..22][1] && b[26] == b[26..28][0] && b[27] == b[26..28][1];
    assert U16At(t, 32 * i + 20) == cluster / 0x1_0000;
    assert U16At(t, 32 * i + 26) == cluster % 0x1_0000;
    assert b[28..] == U32Bytes(size);
    assert b[28] == b[28..][0] && b[29] == b[28..][1] && b[30] == b[28..][2] && b[31] == b[28..][3];
    assert U16At(t, 32 * i + 28) == size % 0x1_0000 && U16At(t, 32 * i + 30) == size / 0x1_0000;
  }

  lemma EntrySet(dir: Sector, i: nat, name: Bytes, cluster: u32, size: u32, j: nat)
    requires i < SLOTS && j < SLOTS && |name| == 11
    ensures EntryAt(SetEntry(dir, i, name, cluster, size), j)
         == if j == i then Entry(name, ARCHIVE, cluster, size) else EntryAt(dir, j)
  {
    var t := SetEntry(dir, i, name, cluster, size);
    if j == i {
      var b := EntryBytes(name, cluster, size);
      forall k | 0 <= k < 32 ensures t[32 * i + k] == b[k] { SpliceBytes(dir, 32 * i, b, 32 * i + k); }
      NewEntryFields(t, i, name, cluster, size);
    } else {
      EntryDepends(t, dir, j);
    }
  }

  lemma SizeSet(dir: Sector, i: nat, size: u32, j: nat)
    requires i < SLOTS && j < SLOTS
    ensures EntryAt(SetSize(dir, i, size), j)
         == if j == i then EntryAt(dir, j).(size := size) else EntryAt(dir, j)
  {
    var t := SetSize(dir, i, size);
    if j == i {
      assert t[32 * i..32 * i + 11] == dir[32 * i..32 * i + 11];
      SpliceU32(dir, 32 * i + 28, size, 0);
    } else {
      EntryDepends(t, dir, j);
    }
  }

  /** The first slot from i on that holds the name; a zero first byte ends the directory. */
  function LookupFrom(dir: Sector, name: Bytes, i: nat): (r: Option<nat>)
    ensures r.Some? ==> i <= r.value < SLOTS && NameAt(dir, r.value) == name
    decreases SLOTS - i
  {
    if i >= SLOTS || NameAt(dir, i)[0] == 0 then None
    else if NameAt(dir, i) == name then Some(i)
    else LookupFrom(dir, name, i + 1)
  }

  function Lookup(dir: Sector, name: Bytes): Option<nat> { LookupFrom(dir, name, 0) }

  /** The search of append: all slots, the end mark ignored. */
  function SearchFrom(dir: Sector, name: Bytes, i: nat): (r: Option<nat>)
    ensures r.Some? ==> i <= r.value < SLOTS && NameAt(dir, r.value) == name
    decreases SLOTS - i
  {
    if i >= SLOTS then None else if NameAt(dir, i) == name then Some(i) else SearchFrom(dir, name, i + 1)
  }

  function Search(dir: Sector, name: Bytes): Option<nat> { SearchFrom(dir, name, 0) }

  predicate SlotFree(dir: Sector, i: nat)
    requires i < SLOTS
  {
    NameAt(dir, i)[0] == 0 || NameAt(dir, i)[0] == DELETED
  }

  function FreeSlotFrom(dir: Sector, i: nat): (r: Option<nat>)
    ensures r.Some? ==> i <= r.value < SLOTS && SlotFree(dir, r.value)
    ensures r.Some? ==> forall k :: i <= k < r.value ==> !SlotFree(dir, k)
    ensures r.None? ==> forall k :: i <= k < SLOTS ==> !SlotFree(dir, k)
    decreases SLOTS - i
  {
    if i >= SLOTS then None else if SlotFree(dir, i) then Some(i) else FreeSlotFrom(dir, i + 1)
  }

  function FreeSlot(dir: Sector): Option<nat> { FreeSlotFrom(dir, 0) }

  // ---- Geometry ----

  datatype Volume = Volume(bytesPerCluster: u32, fatStart: u32, dataStart: u32, rootCluster: u32, maxClusters: u32)

  /** 32-bit arithmetic, wrap-around included. */
  function ClusterToSector(v: Volume, cluster: u32): u32 {
    (v.dataStart + ((cluster - 2) % 0x1_0000_0000) * (v.bytesPerCluster / 512)) % 0x1_0000_0000
  }

  function RootSector(v: Volume): u32 { ClusterToSector(v, v.rootCluster) }

  // ---- The operations ----

  datatype ReadResult =
    | NoDirectory            // the buffer becomes the empty string
    | NotFound               // the buffer becomes the message
    | Unreadable             // the buffer is left as it was
    | Content(bytes: Bytes)  // the buffer becomes these bytes
    | Overrun(first: Bytes, count: nat)  // the size asks for more than the sector buffer has; these come first

  function ReadFile(v: Volume, disk: Disk, filename: Bytes, maxLen: u32): ReadResult
    requires maxLen > 0
  {
    if RootSector(v) !in disk then NoDirectory else
    var dir := disk[RootSector(v)];
    match Lookup(dir, FatName(filename))
    case None => NotFound
    case Some(i) =>
      var e := EntryAt(dir, i);
      if e.cluster == 0 then NotFound else
      var sector := ClusterToSector(v, e.cluster);
      if sector !in disk then Unreadable else
      var n := if e.size < maxLen - 1 then e.size else maxLen - 1;
      if n > 512 then Overrun(disk[sector], n) else Content(disk[sector][..n])
  }

  function FirstSector(data: Bytes): Sector {
    Take(data, 512) + seq(512 - |Take(data, 512)|, _ => 0)
  }

  /** Mark the cluster used and write the data to its first sector. */
  function Fill(v: Volume, disk: Disk, c: nat, data: Bytes): Disk
    requires v.fatStart in disk && c < 128
  {
    Write(Write(disk, v.fatStart, MarkUsed(disk[v.fatStart], c)), ClusterToSector(v, c), FirstSector(data))
  }

  /** Enter the file in the first free slot, if the directory can be read and has one. */
  function AddEntry(v: Volume, disk: Disk, filename: Bytes, c: u32, size: u32): Disk {
    if RootSector(v) !in disk then disk else
    match FreeSlot(disk[RootSector(v)])
    case None => disk
    case Some(i) => Write(disk, RootSector(v), SetEntry(disk[RootSector(v)], i, FatName(filename), c, size))
  }

  function WriteFile(v: Volume, disk: Disk, filename: Bytes, data: Bytes): Disk
    requires |data| < TWO_32
  {
    if v.fatStart !in disk then disk else
    match FreeCluster(disk[v.fatStart])
    case None => disk
    case Some(c) => AddEntry(v, Fill(v, disk, c, data), filename, c, |data|)
  }

  datatype Walk = Last(cluster: nat) | Circular | OutsideTable(cluster: nat)

  predicate IsLink(entry: u32) { 2 <= entry < FIRST_END }

  /** The traversal of append, with its guard; links past the sector buffer are reported. */
  function WalkFrom(fat: Sector, c: nat, guard: nat, maxClusters: u32): (w: Walk)
    requires guard <= maxClusters
    ensures w.Last? ==> w.cluster < 128
    decreases maxClusters - guard
  {
    if c >= 128 then OutsideTable(c)
    else if !IsLink(FatAt(fat, c)) then Last(c)
    else if guard + 1 > maxClusters then Circular
    else WalkFrom(fat, FatAt(fat, c), guard + 1, maxClusters)
  }

  /** Fill up the last sector from the current size on, then enlarge the entry by what went in. */
  function Grow(v: Volume, disk: Disk, i: nat, target: nat, size: u32, data: Bytes): Disk
    requires RootSector(v) in disk && target in disk && i < SLOTS
  {
    var added := Take(data, 512 - size % 512);
    var d1 := Write(disk, target, Splice(disk[target], size % 512, added));
    var now := d1[RootSector(v)];
    Write(d1, RootSector(v), SetSize(now, i, (EntryAt(now, i).size + |added|) % 0x1_0000_0000))
  }

  datatype AppendStatus = NoDirectoryRead | Created | NoFatRead | Aborted | OutOfTable | NoDataRead | Appended

  function AppendFile(v: Volume, disk: Disk, filename: Bytes, data: Bytes): (AppendStatus, Disk)
    requires |data| < TWO_32
  {
    if RootSector(v) !in disk then (NoDirectoryRead, disk) else
    var dir := disk[RootSector(v)];
    match Search(dir, FatName(filename))
    case None => (Created, WriteFile(v, disk, filename, data))
    case Some(i) =>
      var e := EntryAt(dir, i);
      if v.fatStart !in disk then (NoFatRead, disk) else
      match WalkFrom(disk[v.fatStart], e.cluster, 0, v.maxClusters)
      case Circular => (Aborted, disk)
      case OutsideTable(_) => (OutOfTable, disk)
      case Last(c) =>
        var target := ClusterToSector(v, c);
        if target !in disk then (NoDataRead, disk)
        else (Appended, Grow(v, disk, i, target, e.size, data))
  }

  // ---- The directory listing ----

  /** Append bytes while there is room for one more and the terminator. */
  function Put(text: Bytes, more: Bytes, maxLen: u32): Bytes
    requires maxLen > 0
    decreases |more|
  {
    if more == [] then text
    else if |text| < maxLen - 1 then Put(text + [more[0]], more[1..], maxLen)
    else Put(text, more[1..], maxLen)
  }

  function Catalogue(dir: Sector): (r: seq<Entry>)
    ensures |r| == SLOTS && forall i :: 0 <= i < SLOTS ==> r[i] == EntryAt(dir, i)
  {
    seq(SLOTS, i requires 0 <= i < SLOTS => EntryAt(dir, i))
  }

  predicate Named(entries: seq<Entry>) { forall i :: 0 <= i < |entries| ==> |entries[i].name| == 11 }

  predicate Hidden(e: Entry)
    requires |e.name| == 11
  {
    e.name[0] == DELETED || e.attr == LONG_NAME
  }

  /** The listing of the entries, appended to the text so far: an unused entry ends it, deleted
      entries and long-name fragments are passed over. */
  function ListEntries(entries: seq<Entry>, text: Bytes, maxLen: u32): Bytes
    requires maxLen > 0 && Named(entries)
    decreases |entries|
  {
    if entries == [] || entries[0].name[0] == 0 then text
    else if Hidden(entries[0]) then ListEntries(entries[1..], text, maxLen)
    else ListEntries(entries[1..], Put(text, DisplayName(entries[0].name) + [NEWLINE], maxLen), maxLen)
  }

  function ListDir(v: Volume, disk: Disk, maxLen: u32): Bytes
    requires maxLen > 0
  {
    if RootSector(v) !in disk then [] else ListEntries(Catalogue(disk[RootSector(v)]), [], maxLen)
  }

  // ---- Mounting ----

  datatype Mount = Ready(volume: Volume) | BootUnreadable | BadSignature | NoClusterSize

  lemma {:induction false} TimesAtMost(a: nat, b: nat, most: nat)
    requires b <= most
    ensures 0 <= a * b <= a * most
    decreases most - b
  {
    if b < most { TimesAtMost(a, b + 1, most); assert a * (b + 1) == a * b + a; }
  }

  lemma PerClusterFits(bytesPerSector: u16, sectorsPerCluster: u8)
    ensures 0 <= bytesPerSector * sectorsPerCluster < TWO_32
  {
    TimesAtMost(bytesPerSector, sectorsPerCluster, 256);
  }

  /** What the boot sector says of the volume, with a given limit on the length of chains. */
  function Geometry(b: Sector, maxClusters: u32): Volume {
    var perCluster: nat := U16At(b, 11) * b[13];
    PerClusterFits(U16At(b, 11), b[13]);
    var dataStart := (U16At(b, 14) + b[16] * U32At(b, 36)) % 0x1_0000_0000;
    Volume(perCluster, U16At(b, 14), dataStart, U32At(b, 44), maxClusters)
  }

  /** As many clusters as the volume's sectors could make. */
  function ClusterLimit(b: Sector): u32
    requires b[13] != 0
  {
    var total := if U32At(b, 32) != 0 then U32At(b, 32) else U16At(b, 19);
    var clusters := total / b[13];
    QuotientBelow(total, b[13]);
    if clusters == 0 then 65536 else clusters
  }

  /** Without a cluster size the limit is a division by zero, after the other fields were set. */
  function MountVolume(disk: Disk): Mount {
    if 0 !in disk then BootUnreadable
    else if disk[0][510] != 0x55 || disk[0][511] != 0xAA then BadSignature
    else if disk[0][13] == 0 then NoClusterSize
    else Ready(Geometry(disk[0], ClusterLimit(disk[0])))
  }
}
