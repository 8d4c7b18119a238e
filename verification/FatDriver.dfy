/** The file-system code itself (modules/fs/fat32.c): two static sector buffers, reused for directory, FAT
    and data, sector reads and writes in the source's order, and the search and copy loops. Each
    operation is proved to do to the disk exactly what FatDisk says. */
module FatDriver {
  import opened Machine
  import opened FatNames
  import opened FatDisk
  import FatFiles
  import FatMount

  const MESSAGE_LENGTH: nat := 16

  /** "File not found.\n" */
  function Message(): (r: Bytes)
    ensures |r| == MESSAGE_LENGTH
  {
    [0x46, 0x69, 0x6C, 0x65, 0x20, 0x6E, 0x6F, 0x74, 0x20, 0x66, 0x6F, 0x75, 0x6E, 0x64, 0x2E, 0x0A]
  }

  lemma PutNext(text: Bytes, part: Bytes, maxLen: u32)
    requires maxLen > 0 && part != []
    ensures Put(text, Squeeze(part), maxLen)
         == Put(if part[0] != SPACE && |text| < maxLen - 1 then text + [part[0]] else text, Squeeze(part[1..]), maxLen)
  {
    var rest := Squeeze(part[1..]);
    if part[0] != SPACE { assert ([part[0]] + rest)[1..] == rest; } else { assert [] + rest == rest; }
  }

  lemma {:induction false} PutSplit(text: Bytes, a: Bytes, b: Bytes, maxLen: u32)
    requires maxLen > 0
    ensures Put(text, a + b, maxLen) == Put(Put(text, a, maxLen), b, maxLen)
    decreases |a|
  {
    if a == [] {
      assert a + b == b;
    } else {
      assert (a + b)[1..] == a[1..] + b;
      PutSplit(if |text| < maxLen - 1 then text + [a[0]] else text, a[1..], b, maxLen);
    }
  }

  lemma {:induction false} PutFull(text: Bytes, more: Bytes, maxLen: u32)
    requires maxLen > 0 && |text| >= maxLen - 1
    ensures Put(text, more, maxLen) == text
    decreases |more|
  {
    if more != [] { PutFull(text, more[1..], maxLen); }
  }

  class FileSystem {
    var disk: Disk
    var volume: Volume
    const diskBuffer: array<u8>
    const writeBuffer: array<u8>

    predicate Valid()
      reads this
    {
      diskBuffer.Length == 512 && writeBuffer.Length == 512 && diskBuffer != writeBuffer
    }

    constructor (disk: Disk)
      ensures Valid() && this.disk == disk && fresh(diskBuffer) && fresh(writeBuffer)
    {
      this.disk := disk;
      volume := Volume(0, 0, 0, 0, 0);
      diskBuffer, writeBuffer := new u8[512], new u8[512];
    }

    method ReadSector(at: u32, buffer: array<u8>) returns (ok: bool)
      requires buffer.Length == 512
      modifies buffer
      ensures ok <==> at in disk
      ensures buffer[..] == if ok then disk[at] else old(buffer[..])
    {
      ok := at in disk;
      if ok {
        var data := disk[at];
        forall k | 0 <= k < 512 { buffer[k] := data[k]; }
      }
    }

    method WriteSector(at: u32, buffer: array<u8>)
      requires buffer.Length == 512
      modifies this`disk
      ensures disk == Write(old(disk), at, buffer[..])
    {
      if at in disk { disk := disk[at := buffer[..]]; }
    }

    /** Mount: read the boot sector and take the geometry from it, field by field. A sound boot sector
        gives the layout every other operation relies on. */
    method Init() returns (mounted: bool)
      requires Valid()
      modifies this`volume, diskBuffer
      ensures Valid() && mounted == MountVolume(disk).Ready?
      ensures mounted && FatMount.SoundBoot(disk[0]) && volume.maxClusters < TWO_32 - 1 ==> FatFiles.Layout(volume)
      ensures match MountVolume(disk)
              case Ready(v) => volume == v
              case NoClusterSize => volume == Geometry(disk[0], old(volume).maxClusters)
              case _ => volume == old(volume)
    {
      var ok := ReadSector(0, diskBuffer);
      if !ok || diskBuffer[510] != 0x55 || diskBuffer[511] != 0xAA { return false; }
      PerClusterFits(U16At(diskBuffer[..], 11), diskBuffer[13]);
      volume := volume.(bytesPerCluster := U16At(diskBuffer[..], 11) * diskBuffer[13]);
      volume := volume.(fatStart := U16At(diskBuffer[..], 14));
      var fatSize := U32At(diskBuffer[..], 36);
      volume := volume.(dataStart := (volume.fatStart + diskBuffer[16] * fatSize) % 0x1_0000_0000);
      volume := volume.(rootCluster := U32At(diskBuffer[..], 44));
      if diskBuffer[13] == 0 { return false; }
      var total := U32At(diskBuffer[..], 32);
      if total == 0 { total := U16At(diskBuffer[..], 19); }
      QuotientBelow(total, diskBuffer[13]);
      volume := volume.(maxClusters := total / diskBuffer[13]);
      if volume.maxClusters == 0 { volume := volume.(maxClusters := 65536); }
      mounted := true;
      if FatMount.SoundBoot(disk[0]) { FatMount.MountGivesLayout(disk); }
    }

    /** Whether the eleven bytes of a slot's name are the ones wanted. */
    method Matches(i: nat, name: array<u8>) returns (same: bool)
      requires Valid() && i < SLOTS && name.Length == 11
      ensures same <==> NameAt(diskBuffer[..], i) == name[..]
    {
      same := true;
      for j := 0 to 11
        invariant same <==> forall k :: 0 <= k < j ==> diskBuffer[32 * i + k] == name[k]
      {
        if diskBuffer[32 * i + j] != name[j] { same := false; }
      }
      if same {
        assert forall k :: 0 <= k < 11 ==> NameAt(diskBuffer[..], i)[k] == name[..][k];
        assert NameAt(diskBuffer[..], i) == name[..];
      } else {
        var k :| 0 <= k < 11 && diskBuffer[32 * i + k] != name[k];
        assert NameAt(diskBuffer[..], i)[k] != name[..][k];
      }
    }

    /** The search of read. */
    method Find(name: array<u8>) returns (found: Option<nat>)
      requires Valid() && name.Length == 11
      ensures found == Lookup(diskBuffer[..], name[..])
    {
      var i := 0;
      while i < SLOTS
        invariant i <= SLOTS
        invariant LookupFrom(diskBuffer[..], name[..], i) == Lookup(diskBuffer[..], name[..])
      {
        if NameAt(diskBuffer[..], i)[0] == 0 { break; }
        var same := Matches(i, name);
        if same { return Some(i); }
        i := i + 1;
      }
      found := None;
    }

    /** The search of append, which does not stop at the end mark. */
    method FindAnywhere(name: array<u8>) returns (found: Option<nat>)
      requires Valid() && name.Length == 11
      ensures found == Search(diskBuffer[..], name[..])
    {
      var i := 0;
      while i < SLOTS
        invariant i <= SLOTS
        invariant SearchFrom(diskBuffer[..], name[..], i) == Search(diskBuffer[..], name[..])
      {
        var same := Matches(i, name);
        if same { return Some(i); }
        assert SearchFrom(diskBuffer[..], name[..], i) == SearchFrom(diskBuffer[..], name[..], i + 1);
        i := i + 1;
      }
      found := None;
    }

    /** Overwrite part of a buffer. */
    method Patch(buffer: array<u8>, at: nat, data: Bytes)
      requires buffer.Length == 512 && at + |data| <= 512
      modifies buffer
      ensures buffer[..] == Splice(old(buffer[..]), at, data)
    {
      for k := 0 to |data|
        invariant buffer[..] == Splice(old(buffer[..]), at, data[..k])
      {
        buffer[at + k] := data[k];
        assert data[..k + 1] == data[..k] + [data[k]];
      }
      assert data[..|data|] == data;
    }

    method ReadFileContent(filename: Bytes, buffer: array<u8>, maxLen: u32) returns (result: ReadResult)
      requires Valid() && CString(filename)
      requires 0 < maxLen <= buffer.Length && MESSAGE_LENGTH < buffer.Length
      requires buffer != diskBuffer && buffer != writeBuffer
      modifies diskBuffer, buffer
      ensures result == ReadFile(volume, disk, filename, maxLen)
      ensures match result
              case NoDirectory => buffer[0] == 0
              case NotFound =>
                var n := if maxLen - 1 < MESSAGE_LENGTH then maxLen - 1 else MESSAGE_LENGTH;
                buffer[..n] == Message()[..n] && buffer[MESSAGE_LENGTH] == 0
              case Unreadable => buffer[..] == old(buffer[..])
              case Content(bytes) => |bytes| < buffer.Length && buffer[..|bytes|] == bytes && buffer[|bytes|] == 0
              case Overrun(first, count) => 512 < count < buffer.Length && buffer[..512] == first && buffer[count] == 0
    {
      var name := FormatFatName(filename);
      var ok := ReadSector(RootSector(volume), diskBuffer);
      if !ok {
        buffer[0] := 0;
        return NoDirectory;
      }
      var found := Find(name);
      var cluster, size := 0, 0;
      if found.Some? {
        var e := EntryAt(diskBuffer[..], found.value);
        cluster, size := e.cluster, e.size;
      }
      if cluster == 0 {
        CopyMessage(buffer, maxLen);
        return NotFound;
      }
      ok := ReadSector(ClusterToSector(volume, cluster), diskBuffer);
      if !ok { return Unreadable; }
      var count := if size < maxLen - 1 then size else maxLen - 1;
      if count > 512 {
        CopyPast(buffer, count);
        return Overrun(diskBuffer[..], count);
      }
      CopyOut(buffer, count);
      return Content(diskBuffer[..count]);
    }

    /** Copy from the sector buffer and terminate. */
    method CopyOut(buffer: array<u8>, count: nat)
      requires Valid() && count <= 512 && count < buffer.Length && buffer != diskBuffer
      modifies buffer
      ensures buffer[..count] == diskBuffer[..count] && buffer[count] == 0
    {
      for i := 0 to count
        invariant buffer[..i] == diskBuffer[..i]
      {
        buffer[i] := diskBuffer[i];
      }
      buffer[count] := 0;
    }

    /** The same when more is asked for than the buffer has: what lies behind it is anyone's guess. */
    method CopyPast(buffer: array<u8>, count: nat)
      requires Valid() && 512 < count < buffer.Length && buffer != diskBuffer
      modifies buffer
      ensures buffer[..512] == diskBuffer[..] && buffer[count] == 0
    {
      for i := 0 to count
        invariant forall k :: 0 <= k < i && k < 512 ==> buffer[k] == diskBuffer[k]
      {
        if i < 512 { buffer[i] := diskBuffer[i]; } else { buffer[i] := *; }
      }
      buffer[count] := 0;
    }

    /** As much of the message as the caller allows; the terminator always goes behind all of it. */
    method CopyMessage(buffer: array<u8>, maxLen: u32)
      requires buffer.Length > MESSAGE_LENGTH && maxLen > 0
      modifies buffer
      ensures var n := if maxLen - 1 < MESSAGE_LENGTH then maxLen - 1 else MESSAGE_LENGTH;
              buffer[..n] == Message()[..n] && buffer[MESSAGE_LENGTH] == 0
    {
      var i := 0;
      while i < MESSAGE_LENGTH && i < maxLen - 1
        invariant i <= MESSAGE_LENGTH && i <= maxLen - 1
        invariant buffer[..i] == Message()[..i]
      {
        buffer[i] := Message()[i];
        i := i + 1;
      }
      buffer[MESSAGE_LENGTH] := 0;
    }

    /** First fit in the FAT sector at hand, marking the cluster it takes. */
    method TakeCluster() returns (free: Option<nat>)
      requires Valid()
      modifies diskBuffer
      ensures Valid() && free == FreeCluster(old(diskBuffer[..]))
      ensures diskBuffer[..] == if free.Some? then MarkUsed(old(diskBuffer[..]), free.value) else old(diskBuffer[..])
    {
      var i := 2;
      while i < 128
        invariant 2 <= i <= 128
        invariant diskBuffer[..] == old(diskBuffer[..])
        invariant FreeFrom(diskBuffer[..], i) == FreeCluster(diskBuffer[..])
      {
        if FatAt(diskBuffer[..], i) == 0 {
          Patch(diskBuffer, 4 * i, U32Bytes(END_OF_CHAIN));
          return Some(i);
        }
        i := i + 1;
      }
      free := None;
    }

    method WriteFileContent(filename: Bytes, data: Bytes)
      requires Valid() && CString(filename) && |data| < TWO_32
      modifies this`disk, diskBuffer, writeBuffer
      ensures Valid() && disk == WriteFile(volume, old(disk), filename, data)
    {
      var name := FormatFatName(filename);
      var free := AllocateFirst(data);
      if free.Some? { EnterFile(name, filename, free.value, |data|); }
    }

    /** Take a cluster in the FAT and fill its first sector. */
    method AllocateFirst(data: Bytes) returns (free: Option<nat>)
      requires Valid()
      modifies this`disk, diskBuffer, writeBuffer
      ensures Valid()
      ensures free == if volume.fatStart in old(disk) then FreeCluster(old(disk)[volume.fatStart]) else None
      ensures disk == if free.Some? then Fill(volume, old(disk), free.value, data) else old(disk)
    {
      var ok := ReadSector(volume.fatStart, diskBuffer);
      if !ok { return None; }
      free := TakeCluster();
      if free.None? { return; }
      WriteSector(volume.fatStart, diskBuffer);
      StoreFirstSector(free.value, data);
    }

    /** Put the name into the first free slot of the root directory, if there is one. */
    method EnterFile(name: array<u8>, ghost filename: Bytes, cluster: u32, size: u32)
      requires Valid() && name.Length == 11 && name[..] == FatName(filename) && name != diskBuffer && name != writeBuffer
      modifies this`disk, diskBuffer
      ensures Valid() && disk == AddEntry(volume, old(disk), filename, cluster, size)
    {
      var ok := ReadSector(RootSector(volume), diskBuffer);
      if !ok { return; }
      var slot := FindFreeSlot();
      if slot.None? { return; }
      Patch(diskBuffer, 32 * slot.value, EntryBytes(name[..], cluster, size));
      WriteSector(RootSector(volume), diskBuffer);
    }

    method StoreFirstSector(c: nat, data: Bytes)
      requires Valid() && c < 128
      modifies this`disk, writeBuffer
      ensures Valid() && disk == Write(old(disk), ClusterToSector(volume, c), FirstSector(data))
    {
      FillFirstSector(data);
      WriteSector(ClusterToSector(volume, c), writeBuffer);
    }

    /** Clear the write buffer and copy what fits. */
    method FillFirstSector(data: Bytes)
      requires Valid()
      modifies writeBuffer
      ensures writeBuffer[..] == FirstSector(data)
    {
      for i := 0 to 512
        invariant forall k :: 0 <= k < i ==> writeBuffer[k] == 0
      {
        writeBuffer[i] := 0;
      }
      var count := if |data| < 512 then |data| else 512;
      for i := 0 to count
        invariant forall k :: 0 <= k < i ==> writeBuffer[k] == data[k]
        invariant forall k :: i <= k < 512 ==> writeBuffer[k] == 0
      {
        writeBuffer[i] := data[i];
      }
    }

    method FindFreeSlot() returns (slot: Option<nat>)
      requires Valid()
      ensures slot == FreeSlot(diskBuffer[..])
    {
      var i := 0;
      while i < SLOTS
        invariant i <= SLOTS
        invariant FreeSlotFrom(diskBuffer[..], i) == FreeSlot(diskBuffer[..])
      {
        if SlotFree(diskBuffer[..], i) { return Some(i); }
        i := i + 1;
      }
      slot := None;
    }

    /** Follow the chain in the FAT sector at hand, counting links against the guard. */
    method FollowChain(start: u32) returns (walk: Walk)
      requires Valid()
      ensures walk == WalkFrom(diskBuffer[..], start, 0, volume.maxClusters)
    {
      var current: nat, guard := start, 0;
      while current < 128 && IsLink(FatAt(diskBuffer[..], current))
        invariant guard <= volume.maxClusters
        invariant WalkFrom(diskBuffer[..], current, guard, volume.maxClusters)
               == WalkFrom(diskBuffer[..], start, 0, volume.maxClusters)
        decreases volume.maxClusters - guard
      {
        current := FatAt(diskBuffer[..], current);
        guard := guard + 1;
        if guard > volume.maxClusters { return Circular; }
      }
      walk := if current < 128 then Last(current) else OutsideTable(current);
    }

    method AppendFileContent(filename: Bytes, data: Bytes) returns (status: AppendStatus)
      requires Valid() && CString(filename) && |data| < TWO_32
      modifies this`disk, diskBuffer, writeBuffer
      ensures Valid() && (status, disk) == AppendFile(volume, old(disk), filename, data)
    {
      var name := FormatFatName(filename);
      var ok := ReadSector(RootSector(volume), diskBuffer);
      if !ok { return NoDirectoryRead; }
      var found := FindAnywhere(name);
      if found.None? {
        WriteFileContent(filename, data);
        return Created;
      }
      var i := found.value;
      var e := EntryAt(diskBuffer[..], i);
      ok := ReadSector(volume.fatStart, diskBuffer);
      if !ok { return NoFatRead; }
      var walk := FollowChain(e.cluster);
      match walk
      case Circular => return Aborted;
      case OutsideTable(_) => return OutOfTable;
      case Last(last) =>
        var target := ClusterToSector(volume, last);
        ok := GrowFile(i, target, e.size, data);
        return if ok then Appended else NoDataRead;
    }

    /** Fill up the file's last sector, then enlarge its entry. */
    method GrowFile(i: nat, target: u32, size: u32, data: Bytes) returns (ok: bool)
      requires Valid() && i < SLOTS && RootSector(volume) in disk
      modifies this`disk, diskBuffer, writeBuffer
      ensures Valid() && ok == (target in old(disk))
      ensures disk == if ok then Grow(volume, old(disk), i, target, size, data) else old(disk)
    {
      ok := ReadSector(target, writeBuffer);
      if !ok { return; }
      var offset := size % 512;
      var added := Take(data, 512 - offset);
      Patch(writeBuffer, offset, added);
      WriteSector(target, writeBuffer);
      // The buffer holds the FAT by now: the directory is read again before it is changed.
      ok := ReadSector(RootSector(volume), diskBuffer);
      var now := EntryAt(diskBuffer[..], i).size;
      Patch(diskBuffer, 32 * i + 28, U32Bytes((now + |added|) % 0x1_0000_0000));
      WriteSector(RootSector(volume), diskBuffer);
    }

    method GetDirList(buffer: array<u8>, maxLen: u32)
      requires Valid() && 0 < maxLen <= buffer.Length && buffer != diskBuffer && buffer != writeBuffer
      modifies diskBuffer, buffer
      ensures var text := ListDir(volume, disk, maxLen);
              |text| < maxLen && buffer[..|text|] == text && buffer[|text|] == 0
    {
      var ok := ReadSector(RootSector(volume), diskBuffer);
      if !ok {
        buffer[0] := 0;
        return;
      }
      var pos: nat := 0;
      var i := 0;
      ghost var all := Catalogue(diskBuffer[..]);
      while i < SLOTS
        invariant i <= SLOTS && pos < maxLen
        invariant diskBuffer[..] == disk[RootSector(volume)]
        invariant ListEntries(all[i..], buffer[..pos], maxLen) == ListEntries(all, [], maxLen)
      {
        assert all[i..][0] == all[i] && all[i..][1..] == all[i + 1..];
        var e := EntryAt(diskBuffer[..], i);
        if e.name[0] == 0 { break; }
        assert e == all[i];
        if !Hidden(e) { pos := PutLine(i, buffer, pos, maxLen); }
        i := i + 1;
      }
      buffer[pos] := 0;
    }

    /** One line of the listing: the stem, and behind a dot the extension, both without their spaces. */
    method PutLine(i: nat, buffer: array<u8>, start: nat, maxLen: u32) returns (pos: nat)
      requires Valid() && i < SLOTS && start < maxLen <= buffer.Length && buffer != diskBuffer && buffer != writeBuffer
      modifies buffer
      ensures pos < maxLen
      ensures buffer[..pos] == Put(old(buffer[..start]), DisplayName(NameAt(diskBuffer[..], i)) + [NEWLINE], maxLen)
    {
      ghost var text, name := buffer[..start], NameAt(diskBuffer[..], i);
      pos := PutPart(32 * i, 8, name[..8], buffer, start, maxLen);
      ghost var stem := buffer[..pos];
      ghost var ext: Bytes := if name[8] != SPACE then [DOT] + Squeeze(name[8..]) else [];
      if diskBuffer[32 * i + 8] != SPACE && pos < maxLen - 1 {
        pos := PutByte(DOT, buffer, pos, maxLen);
        pos := PutPart(32 * i + 8, 3, name[8..], buffer, pos, maxLen);
        PutSplit(stem, [DOT], Squeeze(name[8..]), maxLen);
      } else if name[8] != SPACE {
        PutFull(stem, ext, maxLen);
      }
      assert buffer[..pos] == Put(stem, ext, maxLen);
      pos := PutByte(NEWLINE, buffer, pos, maxLen);
      PutSplit(text, Squeeze(name[..8]), ext, maxLen);
      PutSplit(text, DisplayName(name), [NEWLINE], maxLen);
    }

    method PutByte(c: u8, buffer: array<u8>, start: nat, maxLen: u32) returns (pos: nat)
      requires start < maxLen <= buffer.Length
      modifies buffer
      ensures pos < maxLen && buffer[..pos] == Put(old(buffer[..start]), [c], maxLen)
    {
      pos := start;
      if pos < maxLen - 1 {
        buffer[pos] := c;
        pos := pos + 1;
        assert buffer[..pos] == old(buffer[..start]) + [c];
      }
    }

    /** The bytes of a name that are not spaces, one at a time while there is room. */
    method PutPart(at: nat, count: nat, ghost part: Bytes, buffer: array<u8>, start: nat, maxLen: u32)
        returns (pos: nat)
      requires Valid() && at + count <= 512 && part == diskBuffer[at..at + count]
      requires start < maxLen <= buffer.Length && buffer != diskBuffer
      modifies buffer
      ensures pos < maxLen && buffer[..pos] == Put(old(buffer[..start]), Squeeze(part), maxLen)
    {
      pos := start;
      for j := 0 to count
        invariant pos < maxLen && part == diskBuffer[at..at + count]
        invariant Put(buffer[..pos], Squeeze(part[j..]), maxLen) == Put(old(buffer[..start]), Squeeze(part), maxLen)
      {
        ghost var before := buffer[..pos];
        assert part[j..][0] == diskBuffer[at + j] && part[j..][1..] == part[j + 1..];
        if diskBuffer[at + j] != SPACE && pos < maxLen - 1 {
          buffer[pos] := diskBuffer[at + j];
          pos := pos + 1;
          assert buffer[..pos] == before + [part[j]];
        }
        PutNext(before, part[j..], maxLen);
      }
    }
  }
}
