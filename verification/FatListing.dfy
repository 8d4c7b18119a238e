/** The directory listing (modules/fs/fat32.c), read line by line, leads back to the entries it shows. */
module FatListing {
  import opened Machine
  import opened FatNames
  import opened FatDisk
  import FatFiles

  /** The names a listing shows, in order. */
  function Shown(entries: seq<Entry>): (names: seq<Bytes>)
    requires Named(entries)
    ensures forall k :: 0 <= k < |names| ==> |names[k]| == 11
    decreases |entries|
  {
    if entries == [] || entries[0].name[0] == 0 then []
    else if Hidden(entries[0]) then Shown(entries[1..])
    else [entries[0].name] + Shown(entries[1..])
  }

  function LinesOf(names: seq<Bytes>): Bytes
    requires forall k :: 0 <= k < |names| ==> |names[k]| == 11
  {
    if names == [] then [] else DisplayName(names[0]) + [NEWLINE] + LinesOf(names[1..])
  }

  /** Cut a text at its newlines. */
  function Lines(text: Bytes, line: Bytes): seq<Bytes>
    decreases |text|
  {
    if text == [] then []
    else if text[0] == NEWLINE then [line] + Lines(text[1..], [])
    else Lines(text[1..], line + [text[0]])
  }

  lemma {:induction false} PutFits(text: Bytes, more: Bytes, maxLen: u32)
    requires maxLen > 0 && |text| + |more| <= maxLen - 1
    ensures Put(text, more, maxLen) == text + more
    decreases |more|
  {
    if more == [] {
      assert text + more == text;
    } else {
      PutFits(text + [more[0]], more[1..], maxLen);
      assert text + [more[0]] + more[1..] == text + more;
    }
  }

  lemma {:induction false} ShownNames(entries: seq<Entry>)
    requires Named(entries)
    ensures |Shown(entries)| <= |entries|
    decreases |entries|
  {
    if entries != [] { ShownNames(entries[1..]); }
  }

  lemma {:induction false} ListingIsLines(entries: seq<Entry>, text: Bytes, maxLen: u32)
    requires maxLen > 0 && Named(entries)
    requires |text| + |LinesOf(Shown(entries))| <= maxLen - 1
    ensures ListEntries(entries, text, maxLen) == text + LinesOf(Shown(entries))
    decreases |entries|
  {
    if entries == [] || entries[0].name[0] == 0 {
      assert text + [] == text;
    } else if Hidden(entries[0]) {
      ListingIsLines(entries[1..], text, maxLen);
    } else {
      var line := DisplayName(entries[0].name) + [NEWLINE];
      ShownNames(entries[1..]);
      var rest := LinesOf(Shown(entries[1..]));
      assert Shown(entries)[1..] == Shown(entries[1..]);
      PutFits(text, line, maxLen);
      Reassociate(text, line, rest);
      ListingIsLines(entries[1..], text + line, maxLen);
    }
  }

  lemma {:induction false} LineComesOff(name: Bytes, rest: Bytes, line: Bytes)
    requires NEWLINE !in name
    ensures Lines(name + [NEWLINE] + rest, line) == [line + name] + Lines(rest, [])
    decreases |name|
  {
    var text := name + [NEWLINE] + rest;
    if name == [] {
      assert text[1..] == rest && line + name == line;
    } else {
      assert text[1..] == name[1..] + [NEWLINE] + rest;
      LineComesOff(name[1..], rest, line + [name[0]]);
      assert line + [name[0]] + name[1..] == line + name;
    }
  }

  function DisplayAll(names: seq<Bytes>): seq<Bytes>
    requires forall k :: 0 <= k < |names| ==> |names[k]| == 11
  {
    seq(|names|, k requires 0 <= k < |names| => DisplayName(names[k]))
  }

  lemma {:induction false} LinesAreNames(names: seq<Bytes>)
    requires forall k :: 0 <= k < |names| ==> |names[k]| == 11 && WellFormed(names[k])
    ensures Lines(LinesOf(names), []) == DisplayAll(names)
    decreases |names|
  {
    if names != [] {
      var name, rest := DisplayName(names[0]), LinesOf(names[1..]);
      DisplayedBytes(names[0]);
      LineComesOff(name, rest, []);
      assert [] + name == name;
      LinesAreNames(names[1..]);
      assert LinesOf(names) == name + [NEWLINE] + rest;
      assert DisplayAll(names) == [name] + DisplayAll(names[1..]);
    }
  }

  /** A line takes at most 13 bytes. */
  lemma {:induction false} LinesAreShort(names: seq<Bytes>)
    requires forall k :: 0 <= k < |names| ==> |names[k]| == 11 && WellFormed(names[k])
    ensures |LinesOf(names)| <= 13 * |names|
    decreases |names|
  {
    if names != [] {
      DisplayedBytes(names[0]);
      LinesAreShort(names[1..]);
    }
  }

  /** Distinct names, and well-formed ones wherever the listing shows them. */
  predicate WellFormedDir(dir: Sector) {
    && (forall k :: 0 <= k < |Shown(Catalogue(dir))| ==> WellFormed(Shown(Catalogue(dir))[k]))
    && forall i, j :: 0 <= i < j < SLOTS && FatFiles.Live(dir, i) && FatFiles.Live(dir, j)
         ==> NameAt(dir, i) != NameAt(dir, j)
  }

  /** Every name shown sits in some slot, with no end mark before it. */
  lemma {:induction false} ShownSits(entries: seq<Entry>, k: nat) returns (i: nat)
    requires Named(entries) && k < |Shown(entries)|
    ensures i < |entries| && entries[i].name == Shown(entries)[k]
    ensures entries[i].name[0] != 0 && !Hidden(entries[i])
    ensures forall j :: 0 <= j < i ==> entries[j].name[0] != 0
    decreases |entries|
  {
    if Hidden(entries[0]) {
      var j := ShownSits(entries[1..], k);
      i := j + 1;
    } else if k == 0 {
      i := 0;
    } else {
      var j := ShownSits(entries[1..], k - 1);
      i := j + 1;
    }
  }

  /** A name shown is found in the slot that shows it. */
  lemma ShownIsFound(dir: Sector, k: nat) returns (i: nat)
    requires WellFormedDir(dir) && k < |Shown(Catalogue(dir))|
    ensures i < SLOTS && !SlotFree(dir, i) && EntryAt(dir, i).attr != LONG_NAME
    ensures NameAt(dir, i) == Shown(Catalogue(dir))[k] && Lookup(dir, NameAt(dir, i)) == Some(i)
  {
    i := ShownSits(Catalogue(dir), k);
    forall j | 0 <= j < i ensures NameAt(dir, j) != NameAt(dir, i) && NameAt(dir, j)[0] != 0 {
      assert Catalogue(dir)[j].name == NameAt(dir, j);
      if !FatFiles.Live(dir, j) { assert NameAt(dir, j)[0] == DELETED; }
    }
    FatFiles.LookupIs(dir, NameAt(dir, i), 0, i);
  }

  /** The line selects the slot: formatting it gives the slot's name, and a search for that name
      ends in the slot. */
  predicate Selects(dir: Sector, line: Bytes, i: nat) {
    i < SLOTS && FatName(line) == NameAt(dir, i) && Lookup(dir, FatName(line)) == Some(i)
  }

  lemma LineSelects(dir: Sector, k: nat) returns (i: nat)
    requires WellFormedDir(dir) && k < |Shown(Catalogue(dir))|
    ensures i < SLOTS && NameAt(dir, i) == Shown(Catalogue(dir))[k] && |NameAt(dir, i)| == 11
    ensures Selects(dir, DisplayName(NameAt(dir, i)), i)
  {
    i := ShownIsFound(dir, k);
    DisplayedNameFormats(NameAt(dir, i));
  }

  /** All lines and the terminator fit. */
  predicate Uncut(entries: seq<Entry>, maxLen: u32)
    requires Named(entries)
  {
    |LinesOf(Shown(entries))| < maxLen
  }

  /** With sixteen well-formed names any buffer of more than 208 bytes will do. */
  lemma BigBufferUncut(entries: seq<Entry>, maxLen: u32)
    requires Named(entries) && |entries| == SLOTS && maxLen > 13 * SLOTS
    requires forall k :: 0 <= k < |Shown(entries)| ==> WellFormed(Shown(entries)[k])
    ensures Uncut(entries, maxLen)
  {
    ShownNames(entries);
    LinesAreShort(Shown(entries));
  }

  lemma UncutListing(entries: seq<Entry>, maxLen: u32)
    requires Named(entries) && Uncut(entries, maxLen)
    ensures ListEntries(entries, [], maxLen) == LinesOf(Shown(entries))
  {
    ListingIsLines(entries, [], maxLen);
    assert [] + LinesOf(Shown(entries)) == LinesOf(Shown(entries));
  }

  lemma ListedLines(entries: seq<Entry>, maxLen: u32)
    requires Named(entries) && Uncut(entries, maxLen)
    requires forall k :: 0 <= k < |Shown(entries)| ==> WellFormed(Shown(entries)[k])
    ensures Lines(ListEntries(entries, [], maxLen), []) == DisplayAll(Shown(entries))
  {
    LinesAreNames(Shown(entries));
    UncutListing(entries, maxLen);
  }

  /** The lines of the directory select the entries whose names they show. */
  ghost predicate LinesSelect(dir: Sector, lines: seq<Bytes>, names: seq<Bytes>) {
    && |lines| == |names|
    && forall k :: 0 <= k < |lines| ==> exists i: nat :: Selects(dir, lines[k], i) && NameAt(dir, i) == names[k]
  }

  lemma DisplayedSelect(dir: Sector, names: seq<Bytes>)
    requires WellFormedDir(dir) && names == Shown(Catalogue(dir))
    ensures LinesSelect(dir, DisplayAll(names), names)
  {
    forall k | 0 <= k < |names|
      ensures exists i: nat :: Selects(dir, DisplayAll(names)[k], i) && NameAt(dir, i) == names[k]
    {
      var i := LineSelects(dir, k);
    }
  }

  /** A listing that is not cut has one line for each entry it shows, in order, and each line, given
      back as a file name, selects the very entry it shows. */
  lemma ListingSelects(v: Volume, disk: Disk, maxLen: u32)
    requires RootSector(v) in disk && WellFormedDir(disk[RootSector(v)]) && maxLen > 0
    requires Uncut(Catalogue(disk[RootSector(v)]), maxLen)
    ensures var dir := disk[RootSector(v)];
            LinesSelect(dir, Lines(ListDir(v, disk, maxLen), []), Shown(Catalogue(dir)))
  {
    ListedLines(Catalogue(disk[RootSector(v)]), maxLen);
    DisplayedSelect(disk[RootSector(v)], Shown(Catalogue(disk[RootSector(v)])));
  }
}
