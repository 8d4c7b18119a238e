/** The ledger on a volume that other files share: file operations and ledger activity interleaved
    (kernel/watcher.c and kernel/syscall.c over modules/fs/fat32.c). */
module SharedVolume {
  import opened Machine
  import opened Watcher
  import opened WatcherDriver
  import opened Ledger
  import FatAppend
  import FatFiles
  import FatDisk
  import FatNames
  import FatRun

  /** A write or append of some other file, or an event of the watcher. */
  datatype Action = FileAction(file: FatRun.Op) | WatchAction(watch: Op)

  /** Other files are those under another name than the log's. */
  predicate Fits(log: Bytes, a: Action) {
    match a
    case FileAction(op) => FatRun.Proper(op) && FatNames.FatName(op.filename) != FatNames.FatName(log)
    case WatchAction(op) => OpFits(op)
  }

  predicate AllFit(log: Bytes, actions: seq<Action>) { forall i :: 0 <= i < |actions| ==> Fits(log, actions[i]) }

  /** One action; a sync appends to the log file. */
  function Perform(v: FatDisk.Volume, log: Bytes, s: State, a: Action): State
    requires ContextsFit(s.world) && Fits(log, a)
  {
    match a
    case FileAction(op) => s.(disk := FatRun.Perform(v, s.disk, op))
    case WatchAction(LogOp(_)) => s.(world := Step(s.world, a.watch))
    case WatchAction(SyncOp) =>
      CollectBounded(s.world.ring, s.world.ring.cursor);
      State(Step(s.world, SyncOp), FatAppend.AppendAll(v, s.disk, log, Chunks(Sync(s.world.ring).1)))
  }

  lemma WorldFits(v: FatDisk.Volume, log: Bytes, s: State, a: Action)
    requires ContextsFit(s.world) && Fits(log, a)
    ensures ContextsFit(Perform(v, log, s, a).world)
    ensures Perform(v, log, s, a).world == if a.WatchAction? then Step(s.world, a.watch) else s.world
  {
    if a.WatchAction? { ContextsStayFit(s.world, a.watch); }
  }

  function PerformAll(v: FatDisk.Volume, log: Bytes, s: State, actions: seq<Action>): State
    requires ContextsFit(s.world) && AllFit(log, actions)
    decreases |actions|
  {
    if actions == [] then s
    else
      WorldFits(v, log, s, actions[0]);
      PerformAll(v, log, Perform(v, log, s, actions[0]), actions[1..])
  }

  /** The watcher's part of the actions. */
  function Watched(actions: seq<Action>): seq<Op> {
    if actions == [] then []
    else (if actions[0].WatchAction? then [actions[0].watch] else []) + Watched(actions[1..])
  }

  // ---- A sync is a run of appends ----

  function Appends(filename: Bytes, chunks: seq<Bytes>): (ops: seq<FatRun.Op>)
    ensures |ops| == |chunks|
    ensures forall i :: 0 <= i < |chunks| ==> ops[i] == FatRun.AppendOp(filename, chunks[i])
  {
    seq(|chunks|, i requires 0 <= i < |chunks| => FatRun.AppendOp(filename, chunks[i]))
  }

  predicate Short(chunks: seq<Bytes>) { forall i :: 0 <= i < |chunks| ==> |chunks[i]| < TWO_32 }

  lemma AppendsProper(filename: Bytes, chunks: seq<Bytes>)
    requires FatFiles.Usable(FatNames.FatName(filename)) && Short(chunks)
    ensures FatRun.AllProper(Appends(filename, chunks))
  {
  }

  lemma AppendsRest(filename: Bytes, chunks: seq<Bytes>)
    requires chunks != []
    ensures Appends(filename, chunks)[0] == FatRun.AppendOp(filename, chunks[0])
    ensures Appends(filename, chunks)[1..] == Appends(filename, chunks[1..])
  {
  }

  lemma {:induction false} AppendAllIsRun(v: FatDisk.Volume, disk: FatDisk.Disk, filename: Bytes, chunks: seq<Bytes>)
    requires FatFiles.Usable(FatNames.FatName(filename)) && Short(chunks)
    ensures FatRun.AllProper(Appends(filename, chunks))
    ensures FatAppend.AppendAll(v, disk, filename, chunks) == FatRun.PerformAll(v, disk, Appends(filename, chunks))
    decreases |chunks|
  {
    AppendsProper(filename, chunks);
    if chunks != [] {
      AppendsRest(filename, chunks);
      AppendAllIsRun(v, FatDisk.AppendFile(v, disk, filename, chunks[0]).1, filename, chunks[1..]);
    }
  }

  /** What a run of appends to one file does to the plain map of files. */
  function AppendChunks(c: FatRun.Catalog, filename: Bytes, chunks: seq<Bytes>): FatRun.Catalog
    requires FatFiles.Usable(FatNames.FatName(filename)) && Short(chunks)
  {
    AppendsProper(filename, chunks);
    FatRun.DoAll(c, Appends(filename, chunks))
  }

  lemma FirstChunk(c: FatRun.Catalog, filename: Bytes, chunks: seq<Bytes>)
    requires FatFiles.Usable(FatNames.FatName(filename)) && Short(chunks)
    ensures AppendChunks(c, filename, chunks)
         == if chunks == [] then c
            else AppendChunks(FatRun.Do(c, FatRun.AppendOp(filename, chunks[0])), filename, chunks[1..])
  {
    AppendsProper(filename, chunks);
    if chunks != [] { AppendsRest(filename, chunks); }
  }

  /** The file holds the text; or there is none, because there was nothing to hold or because the
      directory was full when it should have been made. */
  predicate Kept(c: FatRun.Catalog, name: Bytes, text: Bytes) {
    if name in c.files then c.files[name].size <= 512 && FatRun.Text(c.files[name]) == text
    else text == [] || c.slots >= FatDisk.SLOTS
  }

  lemma TextStep(f: FatRun.File, chunks: seq<Bytes>)
    requires f.size <= 512 && chunks != [] && |FatRun.Text(f) + FatAppend.Concat(chunks)| <= 512
    ensures var g := FatRun.Extended(f, chunks[0]);
            g.size <= 512 && FatRun.Text(g) + FatAppend.Concat(chunks[1..]) == FatRun.Text(f) + FatAppend.Concat(chunks)
  {
    FatRun.ExtendedText(f, chunks[0]);
    Reassociate(FatRun.Text(f), chunks[0], FatAppend.Concat(chunks[1..]));
  }

  /** Appends extend the file's text by their concatenation. */
  lemma {:induction false} AppendsText(c: FatRun.Catalog, filename: Bytes, name: Bytes, chunks: seq<Bytes>)
    requires name == FatNames.FatName(filename) && FatFiles.Usable(name) && Short(chunks)
    requires name in c.files && c.files[name].size <= 512
    requires |FatRun.Text(c.files[name]) + FatAppend.Concat(chunks)| <= 512
    ensures var d := AppendChunks(c, filename, chunks);
            && name in d.files && d.files[name].size <= 512
            && FatRun.Text(d.files[name]) == FatRun.Text(c.files[name]) + FatAppend.Concat(chunks)
    decreases |chunks|
  {
    FirstChunk(c, filename, chunks);
    var f := c.files[name];
    if chunks == [] {
      assert FatRun.Text(f) + FatAppend.Concat(chunks) == FatRun.Text(f);
    } else {
      TextStep(f, chunks);
      AppendsText(FatRun.Do(c, FatRun.AppendOp(filename, chunks[0])), filename, name, chunks[1..]);
    }
  }

  lemma {:induction false} AppendsInVain(c: FatRun.Catalog, filename: Bytes, chunks: seq<Bytes>)
    requires FatFiles.Usable(FatNames.FatName(filename)) && Short(chunks)
    requires FatNames.FatName(filename) !in c.files && c.slots >= FatDisk.SLOTS
    ensures AppendChunks(c, filename, chunks) == c
    decreases |chunks|
  {
    FirstChunk(c, filename, chunks);
    if chunks != [] { AppendsInVain(c, filename, chunks[1..]); }
  }

  lemma AppendsCreate(c: FatRun.Catalog, filename: Bytes, name: Bytes, chunks: seq<Bytes>)
    requires name == FatNames.FatName(filename) && FatFiles.Usable(name) && Short(chunks)
    requires name !in c.files && c.slots < FatDisk.SLOTS && chunks != [] && |FatAppend.Concat(chunks)| <= 512
    ensures var d := AppendChunks(c, filename, chunks);
            name in d.files && d.files[name].size <= 512 && FatRun.Text(d.files[name]) == FatAppend.Concat(chunks)
  {
    FirstChunk(c, filename, chunks);
    FatRun.FreshText(chunks[0]);
    AppendsText(FatRun.Do(c, FatRun.AppendOp(filename, chunks[0])), filename, name, chunks[1..]);
  }

  lemma AppendsKept(c: FatRun.Catalog, filename: Bytes, name: Bytes, text: Bytes, chunks: seq<Bytes>)
    requires name == FatNames.FatName(filename) && FatFiles.Usable(name) && Short(chunks)
    requires Kept(c, name, text) && |text + FatAppend.Concat(chunks)| <= 512
    ensures Kept(AppendChunks(c, filename, chunks), name, text + FatAppend.Concat(chunks))
  {
    if name in c.files {
      AppendsText(c, filename, name, chunks);
    } else if c.slots >= FatDisk.SLOTS {
      AppendsInVain(c, filename, chunks);
    } else {
      assert text + FatAppend.Concat(chunks) == FatAppend.Concat(chunks);
      FirstChunk(c, filename, chunks);
      if chunks != [] { AppendsCreate(c, filename, name, chunks); }
    }
  }

  // ---- Slots ----

  lemma {:induction false} FileStays(c: FatRun.Catalog, filename: Bytes, chunks: seq<Bytes>)
    requires FatFiles.Usable(FatNames.FatName(filename)) && Short(chunks) && FatNames.FatName(filename) in c.files
    ensures FatNames.FatName(filename) in AppendChunks(c, filename, chunks).files
    decreases |chunks|
  {
    FirstChunk(c, filename, chunks);
    if chunks != [] { FileStays(FatRun.Do(c, FatRun.AppendOp(filename, chunks[0])), filename, chunks[1..]); }
  }

  /** If the file is still not there after its appends, they changed nothing. */
  lemma StillAbsent(c: FatRun.Catalog, filename: Bytes, chunks: seq<Bytes>)
    requires FatFiles.Usable(FatNames.FatName(filename)) && Short(chunks)
    requires FatNames.FatName(filename) !in AppendChunks(c, filename, chunks).files
    ensures AppendChunks(c, filename, chunks) == c
  {
    FirstChunk(c, filename, chunks);
    if FatNames.FatName(filename) in c.files {
      FileStays(c, filename, chunks);
    } else if c.slots >= FatDisk.SLOTS {
      AppendsInVain(c, filename, chunks);
    } else if chunks != [] {
      FileStays(FatRun.Do(c, FatRun.AppendOp(filename, chunks[0])), filename, chunks[1..]);
    }
  }

  // ---- Runs ----

  function NextCatalog(c: FatRun.Catalog, log: Bytes, w: World, a: Action): FatRun.Catalog
    requires ContextsFit(w) && Fits(log, a) && FatFiles.Usable(FatNames.FatName(log))
  {
    match a
    case FileAction(op) => FatRun.Do(c, op)
    case WatchAction(LogOp(_)) => c
    case WatchAction(SyncOp) =>
      CollectBounded(w.ring, w.ring.cursor);
      AppendChunks(c, log, Chunks(Sync(w.ring).1))
  }

  function NextWorld(w: World, a: Action): World
    requires ContextsFit(w)
  {
    if a.WatchAction? then Step(w, a.watch) else w
  }

  /** The plain map of files after the actions. */
  function CatalogAfter(c: FatRun.Catalog, log: Bytes, w: World, actions: seq<Action>): FatRun.Catalog
    requires ContextsFit(w) && AllFit(log, actions) && FatFiles.Usable(FatNames.FatName(log))
    decreases |actions|
  {
    if actions == [] then c
    else
      if actions[0].WatchAction? then ContextsStayFit(w, actions[0].watch);
        CatalogAfter(NextCatalog(c, log, w, actions[0]), log, NextWorld(w, actions[0]), actions[1..])
      else CatalogAfter(NextCatalog(c, log, w, actions[0]), log, w, actions[1..])
  }

  ghost predicate InStep(v: FatDisk.Volume, log: Bytes, name: Bytes, s: State, c: FatRun.Catalog) {
    && name == FatNames.FatName(log) && FatFiles.Usable(name) && ContextsFit(s.world)
    && FatRun.Represents(v, s.disk, c) && Kept(c, name, Written(s.world.persisted))
  }

  lemma SyncRepresents(v: FatDisk.Volume, disk: FatDisk.Disk, c: FatRun.Catalog, log: Bytes, chunks: seq<Bytes>)
    requires FatFiles.Usable(FatNames.FatName(log)) && Short(chunks) && FatRun.Represents(v, disk, c)
    ensures FatRun.Represents(v, FatAppend.AppendAll(v, disk, log, chunks), AppendChunks(c, log, chunks))
  {
    AppendAllIsRun(v, disk, log, chunks);
    FatRun.RunRepresents(v, disk, Appends(log, chunks), c);
  }

  lemma OtherFile(c: FatRun.Catalog, op: FatRun.Op, name: Bytes, text: Bytes)
    requires FatRun.Proper(op) && FatNames.FatName(op.filename) != name && Kept(c, name, text)
    ensures Kept(FatRun.Do(c, op), name, text)
  {
  }

  lemma StepInStep(v: FatDisk.Volume, log: Bytes, name: Bytes, s: State, c: FatRun.Catalog, a: Action)
    requires InStep(v, log, name, s, c) && Fits(log, a) && |Written(Perform(v, log, s, a).world.persisted)| <= 512
    ensures InStep(v, log, name, Perform(v, log, s, a), NextCatalog(c, log, s.world, a))
  {
    WorldFits(v, log, s, a);
    if a.FileAction? {
      FatRun.StepRepresents(v, s.disk, a.file, c);
      OtherFile(c, a.file, name, Written(s.world.persisted));
    } else if a.watch.SyncOp? {
      var more := Sync(s.world.ring).1;
      CollectBounded(s.world.ring, s.world.ring.cursor);
      SyncRepresents(v, s.disk, c, log, Chunks(more));
      WrittenAppend(s.world.persisted, more);
      AppendsKept(c, log, name, Written(s.world.persisted), Chunks(more));
    }
  }

  lemma WatchedRuns(w: World, actions: seq<Action>)
    requires Shaped(w.ring) && actions != []
    ensures var t := if actions[0].WatchAction? then Step(w, actions[0].watch) else w;
            Run(w, Watched(actions)) == Run(t, Watched(actions[1..]))
  {
    if actions[0].WatchAction? {
      assert Watched(actions)[1..] == Watched(actions[1..]);
    } else {
      assert Watched(actions) == Watched(actions[1..]);
    }
  }

  lemma {:induction false} RunInStep(
      v: FatDisk.Volume, log: Bytes, name: Bytes, s: State, c: FatRun.Catalog, actions: seq<Action>)
    requires InStep(v, log, name, s, c) && AllFit(log, actions)
    requires |Written(Run(s.world, Watched(actions)).persisted)| <= 512
    ensures InStep(v, log, name, PerformAll(v, log, s, actions), CatalogAfter(c, log, s.world, actions))
    ensures PerformAll(v, log, s, actions).world == Run(s.world, Watched(actions))
    decreases |actions|
  {
    if actions != [] {
      var a := actions[0];
      var t := Perform(v, log, s, a);
      WorldFits(v, log, s, a);
      WatchedRuns(s.world, actions);
      PersistedGrows(t.world, Watched(actions[1..]));
      StepInStep(v, log, name, s, c, a);
      RunInStep(v, log, name, t, NextCatalog(c, log, s.world, a), actions[1..]);
    }
  }

  // ---- Room for the log ----

  function FileCount(actions: seq<Action>): nat {
    if actions == [] then 0 else (if actions[0].FileAction? then 1 else 0) + FileCount(actions[1..])
  }

  lemma NextSlots(c: FatRun.Catalog, log: Bytes, w: World, a: Action)
    requires ContextsFit(w) && Fits(log, a) && FatFiles.Usable(FatNames.FatName(log))
    requires FatNames.FatName(log) !in NextCatalog(c, log, w, a).files
    ensures NextCatalog(c, log, w, a).slots <= c.slots + if a.FileAction? then 1 else 0
  {
    if a.WatchAction? && a.watch.SyncOp? {
      CollectBounded(w.ring, w.ring.cursor);
      StillAbsent(c, log, Chunks(Sync(w.ring).1));
    }
  }

  lemma StaysPresent(c: FatRun.Catalog, log: Bytes, w: World, a: Action)
    requires ContextsFit(w) && Fits(log, a) && FatFiles.Usable(FatNames.FatName(log))
    requires FatNames.FatName(log) in c.files
    ensures FatNames.FatName(log) in NextCatalog(c, log, w, a).files
  {
    if a.WatchAction? && a.watch.SyncOp? {
      CollectBounded(w.ring, w.ring.cursor);
      FileStays(c, log, Chunks(Sync(w.ring).1));
    }
  }

  /** As long as there is no log file, only file operations take slots. */
  lemma {:induction false} SlotsCounted(c: FatRun.Catalog, log: Bytes, name: Bytes, w: World, actions: seq<Action>)
    requires ContextsFit(w) && AllFit(log, actions) && name == FatNames.FatName(log) && FatFiles.Usable(name)
    ensures name in c.files ==> name in CatalogAfter(c, log, w, actions).files
    ensures name !in CatalogAfter(c, log, w, actions).files ==>
              CatalogAfter(c, log, w, actions).slots <= c.slots + FileCount(actions)
    decreases |actions|
  {
    if actions != [] {
      var a := actions[0];
      if a.WatchAction? { ContextsStayFit(w, a.watch); }
      var next := NextCatalog(c, log, w, a);
      if name in c.files { StaysPresent(c, log, w, a); }
      if name !in next.files { NextSlots(c, log, w, a); }
      SlotsCounted(next, log, name, NextWorld(w, a), actions[1..]);
    }
  }

  // ---- The theorem ----

  lemma {:induction false} LastAction(actions: seq<Action>, last: Op)
    ensures Watched(actions + [WatchAction(last)]) == Watched(actions) + [last]
    ensures FileCount(actions + [WatchAction(last)]) == FileCount(actions)
    decreases |actions|
  {
    var all := actions + [WatchAction(last)];
    if actions == [] {
      assert all[0] == WatchAction(last) && all[1..] == [];
    } else {
      assert all[0] == actions[0] && all[1..] == actions[1..] + [WatchAction(last)];
      LastAction(actions[1..], last);
      Reassociate(if actions[0].WatchAction? then [actions[0].watch] else [], Watched(actions[1..]), [last]);
    }
  }

  /** The run, then one more sync. */
  function Synced(actions: seq<Action>): seq<Action> { actions + [WatchAction(SyncOp)] }

  lemma SharedFile(v: FatDisk.Volume, log: Bytes, name: Bytes, s: State, actions: seq<Action>, text: Bytes)
    requires name == FatNames.FatName(log) && FatFiles.Usable(name) && AllFit(log, Synced(actions))
    requires InStep(v, log, name, s, FatRun.EMPTY) && |text| <= 512
    requires text == Written(Run(s.world, Watched(actions) + [SyncOp]).persisted)
    ensures var d := PerformAll(v, log, s, Synced(actions)).disk;
            var c := CatalogAfter(FatRun.EMPTY, log, s.world, Synced(actions));
            && FatRun.Represents(v, d, c) && Kept(c, name, text)
            && FatDisk.ReadFile(v, d, log, 513) == (if name in c.files then FatDisk.Content(text) else FatDisk.NotFound)
            && (name !in c.files ==> c.slots <= FileCount(actions) && (text == [] || c.slots == FatDisk.SLOTS))
  {
    LastAction(actions, SyncOp);
    RunInStep(v, log, name, s, FatRun.EMPTY, Synced(actions));
    SlotsCounted(FatRun.EMPTY, log, name, s.world, Synced(actions));
    var d := PerformAll(v, log, s, Synced(actions)).disk;
    var c := CatalogAfter(FatRun.EMPTY, log, s.world, Synced(actions));
    FatRun.ReadRepresents(v, d, c, log, 513);
    if name in c.files { FatRun.ReadsText(c, name, 513); }
  }

  lemma WrittenSome(events: seq<Event>)
    requires events != []
    ensures Written(events) != []
  {
    ChunksSplit(events);
  }

  lemma LogReads(
      v: FatDisk.Volume, log: Bytes, name: Bytes, s: State, actions: seq<Action>, commits: seq<Event>,
      txs: seq<Transaction>)
    requires name == FatNames.FatName(log) && FatFiles.Usable(name) && AllFit(log, Synced(actions))
    requires InStep(v, log, name, s, FatRun.EMPTY) && Inv(s.world)
    requires Committed(Run(s.world, Watched(actions)), txs)
    requires commits == Persistables(Run(s.world, Watched(actions)).logged)
    ensures var d := PerformAll(v, log, s, Synced(actions)).disk;
            var c := CatalogAfter(FatRun.EMPTY, log, s.world, Synced(actions));
            && FatRun.Represents(v, d, c)
            && ReadLog(v, d, log) == (if name in c.files then Some(Transactions(txs)) else None)
            && (name !in c.files ==> c.slots == FatDisk.SLOTS <= FileCount(actions))
  {
    LastSyncPersistsAll(s.world, Watched(actions));
    SharedFile(v, log, name, s, actions, Written(commits));
    WrittenSome(commits);
    var d := PerformAll(v, log, s, Synced(actions)).disk;
    if FatDisk.ReadFile(v, d, log, 513).Content? { LogDecodes(v, d, log, commits, txs); }
  }

  /** After any interleaving of other files' writes and appends with logging and syncing, the log reads
      back as exactly the committed transactions, or does not exist because the directory was full, which
      takes at least sixteen file operations; and every read of any file is that of the plain map. */
  lemma SharedLog(
      v: FatDisk.Volume, disk: FatDisk.Disk, log: Bytes, initial: seq<Event>, actions: seq<Action>,
      txs: seq<Transaction>, filename: Bytes, maxLen: u32)
    requires |initial| == SLOTS && Bounded(initial) && FatFiles.Formatted(v, disk)
    requires FatFiles.Usable(FatNames.FatName(log)) && AllFit(log, Synced(actions))
    requires Committed(Run(Init(initial), Watched(actions)), txs)
    requires FatFiles.Usable(FatNames.FatName(filename)) && maxLen > 0
    ensures var s := State(Init(initial), disk);
            var d := PerformAll(v, log, s, Synced(actions)).disk;
            var c := CatalogAfter(FatRun.EMPTY, log, s.world, Synced(actions));
            && ReadLog(v, d, log) == (if FatNames.FatName(log) in c.files then Some(Transactions(txs)) else None)
            && (FatNames.FatName(log) !in c.files ==> c.slots == FatDisk.SLOTS <= FileCount(actions))
            && FatDisk.ReadFile(v, d, filename, maxLen) == FatRun.ReadEntry(c, FatNames.FatName(filename), maxLen)
  {
    var w := Init(initial);
    FatRun.FormattedRepresents(v, disk);
    InitHolds(initial);
    var commits := Persistables(Run(w, Watched(actions)).logged);
    LogReads(v, log, FatNames.FatName(log), State(w, disk), actions, commits, txs);
    var d := PerformAll(v, log, State(w, disk), Synced(actions)).disk;
    FatRun.ReadRepresents(v, d, CatalogAfter(FatRun.EMPTY, log, w, Synced(actions)), filename, maxLen);
  }
}
