/** The ledger file end to end: events logged, synced and appended sector-wise (kernel/watcher.c over
    modules/fs/fat32.c) read back from LEDGER.LOG as the transactions that were committed. */
module Ledger {
  import opened Machine
  import opened Watcher
  import opened WatcherDriver
  import FatNames
  import FatDisk
  import FatFiles
  import FatAppend
  import FatListing
  import Receipt

  datatype State = State(world: World, disk: FatDisk.Disk)

  predicate OpFits(op: Op) { op.LogOp? ==> |op.event.context| <= CONTEXT_MAX }

  predicate ContextsFit(w: World) { Shaped(w.ring) && Bounded(w.ring.events) && Bounded(w.persisted) }

  function Act(v: FatDisk.Volume, s: State, op: Op): State
    requires ContextsFit(s.world)
  {
    var disk := if op.SyncOp? then
                  CollectBounded(s.world.ring, s.world.ring.cursor);
                  FatAppend.AppendAll(v, s.disk, LedgerName(), Chunks(Sync(s.world.ring).1))
                else s.disk;
    State(Step(s.world, op), disk)
  }

  lemma ContextsStayFit(w: World, op: Op)
    requires ContextsFit(w) && OpFits(op)
    ensures ContextsFit(Step(w, op))
  {
    CollectBounded(w.ring, w.ring.cursor);
  }

  function Acts(v: FatDisk.Volume, s: State, ops: seq<Op>): State
    requires ContextsFit(s.world) && forall i :: 0 <= i < |ops| ==> OpFits(ops[i])
    decreases |ops|
  {
    if ops == [] then s
    else
      ContextsStayFit(s.world, ops[0]);
      Acts(v, Act(v, s, ops[0]), ops[1..])
  }

  function Name(): Bytes { FatNames.FatName(LedgerName()) }

  /** The text the persisted commits make. */
  function Written(events: seq<Event>): Bytes { FatAppend.Concat(Chunks(events)) }

  ghost predicate FileHolds(v: FatDisk.Volume, disk: FatDisk.Disk, name: Bytes, persisted: seq<Event>)
    requires |name| == 11
  {
    if persisted == [] then
      && FatFiles.Inv(v, disk)
      && FatDisk.Lookup(FatFiles.Dir(v, disk), name).None?
      && FatDisk.FreeCluster(FatFiles.Fat(v, disk)).Some?
      && FatDisk.FreeSlot(FatFiles.Dir(v, disk)).Some?
    else FatFiles.Holds(v, disk, name, Written(persisted))
  }

  /** Before the first commit is persisted there is no ledger file but room for one; from then on
      the file holds exactly the persisted text. */
  ghost predicate FileInStep(v: FatDisk.Volume, s: State) { FileHolds(v, s.disk, Name(), s.world.persisted) }

  lemma {:induction false} ConcatAppend(a: seq<Bytes>, b: seq<Bytes>)
    ensures FatAppend.Concat(a + b) == FatAppend.Concat(a) + FatAppend.Concat(b)
  {
    if a == [] {
      assert a + b == b;
    } else {
      assert (a + b)[1..] == a[1..] + b;
      ConcatAppend(a[1..], b);
      Reassociate(a[0], FatAppend.Concat(a[1..]), FatAppend.Concat(b));
    }
  }

  lemma WrittenAppend(a: seq<Event>, b: seq<Event>)
    ensures Written(a + b) == Written(a) + Written(b)
  {
    ChunksAppend(a, b);
    ConcatAppend(Chunks(a), Chunks(b));
  }

  lemma LedgerNameUsable()
    ensures FatFiles.Usable(Name())
  {
    FatNames.FirstByte(LedgerName());
  }

  lemma SyncAppends(v: FatDisk.Volume, disk: FatDisk.Disk, log: Bytes, before: seq<Event>, more: seq<Event>)
    requires FatFiles.Usable(FatNames.FatName(log)) && Bounded(more) && more != []
    requires FileHolds(v, disk, FatNames.FatName(log), before) && |Written(before + more)| <= 512
    ensures FileHolds(v, FatAppend.AppendAll(v, disk, log, Chunks(more)), FatNames.FatName(log), before + more)
  {
    if before == [] {
      assert before + more == more;
      FatAppend.AppendAllCreates(v, disk, log, Chunks(more));
    } else {
      WrittenAppend(before, more);
      FatAppend.AppendAllHolds(v, disk, log, Written(before), Chunks(more));
    }
  }

  /** One sync keeps the file in step with what the history says is persisted. */
  lemma SyncInStep(v: FatDisk.Volume, s: State)
    requires ContextsFit(s.world) && FileInStep(v, s)
    requires |Written(Step(s.world, SyncOp).persisted)| <= 512
    ensures FileInStep(v, Act(v, s, SyncOp))
  {
    var before, more := s.world.persisted, Sync(s.world.ring).1;
    CollectBounded(s.world.ring, s.world.ring.cursor);
    LedgerNameUsable();
    if more == [] {
      assert before + more == before;
    } else {
      SyncAppends(v, s.disk, LedgerName(), before, more);
    }
  }

  lemma {:induction false} PersistedGrows(w: World, ops: seq<Op>)
    requires Shaped(w.ring)
    ensures w.persisted <= Run(w, ops).persisted
    ensures |Written(w.persisted)| <= |Written(Run(w, ops).persisted)|
    decreases |ops|
  {
    if ops != [] {
      var t := Step(w, ops[0]);
      PersistedGrows(t, ops[1..]);
      if ops[0].SyncOp? { WrittenAppend(w.persisted, Sync(w.ring).1); }
    }
  }

  lemma {:induction false} RunInStep(v: FatDisk.Volume, s: State, ops: seq<Op>)
    requires ContextsFit(s.world) && FileInStep(v, s) && forall i :: 0 <= i < |ops| ==> OpFits(ops[i])
    requires |Written(Run(s.world, ops).persisted)| <= 512
    ensures Acts(v, s, ops).world == Run(s.world, ops) && FileInStep(v, Acts(v, s, ops))
    decreases |ops|
  {
    if ops != [] {
      ContextsStayFit(s.world, ops[0]);
      PersistedGrows(Step(s.world, ops[0]), ops[1..]);
      if ops[0].SyncOp? { SyncInStep(v, s); }
      RunInStep(v, Act(v, s, ops[0]), ops[1..]);
    }
  }

  // ---- Reading the file back ----

  datatype Transaction = Transaction(hash: u64, volume: i32)

  /** What the receipt of a transaction reads as: nothing at all for the lowest volume. */
  function Readable(tx: Transaction): Option<(nat, int)> {
    if tx.volume == Receipt.LOWEST then None else Some((tx.hash, tx.volume as int))
  }

  /** The event a commit logs: its receipt, which the 63-byte copy never cuts. */
  predicate Records(e: Event, tx: Transaction) {
    e.context == FatNames.Take(Receipt.ToBytes(Receipt.Text(tx.hash, tx.volume)), CONTEXT_MAX)
  }

  function Decode(lines: seq<Bytes>): seq<Option<(nat, int)>> {
    if lines == [] then [] else [Receipt.Read(Receipt.ToText(lines[0]))] + Decode(lines[1..])
  }

  function Transactions(txs: seq<Transaction>): seq<Option<(nat, int)>> {
    if txs == [] then [] else [Readable(txs[0])] + Transactions(txs[1..])
  }

  lemma RecordReads(e: Event, tx: Transaction)
    requires Records(e, tx)
    ensures FatNames.NEWLINE !in e.context && Receipt.Read(Receipt.ToText(e.context)) == Readable(tx)
  {
    Receipt.ReceiptFits(tx.hash, tx.volume);
    Receipt.ReceiptReads(tx.hash, tx.volume);
    Receipt.PlainBytes(Receipt.Text(tx.hash, tx.volume));
  }

  lemma ChunksSplit(events: seq<Event>)
    requires events != []
    ensures Written(events) == events[0].context + [FatNames.NEWLINE] + Written(events[1..])
  {
    var context, line: Bytes, rest := events[0].context, [FatNames.NEWLINE], Chunks(events[1..]);
    var c := Chunks(events);
    assert c == [context, line] + rest;
    assert c[0] == context && c[1..] == [line] + rest;
    assert ([line] + rest)[0] == line && ([line] + rest)[1..] == rest;
    assert FatAppend.Concat(c[1..]) == line + FatAppend.Concat(rest);
    Reassociate(context, line, FatAppend.Concat(rest));
  }

  lemma {:induction false} WrittenDecodes(events: seq<Event>, txs: seq<Transaction>)
    requires |events| == |txs| && forall i :: 0 <= i < |txs| ==> Records(events[i], txs[i])
    ensures Decode(FatListing.Lines(Written(events), [])) == Transactions(txs)
    decreases |events|
  {
    if events != [] {
      var line, rest := events[0].context, Written(events[1..]);
      RecordReads(events[0], txs[0]);
      WrittenDecodes(events[1..], txs[1..]);
      ChunksSplit(events);
      FatListing.LineComesOff(line, rest, []);
      assert [] + line == line;
      var lines := FatListing.Lines(Written(events), []);
      assert lines[1..] == FatListing.Lines(rest, []);
    }
  }

  /** What the run has logged: fewer than 64 events, whose commits are these transactions and whose
      text fits one sector. */
  ghost predicate Committed(w: World, txs: seq<Transaction>) {
    var commits := Persistables(w.logged);
    && |w.logged| < 64 && |commits| == |txs| > 0
    && (forall i :: 0 <= i < |txs| ==> Records(commits[i], txs[i]))
    && |Written(commits)| <= 512
  }

  /** Every event the run logs carries at most 63 bytes of context. */
  predicate OpsFit(ops: seq<Op>) { forall i :: 0 <= i < |ops| ==> OpFits(ops[i]) }

  /** Run from start-up, then sync once more. */
  function SyncedDisk(v: FatDisk.Volume, disk: FatDisk.Disk, initial: seq<Event>, ops: seq<Op>): FatDisk.Disk
    requires |initial| == SLOTS && Bounded(initial) && OpsFit(ops)
  {
    Acts(v, State(Init(initial), disk), ops + [SyncOp]).disk
  }

  /** A log file as a reader decodes it. */
  function ReadLog(v: FatDisk.Volume, disk: FatDisk.Disk, log: Bytes): Option<seq<Option<(nat, int)>>> {
    match FatDisk.ReadFile(v, disk, log, 513)
    case Content(bytes) => Some(Decode(FatListing.Lines(bytes, [])))
    case _ => None
  }

  function ReadLedger(v: FatDisk.Volume, disk: FatDisk.Disk): Option<seq<Option<(nat, int)>>> {
    ReadLog(v, disk, LedgerName())
  }

  lemma {:induction false} RunSplit(w: World, ops: seq<Op>)
    requires Inv(w)
    ensures Inv(Run(w, ops)) && Run(w, ops + [SyncOp]) == Step(Run(w, ops), SyncOp)
    decreases |ops|
  {
    RunKeeps(w, ops);
    if ops == [] {
      assert [] + [SyncOp] == [SyncOp];
      assert Run(Step(w, SyncOp), []) == Step(w, SyncOp);
    } else {
      RunKeeps(w, [ops[0]]);
      assert Run(w, [ops[0]]) == Run(Step(w, ops[0]), []) == Step(w, ops[0]);
      assert (ops + [SyncOp])[1..] == ops[1..] + [SyncOp];
      RunSplit(Step(w, ops[0]), ops[1..]);
    }
  }

  lemma LastSyncPersistsAll(w: World, ops: seq<Op>)
    requires Inv(w) && |Run(w, ops).logged| < 64
    ensures Run(w, ops + [SyncOp]).persisted == Persistables(Run(w, ops).logged)
  {
    RunSplit(w, ops);
    EarlySyncPersistsAll(Run(w, ops));
  }

  lemma RunToFile(v: FatDisk.Volume, s: State, ops: seq<Op>, events: seq<Event>)
    requires ContextsFit(s.world) && FileInStep(v, s) && OpsFit(ops)
    requires Run(s.world, ops).persisted == events != [] && |Written(events)| <= 512
    ensures FatFiles.Holds(v, Acts(v, s, ops).disk, Name(), Written(events))
  {
    RunInStep(v, s, ops);
  }

  lemma LastSyncHolds(v: FatDisk.Volume, s: State, ops: seq<Op>, commits: seq<Event>)
    requires ContextsFit(s.world) && Inv(s.world) && FileInStep(v, s) && OpsFit(ops)
    requires |Run(s.world, ops).logged| < 64 && commits == Persistables(Run(s.world, ops).logged)
    requires commits != [] && |Written(commits)| <= 512
    ensures FatFiles.Holds(v, Acts(v, s, ops + [SyncOp]).disk, Name(), Written(commits))
  {
    LastSyncPersistsAll(s.world, ops);
    RunToFile(v, s, ops + [SyncOp], commits);
  }

  lemma InitHolds(initial: seq<Event>)
    requires |initial| == SLOTS
    ensures Inv(Init(initial))
  {
    assert Init(initial).logged[..0] == [];
  }

  lemma SyncedDiskHolds(v: FatDisk.Volume, disk: FatDisk.Disk, initial: seq<Event>, ops: seq<Op>, commits: seq<Event>)
    requires |initial| == SLOTS && Bounded(initial) && OpsFit(ops) && FileInStep(v, State(Init(initial), disk))
    requires |Run(Init(initial), ops).logged| < 64 && commits == Persistables(Run(Init(initial), ops).logged)
    requires commits != [] && |Written(commits)| <= 512
    ensures FatFiles.Holds(v, SyncedDisk(v, disk, initial, ops), Name(), Written(commits))
  {
    InitHolds(initial);
    LastSyncHolds(v, State(Init(initial), disk), ops, commits);
  }

  lemma HeldLedgerContent(v: FatDisk.Volume, disk: FatDisk.Disk, content: seq<u8>)
    requires FatFiles.Holds(v, disk, Name(), content) && |content| <= 512
    ensures FatDisk.ReadFile(v, disk, LedgerName(), 513) == FatDisk.Content(content)
  {
    FatFiles.HeldReads(v, disk, LedgerName(), content, 513);
  }

  lemma LogDecodes(v: FatDisk.Volume, disk: FatDisk.Disk, log: Bytes, events: seq<Event>, txs: seq<Transaction>)
    requires FatDisk.ReadFile(v, disk, log, 513) == FatDisk.Content(Written(events))
    requires |events| == |txs| && forall i :: 0 <= i < |txs| ==> Records(events[i], txs[i])
    ensures ReadLog(v, disk, log) == Some(Transactions(txs))
  {
    WrittenDecodes(events, txs);
  }

  lemma HeldLedgerReads(v: FatDisk.Volume, disk: FatDisk.Disk, events: seq<Event>, txs: seq<Transaction>)
    requires FatFiles.Holds(v, disk, Name(), Written(events)) && |Written(events)| <= 512
    requires |events| == |txs| && forall i :: 0 <= i < |txs| ==> Records(events[i], txs[i])
    ensures ReadLedger(v, disk) == Some(Transactions(txs))
  {
    HeldLedgerContent(v, disk, Written(events));
    LogDecodes(v, disk, LedgerName(), events, txs);
  }

  /** Where nothing has been persisted there is no ledger. */
  lemma NothingHeld(v: FatDisk.Volume, disk: FatDisk.Disk)
    requires FileHolds(v, disk, Name(), [])
    ensures ReadLedger(v, disk) == None
  {
    LedgerNameUsable();
  }

  lemma NoCommitsNoLedger(v: FatDisk.Volume, s: State, ops: seq<Op>)
    requires ContextsFit(s.world) && Inv(s.world) && FileInStep(v, s) && OpsFit(ops)
    requires |Run(s.world, ops).logged| < 64 && Persistables(Run(s.world, ops).logged) == []
    ensures ReadLedger(v, Acts(v, s, ops + [SyncOp]).disk) == None
  {
    LastSyncPersistsAll(s.world, ops);
    RunInStep(v, s, ops + [SyncOp]);
    NothingHeld(v, Acts(v, s, ops + [SyncOp]).disk);
  }

  /** A freshly formatted volume is such a start. */
  lemma FormattedStarts(v: FatDisk.Volume, disk: FatDisk.Disk, initial: seq<Event>)
    requires |initial| == SLOTS && FatFiles.Formatted(v, disk)
    ensures FileInStep(v, State(Init(initial), disk))
  {
    FatFiles.FormattedIsSound(v, disk, Name());
  }

  /** From start-up, with no ledger file yet and room for one: after any run of logging and syncing
      that ends with a sync, LEDGER.LOG reads back, line by line, as exactly the transactions
      committed, in order. */
  lemma LedgerReadsBack(
      v: FatDisk.Volume, disk: FatDisk.Disk, initial: seq<Event>, ops: seq<Op>, txs: seq<Transaction>)
    requires |initial| == SLOTS && Bounded(initial) && OpsFit(ops)
    requires FileInStep(v, State(Init(initial), disk)) && Committed(Run(Init(initial), ops), txs)
    ensures ReadLedger(v, SyncedDisk(v, disk, initial, ops)) == Some(Transactions(txs))
  {
    var commits := Persistables(Run(Init(initial), ops).logged);
    SyncedDiskHolds(v, disk, initial, ops, commits);
    HeldLedgerReads(v, SyncedDisk(v, disk, initial, ops), commits, txs);
  }
}
