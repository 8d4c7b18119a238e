/** The watcher's code (kernel/watcher.c): the ring in its array, logging, and the sync loop that appends the
    unsynced commits to LEDGER.LOG through the file system. */
module WatcherDriver {
  import opened Machine
  import opened Watcher
  import FatNames
  import FatDisk
  import FatFiles
  import FatAppend
  import FatDriver
  import Receipt

  const CONTEXT_MAX: nat := 63

  /** "LEDGER.LOG" */
  function LedgerName(): (r: Bytes)
    ensures FatNames.CString(r)
  {
    [0x4C, 0x45, 0x44, 0x47, 0x45, 0x52, 0x2E, 0x4C, 0x4F, 0x47]
  }

  /** What persisting the events appends: each context and a line break. */
  function Chunks(events: seq<Event>): (r: seq<Bytes>)
    ensures (forall i :: 0 <= i < |events| ==> |events[i].context| < TWO_32) ==>
              forall i :: 0 <= i < |r| ==> |r[i]| < TWO_32
  {
    if events == [] then [] else [events[0].context, [FatNames.NEWLINE]] + Chunks(events[1..])
  }

  lemma {:induction false} ChunksAppend(a: seq<Event>, b: seq<Event>)
    ensures Chunks(a + b) == Chunks(a) + Chunks(b)
  {
    if a == [] {
      assert a + b == b;
    } else {
      assert (a + b)[1..] == a[1..] + b;
      ChunksAppend(a[1..], b);
    }
  }

  lemma {:induction false} AppendAllSplit(
      v: FatDisk.Volume, disk: FatDisk.Disk, filename: Bytes, a: seq<Bytes>, b: seq<Bytes>)
    requires forall i :: 0 <= i < |a| ==> |a[i]| < TWO_32
    requires forall i :: 0 <= i < |b| ==> |b[i]| < TWO_32
    ensures FatAppend.AppendAll(v, disk, filename, a + b)
         == FatAppend.AppendAll(v, FatAppend.AppendAll(v, disk, filename, a), filename, b)
    decreases |a|
  {
    if a == [] {
      assert a + b == b;
    } else {
      assert (a + b)[1..] == a[1..] + b;
      AppendAllSplit(v, FatDisk.AppendFile(v, disk, filename, a[0]).1, filename, a[1..], b);
    }
  }

  lemma CollectMore(r: Ring, current: nat, done: seq<Event>, all: seq<Event>)
    requires Shaped(r) && current < SLOTS && current != r.head && done + Collect(r, current) == all
    ensures (done + One(r.events[current])) + Collect(r, Next(current)) == all
    ensures done + [] == done
  {
    CollectStep(r, current);
    Reassociate(done, One(r.events[current]), Collect(r, Next(current)));
  }

  predicate Bounded(events: seq<Event>) { forall i :: 0 <= i < |events| ==> |events[i].context| <= CONTEXT_MAX }

  lemma {:induction false} CollectBounded(r: Ring, current: nat)
    requires Shaped(r) && current < SLOTS && Bounded(r.events)
    ensures Bounded(Collect(r, current))
    decreases Distance(current, r.head)
  {
    if current != r.head {
      Closer(current, r.head);
      CollectBounded(r, Next(current));
    }
  }

  lemma TwoAppends(v: FatDisk.Volume, disk: FatDisk.Disk, a: Bytes, b: Bytes)
    requires |a| < TWO_32 && |b| < TWO_32
    ensures FatAppend.AppendAll(v, disk, LedgerName(), [a, b])
         == FatDisk.AppendFile(v, FatDisk.AppendFile(v, disk, LedgerName(), a).1, LedgerName(), b).1
  {
    assert [a, b][0] == a && [a, b][1..] == [b] && [b][0] == b && [b][1..] == [];
    var d1 := FatDisk.AppendFile(v, disk, LedgerName(), a).1;
    var d2 := FatDisk.AppendFile(v, d1, LedgerName(), b).1;
    assert FatAppend.AppendAll(v, d2, LedgerName(), []) == d2;
    assert FatAppend.AppendAll(v, d1, LedgerName(), [b]) == d2;
  }

  lemma OneMore(v: FatDisk.Volume, disk: FatDisk.Disk, done: seq<Event>, e: Event)
    requires Bounded(done) && |e.context| <= CONTEXT_MAX
    ensures var d1 := FatAppend.AppendAll(v, disk, LedgerName(), Chunks(done));
            var d2 := FatDisk.AppendFile(v, d1, LedgerName(), e.context).1;
            FatAppend.AppendAll(v, disk, LedgerName(), Chunks(done + [e]))
            == FatDisk.AppendFile(v, d2, LedgerName(), [FatNames.NEWLINE]).1
  {
    ChunksAppend(done, [e]);
    assert Chunks([e]) == [e.context, [FatNames.NEWLINE]];
    var pair := [e.context, [FatNames.NEWLINE]];
    AppendAllSplit(v, disk, LedgerName(), Chunks(done), pair);
    var d1 := FatAppend.AppendAll(v, disk, LedgerName(), Chunks(done));
    TwoAppends(v, d1, e.context, [FatNames.NEWLINE]);
  }

  class WatcherState {
    const events: array<Event>
    var head: nat
    var tail: nat
    var count: nat
    var cursor: nat

    predicate Valid()
      reads this, events
    {
      && events.Length == SLOTS && head < SLOTS && tail < SLOTS && count <= SLOTS && cursor < SLOTS
      && forall i :: 0 <= i < SLOTS ==> |events[i].context| <= CONTEXT_MAX
    }

    function State(): (r: Ring)
      requires Valid()
      reads this, events
      ensures Shaped(r)
    {
      Ring(events[..], head, tail, count, cursor)
    }

    constructor ()
      ensures Valid() && fresh(events)
      ensures State().count == 0 && State().head == State().tail == State().cursor == 0
      ensures forall i :: 0 <= i < SLOTS ==> State().events[i] == Event(0, NoEvent, 0, [])
    {
      events := new Event[SLOTS](_ => Event(0, NoEvent, 0, []));
      head, tail, count, cursor := 0, 0, 0, 0;
    }

    /** Log an event; of the context, if there is one, the first 63 bytes are kept. */
    method LogEvent(timestamp: nat, kind: Kind, process: u32, context: Option<Bytes>)
      requires Valid()
      modifies this`head, this`tail, this`count, this`cursor, events
      ensures Valid()
      ensures State() == Log(old(State()), Event(timestamp, kind, process,
                           if context.Some? then FatNames.Take(context.value, CONTEXT_MAX) else []))
    {
      var idx := head;
      var kept: Bytes := [];
      if context.Some? {
        var i := 0;
        while i < |context.value| && i < CONTEXT_MAX
          invariant i <= |context.value| && i <= CONTEXT_MAX
          invariant kept == context.value[..i]
        {
          kept := kept + [context.value[i]];
          i := i + 1;
        }
        assert kept == FatNames.Take(context.value, CONTEXT_MAX);
      }
      events[idx] := Event(timestamp, kind, process, kept);
      head := (head + 1) % 64;
      if count < SLOTS {
        count := count + 1;
      } else {
        var oldTail := tail;
        tail := (tail + 1) % 64;
        if cursor == oldTail { cursor := tail; }
      }
    }

    /** Format the receipt of a transaction and log it; nothing of it is cut. */
    method CommitLedger(hash: u64, volume: i32, timestamp: nat)
      requires Valid()
      modifies this`head, this`tail, this`count, this`cursor, events
      ensures Valid()
      ensures State() == Log(old(State()),
                             Event(timestamp, LedgerCommit, 0, Receipt.ToBytes(Receipt.Text(hash, volume))))
    {
      var context, length := Receipt.FormatReceipt(hash, volume);
      Receipt.ReceiptFits(hash, volume);
      LogEvent(timestamp, LedgerCommit, 0, Some(Receipt.ToBytes(context[..length])));
    }

    /** If the event is a stamped commit, append its receipt and a line break. */
    method Persist(fs: FatDriver.FileSystem, e: Event, ghost start: FatDisk.Disk, ghost done: seq<Event>)
        returns (appended: bool)
      requires fs.Valid() && Bounded(done) && |e.context| <= CONTEXT_MAX
      requires fs.disk == FatAppend.AppendAll(fs.volume, start, LedgerName(), Chunks(done))
      modifies fs`disk, fs.diskBuffer, fs.writeBuffer
      ensures fs.Valid() && Bounded(done + One(e)) && appended == Persistable(e)
      ensures fs.disk == FatAppend.AppendAll(fs.volume, start, LedgerName(), Chunks(done + One(e)))
    {
      if e.timestamp != 0 && e.kind.LedgerCommit? {
        OneMore(fs.volume, start, done, e);
        var _ := fs.AppendFileContent(LedgerName(), e.context);
        var _ := fs.AppendFileContent(LedgerName(), [FatNames.NEWLINE]);
        appended := true;
      } else {
        assert done + [] == done;
        appended := false;
      }
    }

    /** Walk from the cursor to the head, appending every unsynced commit. */
    method PersistUnsynced(fs: FatDriver.FileSystem) returns (synced: nat)
      requires Valid() && fs.Valid()
      modifies fs`disk, fs.diskBuffer, fs.writeBuffer
      ensures Valid() && fs.Valid() && State() == old(State())
      ensures Bounded(Collect(State(), cursor)) && synced == |Collect(State(), cursor)|
      ensures fs.disk == FatAppend.AppendAll(fs.volume, old(fs.disk), LedgerName(), Chunks(Collect(State(), cursor)))
    {
      ghost var ring, start := State(), fs.disk;
      ghost var all := Collect(ring, cursor);
      CollectBounded(ring, cursor);
      var current: nat := cursor;
      synced := 0;
      ghost var done: seq<Event> := [];
      while current != head
        invariant current < SLOTS && State() == ring && fs.Valid()
        invariant Bounded(done) && synced == |done| && done + Collect(ring, current) == all
        invariant fs.disk == FatAppend.AppendAll(fs.volume, start, LedgerName(), Chunks(done))
        decreases Distance(current, head)
      {
        Closer(current, head);
        CollectMore(ring, current, done, all);
        var appended := Persist(fs, events[current], start, done);
        if appended { synced := synced + 1; }
        done := done + One(events[current]);
        current := Next(current);
      }
      assert done + [] == done;
    }

    /** Append every unsynced commit to the ledger file, then move the cursor up to the head. */
    method SyncToDisk(fs: FatDriver.FileSystem) returns (synced: nat)
      requires Valid() && fs.Valid()
      modifies this`cursor, fs`disk, fs.diskBuffer, fs.writeBuffer
      ensures Valid() && fs.Valid()
      ensures State() == Sync(old(State())).0 && synced == |Sync(old(State())).1|
      ensures Bounded(Sync(old(State())).1)
      ensures fs.disk == FatAppend.AppendAll(fs.volume, old(fs.disk), LedgerName(), Chunks(Sync(old(State())).1))
    {
      if cursor == head {
        return 0;
      }
      synced := PersistUnsynced(fs);
      cursor := head;
    }
  }
}
