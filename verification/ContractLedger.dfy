/** Contracts and the ledger together (autarky_vm/src/lib.rs, kernel/syscall.c, kernel/watcher.c): every
    contract that commits is on the volume after the next sync, with its id and its volume. */
module ContractLedger {
  import opened Machine
  import opened Watcher
  import opened WatcherDriver
  import opened Ledger
  import Contract
  import FatDisk
  import FatFiles
  import FatNames
  import Receipt
  import Vm

  /** One execution as the request handler starts it: the file it names, the text that file holds, and
      what the timer, the network and the evaluator's budget contribute. */
  datatype Job = Job(
    filename: Bytes, process: u32, text: string, fuel: nat, nonce: u64, polls: Vm.Polls,
    requestedAt: nat, committedAt: nat)

  datatype Item = Execution(job: Job) | Synchronisation

  function Verdict(j: Job): Contract.Verdict { Contract.Execute(j.fuel, j.text, j.nonce, j.polls) }

  /** The transaction a job commits, if its contract comes to a result. */
  function Transacted(j: Job): seq<Transaction> {
    var verdict := Verdict(j);
    if verdict.Committed? then [Transaction(verdict.hash, verdict.volume)] else []
  }

  function CommitEvent(timestamp: nat, tx: Transaction): Event {
    Event(timestamp, LedgerCommit, 0, FatNames.Take(Receipt.ToBytes(Receipt.Text(tx.hash, tx.volume)), CONTEXT_MAX))
  }

  /** What one job logs: the request, then the commit. */
  function JobEvents(j: Job): seq<Event> {
    [Event(j.requestedAt, FsRead, j.process, FatNames.Take(j.filename, CONTEXT_MAX))]
    + if Transacted(j) == [] then [] else [CommitEvent(j.committedAt, Transacted(j)[0])]
  }

  function Logs(events: seq<Event>): (ops: seq<Op>)
    ensures |ops| == |events| && forall i :: 0 <= i < |events| ==> ops[i] == LogOp(events[i])
  {
    seq(|events|, i requires 0 <= i < |events| => LogOp(events[i]))
  }

  function ItemOps(item: Item): seq<Op> {
    match item
    case Execution(j) => Logs(JobEvents(j))
    case Synchronisation => [SyncOp]
  }

  function AllOps(items: seq<Item>): seq<Op> {
    if |items| == 0 then [] else ItemOps(items[0]) + AllOps(items[1..])
  }

  function AllTransacted(items: seq<Item>): seq<Transaction> {
    if |items| == 0 then []
    else (if items[0].Execution? then Transacted(items[0].job) else []) + AllTransacted(items[1..])
  }

  /** The timer is running whenever a commit is logged. */
  predicate Stamped(items: seq<Item>) {
    forall i :: 0 <= i < |items| && items[i].Execution? ==> items[i].job.committedAt != 0
  }

  function Logged(ops: seq<Op>): seq<Event> {
    if ops == [] then [] else (if ops[0].LogOp? then [ops[0].event] else []) + Logged(ops[1..])
  }

  // ---- The events of a run ----

  lemma {:induction false} LoggedAppend(a: seq<Op>, b: seq<Op>)
    ensures Logged(a + b) == Logged(a) + Logged(b)
  {
    if a == [] {
      assert a + b == b;
    } else {
      assert (a + b)[1..] == a[1..] + b;
      LoggedAppend(a[1..], b);
      Reassociate(if a[0].LogOp? then [a[0].event] else [], Logged(a[1..]), Logged(b));
    }
  }

  lemma {:induction false} LogsLogged(events: seq<Event>)
    ensures Logged(Logs(events)) == events
    decreases |events|
  {
    if events != [] {
      assert Logs(events)[1..] == Logs(events[1..]);
      LogsLogged(events[1..]);
    }
  }

  lemma {:induction false} RunLogs(w: World, ops: seq<Op>)
    requires Shaped(w.ring)
    ensures Run(w, ops).logged == w.logged + Logged(ops)
    decreases |ops|
  {
    if ops == [] {
      assert w.logged + [] == w.logged;
    } else {
      RunLogs(Step(w, ops[0]), ops[1..]);
      Reassociate(w.logged, if ops[0].LogOp? then [ops[0].event] else [], Logged(ops[1..]));
      if !ops[0].LogOp? { assert w.logged + [] == w.logged; }
    }
  }

  /** The commits among the logged events record exactly the transactions, in order. */
  predicate RecordAll(events: seq<Event>, txs: seq<Transaction>) {
    |events| == |txs| && forall i :: 0 <= i < |txs| ==> Records(events[i], txs[i])
  }

  lemma RecordAppend(a: seq<Event>, b: seq<Event>, s: seq<Transaction>, t: seq<Transaction>)
    requires RecordAll(a, s) && RecordAll(b, t)
    ensures RecordAll(a + b, s + t)
  {
  }

  lemma JobRecords(j: Job)
    requires j.committedAt != 0
    ensures RecordAll(Persistables(JobEvents(j)), Transacted(j))
  {
    var request := Event(j.requestedAt, FsRead, j.process, FatNames.Take(j.filename, CONTEXT_MAX));
    assert Persistables([request]) == One(request) + Persistables([]);
    if Transacted(j) == [] {
      assert JobEvents(j) == [request];
    } else {
      var commit := CommitEvent(j.committedAt, Transacted(j)[0]);
      assert JobEvents(j) == [request] + [commit];
      PersistablesAppend([request], [commit]);
      assert Persistables([commit]) == One(commit) + Persistables([]);
    }
  }

  lemma {:induction false} ItemsRecord(items: seq<Item>)
    requires Stamped(items)
    ensures RecordAll(Persistables(Logged(AllOps(items))), AllTransacted(items))
    decreases |items|
  {
    if |items| > 0 {
      var item := items[0];
      ItemsRecord(items[1..]);
      LoggedAppend(ItemOps(item), AllOps(items[1..]));
      PersistablesAppend(Logged(ItemOps(item)), Logged(AllOps(items[1..])));
      match item {
        case Execution(j) =>
          LogsLogged(JobEvents(j));
          JobRecords(j);
          RecordAppend(Persistables(JobEvents(j)), Persistables(Logged(AllOps(items[1..]))),
                       Transacted(j), AllTransacted(items[1..]));
        case Synchronisation =>
          assert Logged([SyncOp]) == [] + Logged([]);
          RecordAppend([], Persistables(Logged(AllOps(items[1..]))), [], AllTransacted(items[1..]));
      }
    }
  }

  lemma JobFits(j: Job)
    ensures forall i :: 0 <= i < |JobEvents(j)| ==> |JobEvents(j)[i].context| <= CONTEXT_MAX
  {
  }

  lemma {:induction false} ItemsFit(items: seq<Item>)
    ensures OpsFit(AllOps(items))
    decreases |items|
  {
    if |items| > 0 {
      ItemsFit(items[1..]);
      if items[0].Execution? { JobFits(items[0].job); }
    }
  }

  // ---- The theorem ----

  /** From start-up on a formatted volume, execute contracts and sync in any order, ending with a sync:
      LEDGER.LOG holds exactly the ids and volumes of the contracts that came to a result, in order, and
      does not exist if none did. */
  lemma ContractsReachTheLedger(v: FatDisk.Volume, disk: FatDisk.Disk, initial: seq<Event>, items: seq<Item>)
    requires |initial| == SLOTS && Bounded(initial) && FatFiles.Formatted(v, disk) && Stamped(items)
    requires |Logged(AllOps(items))| < 64
    requires |Written(Persistables(Logged(AllOps(items))))| <= 512
    ensures OpsFit(AllOps(items))
    ensures ReadLedger(v, SyncedDisk(v, disk, initial, AllOps(items)))
         == if AllTransacted(items) == [] then None else Some(Transactions(AllTransacted(items)))
  {
    ItemsFit(items);
    ItemsRecord(items);
    RunLogs(Init(initial), AllOps(items));
    assert Init(initial).logged + Logged(AllOps(items)) == Logged(AllOps(items));
    FormattedStarts(v, disk, initial);
    if AllTransacted(items) == [] {
      InitHolds(initial);
      NoCommitsNoLedger(v, State(Init(initial), disk), AllOps(items));
    } else {
      LedgerReadsBack(v, disk, initial, AllOps(items), AllTransacted(items));
    }
  }
}
