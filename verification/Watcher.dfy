/** The watcher's event ring and its persistence cursor (kernel/watcher.c), over every run of logging and
    syncing. */
module Watcher {
  import opened Machine
  import Modulo

  const SLOTS: nat := 64

  datatype Kind = NoEvent | Keystroke | FsRead | FsWrite | ProcSpawn | LedgerCommit

  datatype Event = Event(timestamp: nat, kind: Kind, process: u32, context: Bytes)

  /** A slot that was never stamped is skipped, and only ledger commits are persisted. */
  predicate Persistable(e: Event) { e.timestamp != 0 && e.kind.LedgerCommit? }

  function One(e: Event): seq<Event> { if Persistable(e) then [e] else [] }

  function Persistables(events: seq<Event>): seq<Event> {
    if events == [] then [] else One(events[0]) + Persistables(events[1..])
  }

  lemma {:induction false} PersistablesAppend(a: seq<Event>, b: seq<Event>)
    ensures Persistables(a + b) == Persistables(a) + Persistables(b)
  {
    if a == [] {
      assert a + b == b;
    } else {
      assert (a + b)[1..] == a[1..] + b;
      PersistablesAppend(a[1..], b);
      Reassociate(One(a[0]), Persistables(a[1..]), Persistables(b));
    }
  }

  // ---- The ring ----

  datatype Ring = Ring(events: seq<Event>, head: nat, tail: nat, count: nat, cursor: nat)

  predicate Shaped(r: Ring) {
    |r.events| == SLOTS && r.head < SLOTS && r.tail < SLOTS && r.count <= SLOTS && r.cursor < SLOTS
  }

  function Next(i: nat): nat { (i + 1) % 64 }

  /** Record an event; when the ring is full the oldest slot goes, and takes the cursor along if the
      cursor stands there. */
  function Log(r: Ring, e: Event): Ring
    requires Shaped(r)
  {
    var stored := r.(events := r.events[r.head := e], head := Next(r.head));
    if r.count < SLOTS then stored.(count := r.count + 1)
    else stored.(tail := Next(r.tail), cursor := if r.cursor == r.tail then Next(r.tail) else r.cursor)
  }

  /** How many slots lie between one and the other, going round. */
  function Distance(from: nat, to: nat): nat
    requires from < SLOTS && to < SLOTS
  {
    if from <= to then to - from else to + 64 - from
  }

  lemma Closer(from: nat, to: nat)
    requires from < SLOTS && to < SLOTS && from != to
    ensures Next(from) < SLOTS && Distance(Next(from), to) == Distance(from, to) - 1
  {
  }

  /** What a sync collects from the slot on, up to the head. */
  function Collect(r: Ring, current: nat): seq<Event>
    requires Shaped(r) && current < SLOTS
    decreases Distance(current, r.head)
  {
    if current == r.head then []
    else
      Closer(current, r.head);
      One(r.events[current]) + Collect(r, Next(current))
  }

  function Sync(r: Ring): (Ring, seq<Event>)
    requires Shaped(r)
  {
    (r.(cursor := r.head), Collect(r, r.cursor))
  }

  function Contents(r: Ring): seq<Event>
    requires Shaped(r)
  {
    seq(r.count, i requires 0 <= i < r.count => r.events[(r.tail + i) % 64])
  }

  // ---- Runs ----

  datatype Op = LogOp(event: Event) | SyncOp

  /** The ring with its history: everything logged, everything persisted, and how much of the log
      the last effective sync had seen. */
  datatype World = World(ring: Ring, logged: seq<Event>, persisted: seq<Event>, synced: nat)

  function Init(events: seq<Event>): World { World(Ring(events, 0, 0, 0, 0), [], [], 0) }

  function Step(w: World, op: Op): World
    requires Shaped(w.ring)
  {
    match op
    case LogOp(e) => w.(ring := Log(w.ring, e), logged := w.logged + [e])
    case SyncOp =>
      w.(ring := Sync(w.ring).0, persisted := w.persisted + Sync(w.ring).1,
         synced := if w.ring.cursor == w.ring.head then w.synced else |w.logged|)
  }

  /** The ring is full and the cursor has met the head. */
  predicate Stuck(r: Ring) { r.count == SLOTS && r.cursor == r.head }

  ghost predicate Inv(w: World) {
    var n := |w.logged|;
    && Shaped(w.ring)
    && w.ring.head == n % 64
    && w.ring.count == (if n < 64 then n else 64)
    && w.ring.tail == (if n < 64 then 0 else n % 64)
    && (forall k :: 0 <= k < n && n - 64 <= k ==> w.ring.events[k % 64] == w.logged[k])
    && w.synced <= n
    && w.persisted == Persistables(w.logged[..w.synced])
    && (!Stuck(w.ring) ==> w.ring.cursor == w.synced % 64 && n - w.synced < 64)
  }

  lemma NextOf(k: nat)
    ensures Next(k % 64) == (k + 1) % 64
  {
  }

  lemma LogSlots(w: World, e: Event)
    requires Inv(w)
    ensures var t := Step(w, LogOp(e));
            forall k :: 0 <= k < |t.logged| && |t.logged| - 64 <= k ==> t.ring.events[k % 64] == t.logged[k]
  {
    var t := Step(w, LogOp(e));
    var n := |w.logged|;
    forall k | 0 <= k < n + 1 && n + 1 - 64 <= k ensures t.ring.events[k % 64] == t.logged[k] {
      if k < n { Modulo.SlotsDiffer(k, n, 64); }
    }
  }

  lemma LogStays(w: World, e: Event)
    requires Inv(w)
    ensures var t := Log(w.ring, e);
            if Stuck(w.ring) then Stuck(t) else t.cursor == w.ring.cursor
  {
  }

  /** The cursor after a log: left alone, or carried along with the head for good. */
  lemma LogCursor(w: World, e: Event)
    requires Inv(w)
    ensures var t := Step(w, LogOp(e));
            && (Stuck(w.ring) ==> Stuck(t.ring))
            && (!Stuck(w.ring) ==> t.ring.cursor == w.ring.cursor)
            && (!Stuck(t.ring) ==> !Stuck(w.ring) && |t.logged| - w.synced < 64)
  {
    var n := |w.logged|;
    LogStays(w, e);
    NextOf(n);
    if n + 1 - w.synced == 64 { Modulo.AddMultiple(w.synced, 64, 1); }
  }

  lemma LogKeeps(w: World, e: Event)
    requires Inv(w)
    ensures Inv(Step(w, LogOp(e)))
  {
    var t := Step(w, LogOp(e));
    NextOf(|w.logged|);
    LogSlots(w, e);
    LogCursor(w, e);
    assert t.logged[..t.synced] == w.logged[..w.synced];
  }

  lemma CollectStep(r: Ring, current: nat)
    requires Shaped(r) && current < SLOTS && current != r.head
    ensures Collect(r, current) == One(r.events[current]) + Collect(r, Next(current))
  {
  }

  /** What is collected from the k-th logged event on. */
  lemma {:induction false} CollectsLog(w: World, k: nat)
    requires Inv(w) && k <= |w.logged| < k + 64
    ensures Collect(w.ring, k % 64) == Persistables(w.logged[k..])
    decreases |w.logged| - k
  {
    if k == |w.logged| {
      assert w.logged[k..] == [];
    } else {
      Modulo.SlotsDiffer(k, |w.logged|, 64);
      CollectStep(w.ring, k % 64);
      NextOf(k);
      CollectsLog(w, k + 1);
      assert w.ring.events[k % 64] == w.logged[k];
      assert w.logged[k..][0] == w.logged[k] && w.logged[k..][1..] == w.logged[k + 1..];
    }
  }

  lemma SyncCatchesUp(w: World)
    requires Inv(w) && !Stuck(w.ring)
    ensures w.persisted + Sync(w.ring).1 == Persistables(w.logged)
  {
    CollectsLog(w, w.synced);
    assert w.logged == w.logged[..w.synced] + w.logged[w.synced..];
    PersistablesAppend(w.logged[..w.synced], w.logged[w.synced..]);
  }

  /** The cursor meets the head exactly when nothing is unsynced. */
  lemma SyncGap(w: World)
    requires Inv(w) && !Stuck(w.ring)
    ensures w.ring.cursor == w.ring.head <==> w.synced == |w.logged|
  {
    if w.synced < |w.logged| { Modulo.SlotsDiffer(w.synced, |w.logged|, 64); }
  }

  lemma SyncKeeps(w: World)
    requires Inv(w)
    ensures Inv(Step(w, SyncOp))
  {
    if Stuck(w.ring) {
      assert w.persisted + [] == w.persisted;
    } else {
      SyncCatchesUp(w);
      SyncGap(w);
      assert w.logged[..|w.logged|] == w.logged;
    }
  }

  function Run(w: World, ops: seq<Op>): World
    requires Shaped(w.ring)
    decreases |ops|
  {
    if ops == [] then w else Run(Step(w, ops[0]), ops[1..])
  }

  lemma {:induction false} RunKeeps(w: World, ops: seq<Op>)
    requires Inv(w)
    ensures Inv(Run(w, ops))
    decreases |ops|
  {
    if ops != [] {
      match ops[0] { case LogOp(e) => LogKeeps(w, e); case SyncOp => SyncKeeps(w); }
      RunKeeps(Step(w, ops[0]), ops[1..]);
    }
  }

  // ---- What every run guarantees ----

  lemma Around(n: nat, i: nat)
    requires n >= 64
    ensures (n % 64 + i) % 64 == (n - 64 + i) % 64
  {
    Modulo.ModAdd(n, i, 64);
    Modulo.AddMultiple(n - 64 + i, 64, 1);
  }

  /** The ring holds exactly the most recent events, oldest first. */
  lemma HoldsMostRecent(w: World)
    requires Inv(w)
    ensures Contents(w.ring) == w.logged[if |w.logged| < 64 then 0 else |w.logged| - 64..]
  {
    var n := |w.logged|;
    var from := if n < 64 then 0 else n - 64;
    forall i | 0 <= i < w.ring.count ensures Contents(w.ring)[i] == w.logged[from..][i] {
      if n >= 64 { Around(n, i); }
      assert w.ring.events[(from + i) % 64] == w.logged[from + i];
    }
  }

  /** After any run from start-up: the ring holds the last 64 events, and what has been persisted is
      exactly the commits among the first `synced` events, each once and in log order. */
  lemma EveryRun(initial: seq<Event>, ops: seq<Op>)
    requires |initial| == SLOTS
    ensures var w := Run(Init(initial), ops);
            && Inv(w)
            && Contents(w.ring) == w.logged[if |w.logged| < 64 then 0 else |w.logged| - 64..]
            && w.synced <= |w.logged| && w.persisted == Persistables(w.logged[..w.synced])
  {
    assert Inv(Init(initial)) by { assert Init(initial).logged[..0] == []; }
    RunKeeps(Init(initial), ops);
    HoldsMostRecent(Run(Init(initial), ops));
  }

  /** A sync persists everything that is not yet persisted, unless the ring is stuck, and then it
      persists nothing. */
  lemma SyncPersists(w: World)
    requires Inv(w)
    ensures Sync(w.ring).1 == if Stuck(w.ring) then [] else Persistables(w.logged[w.synced..])
    ensures Step(w, SyncOp).persisted == Persistables(w.logged) <==>
              !Stuck(w.ring) || Persistables(w.logged[w.synced..]) == []
  {
    if !Stuck(w.ring) { CollectsLog(w, w.synced); }
    assert w.logged == w.logged[..w.synced] + w.logged[w.synced..];
    PersistablesAppend(w.logged[..w.synced], w.logged[w.synced..]);
  }

  /** Fewer than 64 events logged in all: never stuck. */
  lemma EarlySyncPersistsAll(w: World)
    requires Inv(w) && |w.logged| < 64
    ensures !Stuck(w.ring) && Step(w, SyncOp).persisted == Persistables(w.logged)
  {
    SyncPersists(w);
  }

  /** A cursor that differs from the head shows between 1 and 63 unsynced events, and the sync
      persists exactly their commits. */
  lemma VisibleGapIsSynced(w: World)
    requires Inv(w) && w.ring.cursor != w.ring.head
    ensures 0 < |w.logged| - w.synced < 64 && Sync(w.ring).1 == Persistables(w.logged[w.synced..])
  {
    SyncPersists(w);
  }

  /** How the ring gets stuck: a sync that finds it full, or a 64th unsynced event. */
  lemma SyncSticks(w: World)
    requires Inv(w) && !Stuck(w.ring)
    ensures Stuck(Step(w, SyncOp).ring) <==> |w.logged| >= 64
  {
  }

  lemma LogSticks(w: World, e: Event)
    requires Inv(w) && !Stuck(w.ring)
    ensures Stuck(Step(w, LogOp(e)).ring) <==> |w.logged| + 1 - w.synced == 64
  {
    var n := |w.logged|;
    NextOf(n);
    LogCursor(w, e);
    if n + 1 - w.synced == 64 {
      Modulo.AddMultiple(w.synced, 64, 1);
    } else if n + 1 - w.synced < 64 {
      Modulo.SlotsDiffer(w.synced, n + 1, 64);
    }
  }

  /** Once stuck, always stuck: no later run of logging and syncing persists anything more. */
  lemma {:induction false} StuckForGood(w: World, ops: seq<Op>)
    requires Inv(w) && Stuck(w.ring)
    ensures Stuck(Run(w, ops).ring) && Run(w, ops).persisted == w.persisted
    decreases |ops|
  {
    if ops != [] {
      match ops[0] { case LogOp(e) => LogKeeps(w, e); case SyncOp => SyncKeeps(w); }
      StuckForGood(Step(w, ops[0]), ops[1..]);
    }
  }

  /** So after the 64th event at most one more sync does anything: whatever is logged behind it is
      never persisted, however few events that is. */
  lemma LastEffectiveSync(w: World, ops: seq<Op>)
    requires Inv(w) && |w.logged| >= 64
    ensures Run(Step(w, SyncOp), ops).persisted == Step(w, SyncOp).persisted
  {
    SyncKeeps(w);
    StuckForGood(Step(w, SyncOp), ops);
  }
}
