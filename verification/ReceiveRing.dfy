/** The receive side of a split virtqueue (VirtIO 1.1, section 2.6) as the input driver
    (kernel/virtio.c) and the net driver (kernel/virtio_net.c) use it: driver and device share two
    rings addressed by wrapping 16-bit indices, and descriptors are recycled for ever.

    Driver and device proceed in single memory accesses that interleave freely. No guard reads
    the history fields; they record what the wrapping indices forget. */
module ReceiveRing {
  import opened Machine
  import Modulo

  /** The input driver publishes before it advances its used index, the net driver after. */
  datatype Kind = InputQueue | NetQueue

  datatype Completion = Completion(id: nat, event: nat)

  datatype Driver =
    | Idle
    | Noticed                         // saw that the used index has moved
    | Fetched(id: nat)                // read the id out of the used ring
    | InHand(id: nat, settled: bool)  // read the buffer
    | Stored(id: nat)                 // wrote the id into the available ring
    | Recycled                        // input driver: published, used index still behind

  datatype Device = Ready | Writing(id: nat)  // wrote a used element, index not yet raised

  datatype State = State(
    kind: Kind,
    size: nat,
    // shared memory
    availRing: seq<nat>,
    availIdx: u16,
    usedRing: seq<nat>,
    usedIdx: u16,
    buffers: seq<nat>,
    // private to the driver
    lastUsed: u16,
    driver: Driver,
    // private to the device
    seen: u16,
    lastAvail: u16,
    held: seq<nat>,
    device: Device,
    // history
    published: seq<nat>,
    noted: nat,
    taken: nat,
    completed: seq<Completion>,
    received: seq<Completion>)

  datatype Step =
    | Notice | Fetch | Inspect | Settle | Store | Publish
    | Look | Take | Fill(slot: nat, event: nat) | Finish(slot: nat) | Raise

  function Next16(i: u16): u16 { (i + 1) % 0x1_0000 }

  predicate Shaped(s: State) {
    0 < s.size <= 0x8000 && |s.availRing| == s.size && |s.usedRing| == s.size && |s.buffers| == s.size
  }

  predicate Enabled(s: State, step: Step) {
    && Shaped(s)
    && match step
       case Notice => s.driver.Idle? && s.usedIdx != s.lastUsed
       case Fetch => s.driver.Noticed?
       case Inspect => s.driver.Fetched? && s.driver.id < s.size
       case Settle => if s.kind.NetQueue? then s.driver.InHand? && !s.driver.settled else s.driver.Recycled?
       case Store => s.driver.InHand? && s.driver.settled == s.kind.NetQueue?
       case Publish => s.driver.Stored?
       case Look => true
       case Take => s.lastAvail != s.seen
       case Fill(i, _) => i < |s.held| && s.held[i] < s.size
       case Finish(i) => s.device.Ready? && i < |s.held|
       case Raise => s.device.Writing? && s.device.id < s.size
  }

  function Apply(s: State, step: Step): State
    requires Enabled(s, step)
  {
    match step
    case Notice => s.(driver := Noticed)
    case Fetch => s.(driver := Fetched(s.usedRing[s.lastUsed % s.size]))
    case Inspect =>
      s.(driver := InHand(s.driver.id, false),
         received := s.received + [Completion(s.driver.id, s.buffers[s.driver.id])])
    case Settle =>
      s.(lastUsed := Next16(s.lastUsed), driver := if s.kind.NetQueue? then InHand(s.driver.id, true) else Idle)
    case Store =>
      s.(availRing := s.availRing[s.availIdx % s.size := s.driver.id], driver := Stored(s.driver.id))
    case Publish =>
      s.(availIdx := Next16(s.availIdx), published := s.published + [s.driver.id],
         driver := if s.kind.NetQueue? then Idle else Recycled)
    case Look => s.(seen := s.availIdx, noted := |s.published|)
    case Take =>
      s.(held := s.held + [s.availRing[s.lastAvail % s.size]], lastAvail := Next16(s.lastAvail), taken := s.taken + 1)
    case Fill(i, event) => s.(buffers := s.buffers[s.held[i] := event])
    case Finish(i) =>
      s.(usedRing := s.usedRing[s.usedIdx % s.size := s.held[i]], device := Writing(s.held[i]),
         held := s.held[..i] + s.held[i + 1..])
    case Raise =>
      s.(usedIdx := Next16(s.usedIdx), completed := s.completed + [Completion(s.device.id, s.buffers[s.device.id])],
         device := Ready)
  }

  function Iota(n: nat): (r: seq<nat>)
    ensures |r| == n && forall i :: 0 <= i < n ==> r[i] == i
  {
    seq(n, i => i)
  }

  /** What the set-up loops leave behind: descriptor j in available slot j, all of them published. */
  function Start(kind: Kind, size: nat, usedRing: seq<nat>, buffers: seq<nat>): State
    requires 0 < size <= 0x8000 && |usedRing| == size && |buffers| == size
  {
    State(kind, size, Iota(size), size, usedRing, 0, buffers, 0, Idle, 0, 0, [], Ready, Iota(size), 0, 0, [], [])
  }

  /** Any interleaving is a list of steps, each enabled where it happens. */
  predicate Runs(s: State, steps: seq<Step>)
    decreases |steps|
  {
    steps == [] || (Enabled(s, steps[0]) && Runs(Apply(s, steps[0]), steps[1..]))
  }

  function After(s: State, steps: seq<Step>): State
    requires Runs(s, steps)
    decreases |steps|
  {
    if steps == [] then s else After(Apply(s, steps[0]), steps[1..])
  }

  // ---- Where the descriptors are ----

  function Ids(c: seq<Completion>): (r: seq<nat>)
    ensures |r| == |c| && forall i :: 0 <= i < |c| ==> r[i] == c[i].id
  {
    seq(|c|, i requires 0 <= i < |c| => c[i].id)
  }

  /** Used elements the driver has read. */
  function FetchedCount(s: State): nat { |s.received| + if s.driver.Fetched? then 1 else 0 }

  /** Used elements the driver has accounted for in its used index. */
  function SettledCount(s: State): int {
    match s.driver
    case Idle => |s.received|
    case Noticed => |s.received|
    case Fetched(_) => |s.received|
    case InHand(_, settled) => if settled then |s.received| else |s.received| - 1
    case Stored(_) => if s.kind.NetQueue? then |s.received| else |s.received| - 1
    case Recycled => |s.received| - 1
  }

  /** Available to the device and not yet taken. */
  function Available(s: State): seq<nat>
    requires s.taken <= |s.published|
  {
    s.published[s.taken..]
  }

  function DeviceHeld(s: State): seq<nat> { s.held + if s.device.Writing? then [s.device.id] else [] }

  /** Used and not yet read by the driver. */
  function Used(s: State): seq<nat>
    requires FetchedCount(s) <= |s.completed|
  {
    Ids(s.completed[FetchedCount(s)..])
  }

  function Hand(s: State): seq<nat> {
    match s.driver
    case Fetched(id) => [id]
    case InHand(id, _) => [id]
    case Stored(id) => [id]
    case _ => []
  }

  predicate Counters(s: State) {
    && Shaped(s) && 0x1_0000 % s.size == 0
    && (s.kind.NetQueue? ==> !s.driver.Recycled?)
    && (s.driver.InHand? && s.driver.settled ==> s.kind.NetQueue?)
    && s.taken == |s.completed| + |DeviceHeld(s)| <= s.noted <= |s.published|
    && FetchedCount(s) <= |s.completed| && (s.driver.Noticed? ==> FetchedCount(s) < |s.completed|)
    && |s.published| == s.size + FetchedCount(s) - |Hand(s)|
    && SettledCount(s) >= 0
    && s.availIdx == |s.published| % 0x1_0000
    && s.seen == s.noted % 0x1_0000 && s.lastAvail == s.taken % 0x1_0000
    && s.usedIdx == |s.completed| % 0x1_0000 && s.lastUsed == SettledCount(s) % 0x1_0000
  }

  /** The ring slot of the k-th element ever written: k % n, by repeated subtraction. */
  function Slot(k: nat, n: nat): (r: nat)
    requires n > 0
    ensures r < n
    decreases k
  {
    if k < n then k else Slot(k - n, n)
  }

  lemma {:induction false} SlotIsRemainder(k: nat, n: nat)
    requires n > 0
    ensures Slot(k, n) == k % n
    decreases k
  {
    if k >= n {
      SlotIsRemainder(k - n, n);
      Modulo.AddMultiple(k - n, n, 1);
    } else {
      Modulo.Unique(k, n, 0, k);
    }
  }

  predicate AvailSlots(s: State)
    requires Counters(s)
  {
    && (forall k :: s.taken <= k < |s.published| ==> s.availRing[Slot(k, s.size)] == s.published[k])
    && (s.driver.Stored? ==> s.availRing[Slot(|s.published|, s.size)] == s.driver.id)
  }

  predicate UsedSlots(s: State)
    requires Counters(s)
  {
    && (forall k :: FetchedCount(s) <= k < |s.completed| ==> s.usedRing[Slot(k, s.size)] == s.completed[k].id)
    && (s.device.Writing? ==> s.usedRing[Slot(|s.completed|, s.size)] == s.device.id)
  }

  /** Both rings hold what was written to them and not yet read. */
  predicate Slots(s: State)
    requires Counters(s)
  {
    AvailSlots(s) && UsedSlots(s)
  }

  ghost predicate Delivered(s: State)
    requires Counters(s)
  {
    && s.received == s.completed[..|s.received|]
    && (s.driver.Fetched? ==> s.driver.id == s.completed[|s.received|].id)
    && (forall k :: |s.received| <= k < |s.completed| ==>
          s.completed[k].id < s.size && s.buffers[s.completed[k].id] == s.completed[k].event)
  }

  /** Nothing is taken before it is published, nor read before it is used. */
  predicate Ordered(s: State) { s.taken <= |s.published| && FetchedCount(s) <= |s.completed| }

  function Count(q: seq<nat>, x: nat): nat { multiset(q)[x] }

  /** How often an id occurs, over all the places a descriptor can be. */
  function Occurrences(s: State, x: nat): nat
    requires Ordered(s)
  {
    Count(Available(s), x) + Count(DeviceHeld(s), x) + Count(Used(s), x) + Count(Hand(s), x)
  }

  ghost predicate OwnedOnce(s: State)
    requires Ordered(s)
  {
    forall x: nat :: Occurrences(s, x) == if x < s.size then 1 else 0
  }

  ghost predicate Inv(s: State) {
    Counters(s) && Slots(s) && Delivered(s) && OwnedOnce(s)
  }

  lemma {:induction false} EachIdOnce(n: nat, x: nat)
    ensures Count(Iota(n), x) == if x < n then 1 else 0
  {
    if n > 0 {
      EachIdOnce(n - 1, x);
      assert Iota(n) == Iota(n - 1) + [n - 1];
    }
  }

  // ---- Exclusive ownership ----

  lemma CountOfSum(a: seq<nat>, b: seq<nat>, x: nat)
    ensures Count(a + b, x) == Count(a, x) + Count(b, x)
  {
  }

  lemma CountOfTail(q: seq<nat>, i: nat, x: nat)
    requires i < |q|
    ensures Count(q[i..], x) == (if q[i] == x then 1 else 0) + Count(q[i + 1..], x)
  {
    assert q[i..] == [q[i]] + q[i + 1..];
    CountOfSum([q[i]], q[i + 1..], x);
  }

  lemma CountsMembers(q: seq<nat>, x: nat)
    ensures x in q <==> Count(q, x) > 0
  {
  }

  // ---- Every step keeps the invariant ----

  /** Raising a 16-bit index counts one more, and both name the same slot. */
  lemma IndexOf(s: State, n: nat)
    requires Shaped(s) && 0x1_0000 % s.size == 0
    ensures Next16(n % 0x1_0000) == (n + 1) % 0x1_0000
    ensures (n % 0x1_0000) % s.size == Slot(n, s.size)
  {
    Modulo.ModAdd(n, 1, 0x1_0000);
    Modulo.ModOfMod(n, 0x1_0000, s.size);
    SlotIsRemainder(n, s.size);
  }

  lemma OtherSlots(lo: nat, hi: nat, n: nat)
    requires lo <= hi < lo + n
    ensures forall k :: lo <= k < hi ==> Slot(k, n) != Slot(hi, n)
  {
    forall k | lo <= k < hi ensures Slot(k, n) != Slot(hi, n) {
      Modulo.SlotsDiffer(k, hi, n);
      SlotIsRemainder(k, n);
      SlotIsRemainder(hi, n);
    }
  }

  lemma FetchPlaces(s: State, x: nat)
    requires Ordered(s) && Enabled(s, Fetch) && FetchedCount(s) < |s.completed|
    requires s.usedRing[s.lastUsed % s.size] == s.completed[FetchedCount(s)].id
    ensures Occurrences(Apply(s, Fetch), x) == Occurrences(s, x)
  {
    var t := Apply(s, Fetch);
    var id := s.completed[FetchedCount(s)].id;
    assert Used(s) == [id] + Used(t);
    CountOfSum([id], Used(t), x);
  }

  /** A step that moves no descriptor. */
  lemma SamePlaces(s: State, t: State)
    requires Ordered(s) && Ordered(t) && OwnedOnce(s) && t.size == s.size
    requires t.published == s.published && t.taken == s.taken && t.held == s.held && t.device == s.device
    requires t.completed == s.completed && FetchedCount(t) == FetchedCount(s) && Hand(t) == Hand(s)
    ensures OwnedOnce(t)
  {
    forall x: nat ensures Occurrences(t, x) == Occurrences(s, x) {
      assert Available(t) == Available(s) && Used(t) == Used(s) && DeviceHeld(t) == DeviceHeld(s);
    }
  }

  lemma NoticeKeeps(s: State)
    requires Inv(s) && Enabled(s, Notice)
    ensures Inv(Apply(s, Notice))
  {
    var t := Apply(s, Notice);
    assert Counters(t) && Slots(t) && Delivered(t);
    SamePlaces(s, t);
  }

  lemma LookKeeps(s: State)
    requires Inv(s)
    ensures Inv(Apply(s, Look))
  {
    var t := Apply(s, Look);
    assert Counters(t) && Slots(t) && Delivered(t);
    SamePlaces(s, t);
  }

  lemma FetchKeeps(s: State)
    requires Inv(s) && Enabled(s, Fetch)
    ensures Inv(Apply(s, Fetch))
  {
    var t := Apply(s, Fetch);
    var f := FetchedCount(s);
    IndexOf(s, f);
    assert f < |s.completed|;
    forall x: nat { FetchPlaces(s, x); }
  }

  lemma InspectDelivers(s: State)
    requires Counters(s) && Delivered(s) && Enabled(s, Inspect)
    ensures Counters(Apply(s, Inspect)) && Delivered(Apply(s, Inspect))
  {
  }

  lemma InspectKeeps(s: State)
    requires Inv(s) && Enabled(s, Inspect)
    ensures Inv(Apply(s, Inspect))
  {
    InspectDelivers(s);
    assert Slots(Apply(s, Inspect));
    SamePlaces(s, Apply(s, Inspect));
  }

  lemma SettleCounts(s: State)
    requires Counters(s) && Enabled(s, Settle)
    ensures Counters(Apply(s, Settle))
  {
    IndexOf(s, SettledCount(s));
  }

  lemma SettleKeeps(s: State)
    requires Inv(s) && Enabled(s, Settle)
    ensures Inv(Apply(s, Settle))
  {
    SettleCounts(s);
    assert Slots(Apply(s, Settle)) && Delivered(Apply(s, Settle));
    SamePlaces(s, Apply(s, Settle));
  }

  lemma StoreSlots(s: State)
    requires Counters(s) && Slots(s) && Enabled(s, Store) && |s.published| < s.taken + s.size
    ensures Counters(Apply(s, Store)) && Slots(Apply(s, Store))
  {
    IndexOf(s, |s.published|);
    OtherSlots(s.taken, |s.published|, s.size);
  }

  lemma StoreKeeps(s: State)
    requires Inv(s) && Enabled(s, Store)
    ensures Inv(Apply(s, Store))
  {
    StoreSlots(s);
    assert Delivered(Apply(s, Store));
    SamePlaces(s, Apply(s, Store));
  }

  lemma PublishCounts(s: State)
    requires Counters(s) && Enabled(s, Publish)
    ensures Counters(Apply(s, Publish))
  {
    IndexOf(s, |s.published|);
  }

  lemma PublishSlots(s: State)
    requires Counters(s) && Slots(s) && Enabled(s, Publish) && Counters(Apply(s, Publish))
    ensures Slots(Apply(s, Publish))
  {
    var t := Apply(s, Publish);
    forall k | t.taken <= k < |t.published| ensures t.availRing[Slot(k, t.size)] == t.published[k] {
      if k < |s.published| { assert t.published[k] == s.published[k]; }
    }
  }

  lemma PublishPlaces(s: State, x: nat)
    requires Ordered(s) && Enabled(s, Publish) && Ordered(Apply(s, Publish))
    ensures Occurrences(Apply(s, Publish), x) == Occurrences(s, x)
  {
    var t := Apply(s, Publish);
    assert Available(t) == Available(s) + [s.driver.id];
    CountOfSum(Available(s), [s.driver.id], x);
    assert Used(t) == Used(s) && DeviceHeld(t) == DeviceHeld(s);
  }

  lemma PublishKeeps(s: State)
    requires Inv(s) && Enabled(s, Publish)
    ensures Inv(Apply(s, Publish))
  {
    PublishCounts(s);
    PublishSlots(s);
    forall x: nat { PublishPlaces(s, x); }
  }

  /** The device takes ids in the order the driver published them. */
  lemma TakesInOrder(s: State)
    requires Inv(s) && Enabled(s, Take)
    ensures s.taken < |s.published| && s.availRing[s.lastAvail % s.size] == s.published[s.taken]
  {
    IndexOf(s, s.taken);
  }

  lemma TakeCounts(s: State)
    requires Counters(s) && Slots(s) && Enabled(s, Take) && s.taken < |s.published|
    ensures Counters(Apply(s, Take)) && Slots(Apply(s, Take))
  {
    IndexOf(s, s.taken);
  }

  lemma HeldCounts(s: State, x: nat)
    ensures Count(DeviceHeld(s), x) == Count(s.held, x) + if s.device.Writing? && s.device.id == x then 1 else 0
  {
    if s.device.Writing? { CountOfSum(s.held, [s.device.id], x); }
    else { assert s.held + [] == s.held; }
  }

  lemma TakeMoves(s: State, x: nat)
    requires Enabled(s, Take)
    ensures Count(DeviceHeld(Apply(s, Take)), x)
         == Count(DeviceHeld(s), x) + if s.availRing[s.lastAvail % s.size] == x then 1 else 0
  {
    var id := s.availRing[s.lastAvail % s.size];
    HeldCounts(s, x);
    HeldCounts(Apply(s, Take), x);
    CountOfSum(s.held, [id], x);
  }

  lemma TakeDraws(s: State, x: nat)
    requires Enabled(s, Take) && s.taken < |s.published|
    ensures Count(Available(s), x)
         == Count(Available(Apply(s, Take)), x) + if s.published[s.taken] == x then 1 else 0
  {
    CountOfTail(s.published, s.taken, x);
  }

  lemma TakePlaces(s: State, x: nat)
    requires Ordered(s) && Enabled(s, Take) && s.taken < |s.published|
    requires s.availRing[s.lastAvail % s.size] == s.published[s.taken]
    ensures Occurrences(Apply(s, Take), x) == Occurrences(s, x)
  {
    TakeMoves(s, x);
    TakeDraws(s, x);
    assert Used(Apply(s, Take)) == Used(s) && Hand(Apply(s, Take)) == Hand(s);
  }

  lemma TakeKeeps(s: State)
    requires Inv(s) && Enabled(s, Take)
    ensures Inv(Apply(s, Take))
  {
    TakesInOrder(s);
    TakeCounts(s);
    forall x: nat { TakePlaces(s, x); }
  }

  lemma HeldElsewhere(s: State, i: nat, k: nat)
    requires Inv(s) && i < |s.held| && |s.received| <= k < |s.completed|
    ensures s.completed[k].id != s.held[i]
  {
    var id := s.held[i];
    CountsMembers(DeviceHeld(s), id);
    assert DeviceHeld(s)[i] == id;
    assert Occurrences(s, id) == if id < s.size then 1 else 0;
    if k < FetchedCount(s) {
      CountsMembers(Hand(s), id);
    } else {
      CountsMembers(Used(s), id);
      assert Used(s)[k - FetchedCount(s)] == s.completed[k].id;
    }
  }

  lemma FillDelivers(s: State, i: nat, event: nat)
    requires Inv(s) && Enabled(s, Fill(i, event)) && Counters(Apply(s, Fill(i, event)))
    ensures Delivered(Apply(s, Fill(i, event)))
  {
    var t := Apply(s, Fill(i, event));
    forall k | |s.received| <= k < |s.completed|
      ensures s.completed[k].id < s.size && t.buffers[s.completed[k].id] == s.completed[k].event
    {
      HeldElsewhere(s, i, k);
    }
  }

  lemma FillKeeps(s: State, i: nat, event: nat)
    requires Inv(s) && Enabled(s, Fill(i, event))
    ensures Inv(Apply(s, Fill(i, event)))
  {
    var t := Apply(s, Fill(i, event));
    assert Counters(t) && Slots(t);
    FillDelivers(s, i, event);
    SamePlaces(s, t);
  }

  lemma FinishSlots(s: State, i: nat)
    requires Counters(s) && Slots(s) && Enabled(s, Finish(i)) && Counters(Apply(s, Finish(i)))
    requires |s.completed| < FetchedCount(s) + s.size
    ensures Slots(Apply(s, Finish(i)))
  {
    IndexOf(s, |s.completed|);
    OtherSlots(FetchedCount(s), |s.completed|, s.size);
  }

  lemma CountWithout(q: seq<nat>, i: nat, x: nat)
    requires i < |q|
    ensures Count(q, x) == Count(q[..i] + q[i + 1..], x) + if q[i] == x then 1 else 0
  {
    assert q == q[..i] + ([q[i]] + q[i + 1..]);
    CountOfSum(q[..i], [q[i]] + q[i + 1..], x);
    CountOfSum([q[i]], q[i + 1..], x);
    CountOfSum(q[..i], q[i + 1..], x);
  }

  /** What the driver holds, and what waits in either ring, apart from the device's share. */
  function Elsewhere(s: State, x: nat): nat
    requires Ordered(s)
  {
    Count(Available(s), x) + Count(Used(s), x) + Count(Hand(s), x)
  }

  lemma FinishMoves(s: State, i: nat, x: nat)
    requires Enabled(s, Finish(i))
    ensures Count(DeviceHeld(Apply(s, Finish(i))), x) == Count(DeviceHeld(s), x)
  {
    CountWithout(s.held, i, x);
    HeldCounts(s, x);
    HeldCounts(Apply(s, Finish(i)), x);
  }

  lemma FinishPlaces(s: State, i: nat, x: nat)
    requires Ordered(s) && Enabled(s, Finish(i)) && Ordered(Apply(s, Finish(i)))
    ensures Occurrences(Apply(s, Finish(i)), x) == Occurrences(s, x)
  {
    FinishMoves(s, i, x);
    assert Elsewhere(Apply(s, Finish(i)), x) == Elsewhere(s, x);
  }

  lemma FinishKeeps(s: State, i: nat)
    requires Inv(s) && Enabled(s, Finish(i))
    ensures Inv(Apply(s, Finish(i)))
  {
    assert Counters(Apply(s, Finish(i)));
    FinishSlots(s, i);
    forall x: nat { FinishPlaces(s, i, x); }
  }

  lemma RaiseCounts(s: State)
    requires Counters(s) && Enabled(s, Raise)
    ensures Counters(Apply(s, Raise))
  {
    IndexOf(s, |s.completed|);
  }

  lemma RaiseSlots(s: State)
    requires Counters(s) && Slots(s) && Enabled(s, Raise) && Counters(Apply(s, Raise))
    ensures Slots(Apply(s, Raise))
  {
    var t := Apply(s, Raise);
    forall k | FetchedCount(t) <= k < |t.completed| ensures t.usedRing[Slot(k, t.size)] == t.completed[k].id {
      if k < |s.completed| { assert t.completed[k] == s.completed[k]; }
    }
  }

  lemma RaiseDelivers(s: State)
    requires Counters(s) && Delivered(s) && Enabled(s, Raise) && Counters(Apply(s, Raise))
    ensures Delivered(Apply(s, Raise))
  {
    var t := Apply(s, Raise);
    assert forall k :: 0 <= k < |s.completed| ==> t.completed[k] == s.completed[k];
    assert t.completed[..|t.received|] == s.completed[..|s.received|];
  }

  lemma RaisePlaces(s: State, x: nat)
    requires Ordered(s) && Enabled(s, Raise) && Ordered(Apply(s, Raise))
    ensures Occurrences(Apply(s, Raise), x) == Occurrences(s, x)
  {
    var t := Apply(s, Raise);
    assert Used(t) == Used(s) + [s.device.id];
    CountOfSum(Used(s), [s.device.id], x);
    HeldCounts(s, x);
    HeldCounts(t, x);
    assert Available(t) == Available(s) && Hand(t) == Hand(s);
  }

  lemma RaiseKeeps(s: State)
    requires Inv(s) && Enabled(s, Raise)
    ensures Inv(Apply(s, Raise))
  {
    RaiseCounts(s);
    RaiseSlots(s);
    RaiseDelivers(s);
    forall x: nat { RaisePlaces(s, x); }
  }

  lemma StepKeeps(s: State, step: Step)
    requires Inv(s) && Enabled(s, step)
    ensures Inv(Apply(s, step))
  {
    match step
    case Notice => NoticeKeeps(s);
    case Fetch => FetchKeeps(s);
    case Inspect => InspectKeeps(s);
    case Settle => SettleKeeps(s);
    case Store => StoreKeeps(s);
    case Publish => PublishKeeps(s);
    case Look => LookKeeps(s);
    case Take => TakeKeeps(s);
    case Fill(i, event) => FillKeeps(s, i, event);
    case Finish(i) => FinishKeeps(s, i);
    case Raise => RaiseKeeps(s);
  }

  lemma StartHolds(kind: Kind, size: nat, usedRing: seq<nat>, buffers: seq<nat>)
    requires 0 < size <= 0x8000 && 0x1_0000 % size == 0 && |usedRing| == size && |buffers| == size
    ensures Inv(Start(kind, size, usedRing, buffers))
  {
    var s := Start(kind, size, usedRing, buffers);
    assert Available(s) == Iota(size);
    forall x: nat { EachIdOnce(size, x); }
  }

  lemma {:induction false} RunKeeps(s: State, steps: seq<Step>)
    requires Inv(s) && Runs(s, steps)
    ensures Inv(After(s, steps)) && After(s, steps).size == s.size && After(s, steps).kind == s.kind
    decreases |steps|
  {
    if steps != [] {
      StepKeeps(s, steps[0]);
      RunKeeps(Apply(s, steps[0]), steps[1..]);
    }
  }

  // ---- What a run guarantees ----

  /** Published minus settled: the queue size, one more while the input driver has published but
      not advanced, one less while the net driver has advanced but not published. */
  lemma Level(s: State)
    requires Inv(s)
    ensures |s.published| - SettledCount(s) ==
            s.size + (if s.driver.Recycled? then 1 else 0)
                   - (if s.kind.NetQueue? && ((s.driver.InHand? && s.driver.settled) || s.driver.Stored?) then 1 else 0)
  {
  }

  /** The driver's 16-bit comparison answers exactly: is there an element it has not accounted for? */
  lemma IndexTestIsExact(s: State)
    requires Inv(s)
    ensures s.usedIdx != s.lastUsed <==> SettledCount(s) < |s.completed|
  {
    var lo, hi := SettledCount(s), |s.completed|;
    assert lo <= hi <= lo + s.size + 1;
    if lo < hi { Modulo.SlotsDiffer(lo, hi, 0x1_0000); }
  }

  /** No slot of either ring is changed while it is published and not yet read, and no buffer is
      changed while its descriptor is out of the device's hands. */
  ghost predicate SparesUnread(s: State, t: State)
    requires Shaped(s) && Shaped(t) && s.size == t.size
  {
    && (forall k :: t.taken <= k < |s.published| ==> t.availRing[Slot(k, s.size)] == s.availRing[Slot(k, s.size)])
    && (forall k :: FetchedCount(t) <= k < |s.completed| ==> t.usedRing[Slot(k, s.size)] == s.usedRing[Slot(k, s.size)])
    && (forall id :: 0 <= id < s.size && id !in DeviceHeld(s) ==> t.buffers[id] == s.buffers[id])
  }

  lemma StepSparesUnread(s: State, step: Step)
    requires Inv(s) && Enabled(s, step)
    ensures SparesUnread(s, Apply(s, step))
  {
    match step
    case Store =>
      IndexOf(s, |s.published|);
      OtherSlots(s.taken, |s.published|, s.size);
    case Finish(_) =>
      IndexOf(s, |s.completed|);
      OtherSlots(FetchedCount(s), |s.completed|, s.size);
    case _ =>
      var t := Apply(s, step);
      assert t.availRing == s.availRing && t.usedRing == s.usedRing;
  }

  /** Ids read from shared memory always index the buffer array, so the range guards of Inspect,
      Fill and Raise never stop a step. */
  lemma IdsInRange(s: State, x: nat)
    requires Inv(s) && (x in Hand(s) || x in DeviceHeld(s) || x in Used(s) || x in Available(s))
    ensures x < s.size
  {
    assert Occurrences(s, x) == if x < s.size then 1 else 0;
    CountsMembers(Hand(s), x); CountsMembers(DeviceHeld(s), x);
    CountsMembers(Used(s), x); CountsMembers(Available(s), x);
  }

  /** Every run from set-up, however driver and device interleave and whatever order the device
      completes in: each descriptor is in exactly one place and nothing else is anywhere, the next
      step spares everything unread, and the driver has received exactly the first completions, in
      order, with the contents the device left in the buffer. */
  lemma EveryInterleaving(
      kind: Kind, size: nat, usedRing: seq<nat>, buffers: seq<nat>, steps: seq<Step>, next: Step, x: nat)
    requires 0 < size <= 0x8000 && 0x1_0000 % size == 0 && |usedRing| == size && |buffers| == size
    requires Runs(Start(kind, size, usedRing, buffers), steps)
    ensures var s := After(Start(kind, size, usedRing, buffers), steps);
            && Inv(s)
            && s.received <= s.completed
            && Count(Available(s), x) + Count(DeviceHeld(s), x) + Count(Used(s), x) + Count(Hand(s), x)
               == (if x < size then 1 else 0)
            && (Enabled(s, next) ==> SparesUnread(s, Apply(s, next)))
  {
    StartHolds(kind, size, usedRing, buffers);
    RunKeeps(Start(kind, size, usedRing, buffers), steps);
    var s := After(Start(kind, size, usedRing, buffers), steps);
    assert Occurrences(s, x) == if x < s.size then 1 else 0;
    if Enabled(s, next) { StepSparesUnread(s, next); }
  }

  const INPUT_SIZE: nat := 256
  const NET_SIZE: nat := 8

  /** The two queues of the kernel are instances. */
  lemma KernelQueues(usedIn: seq<nat>, events: seq<nat>, usedNet: seq<nat>, packets: seq<nat>,
                     inputSteps: seq<Step>, netSteps: seq<Step>)
    requires |usedIn| == |events| == INPUT_SIZE && |usedNet| == |packets| == NET_SIZE
    requires Runs(Start(InputQueue, INPUT_SIZE, usedIn, events), inputSteps)
    requires Runs(Start(NetQueue, NET_SIZE, usedNet, packets), netSteps)
    ensures Inv(After(Start(InputQueue, INPUT_SIZE, usedIn, events), inputSteps))
    ensures Inv(After(Start(NetQueue, NET_SIZE, usedNet, packets), netSteps))
  {
    EveryInterleaving(InputQueue, INPUT_SIZE, usedIn, events, inputSteps, Fetch, 0);
    EveryInterleaving(NetQueue, NET_SIZE, usedNet, packets, netSteps, Fetch, 0);
  }
}
