/** The driver's own code over the shared arrays, written as the source writes it, and tied to the
    single memory accesses of ReceiveRing: a poll performs exactly its list of driver steps. */
module ReceiveDriver {
  import opened Machine
  import Modulo
  import opened ReceiveRing

  /** The accesses of one poll that finds an element, in program order. */
  function PollSteps(kind: Kind): seq<Step> {
    if kind.NetQueue? then [Notice, Fetch, Inspect, Settle, Store, Publish]
    else [Notice, Fetch, Inspect, Store, Publish, Settle]
  }

  /** The id the next poll reads. */
  function NextId(s: State): nat
    requires Shaped(s)
  {
    s.usedRing[s.lastUsed % s.size]
  }

  /** The net effect of a poll, the same in both orders. */
  function Polled(s: State): State
    requires Shaped(s) && NextId(s) < s.size
  {
    s.(availRing := s.availRing[s.availIdx % s.size := NextId(s)],
       availIdx := Next16(s.availIdx),
       lastUsed := Next16(s.lastUsed),
       published := s.published + [NextId(s)],
       received := s.received + [Completion(NextId(s), s.buffers[NextId(s)])])
  }

  lemma Prepend(s: State, step: Step, rest: seq<Step>)
    requires Enabled(s, step) && Runs(Apply(s, step), rest)
    ensures Runs(s, [step] + rest) && After(s, [step] + rest) == After(Apply(s, step), rest)
  {
    assert ([step] + rest)[1..] == rest;
  }

  lemma Chain(s: State, s1: State, s2: State, s3: State, s4: State, a: Step, b: Step, c: Step, d: Step, e: Step)
    requires Enabled(s, a) && s1 == Apply(s, a) && Enabled(s1, b) && s2 == Apply(s1, b)
    requires Enabled(s2, c) && s3 == Apply(s2, c) && Enabled(s3, d) && s4 == Apply(s3, d) && Enabled(s4, e)
    ensures Runs(s, [a, b, c, d, e]) && After(s, [a, b, c, d, e]) == Apply(s4, e)
  {
    var t := Apply(s4, e);
    assert Runs(t, []) && After(t, []) == t;
    Prepend(s4, e, []);
    Prepend(s3, d, [e]);
    Prepend(s2, c, [d, e]);
    Prepend(s1, b, [c, d, e]);
    Prepend(s, a, [b, c, d, e]);
    assert [a] + [b, c, d, e] == [a, b, c, d, e] && [b] + [c, d, e] == [b, c, d, e];
    assert [c] + [d, e] == [c, d, e] && [d] + [e] == [d, e] && [e] + [] == [e];
  }

  lemma PollIsItsSteps(s: State)
    requires Shaped(s) && s.driver.Idle? && s.usedIdx != s.lastUsed && NextId(s) < s.size
    ensures Runs(s, PollSteps(s.kind)) && After(s, PollSteps(s.kind)) == Polled(s)
  {
    var s0 := Apply(s, Notice);
    var s1 := Apply(s0, Fetch);
    var s2 := Apply(s1, Inspect);
    if s.kind.NetQueue? {
      var s3 := Apply(s2, Settle);
      Chain(s0, s1, s2, s3, Apply(s3, Store), Fetch, Inspect, Settle, Store, Publish);
    } else {
      var s3 := Apply(s2, Store);
      Chain(s0, s1, s2, s3, Apply(s3, Publish), Fetch, Inspect, Store, Publish, Settle);
    }
    Prepend(s, Notice, PollSteps(s.kind)[1..]);
    assert PollSteps(s.kind) == [Notice] + PollSteps(s.kind)[1..];
  }

  lemma NextIdIsOldest(s: State)
    requires Inv(s) && s.driver.Idle? && s.usedIdx != s.lastUsed
    ensures |s.received| < |s.completed|
    ensures NextId(s) < s.size
    ensures Completion(NextId(s), s.buffers[NextId(s)]) == s.completed[|s.received|]
  {
    IndexTestIsExact(s);
    IndexOf(s, |s.received|);
  }

  /** Without interference a poll reads the oldest unread completion, puts its descriptor back at
      the end of the available ring, and keeps the protocol's invariant. */
  lemma PollRecyclesOne(s: State)
    requires Inv(s) && s.driver.Idle? && s.usedIdx != s.lastUsed
    ensures NextId(s) < s.size && Inv(Polled(s)) && |s.received| < |s.completed|
    ensures Runs(s, PollSteps(s.kind)) && After(s, PollSteps(s.kind)) == Polled(s)
    ensures Polled(s).received == s.completed[..|s.received| + 1]
    ensures Polled(s).published == s.published + [s.completed[|s.received|].id]
  {
    NextIdIsOldest(s);
    PollIsItsSteps(s);
    RunKeeps(s, PollSteps(s.kind));
  }

  // ---- States reached by some interleaving since set-up ----

  ghost predicate ReachedBy(s: State, usedRing: seq<nat>, buffers: seq<nat>, steps: seq<Step>) {
    && 0 < s.size <= 0x8000 && 0x1_0000 % s.size == 0 && |usedRing| == s.size && |buffers| == s.size
    && Runs(Start(s.kind, s.size, usedRing, buffers), steps)
    && After(Start(s.kind, s.size, usedRing, buffers), steps) == s
  }

  ghost predicate Reachable(s: State) {
    exists usedRing: seq<nat>, buffers: seq<nat>, steps: seq<Step> :: ReachedBy(s, usedRing, buffers, steps)
  }

  lemma ReachableHolds(s: State)
    requires Reachable(s)
    ensures Inv(s)
  {
    var usedRing: seq<nat>, buffers: seq<nat>, steps: seq<Step> :| ReachedBy(s, usedRing, buffers, steps);
    StartHolds(s.kind, s.size, usedRing, buffers);
    RunKeeps(Start(s.kind, s.size, usedRing, buffers), steps);
  }

  lemma {:induction false} RunOn(s: State, steps: seq<Step>, more: seq<Step>)
    requires Runs(s, steps) && Runs(After(s, steps), more)
    ensures Runs(s, steps + more) && After(s, steps + more) == After(After(s, steps), more)
    decreases |steps|
  {
    if steps == [] {
      assert [] + more == more;
    } else {
      RunOn(Apply(s, steps[0]), steps[1..], more);
      assert (steps + more)[1..] == steps[1..] + more;
    }
  }

  lemma StartIsReachable(kind: Kind, size: nat, usedRing: seq<nat>, buffers: seq<nat>)
    requires 0 < size <= 0x8000 && 0x1_0000 % size == 0 && |usedRing| == size && |buffers| == size
    ensures Reachable(Start(kind, size, usedRing, buffers))
  {
    assert ReachedBy(Start(kind, size, usedRing, buffers), usedRing, buffers, []);
  }

  /** What the driver's code relies on, and what its poll does, in any reachable state. */
  lemma PollFromReachable(s: State)
    requires Reachable(s) && s.driver.Idle?
    ensures Shaped(s)
    ensures s.usedIdx != s.lastUsed <==> SettledCount(s) < |s.completed|
    ensures s.usedIdx != s.lastUsed ==>
      && NextId(s) < s.size
      && Reachable(Polled(s)) && |s.received| < |s.completed|
      && Completion(NextId(s), s.buffers[NextId(s)]) == s.completed[|s.received|]
      && Runs(s, PollSteps(s.kind)) && After(s, PollSteps(s.kind)) == Polled(s)
  {
    ReachableHolds(s);
    IndexTestIsExact(s);
    if s.usedIdx != s.lastUsed {
      NextIdIsOldest(s);
      PollIsItsSteps(s);
      var usedRing: seq<nat>, buffers: seq<nat>, steps: seq<Step> :| ReachedBy(s, usedRing, buffers, steps);
      RunOn(Start(s.kind, s.size, usedRing, buffers), steps, PollSteps(s.kind));
      assert ReachedBy(Polled(s), usedRing, buffers, steps + PollSteps(s.kind));
    }
  }

  lemma OneMoreStep(s: State, step: Step)
    requires Reachable(s) && Enabled(s, step)
    ensures Reachable(Apply(s, step)) && Shaped(Apply(s, step))
  {
    ReachableHolds(s);
    StepKeeps(s, step);
    var usedRing: seq<nat>, buffers: seq<nat>, steps: seq<Step> :| ReachedBy(s, usedRing, buffers, steps);
    Prepend(s, step, []);
    assert [step] + [] == [step];
    RunOn(Start(s.kind, s.size, usedRing, buffers), steps, [step]);
    assert ReachedBy(Apply(s, step), usedRing, buffers, steps + [step]);
  }

  /** After a look an untaken buffer can be taken, and its id is the oldest published one. */
  lemma LookedAhead(s: State)
    requires Reachable(s) && s.noted == |s.published| && s.taken < |s.published|
    ensures Enabled(s, Take) && s.availRing[s.lastAvail % s.size] == s.published[s.taken] < s.size
  {
    ReachableHolds(s);
    Modulo.SlotsDiffer(s.taken, s.noted, 0x1_0000);
    TakesInOrder(s);
    IdsInRange(s, s.published[s.taken]);
  }

  /** Fill, finish, raise: the accesses are enabled in that order and complete the buffer. */
  lemma HandingBack(s: State, event: nat)
    requires Shaped(s) && s.device.Ready? && s.held != [] && s.held[0] < s.size
    ensures Enabled(s, Fill(0, event))
    ensures var s3 := Apply(s, Fill(0, event));
            && Enabled(s3, Finish(0))
            && var s4 := Apply(s3, Finish(0));
            && Enabled(s4, Raise)
            && var s5 := Apply(s4, Raise);
               && s5.completed == s.completed + [Completion(s.held[0], event)]
               && s5.received == s.received && s5.driver == s.driver
  {
  }

  class Queue {
    const kind: Kind
    const size: nat
    var availRing: array<nat>
    var availIdx: u16
    var usedRing: array<nat>
    var usedIdx: u16
    var buffers: array<nat>
    var lastUsed: u16
    // the device at the other end
    var seen: u16
    var lastAvail: u16
    var held: seq<nat>
    var device: Device
    ghost var state: State

    ghost predicate Valid()
      reads this, availRing, usedRing, buffers
    {
      && availRing != usedRing && availRing != buffers && usedRing != buffers
      && Reachable(state) && Shaped(state) && state.driver.Idle?
      && state.kind == kind && state.size == size
      && availRing[..] == state.availRing && availIdx == state.availIdx
      && usedRing[..] == state.usedRing && usedIdx == state.usedIdx
      && buffers[..] == state.buffers && lastUsed == state.lastUsed
      && seen == state.seen && lastAvail == state.lastAvail && held == state.held && device == state.device
    }

    /** Offer every buffer to the device. */
    constructor (kind: Kind, size: nat)
      requires 0 < size <= 0x8000 && 0x1_0000 % size == 0
      ensures Valid() && fresh(availRing) && fresh(usedRing) && fresh(buffers)
      ensures this.kind == kind && this.size == size
      ensures state == Start(kind, size, usedRing[..], buffers[..])
    {
      this.kind, this.size := kind, size;
      availRing, usedRing, buffers := new nat[size], new nat[size], new nat[size];
      availIdx, usedIdx, lastUsed := 0, 0, 0;
      seen, lastAvail, held, device := 0, 0, [], Ready;
      new;
      for j := 0 to size
        modifies availRing
        invariant forall k :: 0 <= k < j ==> availRing[k] == k
      {
        availRing[j] := j;
      }
      availIdx := size;
      state := Start(kind, size, usedRing[..], buffers[..]);
      StartIsReachable(kind, size, usedRing[..], buffers[..]);
    }

    /** One poll: nothing to read, or one element read and its descriptor recycled. */
    method Poll() returns (received: Option<Completion>)
      requires Valid()
      modifies this`availIdx, this`lastUsed, this`state, availRing
      ensures Valid()
      ensures received.Some? <==> SettledCount(old(state)) < |old(state).completed|
      ensures received.None? ==> state == old(state)
      ensures received.Some? ==>
        Runs(old(state), PollSteps(kind)) && state == After(old(state), PollSteps(kind))
      ensures received.Some? ==> received.value == old(state).completed[|old(state).received|]
    {
      ghost var before := state;
      PollFromReachable(before);
      if usedIdx == lastUsed {
        return None;
      }
      var id := usedRing[lastUsed % size];
      assert id == NextId(before);
      var event := buffers[id];
      if kind.NetQueue? {
        lastUsed := Next16(lastUsed);
        availRing[availIdx % size] := id;
        availIdx := Next16(availIdx);
      } else {
        availRing[availIdx % size] := id;
        availIdx := Next16(availIdx);
        lastUsed := Next16(lastUsed);
      }
      assert availRing[..] == Polled(before).availRing;
      state := Polled(before);
      received := Some(Completion(id, event));
    }

    /** One access of the device to what the driver offers. */
    method DeviceReads(step: Step)
      requires Valid() && (step.Look? || step.Take?) && Enabled(state, step)
      modifies this`seen, this`lastAvail, this`held, this`state
      ensures Valid() && state == Apply(old(state), step)
    {
      OneMoreStep(state, step);
      if step.Look? {
        seen := availIdx;
      } else {
        held := held + [availRing[lastAvail % size]];
        lastAvail := Next16(lastAvail);
      }
      state := Apply(state, step);
    }

    /** One access of the device to the buffers or the used ring. */
    method DeviceWrites(step: Step)
      requires Valid() && (step.Fill? || step.Finish? || step.Raise?) && Enabled(state, step)
      modifies this`held, this`device, this`usedIdx, this`state, usedRing, buffers
      ensures Valid() && state == Apply(old(state), step)
    {
      ghost var before := state;
      OneMoreStep(before, step);
      match step {
        case Fill(slot, event) => buffers[held[slot]] := event;
        case Finish(slot) =>
          usedRing[usedIdx % size] := held[slot];
          device := Writing(held[slot]);
          held := held[..slot] + held[slot + 1..];
        case Raise =>
          usedIdx := Next16(usedIdx);
          device := Ready;
      }
      state := Apply(before, step);
      assert usedRing[..] == state.usedRing && buffers[..] == state.buffers;
    }

    /** The device looks at the available index and takes the oldest buffer offered. */
    method TakeNext()
      requires Valid() && state.taken < |state.published|
      modifies this`seen, this`lastAvail, this`held, this`state
      ensures Valid() && state.held == old(state.held) + [old(state).published[old(state).taken]]
      ensures old(state).published[old(state).taken] < size && state.device == old(state).device
      ensures state.completed == old(state).completed && state.received == old(state).received
    {
      DeviceReads(Look);
      LookedAhead(state);
      DeviceReads(Take);
    }

    /** The device fills the buffer it took first and hands it back. */
    method HandBack(event: nat)
      requires Valid() && state.device.Ready? && state.held != [] && state.held[0] < size
      modifies this`held, this`device, this`usedIdx, this`state, usedRing, buffers
      ensures Valid() && state.received == old(state).received
      ensures state.completed == old(state).completed + [Completion(old(state).held[0], event)]
    {
      HandingBack(state, event);
      DeviceWrites(Fill(0, event));
      DeviceWrites(Finish(0));
      DeviceWrites(Raise);
    }

    /** An event on its way: an idle device takes the oldest buffer offered, fills it and hands it back,
        and the next poll returns it. */
    method Deliver(event: nat) returns (received: Option<Completion>)
      requires Valid() && state.device.Ready? && state.held == [] && state.taken < |state.published|
      requires |state.received| == |state.completed|
      modifies this`seen, this`lastAvail, this`held, this`device, this`usedIdx, this`availIdx, this`lastUsed,
               this`state, usedRing, buffers, availRing
      ensures Valid() && received == Some(Completion(old(state).published[old(state).taken], event))
    {
      TakeNext();
      HandBack(event);
      received := Poll();
    }
  }
}
