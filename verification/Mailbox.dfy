/** The kernel's IPC mailbox (kernel/syscall.c): a ring of 256 slots that holds at most 255 messages and
    silently drops what does not fit. */
module Mailbox {
  import opened Machine

  /** The requests the shell makes; each has its own response type. */
  datatype Request = List | Read | Write | Execute | Dump | Persist

  datatype Kind = NoMessage | KeyPress | Ask(request: Request) | Answer(request: Request)

  datatype Message = Message(sender: u32, target: u32, kind: Kind, length: u32, payload: Bytes)

  const KERNEL: u32 := 0
  const UART: u32 := 1
  const SHELL: u32 := 2
  const SLOTS: nat := 256
  const CAPACITY: nat := 255

  const CARRIAGE_RETURN: u8 := 0x0D
  const NEWLINE: u8 := 0x0A
  const BACKSPACE: u8 := 0x08

  function Key(sender: u32, c: u8): Message { Message(sender, SHELL, KeyPress, 1, [c]) }

  // ---- The mailbox as a queue ----

  function Send(q: seq<Message>, m: Message): seq<Message> { if |q| < CAPACITY then q + [m] else q }

  function Empty(): Message { Message(0, 0, NoMessage, 0, []) }

  function Receive(q: seq<Message>): (Message, seq<Message>) { if q == [] then (Empty(), []) else (q[0], q[1..]) }

  function SendKeys(q: seq<Message>, sender: u32, keys: Bytes): seq<Message>
    decreases |keys|
  {
    if keys == [] then q else SendKeys(Send(q, Key(sender, keys[0])), sender, keys[1..])
  }

  /** The host link sends carriage returns where the shell expects line feeds. */
  function FromHost(c: u8): u8 { if c == CARRIAGE_RETURN then NEWLINE else c }

  function AllFromHost(keys: Bytes): (r: Bytes)
    ensures |r| == |keys| && forall i :: 0 <= i < |keys| ==> r[i] == FromHost(keys[i])
  {
    seq(|keys|, i requires 0 <= i < |keys| => FromHost(keys[i]))
  }

  /** One drain: what the keyboard and then the host link deliver until each reports nothing more. */
  function Drain(q: seq<Message>, keyboard: Bytes, host: Bytes): seq<Message> {
    SendKeys(SendKeys(q, KERNEL, keyboard), UART, AllFromHost(host))
  }

  /** At most 255 bytes of payload, then the terminator. */
  function Clip(text: Bytes): Bytes { if |text| <= 255 then text else text[..255] }

  /** The kernel's answer to a request addressed to it, from its handler's text. */
  function Response(m: Message, text: Bytes): Message
    requires m.kind.Ask?
  {
    Message(KERNEL, m.sender, Answer(m.kind.request), (|Clip(text)| + 1) % 0x1_0000_0000, Clip(text) + [0])
  }

  /** The send call: a request to the kernel is answered on the spot, anything else is queued. */
  function Call(q: seq<Message>, m: Message, text: Bytes): seq<Message> {
    if m.target == KERNEL then (if m.kind.Ask? then Send(q, Response(m, text)) else q) else Send(q, m)
  }

  // ---- The ring ----

  /** The slots from one index up to another, going round. */
  function Between(slots: seq<Message>, from: nat, to: nat): (q: seq<Message>)
    requires |slots| == SLOTS && from < SLOTS && to < SLOTS
    ensures |q| == if from <= to then to - from else to + 256 - from
  {
    if from <= to then slots[from..to] else slots[from..] + slots[..to]
  }

  lemma NextSlot(i: nat)
    requires i < SLOTS
    ensures (i + 1) % 256 == if i == 255 then 0 else i + 1
  {
  }

  lemma AppendedBefore(slots: seq<Message>, from: nat, to: nat, m: Message)
    requires |slots| == SLOTS && from <= to < SLOTS
    ensures slots[to := m][from..to + 1] == slots[from..to] + [m]
  {
  }

  lemma AppendedBehind(slots: seq<Message>, from: nat, to: nat, m: Message)
    requires |slots| == SLOTS && to < from < SLOTS
    ensures slots[to := m][from..] == slots[from..]
    ensures slots[to := m][..to + 1] == slots[..to] + [m]
  {
  }

  lemma Appended(slots: seq<Message>, from: nat, to: nat, m: Message, next: nat)
    requires |slots| == SLOTS && from < SLOTS && to < SLOTS && next != from
    requires next == if to == 255 then 0 else to + 1
    ensures Between(slots[to := m], from, next) == Between(slots, from, to) + [m]
  {
    if from <= to {
      AppendedBefore(slots, from, to, m);
      if to == 255 { assert slots[to := m][..0] == []; }
    } else {
      AppendedBehind(slots, from, to, m);
      Reassociate(slots[from..], slots[..to], [m]);
    }
  }

  lemma RemovedBefore(slots: seq<Message>, from: nat, to: nat)
    requires |slots| == SLOTS && from < to < SLOTS
    ensures Between(slots, from, to) == [slots[from]] + Between(slots, from + 1, to)
  {
    assert slots[from..to] == [slots[from]] + slots[from + 1..to];
  }

  lemma RemovedBehind(slots: seq<Message>, from: nat, to: nat)
    requires |slots| == SLOTS && to < from < 255
    ensures Between(slots, from, to) == [slots[from]] + Between(slots, from + 1, to)
  {
    assert slots[from..] == [slots[from]] + slots[from + 1..];
    Reassociate([slots[from]], slots[from + 1..], slots[..to]);
  }

  lemma RemovedLast(slots: seq<Message>, to: nat)
    requires |slots| == SLOTS && to < 255
    ensures Between(slots, 255, to) == [slots[255]] + Between(slots, 0, to)
  {
    assert slots[255..] == [slots[255]];
    assert slots[0..to] == slots[..to];
  }

  lemma Removed(slots: seq<Message>, from: nat, to: nat, next: nat)
    requires |slots| == SLOTS && from < SLOTS && to < SLOTS && from != to
    requires next == if from == 255 then 0 else from + 1
    ensures Between(slots, from, to) == [slots[from]] + Between(slots, next, to)
  {
    if from == 255 { RemovedLast(slots, to); }
    else if from < to { RemovedBefore(slots, from, to); }
    else { RemovedBehind(slots, from, to); }
  }

  class Ring {
    const queue: array<Message>
    var head: nat
    var tail: nat

    predicate Valid()
      reads this
    {
      queue.Length == SLOTS && head < SLOTS && tail < SLOTS
    }

    function Count(): (n: nat)
      requires Valid()
      reads this
      ensures n <= CAPACITY
    {
      if head <= tail then tail - head else tail + 256 - head
    }

    /** The messages waiting, oldest first. */
    function Contents(): (q: seq<Message>)
      requires Valid()
      reads this, queue
      ensures |q| == Count()
    {
      Between(queue[..], head, tail)
    }

    constructor ()
      ensures Valid() && fresh(queue) && Contents() == []
    {
      queue := new Message[SLOTS](_ => Empty());
      head, tail := 0, 0;
      new;
      assert queue[0..0] == [];
    }

    method KernelSend(m: Message)
      requires Valid()
      modifies this`tail, queue
      ensures Valid() && Contents() == Send(old(Contents()), m)
    {
      var nextTail := (tail + 1) % 256;
      if nextTail != head {
        ghost var before, from, to := queue[..], head, tail;
        queue[tail] := m;
        tail := nextTail;
        assert queue[..] == before[to := m];
        NextSlot(to);
        Appended(before, from, to, m, nextTail);
      }
    }

    method IpcReceive() returns (m: Message)
      requires Valid()
      modifies this`head
      ensures Valid() && (m, Contents()) == Receive(old(Contents()))
    {
      if head != tail {
        NextSlot(head);
        Removed(queue[..], head, tail, (head + 1) % 256);
        m := queue[head];
        head := (head + 1) % 256;
      } else {
        m := Empty();
      }
    }

    /** The two polling loops of the drain call. */
    method DrainHardware(keyboard: Bytes, host: Bytes)
      requires Valid()
      modifies this`tail, queue
      ensures Valid() && Contents() == Drain(old(Contents()), keyboard, host)
    {
      for i := 0 to |keyboard|
        invariant Valid()
        invariant SendKeys(Contents(), KERNEL, keyboard[i..]) == SendKeys(old(Contents()), KERNEL, keyboard)
      {
        assert keyboard[i..][1..] == keyboard[i + 1..];
        KernelSend(Key(KERNEL, keyboard[i]));
      }
      assert Contents() == SendKeys(old(Contents()), KERNEL, keyboard);
      ghost var between := Contents();
      ghost var all := AllFromHost(host);
      for i := 0 to |host|
        invariant Valid()
        invariant SendKeys(Contents(), UART, all[i..]) == SendKeys(between, UART, all)
      {
        assert all[i..][0] == FromHost(host[i]) && all[i..][1..] == all[i + 1..];
        KernelSend(Key(UART, if host[i] == CARRIAGE_RETURN then NEWLINE else host[i]));
      }
    }

    method IpcSend(m: Message, text: Bytes)
      requires Valid()
      modifies this`tail, queue
      ensures Valid() && Contents() == Call(old(Contents()), m, text)
    {
      if m.target == KERNEL {
        if m.kind.Ask? { KernelSend(Response(m, text)); }
      } else {
        KernelSend(m);
      }
    }
  }
}
