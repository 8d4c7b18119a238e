/** The shell's main loop (modules/shell_gui/main.c) against the mailbox: every request it makes is answered,
    and every wait for the answer ends. */
module Shell {
  import opened Machine
  import opened Mailbox

  const LINE_MAX: nat := 255

  // ---- What a command line asks for ----

  function Find(s: Bytes, c: u8): (r: Option<nat>)
    ensures r.Some? ==> r.value < |s| && s[r.value] == c && c !in s[..r.value]
    ensures r.None? ==> c !in s
  {
    if s == [] then None
    else if s[0] == c then Some(0)
    else
      var rest := Find(s[1..], c);
      if rest.None? then None
      else
        assert s[..rest.value + 1] == [s[0]] + s[1..][..rest.value];
        Some(rest.value + 1)
  }

  const DOT: u8 := 0x2E
  const SPACE: u8 := 0x20

  function Text(s: string): Bytes { seq(|s|, i requires 0 <= i < |s| => (s[i] as int) % 256) }

  function Dispatch(namespace: Bytes, verb: Bytes, args: Option<Bytes>): Option<Request> {
    if namespace == Text("storage") || namespace == Text("s") then
      if verb == Text("list") || verb == Text("ls") then Some(List)
      else if verb == Text("read") && args.Some? then Some(Read)
      else if verb == Text("write") && args.Some? && Find(args.value, SPACE).Some? then Some(Write)
      else None
    else if namespace == Text("agent") && verb == Text("why") then Some(Dump)
    else if namespace == Text("atk") && verb == Text("run") && args.Some? then Some(Execute)
    else if namespace == Text("ledger") && verb == Text("sync") then Some(Persist)
    else None
  }

  /** `namespace.verb arguments`; everything else makes no request. */
  function Command(line: Bytes): Option<Request> {
    match Find(line, DOT)
    case None => None
    case Some(d) =>
      var space, tail := line[..d], line[d + 1..];
      match Find(tail, SPACE)
      case None => Dispatch(space, tail, None)
      case Some(k) => Dispatch(space, tail[..k], Some(tail[k + 1..]))
  }

  lemma {:induction false} FindsFirst(a: Bytes, c: u8, b: Bytes)
    requires c !in a
    ensures Find(a, c).None? && Find(a + [c] + b, c) == Some(|a|)
  {
    if a == [] {
      assert a + [c] + b == [c] + b;
    } else {
      assert (a + [c] + b)[1..] == a[1..] + [c] + b;
      FindsFirst(a[1..], c, b);
    }
  }

  lemma SplitsAt(a: Bytes, c: u8, b: Bytes)
    ensures (a + [c] + b)[..|a|] == a && (a + [c] + b)[|a| + 1..] == b
  {
  }

  /** The line a user types is taken apart at the first dot and at the first space behind it. */
  lemma CommandSplits(namespace: Bytes, verb: Bytes, args: Bytes)
    requires DOT !in namespace && SPACE !in verb
    ensures Command(namespace + [DOT] + (verb + [SPACE] + args)) == Dispatch(namespace, verb, Some(args))
    ensures Command(namespace + [DOT] + verb) == Dispatch(namespace, verb, None)
  {
    FindsFirst(verb, SPACE, args);
    SplitsAt(verb, SPACE, args);
    FindsFirst(namespace, DOT, verb + [SPACE] + args);
    SplitsAt(namespace, DOT, verb + [SPACE] + args);
    FindsFirst(namespace, DOT, verb);
    SplitsAt(namespace, DOT, verb);
  }

  // ---- One round of the loop ----

  /** What the outside world contributes to one round: the two drains, and the handler's text. */
  datatype Input = Input(keyboard: Bytes, host: Bytes, text: Bytes, keyboardAfter: Bytes, hostAfter: Bytes)

  datatype State = State(mailbox: seq<Message>, line: Bytes)

  /** What happened in a round that made a request: the mailbox the kernel answered into, the mailbox
      with the answer, and how many receives the wait took. */
  datatype Exchange = Exchange(request: Request, before: seq<Message>, answered: seq<Message>, receives: nat)

  /** How many receives until the answer comes up. */
  function Until(q: seq<Message>, request: Request): (n: nat)
    ensures n <= |q|
  {
    if q == [] then 0
    else if q[0].kind == Answer(request) then 1
    else 1 + Until(q[1..], request)
  }

  function RequestMessage(request: Request): Message { Message(SHELL, KERNEL, Ask(request), 0, []) }

  /** The byte of a key press, if that is what was received. */
  function Pressed(m: Message): Option<u8> {
    if m.kind.KeyPress? && m.length > 0 && |m.payload| > 0 then Some(m.payload[0]) else None
  }

  /** The request a received message triggers: the end of a non-empty line that is a command. */
  function Triggers(m: Message, line: Bytes): Option<Request> {
    if Pressed(m) == Some(NEWLINE) && line != [] then Command(line) else None
  }

  function Edit(m: Message, line: Bytes): Bytes {
    match Pressed(m)
    case None => line
    case Some(c) =>
      if c == NEWLINE then []
      else if c == BACKSPACE then (if line == [] then [] else line[..|line| - 1])
      else if |line| < LINE_MAX then line + [c] else line
  }

  function Round(s: State, input: Input): (State, Option<Exchange>) {
    var (m, rest) := Receive(Drain(s.mailbox, input.keyboard, input.host));
    match Triggers(m, s.line)
    case None => (State(rest, Edit(m, s.line)), None)
    case Some(r) =>
      var answered := Call(rest, RequestMessage(r), input.text);
      var n := Until(answered, r);
      (State(Drain(answered[n..], input.keyboardAfter, input.hostAfter), []),
       Some(Exchange(r, rest, answered, n)))
  }

  function Run(s: State, inputs: seq<Input>): (State, seq<Option<Exchange>>)
    decreases |inputs|
  {
    if inputs == [] then (s, [])
    else
      var (s1, e) := Round(s, inputs[0]);
      var (s2, es) := Run(s1, inputs[1..]);
      (s2, [e] + es)
  }

  // ---- What every run keeps ----

  predicate OnlyKeys(q: seq<Message>) { forall i :: 0 <= i < |q| ==> q[i].kind.KeyPress? }

  predicate Fits(q: seq<Message>) { |q| <= CAPACITY }

  lemma {:induction false} KeysStay(q: seq<Message>, sender: u32, keys: Bytes)
    requires OnlyKeys(q) && Fits(q)
    ensures OnlyKeys(SendKeys(q, sender, keys)) && Fits(SendKeys(q, sender, keys))
    decreases |keys|
  {
    if keys != [] { KeysStay(Send(q, Key(sender, keys[0])), sender, keys[1..]); }
  }

  lemma DrainKeeps(q: seq<Message>, keyboard: Bytes, host: Bytes)
    requires OnlyKeys(q) && Fits(q)
    ensures OnlyKeys(Drain(q, keyboard, host)) && Fits(Drain(q, keyboard, host))
  {
    KeysStay(q, KERNEL, keyboard);
    KeysStay(SendKeys(q, KERNEL, keyboard), UART, AllFromHost(host));
  }

  lemma {:induction false} AnswerComesLast(keys: seq<Message>, m: Message, request: Request)
    requires OnlyKeys(keys) && m.kind == Answer(request)
    ensures Until(keys + [m], request) == |keys| + 1
  {
    if keys != [] {
      assert (keys + [m])[1..] == keys[1..] + [m];
      AnswerComesLast(keys[1..], m, request);
    }
  }

  /** The answer was accepted, sits behind nothing but key presses, and the wait takes exactly as many
      receives as there are messages: at most 255. */
  predicate Delivered(e: Exchange) {
    && OnlyKeys(e.before) && |e.before| < CAPACITY
    && |e.answered| == |e.before| + 1 && e.answered[..|e.before|] == e.before
    && e.answered[|e.before|].kind == Answer(e.request)
    && e.receives == |e.answered| <= CAPACITY
  }

  ghost predicate Sound(s: State) { OnlyKeys(s.mailbox) && Fits(s.mailbox) && |s.line| <= LINE_MAX }

  lemma RoundDelivers(s: State, input: Input)
    requires Sound(s)
    ensures Sound(Round(s, input).0)
    ensures Round(s, input).1.Some? ==> Delivered(Round(s, input).1.value)
  {
    DrainKeeps(s.mailbox, input.keyboard, input.host);
    var drained := Drain(s.mailbox, input.keyboard, input.host);
    var (m, rest) := Receive(drained);
    match Triggers(m, s.line)
    case None =>
    case Some(r) =>
      // The message that triggered the request came out of the mailbox, so there is room again.
      assert drained != [] && |rest| < CAPACITY;
      var answer := Response(RequestMessage(r), input.text);
      AnswerComesLast(rest, answer, r);
      assert (rest + [answer])[|rest| + 1..] == [];
      DrainKeeps([], input.keyboardAfter, input.hostAfter);
  }

  /** Over every run of the shell and every finite input: between rounds the mailbox holds only key
      presses, no answer is ever dropped, and every wait ends within 255 receives. */
  lemma {:induction false} EveryAnswerDelivered(s: State, inputs: seq<Input>)
    requires Sound(s)
    ensures Sound(Run(s, inputs).0)
    ensures forall i :: 0 <= i < |Run(s, inputs).1| && Run(s, inputs).1[i].Some? ==> Delivered(Run(s, inputs).1[i].value)
    decreases |inputs|
  {
    if inputs != [] {
      RoundDelivers(s, inputs[0]);
      EveryAnswerDelivered(Round(s, inputs[0]).0, inputs[1..]);
    }
  }

  /** The margin is exact: with a full mailbox the very same call would lose its answer. */
  lemma FullMailboxLosesAnswer(q: seq<Message>, request: Request, text: Bytes)
    requires OnlyKeys(q) && Fits(q)
    ensures (exists i :: 0 <= i < |Call(q, RequestMessage(request), text)|
                         && Call(q, RequestMessage(request), text)[i].kind == Answer(request))
            <==> |q| < CAPACITY
  {
    var after := Call(q, RequestMessage(request), text);
    if |q| < CAPACITY { assert after[|q|].kind == Answer(request); }
  }

  // ---- The loop itself ----

  class Terminal {
    const ring: Ring
    var line: Bytes

    predicate Valid()
      reads this, ring
    {
      ring.Valid()
    }

    function Now(): State
      requires Valid()
      reads this, ring, ring.queue
    {
      State(ring.Contents(), line)
    }

    constructor ()
      ensures Valid() && Now() == State([], []) && fresh(ring) && fresh(ring.queue)
    {
      ring := new Ring();
      line := [];
    }

    /** Receive and discard until the answer to the request comes. */
    method WaitFor(request: Request) returns (receives: nat)
      requires Valid() && exists i :: 0 <= i < |ring.Contents()| && ring.Contents()[i].kind == Answer(request)
      modifies ring`head
      ensures Valid() && receives == Until(old(ring.Contents()), request)
      ensures ring.Contents() == old(ring.Contents())[receives..]
    {
      var waiting := true;
      receives := 0;
      ghost var start := ring.Contents();
      while waiting
        invariant Valid() && receives <= |start|
        invariant ring.Contents() == start[receives..]
        invariant waiting ==> exists i :: 0 <= i < |ring.Contents()| && ring.Contents()[i].kind == Answer(request)
        invariant receives + (if waiting then Until(ring.Contents(), request) else 0) == Until(start, request)
        decreases |start| - receives, waiting
      {
        ghost var q := ring.Contents();
        var resp := ring.IpcReceive();
        receives := receives + 1;
        assert q[1..] == start[receives..];
        if resp.kind == Answer(request) {
          waiting := false;
        } else {
          ghost var i :| 0 <= i < |q| && q[i].kind == Answer(request);
          assert q[1..][i - 1].kind == Answer(request);
        }
      }
    }

    /** One turn of the loop: drain, receive one message, and on a command ask, wait and drain. */
    method Turn(input: Input)
      requires Valid() && Sound(Now())
      modifies this`line, ring`head, ring`tail, ring.queue
      ensures Valid() && Now() == Round(old(Now()), input).0
    {
      RoundDelivers(Now(), input);
      ring.DrainHardware(input.keyboard, input.host);
      var m := ring.IpcReceive();
      var request := Triggers(m, line);
      if request.None? {
        line := Edit(m, line);
        return;
      }
      ring.IpcSend(RequestMessage(request.value), input.text);
      ghost var answered := ring.Contents();
      assert answered[|answered| - 1].kind == Answer(request.value);
      var _ := WaitFor(request.value);
      ring.DrainHardware(input.keyboardAfter, input.hostAfter);
      line := [];
    }

    /** The endless loop, for as many turns as there is input. */
    method Serve(inputs: seq<Input>)
      requires Valid() && Sound(Now())
      modifies this`line, ring`head, ring`tail, ring.queue
      ensures Valid() && Now() == Run(old(Now()), inputs).0 && Sound(Now())
    {
      for k := 0 to |inputs|
        invariant Valid() && Sound(Now())
        invariant Run(Now(), inputs[k..]).0 == Run(old(Now()), inputs).0
      {
        assert inputs[k..][0] == inputs[k] && inputs[k..][1..] == inputs[k + 1..];
        RoundDelivers(Now(), inputs[k]);
        Turn(inputs[k]);
      }
    }
  }
}
