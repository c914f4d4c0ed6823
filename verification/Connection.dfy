/**
 One connection, end to end: the client's one-writer queue, the byte stream, and the session that
 reads it in arbitrary pieces. `Client` and `Session` are the two objects; `Net` is the whole
 connection, driven by events in any order.
 */
module Connection {
  import opened Wrappers
  import opened Bytes
  import opened Framing
  import FrameCodec

  const MAX_QUEUE_SIZE: nat := 1000
  const READ_CHUNK: nat := 16 * 1024

  // ---------------------------------------------------------------------------------------
  // The client's writer
  // ---------------------------------------------------------------------------------------

  /**
   The value of a `Client`. `pending` lists the writes handed to the socket and not completed, each
   with the bytes its buffer held when the write was issued.
   */
  datatype Writer = Writer(connected: bool, open: bool, queue: seq<bytes>, writing: bool,
                           current: bytes, pending: seq<bytes>)

  const CONNECTED := Writer(true, true, [], false, [], [])

  predicate Accepts(c: Writer, payload: bytes) {
    c.connected && c.open && |payload| <= MAX_MESSAGE_SIZE && |c.queue| < MAX_QUEUE_SIZE
  }

  function AfterDoWrite(c: Writer): Writer {
    if c.queue == [] || c.writing || !c.connected then c
    else c.(writing := true, current := c.queue[0], queue := c.queue[1..], pending := c.pending + [c.queue[0]])
  }

  function AfterSend(c: Writer, payload: bytes): Writer {
    if !Accepts(c, payload) then c
    else
      var queued := c.(queue := c.queue + [Encode(payload)]);
      if c.writing then queued else AfterDoWrite(queued)
  }

  function AfterDisconnect(c: Writer): Writer {
    if !c.connected then c
    else c.(connected := false, open := false, queue := [], writing := false, current := [])
  }

  function AfterWriteDone(c: Writer, ok: bool): Writer
    requires c.pending != []
  {
    var idle := c.(writing := false, pending := c.pending[1..]);
    if !ok then AfterDisconnect(idle) else AfterDoWrite(idle)
  }

  /**
   What every step keeps: at most one write in flight, its buffer untouched exactly while connected,
   a bounded queue, and no queued message without a write in flight. A disconnect clears the buffer
   although the write may still be in flight.
   */
  ghost predicate WriterOk(c: Writer) {
    && |c.queue| <= MAX_QUEUE_SIZE && |c.pending| <= 1
    && c.open == c.connected && (c.connected ==> c.pending == if c.writing then [c.current] else [])
    && (c.pending != [] ==> (c.current == c.pending[0] <==> c.connected))
    && (c.queue != [] ==> c.connected && c.writing)
  }

  /** No frame is empty, and a disconnected client has an empty buffer. */
  ghost predicate FramesOk(c: Writer) {
    && (forall i :: 0 <= i < |c.queue| ==> c.queue[i] != [])
    && (forall i :: 0 <= i < |c.pending| ==> c.pending[i] != [])
    && (!c.connected ==> c.current == [])
  }

  class Client {
    var connected: bool
    var socketOpen: bool
    var writeQueue: seq<bytes>
    var writing: bool
    var currentWrite: bytes
    ghost var pendingWrites: seq<bytes>

    ghost function Value(): Writer
      reads this
    {
      Writer(connected, socketOpen, writeQueue, writing, currentWrite, pendingWrites)
    }

    /** The state in which `startConnect` has just succeeded. */
    constructor Connect()
      ensures Value() == CONNECTED
    {
      connected, socketOpen, writing := true, true, false;
      writeQueue, currentWrite, pendingWrites := [], [], [];
    }

    method Send(payload: bytes)
      modifies this
      ensures Value() == AfterSend(old(Value()), payload)
    {
      if !connected || !socketOpen {
        return;
      }
      var encoded := FrameCodec.EncodeFrame(payload);
      if encoded == [] {
        return;
      }
      if |writeQueue| >= MAX_QUEUE_SIZE {
        return;
      }
      writeQueue := writeQueue + [encoded];
      if !writing {
        DoWrite();
      }
    }

    method DoWrite()
      modifies this
      ensures Value() == AfterDoWrite(old(Value()))
    {
      if writeQueue == [] || writing || !connected {
        return;
      }
      writing := true;
      currentWrite := writeQueue[0];
      writeQueue := writeQueue[1..];
      pendingWrites := pendingWrites + [currentWrite];
    }

    /** The completion handler of the oldest write. */
    method OnWriteCompleted(failed: bool)
      requires pendingWrites != []
      modifies this
      ensures Value() == AfterWriteDone(old(Value()), !failed)
    {
      pendingWrites := pendingWrites[1..];
      writing := false;
      if !failed {
        if writeQueue != [] {
          DoWrite();
        }
      } else {
        HandleDisconnect();
      }
    }

    method HandleDisconnect()
      modifies this
      ensures Value() == AfterDisconnect(old(Value()))
    {
      if !connected {
        return;
      }
      connected := false;
      writeQueue, writing, currentWrite := [], false, [];
      socketOpen := false;
    }
  }

  // ---------------------------------------------------------------------------------------
  // The session's reader
  // ---------------------------------------------------------------------------------------

  class Session {
    const buffer: ReceiveBuffer
    var published: seq<bytes>

    constructor ()
      ensures fresh(buffer) && buffer.data == [] && published == []
    {
      buffer := new ReceiveBuffer();
      published := [];
    }

    /** The completion handler of a read: append, extract, hand each payload on in order. */
    method OnRead(chunk: bytes)
      modifies this, buffer
      ensures var p := Parse(FrameCodec.WINDOW, old(buffer.data) + chunk);
              published == old(published) + p.payloads && buffer.data == p.rest
    {
      buffer.Commit(chunk);
      var messages := FrameCodec.ExtractFrames(buffer);
      var i := 0;
      while i < |messages|
        invariant i <= |messages| && published == old(published) + messages[..i]
        invariant Parsed(messages, buffer.data) == Parse(FrameCodec.WINDOW, old(buffer.data) + chunk)
      {
        published := published + [messages[i]];
        i := i + 1;
      }
    }
  }

  // ---------------------------------------------------------------------------------------
  // The whole connection
  // ---------------------------------------------------------------------------------------

  /**
   `written` bytes of the oldest pending write are on the wire; `wire` holds what is sent and not
   yet read. `accepted`, `sent` and `received` record the history.
   */
  datatype Net = Net(client: Writer, written: nat, wire: bytes, buffer: bytes, delivered: seq<bytes>,
                     accepted: seq<bytes>, sent: bytes, received: bytes)

  const START := Net(CONNECTED, 0, [], [], [], [], [], [])

  datatype Event =
    | Submit(payload: bytes)
    | Transmit(count: nat)
    | Complete(ok: bool)
    | Drop
    | Read(count: nat)

  /** A write succeeds only when all of it is on the wire; a read takes what is there. */
  predicate Enabled(n: Net, e: Event) {
    match e
    case Submit(_) => true
    case Drop => true
    case Transmit(k) => n.client.open && n.client.pending != [] && n.written + k <= |n.client.pending[0]|
    case Complete(ok) => n.client.pending != [] && (ok ==> n.written == |n.client.pending[0]|)
    case Read(k) => 0 < k <= READ_CHUNK && k <= |n.wire|
  }

  function Step(n: Net, e: Event): Net
    requires Enabled(n, e)
  {
    match e
    case Submit(p) =>
      n.(client := AfterSend(n.client, p), accepted := if Accepts(n.client, p) then n.accepted + [p] else n.accepted)
    case Drop => n.(client := AfterDisconnect(n.client))
    case Transmit(k) =>
      var piece := n.client.pending[0][n.written..n.written + k];
      n.(written := n.written + k, wire := n.wire + piece, sent := n.sent + piece)
    case Complete(ok) => n.(client := AfterWriteDone(n.client, ok), written := 0)
    case Read(k) =>
      var p := Parse(FrameCodec.WINDOW, n.buffer + n.wire[..k]);
      n.(wire := n.wire[k..], received := n.received + n.wire[..k], buffer := p.rest,
         delivered := n.delivered + p.payloads)
  }

  /** The connection after a list of events; events that cannot happen are skipped. */
  function Run(n: Net, events: seq<Event>): Net
    decreases |events|
  {
    if events == [] then n
    else Run(if Enabled(n, events[0]) then Step(n, events[0]) else n, events[1..])
  }

  /** What is still to be put on the wire. */
  ghost function Unsent(n: Net): bytes {
    (if n.client.pending != [] && n.written <= |n.client.pending[0]| then n.client.pending[0][n.written..] else [])
    + Flatten(n.client.queue)
  }

  ghost predicate NetOk(n: Net) {
    && WriterOk(n.client) && FramesOk(n.client) && WithinCap(n.accepted)
    && (if n.client.pending == [] then n.written == 0 else n.written <= |n.client.pending[0]|)
    && n.sent == n.received + n.wire
    && Parse(FrameCodec.WINDOW, n.received) == Parsed(n.delivered, n.buffer)
    && (if n.client.connected then n.sent + Unsent(n) == EncodeAll(n.accepted) else n.sent <= EncodeAll(n.accepted))
  }

  lemma {:induction false} EncodeAllSnoc(payloads: seq<bytes>, p: bytes)
    requires WithinCap(payloads) && |p| <= MAX_MESSAGE_SIZE
    ensures EncodeAll(payloads + [p]) == EncodeAll(payloads) + Encode(p)
  {
    hide Encode;
    if payloads != [] {
      EncodeAllSnoc(payloads[1..], p);
      assert (payloads + [p])[1..] == payloads[1..] + [p];
    }
  }

  lemma SubmitKeeps(n: Net, p: bytes)
    requires NetOk(n)
    ensures NetOk(Step(n, Submit(p)))
  {
    hide Parse, Encode;
    var m := Step(n, Submit(p));
    if Accepts(n.client, p) {
      EncodeAllSnoc(n.accepted, p);
      FlattenSnoc(n.client.queue, Encode(p));
      assert Unsent(m) == Unsent(n) + Encode(p);
      assert n.sent + (Unsent(n) + Encode(p)) == (n.sent + Unsent(n)) + Encode(p);
    }
  }

  lemma CompleteKeeps(n: Net, ok: bool)
    requires NetOk(n) && Enabled(n, Complete(ok))
    ensures NetOk(Step(n, Complete(ok)))
  {
    hide Parse, Encode, EncodeAll;
    var m := Step(n, Complete(ok));
    if n.client.connected && ok {
      assert Unsent(m) == Unsent(n);
    }
  }

  lemma PieceMoves(front: bytes, i: nat, k: nat, tail: bytes)
    requires i + k <= |front|
    ensures front[i..] + tail == front[i..i + k] + (front[i + k..] + tail)
  {
  }

  lemma TransmitKeeps(n: Net, k: nat)
    requires NetOk(n) && Enabled(n, Transmit(k))
    ensures NetOk(Step(n, Transmit(k)))
  {
    hide Parse, Encode, EncodeAll, Flatten;
    var m := Step(n, Transmit(k));
    var piece := n.client.pending[0][n.written..n.written + k];
    assert m.sent == m.received + m.wire;
    if n.client.connected {
      PieceMoves(n.client.pending[0], n.written, k, Flatten(n.client.queue));
      assert m.sent + Unsent(m) == n.sent + (piece + Unsent(m));
    }
  }

  lemma ReadKeeps(n: Net, k: nat)
    requires NetOk(n) && Enabled(n, Read(k))
    ensures NetOk(Step(n, Read(k)))
  {
    hide Parse, Encode, EncodeAll, Flatten;
    ParseInTwoReads(FrameCodec.WINDOW, n.received, n.wire[..k]);
    assert n.wire == n.wire[..k] + n.wire[k..];
    assert n.received + n.wire == (n.received + n.wire[..k]) + n.wire[k..];
  }

  /** One step keeps the invariant, whatever the event. */
  lemma StepKeeps(n: Net, e: Event)
    requires NetOk(n) && Enabled(n, e)
    ensures NetOk(Step(n, e))
  {
    match e
    case Submit(p) => SubmitKeeps(n, p);
    case Drop =>
    case Transmit(k) => TransmitKeeps(n, k);
    case Complete(ok) => CompleteKeeps(n, ok);
    case Read(k) => ReadKeeps(n, k);
  }

  lemma {:induction false} RunKeeps(n: Net, events: seq<Event>)
    requires NetOk(n)
    ensures NetOk(Run(n, events))
    decreases |events|
  {
    if events != [] {
      var e := events[0];
      if Enabled(n, e) {
        StepKeeps(n, e);
      }
      RunKeeps(if Enabled(n, e) then Step(n, e) else n, events[1..]);
    }
  }

  /** A receiver that has seen only a prefix of a stream has a prefix of its messages. */
  lemma PrefixOfStream(part: bytes, payloads: seq<bytes>)
    requires WithinCap(payloads) && part <= EncodeAll(payloads)
    ensures Parse(FrameCodec.WINDOW, part).payloads <= payloads
  {
    var stream := EncodeAll(payloads);
    assert stream == part + stream[|part|..];
    ParseInTwoReads(FrameCodec.WINDOW, part, stream[|part|..]);
    RoundTrip(FrameCodec.WINDOW, payloads);
  }

  /**
   End to end. After any events in any order, what the session handed on is a prefix of what `send`
   accepted: in order, nothing twice, nothing invented. Once the client is idle and every byte has
   been read, it is all of it. The writer's own guarantees hold at the same time.
   */
  lemma Delivery(events: seq<Event>)
    ensures var n := Run(START, events);
            && n.delivered <= n.accepted
            && (n.client.connected && n.client.queue == [] && !n.client.writing && n.wire == []
                ==> n.delivered == n.accepted)
            && WriterOk(n.client) && (!n.client.connected ==> n.client.current == [])
  {
    var n := Run(START, events);
    assert WithinCap([]) && EncodeAll([]) == [];
    RunKeeps(START, events);
    hide Parse, EncodeAll, Run;
    PrefixOfStream(n.received, n.accepted);
    if n.client.connected && n.client.queue == [] && !n.client.writing && n.wire == [] {
      RoundTrip(FrameCodec.WINDOW, n.accepted);
      assert Unsent(n) == [];
      assert n.received == EncodeAll(n.accepted);
    }
  }

  // ---------------------------------------------------------------------------------------
  // A healthy connection stays up and delivers
  // ---------------------------------------------------------------------------------------

  /** The events that end a connection. */
  predicate Breaks(e: Event) { e == Drop || e == Complete(false) }

  /** Some event of the list takes place and ends the connection. */
  predicate Broken(n: Net, events: seq<Event>)
    decreases |events|
  {
    events != []
    && ((Enabled(n, events[0]) && Breaks(events[0]))
        || Broken(if Enabled(n, events[0]) then Step(n, events[0]) else n, events[1..]))
  }

  /** Only a breaking event disconnects; a disconnected client stays so, and forgets its queue. */
  lemma StepConnects(n: Net, e: Event)
    requires Enabled(n, e)
    ensures Step(n, e).client.connected <==> n.client.connected && !Breaks(e)
    ensures n.client.connected && Breaks(e) ==> Step(n, e).client.queue == [] && !Step(n, e).client.open
  {
    hide Parse, Encode;
  }

  /** In every run, the client is connected exactly until the first event that breaks the connection. */
  lemma {:induction false} ConnectedIff(n: Net, events: seq<Event>)
    ensures Run(n, events).client.connected <==> n.client.connected && !Broken(n, events)
    decreases |events|
  {
    hide Step, Enabled;
    if events != [] {
      var e := events[0];
      if Enabled(n, e) {
        StepConnects(n, e);
      }
      ConnectedIff(if Enabled(n, e) then Step(n, e) else n, events[1..]);
    }
  }

  lemma {:induction false} UnbrokenWithout(n: Net, events: seq<Event>)
    requires forall e :: e in events ==> !Breaks(e)
    ensures !Broken(n, events)
    decreases |events|
  {
    if events != [] {
      UnbrokenWithout(if Enabled(n, events[0]) then Step(n, events[0]) else n, events[1..]);
    }
  }

  /**
   In every run: without a drop or a failed write the client stays connected; and a message is
   accepted exactly if the client is connected, fewer than a thousand frames wait, and the message is
   within 16 MiB. A refused message changes nothing.
   */
  lemma StaysUpAndAccepts(events: seq<Event>, p: bytes)
    ensures var n := Run(START, events);
            && ((forall e :: e in events ==> !Breaks(e)) ==> n.client.connected)
            && (if n.client.connected && |n.client.queue| < 1000 && |p| <= 16777216 then
                  Step(n, Submit(p)).accepted == n.accepted + [p] && Step(n, Submit(p)).client.connected
                else Step(n, Submit(p)) == n)
  {
    hide Run, Parse, Encode, EncodeAll, Flatten;
    var n := Run(START, events);
    ConnectedIff(START, events);
    if forall e :: e in events ==> !Breaks(e) {
      UnbrokenWithout(START, events);
    }
    StartOk();
    RunKeeps(START, events);
  }

  lemma StartOk()
    ensures NetOk(START)
  {
    assert EncodeAll([]) == [];
  }

  lemma {:induction false} RunInTwo(n: Net, first: seq<Event>, second: seq<Event>)
    ensures Run(n, first + second) == Run(Run(n, first), second)
    decreases |first|
  {
    hide Step, Enabled;
    if first == [] {
      assert first + second == second;
    } else {
      assert (first + second)[1..] == first[1..] + second;
      RunInTwo(if Enabled(n, first[0]) then Step(n, first[0]) else n, first[1..], second);
    }
  }

  lemma RunOne(n: Net, e: Event)
    requires Enabled(n, e)
    ensures Run(n, [e]) == Step(n, e)
  {
    hide Step, Enabled;
    assert [e][1..] == [];
  }

  /** What the network and the peer do by themselves: nothing new is sent and nothing fails. */
  predicate Carries(e: Event) { e.Transmit? || e == Complete(true) || e.Read? }

  ghost predicate AllCarry(events: seq<Event>) {
    forall i :: 0 <= i < |events| ==> Carries(events[i])
  }

  /** A healthy connection, and the messages that it owes. */
  ghost predicate Owes(n: Net, accepted: seq<bytes>) {
    NetOk(n) && n.client.connected && n.accepted == accepted
  }

  lemma CarryKeeps(n: Net, e: Event)
    requires Owes(n, n.accepted) && Enabled(n, e) && Carries(e)
    ensures Owes(Step(n, e), n.accepted)
  {
    hide NetOk;
    StepConnects(n, e);
    StepKeeps(n, e);
  }

  /** The write in flight goes onto the wire and completes; the next one starts. */
  lemma FlushOne(n: Net) returns (events: seq<Event>)
    requires Owes(n, n.accepted) && n.client.pending != []
    ensures AllCarry(events) && Owes(Run(n, events), n.accepted)
    ensures var m := Run(n, events);
            |m.client.pending| + |m.client.queue| < |n.client.pending| + |n.client.queue|
  {
    hide Parse, EncodeAll, Encode, Flatten, Run;
    var all := Transmit(|n.client.pending[0]| - n.written);
    var m := Step(n, all);
    CarryKeeps(n, all);
    CarryKeeps(m, Complete(true));
    RunOne(n, all);
    RunOne(m, Complete(true));
    RunInTwo(n, [all], [Complete(true)]);
    events := [all] + [Complete(true)];
  }

  lemma {:induction false} FlushAll(n: Net) returns (events: seq<Event>)
    requires Owes(n, n.accepted)
    ensures AllCarry(events) && Owes(Run(n, events), n.accepted)
    ensures Run(n, events).client.pending == [] && Run(n, events).client.queue == []
    decreases |n.client.pending| + |n.client.queue|
  {
    hide Run, NetOk, Step, Enabled;
    if n.client.pending == [] {
      NothingQueued(n);
      RunNone(n);
      events := [];
    } else {
      var first := FlushOne(n);
      var rest := FlushAll(Run(n, first));
      RunInTwo(n, first, rest);
      events := first + rest;
    }
  }

  lemma RunNone(n: Net)
    ensures Run(n, []) == n
  {
  }

  lemma NothingQueued(n: Net)
    requires Owes(n, n.accepted) && n.client.pending == []
    ensures n.client.queue == [] && !n.client.writing
  {
  }

  /** The session reads, at most a chunk at a time, until the wire is empty. */
  lemma {:induction false} ReadAll(n: Net) returns (events: seq<Event>)
    requires Owes(n, n.accepted) && n.client.pending == [] && n.client.queue == []
    ensures AllCarry(events) && Owes(Run(n, events), n.accepted)
    ensures var m := Run(n, events);
            m.wire == [] && m.client == n.client
    decreases |n.wire|
  {
    hide Run, NetOk, Parse;
    if n.wire == [] {
      RunNone(n);
      events := [];
    } else {
      var first := Read(if |n.wire| < READ_CHUNK then |n.wire| else READ_CHUNK);
      CarryKeeps(n, first);
      RunOne(n, first);
      var rest := ReadAll(Step(n, first));
      RunInTwo(n, [first], rest);
      events := [first] + rest;
    }
  }

  /** An idle connection with an empty wire has delivered all that was accepted. */
  lemma IdleHasDelivered(n: Net)
    requires Owes(n, n.accepted) && n.client.pending == [] && n.client.queue == [] && n.wire == []
    ensures n.delivered == n.accepted
  {
    hide Parse, EncodeAll;
    RoundTrip(FrameCodec.WINDOW, n.accepted);
    assert Unsent(n) == [];
    assert n.received == EncodeAll(n.accepted);
  }

  /**
   After any events that leave the client connected, transmission, successful completions and reads
   alone can deliver everything that was accepted: no message is ever stranded.
   */
  lemma NothingIsStranded(events: seq<Event>) returns (more: seq<Event>)
    requires Run(START, events).client.connected
    ensures AllCarry(more)
    ensures var m := Run(START, events + more);
            m.client.connected && m.accepted == Run(START, events).accepted && m.delivered == m.accepted
  {
    hide Run, NetOk;
    var n := Run(START, events);
    StartOk();
    RunKeeps(START, events);
    var flush := FlushAll(n);
    var read := ReadAll(Run(n, flush));
    RunInTwo(n, flush, read);
    more := flush + read;
    RunInTwo(START, events, more);
    NothingQueued(Run(n, flush));
    IdleHasDelivered(Run(n, more));
  }
}
