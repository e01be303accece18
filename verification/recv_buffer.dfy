/**
 * The unbounded inbound queue of one HTTP/2 stream (`recvBuffer`).
 *
 * The Go type is a channel of capacity one plus a mutex-protected backlog
 * slice. Here the channel is `slot` (at most one message waiting to be
 * received) and the backlog is a sequence. The first message that carries an
 * error is remembered in `err`; from then on every `put` is dropped, so the
 * error is the last thing a reader will ever see.
 */
module RecvBuffer {
  import opened Common

  /** One delivery from the transport: data, or an error with no data (EOF or a failure). */
  datatype RecvMsg = RecvMsg(buffer: seq<byte>, err: Option<Error>)

  /** The buffer: the capacity-one channel, the backlog, and the sticky error. */
  datatype Buffer = Buffer(slot: Option<RecvMsg>, backlog: seq<RecvMsg>, err: Option<Error>)

  /** A freshly created buffer: empty channel, empty backlog, no error. */
  function NewBuffer(): (b: Buffer)
    ensures Queued(b) == [] && b.err.None?
  {
    Buffer(None, [], None)
  }

  /** The messages accepted but not yet received, in the order a reader will get them. */
  function Queued(b: Buffer): seq<RecvMsg> {
    (if b.slot.Some? then [b.slot.value] else []) + b.backlog
  }

  /**
   * `put`: once an error was accepted nothing more is; otherwise the message
   * goes straight into the channel when the backlog is empty and the channel
   * has room, and to the end of the backlog in every other case.
   */
  function Put(b: Buffer, m: RecvMsg): (b': Buffer)
    ensures b.err.Some? ==> b' == b
    ensures b.err.None? ==> Queued(b') == Queued(b) + [m] && b'.err == m.err
    ensures b.err.None? && b.backlog == [] && b.slot.None? ==> b'.slot == Some(m) && b'.backlog == []
    ensures b.err.None? && (b.backlog != [] || b.slot.Some?) ==> b'.slot == b.slot
  {
    if b.err.Some? then b
    else
      var b1 := b.(err := m.err);
      if |b1.backlog| == 0 && b1.slot.None? then b1.(slot := Some(m))
      else b1.(backlog := b1.backlog + [m])
  }

  /** `load`: move the head of the backlog into the channel if the channel has room. */
  function Load(b: Buffer): (b': Buffer)
    ensures Queued(b') == Queued(b) && b'.err == b.err
    ensures b.backlog != [] && b.slot.None? ==> b'.slot == Some(b.backlog[0]) && b'.backlog == b.backlog[1..]
    ensures b.backlog == [] || b.slot.Some? ==> b' == b
  {
    if |b.backlog| > 0 && b.slot.None? then
      b.(slot := Some(b.backlog[0]), backlog := b.backlog[1..])
    else b
  }

  /**
   * A receive from the channel returned by `get`. `None` means the receive
   * would block: the channel is empty (even if the backlog is not, until
   * somebody calls `load`).
   */
  function Receive(b: Buffer): (res: (Buffer, Option<RecvMsg>))
    ensures b.slot.None? ==> res == (b, None)
    ensures b.slot.Some? ==>
      && Queued(b) != []
      && res.1 == Some(Queued(b)[0])
      && Queued(res.0) == Queued(b)[1..]
      && res.0.slot.None? && res.0.err == b.err
  {
    if b.slot.Some? then (b.(slot := None), b.slot) else (b, None)
  }

  /**
   * The error discipline of the buffer: a message carrying an error can only
   * be the last one queued, and it is the error the buffer remembers.
   */
  ghost predicate Sticky(b: Buffer) {
    forall i :: 0 <= i < |Queued(b)| && Queued(b)[i].err.Some? ==>
      i == |Queued(b)| - 1 && b.err == Queued(b)[i].err
  }

  /**
   * The channel is only empty when the backlog is: nobody waits on an empty
   * channel while messages sit in the backlog.
   */
  ghost predicate Compact(b: Buffer) {
    b.slot.None? ==> b.backlog == []
  }

  lemma NewBufferSound()
    ensures Sticky(NewBuffer()) && Compact(NewBuffer())
  {}

  /** `put` keeps both the error discipline and the channel-before-backlog discipline. */
  lemma PutKeeps(b: Buffer, m: RecvMsg)
    requires Sticky(b) && Compact(b)
    ensures Sticky(Put(b, m)) && Compact(Put(b, m))
  {
    if b.err.None? {
      var q := Queued(b);
      var q' := Queued(Put(b, m));
      forall i | 0 <= i < |q'| && q'[i].err.Some?
        ensures i == |q'| - 1 && Put(b, m).err == q'[i].err
      {
      }
    }
  }

  /**
   * A receive followed by `load`, as every fill does: the head of the queue
   * is handed out, the rest keeps its order, and both disciplines survive.
   */
  lemma ReceiveLoadKeeps(b: Buffer)
    requires Sticky(b) && Compact(b)
    ensures var (b1, m) := Receive(b);
      && Sticky(Load(b1)) && Compact(Load(b1))
      && (m.None? <==> Queued(b) == [])
  {
    var (b1, m) := Receive(b);
    var q := Queued(b);
    if m.Some? {
      var q' := Queued(Load(b1));
      assert q' == q[1..];
      forall i | 0 <= i < |q'| && q'[i].err.Some?
        ensures i == |q'| - 1 && Load(b1).err == q'[i].err
      {
        assert q'[i] == q[i + 1];
      }
    }
  }

  /**
   * What happens to a buffer: a `put` from the transport, a receive from the
   * channel by the reader, or the reader's later `load`. The receive happens
   * outside the buffer's lock and the `load` inside `fillAdditional`, so a
   * `put` can fall between the two.
   */
  datatype Event = PutEvent(m: RecvMsg) | ReceiveEvent | LoadEvent

  /** Apply events in order. Returns the final buffer and the messages received, in order. */
  function Run(b: Buffer, events: seq<Event>): (res: (Buffer, seq<RecvMsg>))
    decreases |events|
  {
    if events == [] then (b, [])
    else
      match events[0]
      case PutEvent(m) => Run(Put(b, m), events[1..])
      case LoadEvent => Run(Load(b), events[1..])
      case ReceiveEvent =>
        var (b1, m) := Receive(b);
        var (b2, rest) := Run(b1, events[1..]);
        (b2, (if m.Some? then [m.value] else []) + rest)
  }

  /** The messages offered by the transport, in the order they were put. */
  function Offered(events: seq<Event>): (ms: seq<RecvMsg>)
    ensures |ms| <= |events|
  {
    if events == [] then []
    else (if events[0].PutEvent? then [events[0].m] else []) + Offered(events[1..])
  }

  /**
   * The messages a buffer accepts out of `ms`: all of them up to and
   * including the first that carries an error.
   */
  function Accepted(ms: seq<RecvMsg>): (acc: seq<RecvMsg>)
    ensures |acc| <= |ms|
  {
    if ms == [] then []
    else if ms[0].err.Some? then [ms[0]]
    else [ms[0]] + Accepted(ms[1..])
  }

  /** Accepted messages are a prefix of the offered ones, and at most the last carries an error. */
  lemma {:induction false} AcceptedShape(ms: seq<RecvMsg>)
    ensures Accepted(ms) <= ms
    ensures forall i :: 0 <= i < |Accepted(ms)| && Accepted(ms)[i].err.Some? ==> i == |Accepted(ms)| - 1
  {
    if ms != [] && ms[0].err.None? {
      AcceptedShape(ms[1..]);
      var acc := Accepted(ms);
      assert acc == [ms[0]] + Accepted(ms[1..]);
      forall i | 0 <= i < |acc| && acc[i].err.Some?
        ensures i == |acc| - 1
      {
        assert i > 0;
        assert acc[i] == Accepted(ms[1..])[i - 1];
      }
    }
  }

  /** `Accepted` after the buffer already remembers `err`. */
  function AcceptedAfter(err: Option<Error>, ms: seq<RecvMsg>): seq<RecvMsg> {
    if err.Some? then [] else Accepted(ms)
  }

  lemma {:induction false} OfferedPut(m: RecvMsg, events: seq<Event>)
    requires events != [] && events[0] == PutEvent(m)
    ensures Offered(events) == [m] + Offered(events[1..])
  {}

  /**
   * FIFO with a sticky end: whatever the interleaving of puts, receives and
   * loads, what was received followed by what is still queued is exactly what
   * was queued before followed by the accepted prefix of what was offered.
   * Nothing is lost, duplicated or reordered, and nothing after the first
   * error gets in.
   */
  lemma {:induction false} RunDelivers(b: Buffer, events: seq<Event>)
    ensures var (b', got) := Run(b, events);
      got + Queued(b') == Queued(b) + AcceptedAfter(b.err, Offered(events))
    decreases |events|, 1
  {
    if events != [] {
      match events[0]
      case PutEvent(m) => PutDelivers(b, m, events);
      case ReceiveEvent => ReceiveDelivers(b, events);
      case LoadEvent => LoadDelivers(b, events);
    }
  }

  lemma {:induction false} PutDelivers(b: Buffer, m: RecvMsg, events: seq<Event>)
    requires events != [] && events[0] == PutEvent(m)
    ensures var (b', got) := Run(b, events);
      got + Queued(b') == Queued(b) + AcceptedAfter(b.err, Offered(events))
    decreases |events|, 0
  {
    var b1 := Put(b, m);
    assert Run(b, events) == Run(b1, events[1..]);
    RunDelivers(b1, events[1..]);
    OfferedPut(m, events);
    if b.err.None? {
      var ms := Offered(events);
      assert ms[0] == m && ms[1..] == Offered(events[1..]);
      if m.err.Some? {
        assert Accepted(ms) == [m];
      } else {
        assert Accepted(ms) == [m] + Accepted(Offered(events[1..]));
      }
    }
  }

  lemma {:induction false} ReceiveDelivers(b: Buffer, events: seq<Event>)
    requires events != [] && events[0] == ReceiveEvent
    ensures var (b', got) := Run(b, events);
      got + Queued(b') == Queued(b) + AcceptedAfter(b.err, Offered(events))
    decreases |events|, 0
  {
    var rcv := Receive(b);
    var head := if rcv.1.Some? then [rcv.1.value] else [];
    var tail := Run(rcv.0, events[1..]);
    var acc := AcceptedAfter(b.err, Offered(events));
    RunDelivers(rcv.0, events[1..]);
    ReceiveUnfolds(b, events);
    OfferedNotPut(events);
    ReceiveQueued(b);
    Regroup(head, tail.1, Queued(tail.0), Queued(rcv.0), acc);
  }

  lemma {:induction false} LoadDelivers(b: Buffer, events: seq<Event>)
    requires events != [] && events[0] == LoadEvent
    ensures var (b', got) := Run(b, events);
      got + Queued(b') == Queued(b) + AcceptedAfter(b.err, Offered(events))
    decreases |events|, 0
  {
    assert Run(b, events) == Run(Load(b), events[1..]);
    RunDelivers(Load(b), events[1..]);
    OfferedNotPut(events);
  }

  lemma Regroup<T>(head: seq<T>, got: seq<T>, left: seq<T>, queued: seq<T>, acc: seq<T>)
    requires got + left == queued + acc
    ensures (head + got) + left == (head + queued) + acc
  {
    assert (head + got) + left == head + (got + left);
  }

  lemma OfferedNotPut(events: seq<Event>)
    requires events != [] && !events[0].PutEvent?
    ensures Offered(events) == Offered(events[1..])
  {}

  lemma ReceiveQueued(b: Buffer)
    ensures var rcv := Receive(b);
      && Queued(b) == (if rcv.1.Some? then [rcv.1.value] else []) + Queued(rcv.0)
      && rcv.0.err == b.err
  {}

  lemma ReceiveUnfolds(b: Buffer, events: seq<Event>)
    requires events != [] && events[0] == ReceiveEvent
    ensures var rcv := Receive(b);
      var tail := Run(rcv.0, events[1..]);
      Run(b, events) == (tail.0, (if rcv.1.Some? then [rcv.1.value] else []) + tail.1)
  {}

  /** The same from a fresh buffer: the reader sees the accepted prefix of the puts, in order. */
  lemma FreshRunDelivers(events: seq<Event>)
    ensures var (b', got) := Run(NewBuffer(), events);
      got + Queued(b') == Accepted(Offered(events))
  {
    RunDelivers(NewBuffer(), events);
  }
}
