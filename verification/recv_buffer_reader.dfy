/**
 * The pull-style reader over a stream's receive buffer (`recvBufferReader`).
 *
 * `last` is the linked buffer holding the bytes already taken out of the
 * receive buffer but not yet consumed (`None` is Go's nil pointer). `err` is
 * the reader's sticky error. `client` says whether a `closeStream` callback
 * is installed, which selects `fillClient` over `fill`.
 *
 * Blocking is made explicit: every waiting `select` takes its decision from
 * a schedule, and a receive on an empty channel ends the call with
 * `Blocked`, the state it reached so far being returned.
 */
module RecvBufferReader {
  import opened Common
  import opened RecvBuffer

  datatype Reader = Reader(recv: Buffer, last: Option<seq<byte>>, err: Option<Error>, client: bool)

  /** Which ready case a `select` in a fill takes: the channel, or the cancelled context. */
  datatype Select = FromChannel | Cancelled(ctxErr: Error)

  /** A reader that has not read anything yet. */
  function NewReader(recv: Buffer, client: bool): (r: Reader)
    ensures Readable(r) == [] && r.err.None? && r.recv == recv
  {
    Reader(recv, None, None, client)
  }

  /** The bytes available in `last`; none while `last` is nil. */
  function Readable(r: Reader): seq<byte> {
    r.last.GetOr([])
  }

  /** The data bytes of the messages still queued; error messages carry none. */
  function QueuedBytes(ms: seq<RecvMsg>): (bs: seq<byte>) {
    if ms == [] then []
    else (if ms[0].err.None? then ms[0].buffer else []) + QueuedBytes(ms[1..])
  }

  lemma {:induction false} QueuedBytesAppend(ms: seq<RecvMsg>, m: RecvMsg)
    ensures QueuedBytes(ms + [m]) == QueuedBytes(ms) + (if m.err.None? then m.buffer else [])
  {
    if ms == [] {
      assert ms + [m] == [m];
    } else {
      assert (ms + [m])[1..] == ms[1..] + [m];
      QueuedBytesAppend(ms[1..], m);
    }
  }

  /** Every byte the reader can still obtain: what it holds and what is queued for it. */
  function Pending(r: Reader): seq<byte> {
    Readable(r) + QueuedBytes(Queued(r.recv))
  }

  /**
   * `fillAdditional`: call `load`, then hand the received message over. An
   * error message ends the fill with its error and adds no bytes; data goes
   * into `last`, which is created on first use and appended to afterwards.
   */
  function FillAdditional(r: Reader, m: RecvMsg): (res: (Reader, Option<Error>))
    ensures res.1 == m.err
    ensures res.0.recv == Load(r.recv) && res.0.err == r.err && res.0.client == r.client
    ensures m.err.Some? ==> res.0.last == r.last
    ensures m.err.None? ==> res.0.last == Some(Readable(r) + m.buffer)
  {
    var r1 := r.(recv := Load(r.recv));
    if m.err.Some? then (r1, m.err)
    else if r1.last.None? then
      assert Readable(r) + m.buffer == m.buffer;
      (r1.(last := Some(m.buffer)), None)
    else (r1.(last := Some(r1.last.value + m.buffer)), None)
  }

  /** Receive one message and hand it to `FillAdditional`; `Blocked` while the channel is empty. */
  function ReceiveInto(r: Reader): (res: (Reader, Outcome<()>))
    ensures r.recv.slot.None? ==> res == (r, Blocked)
    ensures res.1 != Blocked ==> r.recv.slot.Some?
    ensures r.recv.slot.Some? && r.recv.slot.value.err.Some? ==> res.1 == Fail(r.recv.slot.value.err.value)
    ensures r.recv.slot.Some? && r.recv.slot.value.err.None? ==> res.1 == Done(())
  {
    var (b, m) := Receive(r.recv);
    if m.None? then (r, Blocked)
    else
      var (r1, e) := FillAdditional(r.(recv := b), m.value);
      (r1, if e.Some? then Fail(e.value) else Done(()))
  }

  /** `fill` (server side): a cancelled context ends the fill with its error at once. */
  function Fill(r: Reader, sel: Select): (res: (Reader, Outcome<()>))
    ensures sel.Cancelled? ==> res == (r, Fail(sel.ctxErr))
    ensures sel.FromChannel? ==> res == ReceiveInto(r)
  {
    match sel
    case Cancelled(e) => (r, Fail(e))
    case FromChannel => ReceiveInto(r)
  }

  /**
   * `fillClient`: a cancelled context closes the stream, which puts the
   * context error at the END of the receive buffer, and then receives from
   * the head, so data queued earlier is still delivered first.
   */
  function FillClient(r: Reader, sel: Select): (res: (Reader, Outcome<()>))
    ensures sel.FromChannel? ==> res == ReceiveInto(r)
    ensures sel.Cancelled? ==> res == ReceiveInto(r.(recv := Put(r.recv, RecvMsg([], Some(sel.ctxErr)))))
  {
    match sel
    case Cancelled(e) => ReceiveInto(r.(recv := Put(r.recv, RecvMsg([], Some(e)))))
    case FromChannel => ReceiveInto(r)
  }

  /** One fill, the client or the server flavour as the reader was built. */
  function FillOnce(r: Reader, sel: Select): (res: (Reader, Outcome<()>)) {
    if r.client then FillClient(r, sel) else Fill(r, sel)
  }

  /** Enough bytes for a request of `n`: `last` exists and holds at least `n` bytes. */
  predicate Ready(r: Reader, n: nat) {
    r.last.Some? && |r.last.value| >= n
  }

  /**
   * `check(n)`: a remembered error is returned at once; otherwise fill until
   * `last` holds `n` bytes, remembering the first fill error and returning it.
   * `sched` supplies the `select` decisions, one per fill.
   */
  function Check(r: Reader, n: nat, sched: seq<Select>): (res: (Reader, Outcome<()>))
    ensures r.err.Some? ==> res == (r, Fail(r.err.value))
    ensures res.1.Done? ==> Ready(res.0, n) && res.0.err.None?
    ensures res.1.Fail? ==> res.0.err == Some(res.1.error)
    ensures res.1.Blocked? ==> res.0.err.None?
    ensures res.0.client == r.client
  {
    if r.err.Some? then (r, Fail(r.err.value)) else FillLoop(r, n, sched)
  }

  function FillLoop(r: Reader, n: nat, sched: seq<Select>): (res: (Reader, Outcome<()>))
    requires r.err.None?
    ensures res.1.Done? ==> Ready(res.0, n) && res.0.err.None?
    ensures res.1.Fail? ==> res.0.err == Some(res.1.error)
    ensures res.1.Blocked? ==> res.0.err.None?
    ensures res.0.client == r.client
    decreases |sched|
  {
    if Ready(r, n) then (r, Done(()))
    else if sched == [] then (r, Blocked)
    else
      var (r1, o) := FillOnce(r, sched[0]);
      match o
      case Fail(e) => (r1.(err := Some(e)), Fail(e))
      case Blocked => (r1, Blocked)
      case Done(_) => FillLoop(r1, n, sched[1..])
  }

  /** The reader's discipline: the receive buffer keeps its disciplines. */
  ghost predicate Healthy(r: Reader) {
    Sticky(r.recv) && Compact(r.recv)
  }

  /**
   * A fill neither creates nor loses bytes: what the reader holds plus what
   * is queued for it stays the same, except that a client fill after
   * cancellation may add the (data-free) context error to the queue. The
   * buffer disciplines are kept.
   */
  lemma FillOnceConserves(r: Reader, sel: Select)
    requires Healthy(r)
    ensures Pending(FillOnce(r, sel).0) == Pending(r)
    ensures Healthy(FillOnce(r, sel).0)
  {
    var r0 := if r.client && sel.Cancelled? then r.(recv := Put(r.recv, RecvMsg([], Some(sel.ctxErr)))) else r;
    if r.client && sel.Cancelled? {
      PutKeeps(r.recv, RecvMsg([], Some(sel.ctxErr)));
      if r.recv.err.None? {
        QueuedBytesAppend(Queued(r.recv), RecvMsg([], Some(sel.ctxErr)));
      }
      assert QueuedBytes(Queued(r0.recv)) == QueuedBytes(Queued(r.recv));
    }
    if !(r.client && sel.Cancelled?) && sel.Cancelled? {
    } else {
      assert FillOnce(r, sel) == ReceiveInto(r0);
      ReceiveIntoConserves(r0);
    }
  }

  lemma ReceiveIntoConserves(r: Reader)
    requires Healthy(r)
    ensures Pending(ReceiveInto(r).0) == Pending(r)
    ensures Healthy(ReceiveInto(r).0)
  {
    ReceiveLoadKeeps(r.recv);
    var rcv := Receive(r.recv);
    if rcv.1.Some? {
      var m := rcv.1.value;
      var q := Queued(r.recv);
      var bytes := if m.err.None? then m.buffer else [];
      assert q[0] == m && Queued(Load(rcv.0)) == q[1..];
      assert QueuedBytes(q) == bytes + QueuedBytes(q[1..]);
      assert Readable(ReceiveInto(r).0) == Readable(r) + bytes;
      assert ReceiveInto(r).0.recv == Load(rcv.0);
      ConcatAssoc(Readable(r), bytes, QueuedBytes(q[1..]));
    }
  }

  /** `check` conserves bytes and the buffer disciplines, whatever it returns. */
  lemma {:induction false} CheckConserves(r: Reader, n: nat, sched: seq<Select>)
    requires Healthy(r)
    ensures Pending(Check(r, n, sched).0) == Pending(r)
    ensures Healthy(Check(r, n, sched).0)
  {
    if r.err.None? {
      FillLoopConserves(r, n, sched);
    }
  }

  lemma {:induction false} FillLoopConserves(r: Reader, n: nat, sched: seq<Select>)
    requires r.err.None? && Healthy(r)
    ensures Pending(FillLoop(r, n, sched).0) == Pending(r)
    ensures Healthy(FillLoop(r, n, sched).0)
    decreases |sched|
  {
    if !Ready(r, n) && sched != [] {
      FillOnceConserves(r, sched[0]);
      var (r1, o) := FillOnce(r, sched[0]);
      if o.Done? {
        FillLoopConserves(r1, n, sched[1..]);
      }
    }
  }

  /** The `netpoll.Reader` calls that go through `check`. */
  datatype ReadOp =
    | Next(n: nat)
    | Peek(n: nat)
    | Skip(n: nat)
    | ReadString(n: nat)
    | ReadBinary(n: nat)
    | ReadByte
    | Slice(n: nat)

  /** How many bytes a call needs: `ReadByte` checks for one, the rest for their argument. */
  function Amount(op: ReadOp): nat {
    if op.ReadByte? then 1 else op.n
  }

  /** Whether the call moves the read position; only `Peek` does not. */
  predicate Consumes(op: ReadOp) {
    !op.Peek?
  }

  /** What a successful call yields. `Skip` yields nothing; `Slice` yields a reader over the bytes. */
  datatype Value =
    | Bytes(data: seq<byte>)
    | Text(data: seq<byte>)
    | Octet(b: byte)
    | Nothing
    | SubReader(data: seq<byte>)

  /** The bytes a value carries. */
  function Carried(v: Value): seq<byte> {
    match v
    case Bytes(d) => d
    case Text(d) => d
    case Octet(b) => [b]
    case Nothing => []
    case SubReader(d) => d
  }

  /**
   * One read call: `check(Amount(op))`, then the call on `last`. An error
   * from `check` is returned with no value.
   */
  function Read(r: Reader, op: ReadOp, sched: seq<Select>): (res: (Reader, Outcome<Value>))
    ensures r.err.Some? ==> res == (r, Fail(r.err.value))
    ensures res.1.Fail? ==> res.0.err == Some(res.1.error)
    ensures var c := Check(r, Amount(op), sched);
      && (res.1.Done? ==> c.1.Done? && |Readable(c.0)| >= Amount(op))
      && (res.1.Done? ==> res.0.err.None? && Carried(res.1.value) == (if op.Skip? then [] else Readable(c.0)[..Amount(op)]))
      && (res.1.Done? ==> Readable(res.0) == Readable(c.0)[(if Consumes(op) then Amount(op) else 0)..])
      && (!res.1.Done? ==> res == (c.0, if c.1.Fail? then Fail(c.1.error) else Blocked))
      && res.0.client == r.client && res.0.recv == c.0.recv
    ensures res.1.Done? && op.ReadByte? ==> res.1.value.Octet?
  {
    var (r1, c) := Check(r, Amount(op), sched);
    match c
    case Fail(e) => (r1, Fail(e))
    case Blocked => (r1, Blocked)
    case Done(_) =>
      var data := r1.last.value;
      var k := Amount(op);
      var rest := r1.(last := Some(data[k..]));
      match op
      case Peek(n) => (r1, Done(Bytes(data[..n])))
      case Next(n) => (rest, Done(Bytes(data[..n])))
      case Skip(n) => (rest, Done(Nothing))
      case ReadString(n) => (rest, Done(Text(data[..n])))
      case ReadBinary(n) => (rest, Done(Bytes(data[..n])))
      case ReadByte => (rest, Done(Octet(data[0])))
      case Slice(n) => (rest, Done(SubReader(data[..n])))
  }

  /**
   * Byte conservation across a whole read: what the call hands out followed
   * by what is still pending is what was pending before. No byte is lost,
   * duplicated or reordered by any read.
   */
  lemma ReadConserves(r: Reader, op: ReadOp, sched: seq<Select>)
    requires Healthy(r)
    ensures var (r', o) := Read(r, op, sched);
      && Healthy(r')
      && (o.Done? && Consumes(op) && !op.Skip? ==> Carried(o.value) + Pending(r') == Pending(r))
      && (o.Done? && op.Skip? ==> Readable(Check(r, Amount(op), sched).0)[..op.n] + Pending(r') == Pending(r))
      && (o.Done? && !Consumes(op) ==> Pending(r') == Pending(r))
      && (!o.Done? ==> Pending(r') == Pending(r))
  {
    CheckConserves(r, Amount(op), sched);
    var c := Check(r, Amount(op), sched);
    var res := Read(r, op, sched);
    assert res.0.recv == c.0.recv;
    if res.1.Done? {
      var data := Readable(c.0);
      var k := if Consumes(op) then Amount(op) else 0;
      SplitPending(data, k, QueuedBytes(Queued(c.0.recv)));
      assert data[0..] == data;
    }
  }

  lemma SplitPending(data: seq<byte>, k: nat, queued: seq<byte>)
    requires k <= |data|
    ensures data[..k] + (data[k..] + queued) == data + queued
  {
    assert data == data[..k] + data[k..];
    ConcatAssoc(data[..k], data[k..], queued);
  }

  /** `Release`: nil-safe; releasing never changes what can be read. */
  function Release(r: Reader): (res: (Reader, Option<Error>))
    ensures res.1.None? && Pending(res.0) == Pending(r) && res.0.err == r.err
  {
    (r, None)
  }

  /** `Len`: the number of bytes held, zero while `last` is nil. */
  function Len(r: Reader): (n: nat)
    ensures r.last.None? ==> n == 0
    ensures n == |Readable(r)|
  {
    if r.last.None? then 0 else |r.last.value|
  }

  /**
   * Progress: once the bytes a request needs have arrived, in however many
   * chunks and wherever their boundaries fall, `check` succeeds given one
   * channel receive per queued chunk. An error queued behind the data does
   * not get in the way. The first fill needs a data message at the head
   * even for a request of 0 bytes while `last` is nil.
   */
  lemma CheckArrivedSucceeds(r: Reader, n: nat, sched: seq<Select>)
    requires r.err.None? && Healthy(r)
    requires forall i :: 0 <= i < |sched| ==> sched[i] == FromChannel
    requires |sched| >= |Queued(r.recv)|
    requires |Pending(r)| >= n
    requires r.last.Some? || (Queued(r.recv) != [] && Queued(r.recv)[0].err.None?)
    ensures Check(r, n, sched).1 == Done(())
  {
    FillLoopArrivedSucceeds(r, n, sched);
  }

  lemma {:induction false} FillLoopArrivedSucceeds(r: Reader, n: nat, sched: seq<Select>)
    requires r.err.None? && Healthy(r)
    requires forall i :: 0 <= i < |sched| ==> sched[i] == FromChannel
    requires |sched| >= |Queued(r.recv)|
    requires |Pending(r)| >= n
    requires r.last.Some? || (Queued(r.recv) != [] && Queued(r.recv)[0].err.None?)
    ensures FillLoop(r, n, sched).1 == Done(())
    decreases |sched|
  {
    if !Ready(r, n) {
      var q := Queued(r.recv);
      if r.last.Some? {
        assert QueuedBytes(q) != [];
        ErrorHeadCarriesNothing(r.recv);
      }
      assert q != [] && q[0].err.None?;
      ReceiveHead(r);
      var r1 := ReceiveInto(r).0;
      assert FillOnce(r, sched[0]) == (r1, Done(()));
      forall i | 0 <= i < |sched[1..]| ensures sched[1..][i] == FromChannel {
        assert sched[1..][i] == sched[i + 1];
      }
      FillLoopArrivedSucceeds(r1, n, sched[1..]);
    }
  }

  /** Under the error discipline, a queue headed by an error message holds no data bytes. */
  lemma ErrorHeadCarriesNothing(b: Buffer)
    requires Sticky(b)
    ensures Queued(b) != [] && Queued(b)[0].err.Some? ==> QueuedBytes(Queued(b)) == []
  {
    var q := Queued(b);
    if q != [] && q[0].err.Some? {
      assert |q| == 1;
      assert q[1..] == [];
    }
  }

  /**
   * The other side of progress: when fewer bytes are pending than the
   * request needs and the queue ends with an error, `check` receives every
   * data chunk and then fails with that error, which the reader remembers.
   * This is how data followed by the end of the stream ends a short read.
   */
  lemma CheckShortFails(r: Reader, n: nat, sched: seq<Select>, e: Error)
    requires r.err.None? && Healthy(r)
    requires forall i :: 0 <= i < |sched| ==> sched[i] == FromChannel
    requires |sched| >= |Queued(r.recv)|
    requires |Pending(r)| < n
    requires Queued(r.recv) != [] && Queued(r.recv)[|Queued(r.recv)| - 1].err == Some(e)
    ensures Check(r, n, sched).1 == Fail(e) && Check(r, n, sched).0.err == Some(e)
  {
    FillLoopShortFails(r, n, sched, e);
  }

  lemma {:induction false} FillLoopShortFails(r: Reader, n: nat, sched: seq<Select>, e: Error)
    requires r.err.None? && Healthy(r)
    requires forall i :: 0 <= i < |sched| ==> sched[i] == FromChannel
    requires |sched| >= |Queued(r.recv)|
    requires |Pending(r)| < n
    requires Queued(r.recv) != [] && Queued(r.recv)[|Queued(r.recv)| - 1].err == Some(e)
    ensures FillLoop(r, n, sched).1 == Fail(e) && FillLoop(r, n, sched).0.err == Some(e)
    decreases |sched|
  {
    var q := Queued(r.recv);
    ReceiveHead(r);
    var (r1, o) := ReceiveInto(r);
    assert !Ready(r, n);
    assert FillOnce(r, sched[0]) == (r1, o);
    if q[0].err.Some? {
      assert |q| == 1;
    } else {
      assert q[1..][|q[1..]| - 1] == q[|q| - 1];
      forall i | 0 <= i < |sched[1..]| ensures sched[1..][i] == FromChannel {
        assert sched[1..][i] == sched[i + 1];
      }
      FillLoopShortFails(r1, n, sched[1..], e);
    }
  }

  /** One receive from a non-empty healthy queue takes its head, as data or as the error. */
  lemma ReceiveHead(r: Reader)
    requires Healthy(r) && Queued(r.recv) != []
    ensures var (r1, o) := ReceiveInto(r);
      && Queued(r1.recv) == Queued(r.recv)[1..]
      && r1.err == r.err && Healthy(r1) && Pending(r1) == Pending(r)
      && o == (if Queued(r.recv)[0].err.None? then Done(()) else Fail(Queued(r.recv)[0].err.value))
      && (Queued(r.recv)[0].err.Some? ==> |Queued(r.recv)| == 1)
  {
    ReceiveIntoConserves(r);
  }

  /**
   * A read whose bytes have all arrived succeeds and hands out exactly the
   * first `Amount(op)` bytes of everything pending (`Skip` hands out none).
   */
  lemma ReadArrivedSucceeds(r: Reader, op: ReadOp, sched: seq<Select>)
    requires r.err.None? && Healthy(r)
    requires forall i :: 0 <= i < |sched| ==> sched[i] == FromChannel
    requires |sched| >= |Queued(r.recv)|
    requires |Pending(r)| >= Amount(op)
    requires r.last.Some? || (Queued(r.recv) != [] && Queued(r.recv)[0].err.None?)
    ensures var (r', o) := Read(r, op, sched);
      && o.Done?
      && Carried(o.value) == (if op.Skip? then [] else Pending(r)[..Amount(op)])
  {
    CheckArrivedSucceeds(r, Amount(op), sched);
    CheckConserves(r, Amount(op), sched);
    var c := Check(r, Amount(op), sched);
    var data := Readable(c.0);
    assert Pending(c.0) == data + QueuedBytes(Queued(c.0.recv));
    assert data[..Amount(op)] == Pending(c.0)[..Amount(op)];
  }

  /**
   * A read asking for more bytes than will ever arrive before the queued
   * error fails with that error, hands out nothing, and conserves the bytes
   * it took in.
   */
  lemma ReadShortFails(r: Reader, op: ReadOp, sched: seq<Select>, e: Error)
    requires r.err.None? && Healthy(r)
    requires forall i :: 0 <= i < |sched| ==> sched[i] == FromChannel
    requires |sched| >= |Queued(r.recv)|
    requires |Pending(r)| < Amount(op)
    requires Queued(r.recv) != [] && Queued(r.recv)[|Queued(r.recv)| - 1].err == Some(e)
    ensures var (r', o) := Read(r, op, sched);
      o == Fail(e) && r'.err == Some(e) && Pending(r') == Pending(r)
  {
    CheckShortFails(r, Amount(op), sched, e);
    CheckConserves(r, Amount(op), sched);
  }

  /** Once a read fails, every later read fails with the same error and changes nothing. */
  lemma ReadFailureSticks(r: Reader, op: ReadOp, sched: seq<Select>, op2: ReadOp, sched2: seq<Select>)
    requires Read(r, op, sched).1.Fail?
    ensures var (r1, o) := Read(r, op, sched);
      Read(r1, op2, sched2) == (r1, o)
  {}

  /**
   * Cancellation on the client side does not overtake data: with a data
   * message at the head of the queue, the fill still succeeds with that
   * message, and the context error waits at the end of the queue (unless an
   * error was queued already, in which case it is dropped).
   */
  lemma ClientCancelDeliversDataFirst(r: Reader, e: Error)
    requires r.client && Healthy(r)
    requires Queued(r.recv) != [] && Queued(r.recv)[0].err.None?
    ensures var (r', o) := FillOnce(r, Cancelled(e));
      && o == Done(())
      && Readable(r') == Readable(r) + Queued(r.recv)[0].buffer
      && Queued(r'.recv) == Queued(r.recv)[1..] + (if r.recv.err.None? then [RecvMsg([], Some(e))] else [])
  {
    var m := RecvMsg([], Some(e));
    var b := Put(r.recv, m);
    assert b.slot == r.recv.slot;
    var (b1, got) := Receive(b);
    assert Queued(b)[0] == Queued(r.recv)[0];
    assert Queued(b)[1..] == Queued(r.recv)[1..] + (if r.recv.err.None? then [m] else []);
  }

  /** On the server side a cancelled context ends the read at once, with the context error. */
  lemma ServerCancelFailsAtOnce(r: Reader, n: nat, e: Error, sched: seq<Select>)
    requires !r.client && r.err.None? && !Ready(r, n)
    ensures Check(r, n, [Cancelled(e)] + sched) == (r.(err := Some(e)), Fail(e))
  {
    assert ([Cancelled(e)] + sched)[0] == Cancelled(e);
  }

  /**
   * Two chunks "ab" and "cdef" are queued; a `Next(5)` fills twice and
   * returns "abcde", leaving "f" readable and the queue empty.
   */
  lemma TwoChunksScenario()
    ensures var b := Put(Put(NewBuffer(), RecvMsg([1, 2], None)), RecvMsg([3, 4, 5, 6], None));
      var (r', o) := Read(NewReader(b, false), Next(5), [FromChannel, FromChannel]);
      && o == Done(Bytes([1, 2, 3, 4, 5]))
      && Readable(r') == [6] && Queued(r'.recv) == []
  {
    var b := Put(Put(NewBuffer(), RecvMsg([1, 2], None)), RecvMsg([3, 4, 5, 6], None));
    var r0 := NewReader(b, false);
    var (r1, o1) := FillOnce(r0, FromChannel);
    assert Readable(r1) == [1, 2];
    var (r2, o2) := FillOnce(r1, FromChannel);
    assert Readable(r2) == [1, 2, 3, 4, 5, 6];
    var sched: seq<Select> := [FromChannel, FromChannel];
    assert sched[1..] == [FromChannel];
    assert Check(r0, 5, [FromChannel, FromChannel]) == (r2, Done(()));
    var all: seq<byte> := [1, 2, 3, 4, 5, 6];
    assert all[..5] == [1, 2, 3, 4, 5];
    assert all[5..] == [6];
  }
}
