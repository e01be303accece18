/**
 * The flow-control wrapper around a stream's reader (`transportReader`).
 *
 * Every successful read reports the bytes it took to the window handler,
 * which the model records as the trace `windowUpdates`; the first failing
 * read leaves its error in `er`, where the stream facade finds it.
 */
module TransportReader {
  import opened Common
  import opened RecvBufferReader

  datatype TransportReader = TransportReader(reader: Reader, er: Option<Error>, windowUpdates: seq<nat>)

  /**
   * One read: delegate; on error remember it in `er` and report nothing; on
   * success call the window handler once with the requested size (one for
   * `ReadByte`).
   */
  function Read(t: TransportReader, op: ReadOp, sched: seq<Select>): (res: (TransportReader, Outcome<Value>))
    ensures var (r', o) := RecvBufferReader.Read(t.reader, op, sched);
      && res.1 == o
      && res.0.reader == r'
      && (o.Done? ==> res.0.windowUpdates == t.windowUpdates + [Amount(op)] && res.0.er == t.er)
      && (o.Fail? ==> res.0.windowUpdates == t.windowUpdates && res.0.er == Some(o.error))
      && (o.Blocked? ==> res.0.windowUpdates == t.windowUpdates && res.0.er == t.er)
  {
    var (r', o) := RecvBufferReader.Read(t.reader, op, sched);
    match o
    case Fail(e) => (t.(reader := r', er := Some(e)), o)
    case Blocked => (t.(reader := r'), o)
    case Done(_) => (t.(reader := r', windowUpdates := t.windowUpdates + [Amount(op)]), o)
  }

  /** `Release` passes through: no window update, `er` untouched. */
  function Release(t: TransportReader): (res: (TransportReader, Option<Error>))
    ensures res.1 == RecvBufferReader.Release(t.reader).1 && res.1.None?
    ensures res.0 == t.(reader := RecvBufferReader.Release(t.reader).0)
    ensures res.0.windowUpdates == t.windowUpdates && res.0.er == t.er
  {
    var (r', e) := RecvBufferReader.Release(t.reader);
    (t.(reader := r'), e)
  }

  /** `Len` passes through and reports the bytes the wrapped reader holds. */
  function Len(t: TransportReader): (n: nat)
    ensures n == |Readable(t.reader)|
  {
    RecvBufferReader.Len(t.reader)
  }

  /** A call on a reader: the operation and the schedule its fills follow. */
  datatype Call = Call(op: ReadOp, sched: seq<Select>)

  /** Issue calls in order; returns the final state and every outcome. */
  function ReadAll(t: TransportReader, calls: seq<Call>): (res: (TransportReader, seq<Outcome<Value>>))
    ensures |res.1| == |calls|
    decreases |calls|
  {
    if calls == [] then (t, [])
    else
      var (t1, o) := Read(t, calls[0].op, calls[0].sched);
      var (t2, os) := ReadAll(t1, calls[1..]);
      (t2, [o] + os)
  }

  /** The sizes a run of calls asks for, in order. */
  function Amounts(calls: seq<Call>): (ns: seq<nat>)
    ensures |ns| == |calls|
    ensures forall i :: 0 <= i < |calls| ==> ns[i] == Amount(calls[i].op)
  {
    if calls == [] then [] else [Amount(calls[0].op)] + Amounts(calls[1..])
  }

  /** Every outcome of a run is a success. */
  predicate AllDone(os: seq<Outcome<Value>>) {
    forall i :: 0 <= i < |os| ==> os[i].Done?
  }

  /**
   * A run of successful reads with sizes n1 ... nk adds exactly n1 ... nk to
   * the window-update trace, in order, and leaves `er` alone.
   */
  lemma {:induction false} SuccessfulRunTrace(t: TransportReader, calls: seq<Call>)
    requires AllDone(ReadAll(t, calls).1)
    ensures ReadAll(t, calls).0.windowUpdates == t.windowUpdates + Amounts(calls)
    ensures ReadAll(t, calls).0.er == t.er
    decreases |calls|
  {
    if calls != [] {
      var step := Read(t, calls[0].op, calls[0].sched);
      var tail := ReadAll(step.0, calls[1..]);
      ReadAllUnfolds(t, calls);
      DoneStep(t, calls[0].op, calls[0].sched);
      SuccessfulRunTrace(step.0, calls[1..]);
      assert Amounts(calls) == [Amount(calls[0].op)] + Amounts(calls[1..]);
      ConcatAssoc(t.windowUpdates, [Amount(calls[0].op)], Amounts(calls[1..]));
    }
  }

  lemma ReadAllUnfolds(t: TransportReader, calls: seq<Call>)
    requires calls != []
    ensures var step := Read(t, calls[0].op, calls[0].sched);
      var tail := ReadAll(step.0, calls[1..]);
      && ReadAll(t, calls).0 == tail.0
      && ReadAll(t, calls).1 == [step.1] + tail.1
      && (AllDone(ReadAll(t, calls).1) ==> step.1.Done? && AllDone(tail.1))
  {
    var step := Read(t, calls[0].op, calls[0].sched);
    var tail := ReadAll(step.0, calls[1..]);
    AllDoneCons(step.1, tail.1);
  }

  lemma AllDoneCons(o: Outcome<Value>, os: seq<Outcome<Value>>)
    ensures AllDone([o] + os) ==> o.Done? && AllDone(os)
  {
    if AllDone([o] + os) {
      assert ([o] + os)[0] == o;
      forall i | 0 <= i < |os| ensures os[i].Done? {
        assert os[i] == ([o] + os)[i + 1];
      }
    }
  }

  lemma DoneStep(t: TransportReader, op: ReadOp, sched: seq<Select>)
    requires Read(t, op, sched).1.Done?
    ensures Read(t, op, sched).0.windowUpdates == t.windowUpdates + [Amount(op)]
    ensures Read(t, op, sched).0.er == t.er
  {}

  /**
   * The window trace only ever grows, by one entry per successful read; a
   * failed or blocked read adds nothing.
   */
  lemma {:induction false} RunTraceCountsSuccesses(t: TransportReader, calls: seq<Call>)
    ensures var (t', os) := ReadAll(t, calls);
      && t.windowUpdates <= t'.windowUpdates
      && |t'.windowUpdates| == |t.windowUpdates| + Successes(os)
    decreases |calls|
  {
    if calls != [] {
      var (t1, o) := Read(t, calls[0].op, calls[0].sched);
      RunTraceCountsSuccesses(t1, calls[1..]);
      var (t2, os) := ReadAll(t1, calls[1..]);
      assert ([o] + os)[1..] == os;
    }
  }

  /** The number of successful outcomes. */
  function Successes(os: seq<Outcome<Value>>): (k: nat)
    ensures k <= |os|
  {
    if os == [] then 0 else (if os[0].Done? then 1 else 0) + Successes(os[1..])
  }
}
