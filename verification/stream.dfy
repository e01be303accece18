/**
 * The read side of a gRPC stream (`Stream`): a facade over the transport
 * reader. A read first looks at the transport reader's remembered error and
 * returns it without doing anything else; otherwise it asks the transport
 * for `n` more bytes (`requestRead`, recorded in the trace `requested`) and
 * then delegates.
 */
module Stream {
  import opened Common
  import opened RecvBufferReader
  import TR = TransportReader

  datatype Stream = Stream(tr: TR.TransportReader, requested: seq<nat>)

  /** One read through the facade. */
  function Read(s: Stream, op: ReadOp, sched: seq<Select>): (res: (Stream, Outcome<Value>))
    ensures s.tr.er.Some? ==> res == (s, Fail(s.tr.er.value))
    ensures s.tr.er.None? ==>
      && res.0.requested == s.requested + [Amount(op)]
      && (res.0.tr, res.1) == TR.Read(s.tr, op, sched)
  {
    if s.tr.er.Some? then (s, Fail(s.tr.er.value))
    else
      var s1 := s.(requested := s.requested + [Amount(op)]);
      var (t', o) := TR.Read(s1.tr, op, sched);
      (s1.(tr := t'), o)
  }

  /** `Release` delegates with no error check and no read request. */
  function Release(s: Stream): (res: (Stream, Option<Error>))
    ensures res.0.requested == s.requested && res.1.None?
    ensures res.0.tr.er == s.tr.er && res.0.tr.windowUpdates == s.tr.windowUpdates
  {
    var (t', e) := TR.Release(s.tr);
    (s.(tr := t'), e)
  }

  /** `Len` delegates with no error check and no read request, even after an error. */
  function Len(s: Stream): (n: nat)
    ensures n == |Readable(s.tr.reader)|
  {
    TR.Len(s.tr)
  }

  /**
   * Requests match window updates: a successful read asks the transport for
   * exactly the number of bytes the flow-control window is then credited
   * with; a failed or blocked read asks, but credits nothing.
   */
  lemma RequestMatchesUpdate(s: Stream, op: ReadOp, sched: seq<Select>)
    requires s.tr.er.None?
    ensures var (s', o) := Read(s, op, sched);
      && s'.requested[|s'.requested| - 1] == Amount(op)
      && (o.Done? ==> s'.tr.windowUpdates == s.tr.windowUpdates + [s'.requested[|s'.requested| - 1]])
      && (!o.Done? ==> s'.tr.windowUpdates == s.tr.windowUpdates)
  {}

  /** `ReadByte` asks for exactly one byte. */
  lemma ReadByteRequestsOne(s: Stream, sched: seq<Select>)
    requires s.tr.er.None?
    ensures Read(s, ReadByte, sched).0.requested == s.requested + [1]
  {}

  /**
   * Once a read fails, the stream is dead: every later read returns the same
   * error, asks the transport for nothing and changes nothing.
   */
  lemma FailureSticks(s: Stream, op: ReadOp, sched: seq<Select>, op2: ReadOp, sched2: seq<Select>)
    requires Read(s, op, sched).1.Fail?
    ensures var (s1, o) := Read(s, op, sched);
      Read(s1, op2, sched2) == (s1, o)
  {}

  /** Issue calls in order through the facade. */
  function ReadAll(s: Stream, calls: seq<TR.Call>): (res: (Stream, seq<Outcome<Value>>))
    ensures |res.1| == |calls|
    decreases |calls|
  {
    if calls == [] then (s, [])
    else
      var (s1, o) := Read(s, calls[0].op, calls[0].sched);
      var (s2, os) := ReadAll(s1, calls[1..]);
      (s2, [o] + os)
  }

  /**
   * After the first failure nothing more is requested: the request trace of
   * any run is the requests up to and including the first failing call.
   */
  lemma {:induction false} RequestsStopAtFailure(s: Stream, calls: seq<TR.Call>)
    requires s.tr.er.None?
    ensures var (s', os) := ReadAll(s, calls);
      s'.requested == s.requested + TR.Amounts(calls[..UpToFailure(os)])
    decreases |calls|
  {
    if calls != [] {
      var step := Read(s, calls[0].op, calls[0].sched);
      var tail := ReadAll(step.0, calls[1..]);
      ReadAllUnfolds(s, calls);
      var k := UpToFailure([step.1] + tail.1);
      assert k == if step.1.Fail? then 1 else 1 + UpToFailure(tail.1) by {
        assert ([step.1] + tail.1)[0] == step.1 && ([step.1] + tail.1)[1..] == tail.1;
      }
      AmountsOfPrefix(calls, k);
      if step.1.Fail? {
        DeadRunIsSilent(step.0, calls[1..]);
        assert calls[1..][..0] == [];
      } else {
        RequestsStopAtFailure(step.0, calls[1..]);
        ConcatAssoc(s.requested, [Amount(calls[0].op)], TR.Amounts(calls[1..][..UpToFailure(tail.1)]));
      }
    }
  }

  lemma ReadAllUnfolds(s: Stream, calls: seq<TR.Call>)
    requires calls != []
    ensures var step := Read(s, calls[0].op, calls[0].sched);
      ReadAll(s, calls) == (ReadAll(step.0, calls[1..]).0, [step.1] + ReadAll(step.0, calls[1..]).1)
  {}

  lemma AmountsOfPrefix(calls: seq<TR.Call>, n: nat)
    requires 0 < n <= |calls|
    ensures TR.Amounts(calls[..n]) == [Amount(calls[0].op)] + TR.Amounts(calls[1..][..n - 1])
  {
    assert calls[..n][0] == calls[0];
    assert calls[..n][1..] == calls[1..][..n - 1];
  }

  /** A stream whose transport reader holds an error ignores every call. */
  lemma {:induction false} DeadRunIsSilent(s: Stream, calls: seq<TR.Call>)
    requires s.tr.er.Some?
    ensures ReadAll(s, calls).0 == s
    decreases |calls|
  {
    if calls != [] {
      DeadRunIsSilent(s, calls[1..]);
    }
  }

  /** How many outcomes lead up to and include the first failure (all of them if none failed). */
  function UpToFailure(os: seq<Outcome<Value>>): (k: nat)
    ensures k <= |os|
  {
    if os == [] then 0 else if os[0].Fail? then 1 else 1 + UpToFailure(os[1..])
  }
}
