/**
 * The sharded write queue of the multiplexed netpoll transport
 * (`sharedQueue`). Callers `Add` deferred buffer getters to one of `size`
 * shards chosen round-robin; the first getter to land in an empty shard
 * records the shard on a ring worklist and bumps the `trigger` counter; a
 * single drain task swaps each listed shard out, invokes its getters, appends
 * their buffers to the connection writer and flushes once per pass.
 *
 * Goroutines, atomics and spin locks are not modelled: every transition below
 * is one indivisible step over an explicit state. The drain goroutine is the
 * `task` field, advanced by `Start`, `Step` and `Finish`.
 */
module SharedQueue {
  import opened Common

  /** Largest Go `int32`. */
  const MaxInt32: int := 0x7fff_ffff

  /** A `BufferGetter`, represented by what it yields when the drain invokes it. */
  datatype Getter = Getter(buf: seq<byte>, isNil: bool)

  /**
   * The connection's outbound writer. `appended` holds the buffers accepted so
   * far and `flushed` how many of them the last successful flush covered. The
   * writer's failures are an oracle: the k-th `Append` call (counting from 0)
   * fails exactly when k is in `appendFails`, likewise for `Flush`.
   */
  datatype Writer = Writer(
    appended: seq<seq<byte>>,
    flushed: nat,
    appendCalls: nat,
    flushCalls: nat,
    appendFails: set<nat>,
    flushFails: set<nat>)
  {
    /** `Append(buf)`: the updated writer and whether the call succeeded. */
    function Append(buf: seq<byte>): (Writer, bool) {
      var ok := appendCalls !in appendFails;
      (this.(appended := if ok then appended + [buf] else appended,
             appendCalls := appendCalls + 1), ok)
    }

    /** `Flush()`: the updated writer and whether the call succeeded. */
    function Flush(): (Writer, bool) {
      var ok := flushCalls !in flushFails;
      (this.(flushed := if ok then |appended| else flushed,
             flushCalls := flushCalls + 1), ok)
    }
  }

  /**
   * The drain goroutine. `Starting` has been spawned but has not yet loaded
   * the trigger counter; `Looping(ntr, posntr)` holds the loop's two locals:
   * `ntr` the batch size last loaded from `trigger`, `posntr` minus the number
   * of shards processed in the current batch.
   */
  datatype Task = Idle | Starting | Looping(ntr: int, posntr: int)

  /**
   * The queue. `list` is the ring worklist of `listsize` slots indexed by the
   * write cursor `w` and read cursor `r`; `invoked` is the trace of getters
   * invoked so far and `closed` records `conn.Close()`.
   */
  datatype Queue = Queue(
    size: int,
    idx: int,
    getters: seq<seq<Getter>>,
    trigger: int,
    runNum: int,
    w: int,
    r: int,
    listsize: int,
    list: seq<int>,
    task: Task,
    writer: Writer,
    closed: bool,
    invoked: seq<Getter>)

  /** Shape facts every reachable queue satisfies; they keep every index in range. */
  predicate Valid(q: Queue) {
    && 0 < q.size <= MaxInt32
    && 0 <= q.idx < Uint32Modulus
    && |q.getters| == q.size
    && q.listsize == q.size + 1
    && |q.list| == q.listsize
    && 0 <= q.w < q.listsize
    && 0 <= q.r < q.listsize
    && (forall i :: 0 <= i < |q.list| ==> 0 <= q.list[i] < q.size)
  }

  /** The buffers of the non-nil getters of `gts`, in order. */
  function Buffers(gts: seq<Getter>): seq<seq<byte>> {
    if gts == [] then []
    else Contribution(gts[0]) + Buffers(gts[1..])
  }

  lemma {:induction false} BuffersAppend(a: seq<Getter>, b: seq<Getter>)
    ensures Buffers(a + b) == Buffers(a) + Buffers(b)
  {
    if a == [] {
      assert a + b == b;
    } else {
      assert (a + b)[1..] == a[1..] + b;
      BuffersAppend(a[1..], b);
    }
  }

  /**
   * `newSharedQueue(size, conn)`: `size` empty shards, a ring worklist of
   * `size + 1` zeroed slots, all counters zero and no drain task.
   */
  function NewQueue(size: int, writer: Writer): (q: Queue)
    requires 0 <= size <= MaxInt32
    ensures |q.getters| == size && forall s :: 0 <= s < size ==> q.getters[s] == []
    ensures q.listsize == size + 1 && |q.list| == size + 1
    ensures q.idx == 0 && q.trigger == 0 && q.runNum == 0 && q.w == 0 && q.r == 0
    ensures q.task == Idle && q.writer == writer && !q.closed && q.invoked == []
    ensures 0 < size ==> Valid(q)
  {
    Queue(size, 0, seq(size, _ => []), 0, 0, 0, 0, size + 1, seq(size + 1, _ => 0),
          Idle, writer, false, [])
  }

  /**
   * `ForEach`: bump `runNum`; only the caller that takes it from 0 to 1
   * spawns the drain task, every other caller returns at once.
   */
  function ForEach(q: Queue): (q': Queue)
    ensures q'.runNum == q.runNum + 1
    ensures q'.task == (if q.runNum < 1 then Starting else q.task)
    ensures q'.(runNum := q.runNum, task := q.task) == q
  {
    var q1 := q.(runNum := q.runNum + 1);
    if q1.runNum > 1 then q1 else q1.(task := Starting)
  }

  /**
   * `Trigger(shared)`: advance `w` around the ring, record the shard in the
   * new slot and bump `trigger`; only the call that takes `trigger` to 1 goes
   * on to `ForEach`.
   */
  function Trigger(q: Queue, s: int): (q': Queue)
    requires Valid(q)
    requires 0 <= s < q.size
    ensures Valid(q')
    ensures q'.w == (q.w + 1) % q.listsize
    ensures q'.list == q.list[q'.w := s]
    ensures q'.trigger == q.trigger + 1
    ensures q'.runNum == q.runNum + (if q.trigger < 1 then 1 else 0)
    ensures q'.task == (if q.trigger < 1 && q.runNum < 1 then Starting else q.task)
    ensures q'.(w := q.w, list := q.list, trigger := q.trigger, runNum := q.runNum, task := q.task) == q
  {
    var w := (q.w + 1) % q.listsize;
    var q1 := q.(w := w, list := q.list[w := s], trigger := q.trigger + 1);
    if q1.trigger > 1 then q1 else ForEach(q1)
  }

  /** The shard `Add` picks after moving the round-robin counter to `idx`. */
  function ShardOf(idx: int, size: int): (s: int)
    requires 0 <= idx && 0 < size
    ensures 0 <= s < size
  {
    idx % size
  }

  /**
   * `Add(gts...)`: move the round-robin counter on (wrapping as an unsigned
   * 32-bit value, see Findings in the README), append `gts` to the chosen
   * shard, and trigger the shard exactly when it was empty before.
   */
  function Add(q: Queue, gts: seq<Getter>): (q': Queue)
    requires Valid(q)
    ensures Valid(q')
    ensures q'.idx == (q.idx + 1) % Uint32Modulus
    ensures var s := ShardOf(q'.idx, q.size);
      && q'.getters == q.getters[s := q.getters[s] + gts]
      && q'.trigger == q.trigger + (if q.getters[s] == [] then 1 else 0)
      && (q.getters[s] == [] ==> q'.w == (q.w + 1) % q.listsize && q'.list == q.list[q'.w := s])
      && (q.getters[s] != [] ==> q'.w == q.w && q'.list == q.list && q'.runNum == q.runNum && q'.task == q.task)
    ensures q'.r == q.r && q'.writer == q.writer && q'.closed == q.closed && q'.invoked == q.invoked
  {
    var idx := (q.idx + 1) % Uint32Modulus;
    var s := ShardOf(idx, q.size);
    var wasEmpty := |q.getters[s]| == 0;
    var q1 := q.(idx := idx, getters := q.getters[s := q.getters[s] + gts]);
    if wasEmpty then Trigger(q1, s) else q1
  }

  /** What one `deal` walk did to the writer: how many getters it invoked and whether an append failed. */
  datatype DealOutcome = DealOutcome(writer: Writer, invoked: nat, failed: bool)

  /**
   * The loop of `deal(gts)`: invoke the getters in order, appending every
   * non-nil buffer; the first failing append stops the walk.
   */
  function DealGetters(wr: Writer, gts: seq<Getter>): (o: DealOutcome)
    decreases |gts|
    ensures o.invoked <= |gts|
    ensures o.writer.(appended := wr.appended, appendCalls := wr.appendCalls) == wr
  {
    if gts == [] then DealOutcome(wr, 0, false)
    else if gts[0].isNil then
      var o := DealGetters(wr, gts[1..]);
      o.(invoked := o.invoked + 1)
    else
      var (wr1, ok) := wr.Append(gts[0].buf);
      if ok then
        var o := DealGetters(wr1, gts[1..]);
        o.(invoked := o.invoked + 1)
      else
        DealOutcome(wr1, 1, true)
  }

  /** The writer after invoking `g`: unchanged for a nil buffer, otherwise after one `Append`. */
  function WriterAfter(wr: Writer, g: Getter): Writer {
    if g.isNil then wr else wr.Append(g.buf).0
  }

  /** The buffers one getter contributes: none when nil. */
  function Contribution(g: Getter): seq<seq<byte>> {
    if g.isNil then [] else [g.buf]
  }

  /** A walk whose first getter does not fail is that getter followed by the walk over the rest. */
  lemma DealUnfold(wr: Writer, gts: seq<Getter>)
    requires gts != [] && (gts[0].isNil || wr.Append(gts[0].buf).1)
    ensures var o1 := DealGetters(WriterAfter(wr, gts[0]), gts[1..]);
      DealGetters(wr, gts) == o1.(invoked := o1.invoked + 1)
    ensures WriterAfter(wr, gts[0]).appended == wr.appended + Contribution(gts[0])
    ensures WriterAfter(wr, gts[0]).appendCalls == wr.appendCalls + |Contribution(gts[0])|
    ensures Buffers(gts) == Contribution(gts[0]) + Buffers(gts[1..])
  {}

  /**
   * What `deal` appends: without a failure every getter ran and every non-nil
   * buffer was appended in order; on a failure the walk stopped right after
   * the non-nil getter whose append failed, having appended the buffers before it.
   */
  lemma {:induction false} DealGettersAppends(wr: Writer, gts: seq<Getter>)
    ensures var o := DealGetters(wr, gts);
      && (!o.failed ==> o.invoked == |gts| && o.writer.appended == wr.appended + Buffers(gts))
      && (o.failed ==> && 0 < o.invoked && !gts[o.invoked - 1].isNil
                       && o.writer.appended == wr.appended + Buffers(gts[..o.invoked - 1]))
    decreases |gts|
  {
    if gts != [] && (gts[0].isNil || wr.Append(gts[0].buf).1) {
      var wr1 := WriterAfter(wr, gts[0]);
      var o1 := DealGetters(wr1, gts[1..]);
      DealUnfold(wr, gts);
      DealGettersAppends(wr1, gts[1..]);
      if o1.failed {
        BuffersOfPrefix(gts, o1.invoked);
        ConcatAssoc(wr.appended, Contribution(gts[0]), Buffers(gts[1..][..o1.invoked - 1]));
        assert gts[o1.invoked] == gts[1..][o1.invoked - 1];
      } else {
        ConcatAssoc(wr.appended, Contribution(gts[0]), Buffers(gts[1..]));
      }
    } else if gts != [] {
      assert gts[..0] == [];
    }
  }

  /**
   * `deal` makes one append call per non-nil getter it invoked, and the
   * calls that failed are exactly the last one, when the walk failed.
   */
  lemma {:induction false} DealGettersCalls(wr: Writer, gts: seq<Getter>)
    ensures var o := DealGetters(wr, gts);
      && o.writer.appendCalls == wr.appendCalls + |Buffers(gts[..o.invoked])|
      && (forall k :: wr.appendCalls <= k < o.writer.appendCalls ==>
           (k in wr.appendFails <==> o.failed && k == o.writer.appendCalls - 1))
      && (o.failed ==> wr.appendCalls < o.writer.appendCalls && o.writer.appendCalls - 1 in wr.appendFails)
    decreases |gts|
  {
    if gts == [] {
      assert gts[..0] == [];
    } else if gts[0].isNil || wr.Append(gts[0].buf).1 {
      var wr1 := WriterAfter(wr, gts[0]);
      var o1 := DealGetters(wr1, gts[1..]);
      DealUnfold(wr, gts);
      DealGettersCalls(wr1, gts[1..]);
      BuffersOfPrefix(gts, o1.invoked + 1);
      assert gts[1..][..o1.invoked + 1 - 1] == gts[1..][..o1.invoked];
    } else {
      assert gts[..1] == [gts[0]];
    }
  }

  /** The buffers of a non-empty prefix of `gts`, split at its head. */
  lemma BuffersOfPrefix(gts: seq<Getter>, n: int)
    requires 0 <= n <= |gts|
    ensures 0 < n ==> Buffers(gts[..n]) == Contribution(gts[0]) + Buffers(gts[1..][..n - 1])
  {
    if 0 < n {
      assert gts[..n][0] == gts[0];
      assert gts[..n][1..] == gts[1..][..n - 1];
    }
  }

  /**
   * `deal(gts)` on the queue: the walk's writer, the invoked getters appended
   * to the trace, and `conn.Close()` on a failed append.
   */
  function Deal(q: Queue, gts: seq<Getter>): (res: (Queue, bool))
    ensures q.invoked <= res.0.invoked && res.0.invoked[|q.invoked|..] <= gts
    ensures !res.1 ==> && res.0.invoked == q.invoked + gts
                       && res.0.writer.appended == q.writer.appended + Buffers(gts)
                       && res.0.closed == q.closed
    ensures res.1 ==> res.0.closed && res.0.writer.appendCalls - 1 in q.writer.appendFails
    ensures res.0.(writer := q.writer, closed := q.closed, invoked := q.invoked) == q
    ensures res.0.writer.(appended := q.writer.appended, appendCalls := q.writer.appendCalls) == q.writer
  {
    var o := DealGetters(q.writer, gts);
    DealGettersAppends(q.writer, gts);
    DealGettersCalls(q.writer, gts);
    (q.(writer := o.writer, closed := q.closed || o.failed, invoked := q.invoked + gts[..o.invoked]), o.failed)
  }

  /** `flush()`: flush the writer; a failure closes the connection. */
  function Flush(q: Queue): (q': Queue)
    ensures q'.writer.flushCalls == q.writer.flushCalls + 1
    ensures q'.writer.appended == q.writer.appended
    ensures q'.closed == (q.closed || q.writer.flushCalls in q.writer.flushFails)
    ensures q.writer.flushCalls !in q.writer.flushFails ==> q'.writer.flushed == |q.writer.appended|
    ensures q'.(writer := q.writer, closed := q.closed) == q
  {
    var (wr, ok) := q.writer.Flush();
    if ok then q.(writer := wr) else q.(writer := wr, closed := true)
  }

  /** The drain goroutine starts: `ntr := atomic.LoadInt32(&q.trigger)`. */
  function Start(q: Queue): (q': Queue)
    requires q.task == Starting
    ensures q'.task == Looping(q.trigger, 0)
    ensures q'.(task := q.task) == q
  {
    q.(task := Looping(q.trigger, 0))
  }

  /** The shard the next drain iteration reads: the slot after `r`. */
  function NextRead(q: Queue): (s: int)
    requires Valid(q)
    ensures 0 <= s < q.size
  {
    q.list[(q.r + 1) % q.listsize]
  }

  /**
   * One iteration of the drain loop: advance `r`, swap the listed shard's
   * getters out (leaving it empty), deal them, and at the end of a batch
   * subtract the batch from `trigger` and load the next batch size.
   */
  function Step(q: Queue): (q': Queue)
    requires Valid(q)
    requires q.task.Looping? && q.task.ntr > 0
    ensures Valid(q')
    ensures q'.r == (q.r + 1) % q.listsize
    ensures var s := NextRead(q);
      && q'.getters == q.getters[s := []]
      && q.invoked <= q'.invoked && q'.invoked[|q.invoked|..] <= q.getters[s]
      && (q.writer.appendFails == {} ==> q'.invoked == q.invoked + q.getters[s])
    ensures var posntr := q.task.posntr - 1;
      if q.task.ntr + posntr == 0
      then q'.trigger == q.trigger + posntr && q'.task == Looping(q'.trigger, 0)
      else q'.trigger == q.trigger && q'.task == Looping(q.task.ntr, posntr)
    ensures q'.size == q.size && q'.idx == q.idx && q'.w == q.w && q'.list == q.list
    ensures q'.runNum == q.runNum
    ensures var s := NextRead(q);
      && (q.writer.appendFails == {} ==> q'.writer.appended == q.writer.appended + Buffers(q.getters[s]))
      && (!q'.closed ==> q'.writer.appended == q.writer.appended + Buffers(q.getters[s])
                         && q'.invoked == q.invoked + q.getters[s])
    ensures q.closed ==> q'.closed
    ensures q.writer.appendFails == {} ==> q'.closed == q.closed
    ensures q'.closed && !q.closed ==> q'.writer.appendCalls - 1 in q.writer.appendFails
    ensures q'.writer.flushCalls == q.writer.flushCalls && q'.writer.flushed == q.writer.flushed
    ensures q'.writer.appendFails == q.writer.appendFails && q'.writer.flushFails == q.writer.flushFails
  {
    var r := (q.r + 1) % q.listsize;
    var s := q.list[r];
    var taken := q.getters[s];
    var q1 := q.(r := r, getters := q.getters[s := []]);
    var q2 := Deal(q1, taken).0;
    var posntr := q.task.posntr - 1;
    if q.task.ntr + posntr == 0 then
      var trigger := q2.trigger + posntr;
      q2.(trigger := trigger, task := Looping(trigger, 0))
    else
      q2.(task := Looping(q.task.ntr, posntr))
  }

  /**
   * The end of a drain pass: flush once, clear `runNum`, and re-enter
   * `ForEach` if work arrived meanwhile (the re-check that prevents a lost
   * wake-up).
   */
  function Finish(q: Queue): (q': Queue)
    requires q.task.Looping? && q.task.ntr <= 0
    ensures q'.writer.flushCalls == q.writer.flushCalls + 1
    ensures q'.runNum == (if q.trigger > 0 then 1 else 0)
    ensures q'.task == (if q.trigger > 0 then Starting else Idle)
    ensures q'.trigger == q.trigger && q'.getters == q.getters
    ensures q'.w == q.w && q'.r == q.r && q'.list == q.list && q'.invoked == q.invoked
    ensures q'.writer.appended == q.writer.appended
    ensures q'.closed == (q.closed || q.writer.flushCalls in q.writer.flushFails)
    ensures q.writer.flushCalls !in q.writer.flushFails ==> q'.writer.flushed == |q.writer.appended|
    ensures q'.size == q.size && q'.idx == q.idx && q'.writer.appendCalls == q.writer.appendCalls
    ensures q'.writer.appendFails == q.writer.appendFails && q'.writer.flushFails == q.writer.flushFails
  {
    var q1 := Flush(q).(runNum := 0, task := Idle);
    if q1.trigger > 0 then ForEach(q1) else q1
  }

  // ---------------------------------------------------------------------
  // The round-robin counter as the source writes it.

  /** Go's `int32` addition: wrap into [-2^31, 2^31). */
  function WrapInt32(x: int): (y: int)
    ensures -MaxInt32 - 1 <= y <= MaxInt32
    ensures (y - x) % Uint32Modulus == 0
  {
    var m := x % Uint32Modulus;
    if m > MaxInt32 then m - Uint32Modulus else m
  }

  /** Go's `%` on integers: truncates toward zero, so the sign follows `a`. */
  function GoRem(a: int, b: int): (r: int)
    requires b > 0
    ensures a >= 0 ==> r == a % b
    ensures -b < r < b
  {
    if a >= 0 then a % b else -((-a) % b)
  }

  /**
   * The shard `Add` computes as written: `atomic.AddInt32(&q.idx, 1) % q.size`
   * on a signed 32-bit counter.
   */
  function ShardAsWritten(idx: int, size: int): (s: int)
    requires -MaxInt32 - 1 <= idx <= MaxInt32 && 0 < size
    ensures -size < s < size
    ensures s < 0 <==> WrapInt32(idx + 1) < 0 && (-WrapInt32(idx + 1)) % size != 0
  {
    GoRem(WrapInt32(idx + 1), size)
  }

  /** Below the wrap the signed and unsigned counters pick the same shard. */
  lemma ShardAsWrittenAgreesBeforeWrap(idx: int, size: int)
    requires 0 <= idx < MaxInt32 && 0 < size
    ensures ShardAsWritten(idx, size) == ShardOf((idx + 1) % Uint32Modulus, size)
  {
  }

  /**
   * After 2^31 - 1 additions the signed counter wraps and the computed shard
   * is negative, so `q.getters[shared]` would be out of range.
   */
  lemma ShardAsWrittenGoesNegative()
    ensures ShardAsWritten(MaxInt32, 3) == -2
    ensures ShardOf((MaxInt32 + 1) % Uint32Modulus, 3) == 2
  {
  }
}
