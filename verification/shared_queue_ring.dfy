/**
 * The ring worklist of the sharded write queue and the invariant that ties it
 * to the shards, the trigger counter and the run flag:
 *  - the unread worklist entries are exactly the non-empty shards, each once,
 *    so there are never more than `size` of them and a `Trigger` never
 *    overwrites an unread slot of the `size + 1`-slot ring;
 *  - the number of unread entries equals the trigger counter, once the
 *    drain's pending batch correction `posntr` is counted;
 *  - whenever the trigger counter is positive a drain task exists (no lost
 *    wake-up), and at most one drain task exists at a time.
 * `Drain` runs one whole pass with no interleaved `Add`.
 */
module SharedQueueRing {
  import opened Common
  import opened SharedQueue

  /** The ring position `k` slots after `r` on a ring of `L` slots. */
  function Slot(r: int, k: int, L: int): (i: int)
    requires 0 <= r < L && 0 <= k < L
    ensures 0 <= i < L
  {
    if r + k < L then r + k else r + k - L
  }

  /** Moving one slot on from `Slot(r, k, L)` with `% L`, as the source does, lands on `Slot(r, k + 1, L)`. */
  lemma SlotSucc(r: int, k: int, L: int)
    requires 0 <= r < L && 0 <= k && k + 1 < L
    ensures (Slot(r, k, L) + 1) % L == Slot(r, k + 1, L)
  {
    var x := Slot(r, k, L) + 1;
    if x == L {
      assert x % L == 0;
    } else {
      assert x % L == x;
    }
  }

  /** The number of worklist entries written but not yet read: `w - r` around the ring. */
  function Pending(q: Queue): (n: int)
    requires Valid(q)
    ensures 0 <= n < q.listsize
    ensures Slot(q.r, n, q.listsize) == q.w
  {
    if q.w >= q.r then q.w - q.r else q.w + q.listsize - q.r
  }

  /** The unread worklist entries, in the order the drain will read them. */
  function Window(q: Queue): (ws: seq<int>)
    requires Valid(q)
    ensures |ws| == Pending(q)
    ensures forall k :: 0 <= k < |ws| ==> 0 <= ws[k] < q.size
  {
    seq(Pending(q), k requires 0 <= k < Pending(q) => q.list[Slot(q.r, k + 1, q.listsize)])
  }

  /** No element of `xs` occurs twice. */
  predicate Distinct(xs: seq<int>) {
    forall i, j :: 0 <= i < j < |xs| ==> xs[i] != xs[j]
  }

  /** The trigger counter plus the drain's not-yet-subtracted batch progress. */
  function Outstanding(q: Queue): int {
    q.trigger + (if q.task.Looping? then q.task.posntr else 0)
  }

  /**
   * How `runNum`, `trigger` and the drain task agree. An idle queue has no
   * triggered work; a spawned task has work to do; a looping task's current
   * batch lies within the unread entries, and once its loop has ended
   * `runNum` is 2 exactly when a racing `Trigger` has already called
   * `ForEach` (which then returned at once).
   */
  predicate RunFlagOk(q: Queue)
    requires Valid(q)
  {
    match q.task
    case Idle => q.runNum == 0 && q.trigger == 0
    case Starting => q.runNum == 1 && q.trigger >= 1
    case Looping(ntr, posntr) =>
      && posntr <= 0
      && 0 <= ntr + posntr <= Pending(q)
      && (ntr > 0 ==> q.runNum == 1 && ntr + posntr >= 1)
      && (ntr <= 0 ==> ntr == 0 && posntr == 0 && q.runNum == (if q.trigger == 0 then 1 else 2))
  }

  /** The invariant of every queue reached by `NewQueue`, `Add` with getters, `Start`, `Step` and `Finish`. */
  predicate Inv(q: Queue) {
    && Valid(q)
    && RunFlagOk(q)
    && Pending(q) == Outstanding(q)
    && Distinct(Window(q))
    && (forall s :: 0 <= s < q.size ==> (s in Window(q) <==> q.getters[s] != []))
  }

  // ---------------------------------------------------------------------
  // Counting.

  lemma {:induction false} DistinctCard(xs: seq<int>)
    requires Distinct(xs)
    ensures |set x | x in xs| == |xs|
  {
    if xs != [] {
      DistinctCard(xs[1..]);
      assert (set x | x in xs) == {xs[0]} + (set x | x in xs[1..]);
      assert xs[0] !in (set x | x in xs[1..]);
    }
  }

  /** The integers `0, ..., n - 1`. */
  function Range(n: nat): (rs: set<int>)
    ensures forall i :: i in rs <==> 0 <= i < n
    ensures |rs| == n
  {
    if n == 0 then {} else Range(n - 1) + {n - 1}
  }

  lemma SubsetCard(a: set<int>, b: set<int>)
    requires a <= b
    ensures |a| <= |b|
  {
    assert b == a + (b - a);
  }

  /** Pigeonhole: distinct values drawn from `[0, n)` without `excl` number at most `n - 1`. */
  lemma DistinctBound(xs: seq<int>, n: int, excl: int)
    requires 0 <= excl < n
    requires Distinct(xs)
    requires forall k :: 0 <= k < |xs| ==> 0 <= xs[k] < n
    requires excl !in xs
    ensures |xs| <= n - 1
  {
    DistinctCard(xs);
    SubsetCard((set x | x in xs), Range(n) - {excl});
  }

  // ---------------------------------------------------------------------
  // How each transition moves the window.

  /** A trigger with a free slot appends its shard to the window and overwrites no unread entry. */
  lemma TriggerWindow(q: Queue, s: int)
    requires Valid(q) && 0 <= s < q.size
    requires Pending(q) + 1 < q.listsize
    ensures Pending(Trigger(q, s)) == Pending(q) + 1
    ensures Window(Trigger(q, s)) == Window(q) + [s]
  {
    var q' := Trigger(q, s);
    var L := q.listsize;
    var P := Pending(q);
    SlotSucc(q.r, P, L);
    assert q'.w == Slot(q.r, P + 1, L);
    forall k | 0 <= k < P
      ensures Window(q')[k] == Window(q)[k]
    {
      assert Slot(q.r, k + 1, L) != Slot(q.r, P + 1, L);
    }
  }

  /** A drain step consumes the first window entry. */
  lemma StepWindow(q: Queue)
    requires Valid(q) && q.task.Looping? && q.task.ntr > 0
    requires Pending(q) > 0
    ensures NextRead(q) == Window(q)[0]
    ensures Pending(Step(q)) == Pending(q) - 1
    ensures Window(Step(q)) == Window(q)[1..]
  {
    AdvanceWindow(q, Step(q));
  }

  /** Moving the read cursor one slot on, over the same ring, drops the window's first entry. */
  lemma AdvanceWindow(q: Queue, q': Queue)
    requires Valid(q) && Valid(q') && Pending(q) > 0
    requires q'.size == q.size && q'.w == q.w && q'.list == q.list
    requires q'.r == (q.r + 1) % q.listsize
    ensures NextRead(q) == Window(q)[0]
    ensures Pending(q') == Pending(q) - 1
    ensures Window(q') == Window(q)[1..]
  {
    var L := q.listsize;
    SlotSucc(q.r, 0, L);
    assert q'.r == Slot(q.r, 1, L);
    forall k | 0 <= k < Pending(q) - 1
      ensures Window(q')[k] == Window(q)[k + 1]
    {
      assert Slot(q'.r, k + 1, L) == Slot(q.r, k + 2, L);
    }
  }

  // ---------------------------------------------------------------------
  // The invariant holds initially and is preserved by every transition.

  lemma NewQueueInv(size: int, writer: Writer)
    requires 0 < size <= MaxInt32
    ensures Inv(NewQueue(size, writer))
  {
  }

  /** A trigger keeps the run-flag agreement and the trigger bookkeeping when the ring has a free slot. */
  lemma TriggerRunFlag(q: Queue, s: int)
    requires Valid(q) && 0 <= s < q.size
    requires RunFlagOk(q) && Pending(q) == Outstanding(q)
    requires Pending(q) + 1 < q.listsize
    ensures RunFlagOk(Trigger(q, s))
    ensures Pending(Trigger(q, s)) == Outstanding(Trigger(q, s))
  {
    TriggerWindow(q, s);
  }

  /** `Add` of getters to an empty shard: the shard joins the window, once. */
  lemma AddToEmptyInv(q: Queue, gts: seq<Getter>)
    requires Inv(q) && |gts| > 0
    requires q.getters[ShardOf((q.idx + 1) % Uint32Modulus, q.size)] == []
    ensures Inv(Add(q, gts))
    ensures Window(Add(q, gts)) == Window(q) + [ShardOf((q.idx + 1) % Uint32Modulus, q.size)]
  {
    var idx := (q.idx + 1) % Uint32Modulus;
    var s := ShardOf(idx, q.size);
    var q1 := q.(idx := idx, getters := q.getters[s := q.getters[s] + gts]);
    var q' := Trigger(q1, s);
    assert q' == Add(q, gts);
    DistinctBound(Window(q), q.size, s);
    assert Window(q1) == Window(q);
    TriggerWindow(q1, s);
    TriggerRunFlag(q1, s);
    SnocKeepsDistinct(Window(q), s);
    SnocTracksShards(Window(q), q.getters, s, gts);
  }

  /** Appending a value not yet present keeps a sequence free of repeats. */
  lemma SnocKeepsDistinct(ws: seq<int>, s: int)
    requires Distinct(ws) && s !in ws
    ensures Distinct(ws + [s])
  {
    forall i, j | 0 <= i < j < |ws + [s]| ensures (ws + [s])[i] != (ws + [s])[j] {
      assert (ws + [s])[i] == ws[i];
      if j < |ws| {
        assert (ws + [s])[j] == ws[j];
      }
    }
  }

  /** Listing a shard that just became non-empty keeps the listed shards equal to the non-empty ones. */
  lemma SnocTracksShards(ws: seq<int>, g: seq<seq<Getter>>, s: int, gts: seq<Getter>)
    requires 0 <= s < |g| && g[s] == [] && |gts| > 0
    requires forall t :: 0 <= t < |g| ==> (t in ws <==> g[t] != [])
    ensures forall t :: 0 <= t < |g| ==> (t in ws + [s] <==> g[s := g[s] + gts][t] != [])
  {
    forall t | 0 <= t < |g|
      ensures t in ws + [s] <==> g[s := g[s] + gts][t] != []
    {
      assert t in ws + [s] <==> t in ws || t == s;
    }
  }

  /** `Add` of getters to a non-empty shard: the worklist is untouched. */
  lemma AddToNonEmptyInv(q: Queue, gts: seq<Getter>)
    requires Inv(q)
    requires q.getters[ShardOf((q.idx + 1) % Uint32Modulus, q.size)] != []
    ensures Inv(Add(q, gts))
    ensures Window(Add(q, gts)) == Window(q)
  {
    assert Window(Add(q, gts)) == Window(q);
  }

  /**
   * With at least one getter, `Add` keeps the invariant, and the window grows
   * by the chosen shard exactly when that shard was empty: no unread worklist
   * entry is ever overwritten.
   */
  lemma AddInv(q: Queue, gts: seq<Getter>)
    requires Inv(q)
    requires |gts| > 0
    ensures Inv(Add(q, gts))
    ensures var s := ShardOf((q.idx + 1) % Uint32Modulus, q.size);
      Window(Add(q, gts)) == Window(q) + (if q.getters[s] == [] then [s] else [])
  {
    var s := ShardOf((q.idx + 1) % Uint32Modulus, q.size);
    if q.getters[s] == [] {
      AddToEmptyInv(q, gts);
    } else {
      AddToNonEmptyInv(q, gts);
    }
  }

  lemma StartInv(q: Queue)
    requires Inv(q) && q.task == Starting
    ensures Inv(Start(q))
  {
    assert Window(Start(q)) == Window(q);
  }

  /** A drain step keeps the invariant; the shard it reads is the one it empties. */
  lemma StepInv(q: Queue)
    requires Inv(q) && q.task.Looping? && q.task.ntr > 0
    ensures Inv(Step(q))
  {
    StepWindow(q);
    DropHeadTracksShards(Window(q), q.getters);
  }

  /** Emptying the first listed shard and dropping it from the list keeps the listed shards equal to the non-empty ones. */
  lemma DropHeadTracksShards(ws: seq<int>, g: seq<seq<Getter>>)
    requires ws != [] && 0 <= ws[0] < |g| && Distinct(ws)
    requires forall t :: 0 <= t < |g| ==> (t in ws <==> g[t] != [])
    ensures Distinct(ws[1..])
    ensures forall t :: 0 <= t < |g| ==> (t in ws[1..] <==> g[ws[0] := []][t] != [])
  {
    forall t | 0 <= t < |g|
      ensures t in ws[1..] <==> g[ws[0] := []][t] != []
    {
      if t == ws[0] {
        assert t !in ws[1..];
      } else {
        assert t in ws <==> t in ws[1..] by {
          assert ws == [ws[0]] + ws[1..];
        }
      }
    }
  }

  lemma FinishInv(q: Queue)
    requires Inv(q) && q.task.Looping? && q.task.ntr <= 0
    ensures Inv(Finish(q))
  {
    assert Window(Finish(q)) == Window(q);
  }

  /**
   * The ring never holds more unread entries than there are shards, so a
   * worklist of `size + 1` slots always has a free slot for the next
   * `Trigger`; and unread entries match the trigger bookkeeping.
   */
  lemma RingBound(q: Queue)
    requires Inv(q)
    ensures Pending(q) <= q.size
    ensures Pending(q) == Outstanding(q)
    ensures q.task == Idle ==> q.trigger == 0 && Pending(q) == 0
  {
    DistinctBound(Window(q), q.size + 1, q.size);
  }

  /**
   * Adding getters to an empty shard with no getters records it on the
   * worklist while it stays empty: the invariant breaks, which is why `Add`
   * needs at least one getter for the ring bound to hold.
   */
  lemma EmptyAddBreaksInv(q: Queue)
    requires Inv(q)
    requires q.getters[ShardOf((q.idx + 1) % Uint32Modulus, q.size)] == []
    ensures !Inv(Add(q, []))
  {
    var s := ShardOf((q.idx + 1) % Uint32Modulus, q.size);
    var q1 := q.(idx := (q.idx + 1) % Uint32Modulus);
    assert q.getters[s] + [] == q.getters[s];
    assert q.getters[s := q.getters[s] + []] == q.getters;
    var q' := Trigger(q1, s);
    assert q' == Add(q, []);
    DistinctBound(Window(q), q.size, s);
    TriggerWindow(q1, s);
    assert Window(q1) == Window(q);
    assert Window(q')[|Window(q)|] == s && q'.getters[s] == [];
  }

  // ---------------------------------------------------------------------
  // One whole drain pass.

  /** The getters of `shards`, shard by shard, in order. */
  function Gather(getters: seq<seq<Getter>>, shards: seq<int>): seq<Getter>
    requires forall k :: 0 <= k < |shards| ==> 0 <= shards[k] < |getters|
  {
    if shards == [] then [] else getters[shards[0]] + Gather(getters, shards[1..])
  }

  lemma {:induction false} GatherSnoc(getters: seq<seq<Getter>>, shards: seq<int>, s: int)
    requires forall k :: 0 <= k < |shards| ==> 0 <= shards[k] < |getters|
    requires 0 <= s < |getters|
    ensures Gather(getters, shards + [s]) == Gather(getters, shards) + getters[s]
  {
    if shards != [] {
      assert (shards + [s])[1..] == shards[1..] + [s];
      GatherSnoc(getters, shards[1..], s);
    }
  }

  /**
   * The state of a drain pass started from `q0` (with no interleaved `Add`)
   * after reading the entries `processed`.
   */
  predicate DrainProgress(q0: Queue, q: Queue, processed: seq<int>)
    requires Inv(q0)
  {
    && Inv(q) && q.task.Looping?
    && q.size == q0.size && q.idx == q0.idx && q.w == q0.w && q.list == q0.list
    && |processed| <= q0.trigger <= |Window(q0)| && processed == Window(q0)[..|processed|]
    && Window(q) == Window(q0)[|processed|..]
    && (q.task.ntr > 0 ==> q.task == Looping(q0.trigger, -|processed|) && q.trigger == q0.trigger)
    && (q.task.ntr <= 0 ==> |processed| == q0.trigger && q.trigger == 0)
    && (forall s :: 0 <= s < q.size && s !in processed ==> q.getters[s] == q0.getters[s])
    && q0.invoked <= q.invoked
    && DrainOutput(q0, q, processed)
  }

  /**
   * What a drain pass has handed to the connection so far: while the
   * connection is open, every getter of every processed shard was invoked and
   * its non-nil buffer appended, shard by shard in order; with appends that
   * cannot fail this holds unconditionally and the connection stays as it was.
   */
  predicate DrainOutput(q0: Queue, q: Queue, processed: seq<int>)
    requires forall k :: 0 <= k < |processed| ==> 0 <= processed[k] < |q0.getters|
  {
    && q.writer.flushCalls == q0.writer.flushCalls
    && q.writer.flushed == q0.writer.flushed
    && q.writer.appendFails == q0.writer.appendFails
    && q.writer.flushFails == q0.writer.flushFails
    && (q0.closed ==> q.closed)
    && (q0.writer.appendFails == {} ==>
          && q.closed == q0.closed
          && q.invoked == q0.invoked + Gather(q0.getters, processed)
          && q.writer.appended == q0.writer.appended + Buffers(Gather(q0.getters, processed)))
    && (!q.closed ==>
          && q.invoked == q0.invoked + Gather(q0.getters, processed)
          && q.writer.appended == q0.writer.appended + Buffers(Gather(q0.getters, processed)))
  }

  lemma DrainStart(q0: Queue)
    requires Inv(q0) && q0.task == Starting
    ensures DrainProgress(q0, Start(q0), [])
  {
    StartInv(q0);
    assert Window(Start(q0)) == Window(q0);
    assert q0.invoked + [] == q0.invoked && q0.writer.appended + [] == q0.writer.appended;
  }

  /** The entry a drain step reads is the next one of the pass's window, not read before. */
  lemma DrainStepWindow(q0: Queue, q: Queue, processed: seq<int>)
    requires Inv(q0) && DrainProgress(q0, q, processed) && q.task.ntr > 0
    ensures |processed| < q0.trigger
    ensures NextRead(q) == Window(q0)[|processed|] && NextRead(q) !in processed
    ensures processed + [NextRead(q)] == Window(q0)[..|processed| + 1]
    ensures Window(Step(q)) == Window(q0)[|processed| + 1..]
  {
    var W := Window(q0);
    StepWindow(q);
    var s := NextRead(q);
    assert s == W[|processed|];
    assert s !in processed by {
      assert forall k :: 0 <= k < |processed| ==> processed[k] == W[k];
    }
    assert W[|processed| + 1..] == W[|processed|..][1..];
    assert W[..|processed| + 1] == W[..|processed|] + [W[|processed|]];
  }

  /** A drain step's counter bookkeeping: `posntr` counts down, and the batch closes after `trigger` reads. */
  lemma DrainStepCounters(q0: Queue, q: Queue, processed: seq<int>)
    requires Inv(q0) && DrainProgress(q0, q, processed) && q.task.ntr > 0
    ensures var q' := Step(q);
      && q'.task.Looping?
      && (q'.task.ntr > 0 ==> q'.task == Looping(q0.trigger, -(|processed| + 1)) && q'.trigger == q0.trigger)
      && (q'.task.ntr <= 0 ==> |processed| + 1 == q0.trigger && q'.trigger == 0)
  {
  }

  /**
   * A drain step that empties shard `s`, not read before in this pass,
   * leaves every other unread shard holding its original getters.
   */
  lemma DrainStepShards(g0: seq<seq<Getter>>, g: seq<seq<Getter>>, processed: seq<int>, s: int)
    requires |g0| == |g| && 0 <= s < |g|
    requires forall t :: 0 <= t < |g| && t !in processed ==> g[t] == g0[t]
    ensures forall t :: 0 <= t < |g| && t !in processed + [s] ==> g[s := []][t] == g0[t]
  {
    forall t | 0 <= t < |g| && t !in processed + [s]
      ensures g[s := []][t] == g0[t]
    {
      assert t !in processed && t != s;
    }
  }

  /** Invoking shard `s`'s original getters extends the pass's invoked trace by that shard. */
  lemma DrainStepInvoked(g0: seq<seq<Getter>>, i0: seq<Getter>, i: seq<Getter>, i': seq<Getter>, processed: seq<int>, s: int)
    requires 0 <= s < |g0|
    requires forall k :: 0 <= k < |processed| ==> 0 <= processed[k] < |g0|
    requires i == i0 + Gather(g0, processed)
    requires i' == i + g0[s]
    ensures i' == i0 + Gather(g0, processed + [s])
  {
    var ps := processed + [s];
    forall k | 0 <= k < |ps| ensures 0 <= ps[k] < |g0| {
      if k < |processed| {
        assert ps[k] == processed[k];
      }
    }
    GatherSnoc(g0, processed, s);
    ConcatAssoc(i0, Gather(g0, processed), g0[s]);
  }

  /** The buffers of shard `s`'s getters extend the pass's appended buffers by that shard. */
  lemma DrainStepAppended(g0: seq<seq<Getter>>, a0: seq<seq<byte>>, a: seq<seq<byte>>, a': seq<seq<byte>>, processed: seq<int>, s: int)
    requires 0 <= s < |g0|
    requires forall k :: 0 <= k < |processed| ==> 0 <= processed[k] < |g0|
    requires a == a0 + Buffers(Gather(g0, processed))
    requires a' == a + Buffers(g0[s])
    ensures a' == a0 + Buffers(Gather(g0, processed + [s]))
  {
    var ps := processed + [s];
    forall k | 0 <= k < |ps| ensures 0 <= ps[k] < |g0| {
      if k < |processed| {
        assert ps[k] == processed[k];
      }
    }
    GatherSnoc(g0, processed, s);
    BuffersAppend(Gather(g0, processed), g0[s]);
    ConcatAssoc(a0, Buffers(Gather(g0, processed)), Buffers(g0[s]));
  }

  /** A drain step keeps the record of what the pass handed to the connection. */
  lemma DrainStepOutput(q0: Queue, q: Queue, processed: seq<int>)
    requires Inv(q0) && DrainProgress(q0, q, processed) && q.task.ntr > 0
    ensures forall k :: 0 <= k < |processed + [NextRead(q)]| ==> 0 <= (processed + [NextRead(q)])[k] < |q0.getters|
    ensures DrainOutput(q0, Step(q), processed + [NextRead(q)])
  {
    var s := NextRead(q);
    var q' := Step(q);
    DrainStepWindow(q0, q, processed);
    assert q.getters[s] == q0.getters[s];
    var ps := processed + [s];
    forall k | 0 <= k < |ps| ensures 0 <= ps[k] < |q0.getters| {
      if k < |processed| {
        assert ps[k] == processed[k];
      }
    }
    if q0.writer.appendFails == {} {
      DrainStepInvoked(q0.getters, q0.invoked, q.invoked, q'.invoked, processed, s);
      DrainStepAppended(q0.getters, q0.writer.appended, q.writer.appended, q'.writer.appended, processed, s);
    }
    if !q'.closed {
      DrainStepInvoked(q0.getters, q0.invoked, q.invoked, q'.invoked, processed, s);
      DrainStepAppended(q0.getters, q0.writer.appended, q.writer.appended, q'.writer.appended, processed, s);
    }
  }

  lemma DrainStep(q0: Queue, q: Queue, processed: seq<int>)
    requires Inv(q0) && DrainProgress(q0, q, processed) && q.task.ntr > 0
    ensures |processed| < q0.trigger
    ensures DrainProgress(q0, Step(q), processed + [NextRead(q)])
  {
    StepInv(q);
    DrainStepWindow(q0, q, processed);
    DrainStepCounters(q0, q, processed);
    var s := NextRead(q);
    DrainStepShards(q0.getters, q.getters, processed, s);
    DrainStepOutput(q0, q, processed);
  }

  /**
   * A drain pass with no interleaved `Add`: it reads exactly `trigger`
   * worklist entries, in ring order from `r + 1`, empties every shard,
   * brings `trigger` to 0 and `r` to `w`, flushes exactly once, clears the
   * run flag and goes idle. Unless the connection ended up closed (always,
   * with a writer whose appends never fail), every getter of every listed
   * shard is invoked once, shard by shard in worklist order and in order
   * within a shard, and exactly their non-nil buffers reach the writer in
   * that order; the pass's one flush, when it succeeds, covers all of them.
   */
  method Drain(q0: Queue) returns (q: Queue, processed: seq<int>)
    requires Inv(q0) && q0.task == Starting
    ensures Inv(q)
    ensures processed == Window(q0) && |processed| == q0.trigger
    ensures q.trigger == 0 && q.r == q0.w && q.w == q0.w && q.list == q0.list
    ensures q.size == q0.size && q.idx == q0.idx
    ensures q.writer.appendFails == q0.writer.appendFails && q.writer.flushFails == q0.writer.flushFails
    ensures q.task == Idle && q.runNum == 0
    ensures q.writer.flushCalls == q0.writer.flushCalls + 1
    ensures forall s :: 0 <= s < q.size ==> q.getters[s] == []
    ensures q0.invoked <= q.invoked
    ensures q0.writer.appendFails == {} ==> q.invoked == q0.invoked + Gather(q0.getters, processed)
    ensures q0.writer.appendFails == {} ==>
      q.writer.appended == q0.writer.appended + Buffers(Gather(q0.getters, processed))
    ensures !q.closed ==>
      && q.invoked == q0.invoked + Gather(q0.getters, processed)
      && q.writer.appended == q0.writer.appended + Buffers(Gather(q0.getters, processed))
    ensures q0.writer.flushCalls !in q0.writer.flushFails ==> q.writer.flushed == |q.writer.appended|
    ensures q0.closed ==> q.closed
    ensures q0.writer.appendFails == {} && q0.writer.flushCalls !in q0.writer.flushFails ==> q.closed == q0.closed
  {
    q := Start(q0);
    processed := [];
    DrainStart(q0);
    while q.task.ntr > 0
      invariant DrainProgress(q0, q, processed)
      decreases q0.trigger - |processed|
    {
      DrainStep(q0, q, processed);
      processed := processed + [NextRead(q)];
      q := Step(q);
    }
    assert processed == Window(q0);
    FinishInv(q);
    q := Finish(q);
    RingBound(q);
  }
}
