/**
 * `serializeToBuffer` in one pass of `processRequestQueue`, with the buffers it takes from
 * the pool and gives back: which messages still have their buffer when they are copied.
 */
module PooledMessages {
  import opened Bytes
  import opened Wire
  import opened ByteBuffers
  import opened BufferStorages
  import opened NetworkMessages

  type Lists = seq<seq<NativeByteBuffer>>

  /**
   * A message of `size` bytes: its buffer is taken, the request's own buffer is given
   * back, and, if the request wants no ack, so is the message's: the request is destroyed.
   * The buffer of a batch, taken before the messages are copied into it, counts as one
   * that wants an ack and has no body.
   */
  datatype Job = Job(size: nat, body: NativeByteBuffer?, withoutAck: bool)

  // ---- the lists ----

  function Taken(lists: Lists, size: nat): Lists
    requires |lists| == CLASSES
  {
    var c := ClassOf(size);
    if c < CLASSES && lists[c] != [] then lists[c := lists[c][1..]] else lists
  }

  function Returned(lists: Lists, b: NativeByteBuffer?): Lists
    requires |lists| == CLASSES
  {
    var c := if b == null then CLASSES else ClassOf(b.bytes.Length);
    if c < CLASSES && |lists[c]| < MaxFree(c) then lists[c := lists[c] + [b]] else lists
  }

  function Served(lists: Lists, job: Job, out: NativeByteBuffer): (after: Lists)
    requires |lists| == CLASSES
    ensures |after| == CLASSES
  {
    var t := Returned(Taken(lists, job.size), job.body);
    if job.withoutAck then Returned(t, out) else t
  }

  // ---- only their lengths ----

  function LengthTaken(c: nat, n: nat, job: Job): nat {
    if ClassOf(job.size) == c && n > 0 then n - 1 else n
  }

  function LengthBefore(c: nat, n: nat, job: Job): nat {
    var t := LengthTaken(c, n, job);
    if job.body != null && ClassOf(job.body.bytes.Length) == c && t < MaxFree(c) then t + 1 else t
  }

  function LengthServed(c: nat, n: nat, job: Job): nat {
    var t := LengthBefore(c, n, job);
    if job.withoutAck && ClassOf(job.size) == c && t < MaxFree(c) then t + 1 else t
  }

  function LengthAfter(c: nat, n: nat, jobs: seq<Job>): nat
    decreases |jobs|
  {
    if jobs == [] then n else LengthServed(c, LengthAfter(c, n, jobs[..|jobs| - 1]), jobs[|jobs| - 1])
  }

  /** How many of these messages take a buffer of class `c`. */
  function Takes(c: nat, jobs: seq<Job>): nat
    decreases |jobs|
  {
    if jobs == [] then 0
    else Takes(c, jobs[..|jobs| - 1]) + if ClassOf(jobs[|jobs| - 1].size) == c then 1 else 0
  }

  // ---- what the pool does ----

  /** Each buffer is of its list's class and in one place. */
  ghost predicate Tidy(lists: Lists) {
    && |lists| == CLASSES
    && (forall c, k | Slot(lists, c, k) :: lists[c][k].bytes.Length == CAPACITIES[c])
    && (forall c, k, d, j | Slot(lists, c, k) && Slot(lists, d, j) && lists[c][k] == lists[d][j] :: c == d && k == j)
  }

  /** The buffer handed out is the oldest of its class, or one not seen before. */
  ghost predicate Hands(lists: Lists, job: Job, out: NativeByteBuffer, earlier: seq<NativeByteBuffer>)
    requires |lists| == CLASSES
  {
    var c := ClassOf(job.size);
    && out.bytes.Length == ClassCapacity(job.size)
    && if c < CLASSES && lists[c] != [] then out == lists[c][0] else !Listed(lists, out) && out !in earlier
  }

  ghost predicate Turn(ls: seq<Lists>, jobs: seq<Job>, outs: seq<NativeByteBuffer>, n: nat)
    requires n < |jobs| == |outs| == |ls| - 1
  {
    && Tidy(ls[n]) && Hands(ls[n], jobs[n], outs[n], outs[..n]) && jobs[n].body !in outs[..n + 1]
    && ls[n + 1] == Served(ls[n], jobs[n], outs[n])
  }

  /** `outs` are the buffers a pool hands out for `jobs`, one after the other, and `ls` its lists before and after each. */
  ghost predicate Trace(ls: seq<Lists>, jobs: seq<Job>, outs: seq<NativeByteBuffer>) {
    |jobs| == |outs| == |ls| - 1 && |ls[0]| == CLASSES && forall n | 0 <= n < |jobs| :: Turn(ls, jobs, outs, n)
  }

  // ---- which messages lose their buffer ----

  lemma CapacityClass(size: nat)
    ensures ClassOf(ClassCapacity(size)) == ClassOf(size)
  {
  }

  lemma LengthOne(lists: Lists, job: Job, out: NativeByteBuffer, c: nat)
    requires |lists| == CLASSES && c < CLASSES && out.bytes.Length == ClassCapacity(job.size)
    ensures |Served(lists, job, out)[c]| == LengthServed(c, |lists[c]|, job)
  {
    CapacityClass(job.size);
  }

  lemma TraceShape(ls: seq<Lists>, jobs: seq<Job>, outs: seq<NativeByteBuffer>, n: nat)
    requires Trace(ls, jobs, outs) && n <= |jobs|
    ensures |ls[n]| == CLASSES
  {
    if n > 0 { assert Turn(ls, jobs, outs, n - 1); }
  }

  lemma {:induction false} LengthsExactly(ls: seq<Lists>, jobs: seq<Job>, outs: seq<NativeByteBuffer>, n: nat, c: nat)
    requires Trace(ls, jobs, outs) && n <= |jobs| && c < CLASSES
    ensures |ls[n]| == CLASSES && |ls[n][c]| == LengthAfter(c, |ls[0][c]|, jobs[..n])
  {
    TraceShape(ls, jobs, outs, n);
    if n > 0 {
      LengthsExactly(ls, jobs, outs, n - 1, c);
      assert Turn(ls, jobs, outs, n - 1);
      LengthOne(ls[n - 1], jobs[n - 1], outs[n - 1], c);
      assert jobs[..n][..n - 1] == jobs[..n - 1];
    }
  }

  /** `b` stands at place `p` of list `c`. */
  ghost predicate At(lists: Lists, c: nat, p: nat, b: NativeByteBuffer) {
    c < |lists| && p < |lists[c]| && lists[c][p] == b
  }

  /** One job later: handed out if it stood first and its class was asked for, else one place on or where it was. */
  lemma OneStepOn(lists: Lists, job: Job, out: NativeByteBuffer, earlier: seq<NativeByteBuffer>, c: nat, p: nat, b: NativeByteBuffer)
    requires Tidy(lists) && Hands(lists, job, out, earlier) && At(lists, c, p, b)
    ensures out == b <==> ClassOf(job.size) == c && p == 0
    ensures out != b ==> At(Served(lists, job, out), c, if ClassOf(job.size) == c then p - 1 else p, b)
  {
    var d := ClassOf(job.size);
    assert Slot(lists, c, p);
    if d < CLASSES && lists[d] != [] {
      assert Slot(lists, d, 0);
    } else {
      assert b in lists[c];
    }
  }

  lemma TakesNext(c: nat, jobs: seq<Job>, m: nat, n: nat)
    requires m < n <= |jobs|
    ensures Takes(c, jobs[m..n]) == Takes(c, jobs[m..n - 1]) + if ClassOf(jobs[n - 1].size) == c then 1 else 0
  {
    assert jobs[m..n][..n - 1 - m] == jobs[m..n - 1];
  }

  lemma TurnOn(ls: seq<Lists>, jobs: seq<Job>, outs: seq<NativeByteBuffer>, n: nat, c: nat, q: nat, b: NativeByteBuffer)
    requires Trace(ls, jobs, outs) && n < |jobs| && At(ls[n], c, q, b)
    ensures outs[n] == b <==> ClassOf(jobs[n].size) == c && q == 0
    ensures outs[n] != b ==> At(ls[n + 1], c, if ClassOf(jobs[n].size) == c then q - 1 else q, b)
  {
    assert Turn(ls, jobs, outs, n);
    OneStepOn(ls[n], jobs[n], outs[n], outs[..n], c, q, b);
  }

  lemma OneMoreOut(outs: seq<NativeByteBuffer>, m: nat, n: nat, b: NativeByteBuffer)
    requires m < n <= |outs|
    ensures b in outs[m..n] <==> b in outs[m..n - 1] || outs[n - 1] == b
  {
    assert outs[m..n] == outs[m..n - 1] + [outs[n - 1]];
  }

  /** A buffer that stands behind `p` others is handed out exactly when more than `p` of its class are asked for. */
  lemma {:induction false} FirstInFirstOut(
    ls: seq<Lists>, jobs: seq<Job>, outs: seq<NativeByteBuffer>, m: nat, n: nat, c: nat, p: nat, b: NativeByteBuffer)
    requires Trace(ls, jobs, outs) && m <= n <= |jobs| && At(ls[m], c, p, b)
    ensures b in outs[m..n] <==> Takes(c, jobs[m..n]) > p
    ensures b !in outs[m..n] ==> At(ls[n], c, p - Takes(c, jobs[m..n]), b)
    decreases n
  {
    if m < n {
      FirstInFirstOut(ls, jobs, outs, m, n - 1, c, p, b);
      TakesNext(c, jobs, m, n);
      OneMoreOut(outs, m, n, b);
      if b !in outs[m..n - 1] {
        TurnOn(ls, jobs, outs, n - 1, c, p - Takes(c, jobs[m..n - 1]), b);
      }
    } else {
      assert outs[m..n] == [] && jobs[m..n] == [];
    }
  }

  lemma StaysAway(lists: Lists, job: Job, out: NativeByteBuffer, earlier: seq<NativeByteBuffer>, b: NativeByteBuffer)
    requires Tidy(lists) && Hands(lists, job, out, earlier) && !Listed(lists, b) && b in earlier && job.body != b
    ensures out != b && !Listed(Served(lists, job, out), b)
  {
    var t := Taken(lists, job.size);
    assert !Listed(t, b);
    AlsoAway(t, job.body, b);
    AlsoAway(Returned(t, job.body), out, b);
  }

  lemma AlsoAway(lists: Lists, x: NativeByteBuffer?, b: NativeByteBuffer)
    requires |lists| == CLASSES && !Listed(lists, b) && x != b
    ensures !Listed(Returned(lists, x), b)
  {
  }

  /** A buffer that is in no list, and that nobody gives back, is not handed out again. */
  lemma {:induction false} NeverAgain(
    ls: seq<Lists>, jobs: seq<Job>, outs: seq<NativeByteBuffer>, k: nat, n: nat, b: NativeByteBuffer)
    requires Trace(ls, jobs, outs) && k < n <= |jobs| && b == outs[k] && !Listed(ls[k + 1], b)
    ensures b !in outs[k + 1..n] && !Listed(ls[n], b)
    decreases n
  {
    if k + 1 < n {
      NeverAgain(ls, jobs, outs, k, n - 1, b);
      assert Turn(ls, jobs, outs, n - 1);
      assert outs[k + 1..n] == outs[k + 1..n - 1] + [outs[n - 1]];
      assert outs[..n - 1][k] == b && outs[..n][k] == b;
      StaysAway(ls[n - 1], jobs[n - 1], outs[n - 1], outs[..n - 1], b);
    }
  }

  /** The message's buffer goes into its list: it is given back and there is room. */
  predicate GivenBack(c: nat, n: nat, job: Job) {
    job.withoutAck && c < CLASSES && LengthBefore(c, n, job) < MaxFree(c)
  }

  lemma TakenIsGone(lists: Lists, job: Job, out: NativeByteBuffer, earlier: seq<NativeByteBuffer>)
    requires Tidy(lists) && Hands(lists, job, out, earlier)
    ensures !Listed(Taken(lists, job.size), out)
  {
    var c, t := ClassOf(job.size), Taken(lists, job.size);
    if c < CLASSES && lists[c] != [] {
      assert Slot(lists, c, 0);
      forall d, k | 0 <= d < CLASSES && 0 <= k < |t[d]| ensures t[d][k] != out {
        assert Slot(lists, d, if d == c then k + 1 else k);
      }
    }
  }

  lemma AfterOne(lists: Lists, job: Job, out: NativeByteBuffer, earlier: seq<NativeByteBuffer>, c: nat)
    requires Tidy(lists) && Hands(lists, job, out, earlier) && job.body != out && c == ClassOf(job.size)
    ensures var after := Served(lists, job, out);
            if c < CLASSES && GivenBack(c, |lists[c]|, job) then At(after, c, |after[c]| - 1, out) else !Listed(after, out)
  {
    CapacityClass(job.size);
    TakenIsGone(lists, job, out, earlier);
    AlsoAway(Taken(lists, job.size), job.body, out);
  }

  /**
   * The buffer of message `k` is handed out again before the pass ends exactly if the
   * request wants no ack, its list has room for it, and as many later messages ask for its
   * class as that list then holds. All this shows from sizes, flags and list lengths.
   */
  predicate HandedOn(lengths: seq<nat>, jobs: seq<Job>, k: nat)
    requires |lengths| == CLASSES && k < |jobs|
  {
    var c := ClassOf(jobs[k].size);
    && c < CLASSES
    && GivenBack(c, LengthAfter(c, lengths[c], jobs[..k]), jobs[k])
    && Takes(c, jobs[k + 1..]) >= LengthAfter(c, lengths[c], jobs[..k + 1])
  }

  function Lengths(lists: Lists): seq<nat> {
    seq(|lists|, c requires 0 <= c < |lists| => |lists[c]|)
  }

  lemma HandedOutAgain(ls: seq<Lists>, jobs: seq<Job>, outs: seq<NativeByteBuffer>, k: nat)
    requires Trace(ls, jobs, outs) && k < |jobs|
    ensures outs[k] in outs[k + 1..] <==> HandedOn(Lengths(ls[0]), jobs, k)
  {
    var c, b, n := ClassOf(jobs[k].size), outs[k], |jobs|;
    assert Turn(ls, jobs, outs, k);
    assert outs[..k + 1][k] == b;
    AfterOne(ls[k], jobs[k], b, outs[..k], c);
    assert outs[k + 1..n] == outs[k + 1..] && jobs[k + 1..n] == jobs[k + 1..];
    if c < CLASSES {
      LengthsExactly(ls, jobs, outs, k, c);
      LengthsExactly(ls, jobs, outs, k + 1, c);
    }
    if c < CLASSES && GivenBack(c, |ls[k][c]|, jobs[k]) {
      FirstInFirstOut(ls, jobs, outs, k + 1, n, c, |ls[k + 1][c]| - 1, b);
    } else {
      NeverAgain(ls, jobs, outs, k, n, b);
    }
  }

  /** A buffer given back to a full list is deleted. */
  predicate Deleted(lengths: seq<nat>, jobs: seq<Job>, k: nat)
    requires |lengths| == CLASSES && k < |jobs|
  {
    var c := ClassOf(jobs[k].size);
    jobs[k].withoutAck && (c == CLASSES || !GivenBack(c, LengthAfter(c, lengths[c], jobs[..k]), jobs[k]))
  }

  /** No list has it any more, though its message is still to be copied. */
  lemma DeletedIsGone(ls: seq<Lists>, jobs: seq<Job>, outs: seq<NativeByteBuffer>, k: nat)
    requires Trace(ls, jobs, outs) && k < |jobs| && Deleted(Lengths(ls[0]), jobs, k)
    ensures !Listed(ls[|jobs|], outs[k])
  {
    var c := ClassOf(jobs[k].size);
    assert Turn(ls, jobs, outs, k);
    assert outs[..k + 1][k] == outs[k];
    AfterOne(ls[k], jobs[k], outs[k], outs[..k], c);
    if c < CLASSES { LengthsExactly(ls, jobs, outs, k, c); }
    NeverAgain(ls, jobs, outs, k, |jobs|, outs[k]);
  }

  /** The buffer of a request that wants an ack is never handed on or deleted. */
  lemma WithAckKept(lengths: seq<nat>, jobs: seq<Job>, k: nat)
    requires |lengths| == CLASSES && k < |jobs| && !jobs[k].withoutAck
    ensures !HandedOn(lengths, jobs, k) && !Deleted(lengths, jobs, k)
  {
  }

  /**
   * With no buffer of the class in the pool, and a request's own buffer of another class,
   * the second of two messages gets the buffer of the first, if that wants no ack.
   */
  lemma SecondTakesFirst(lengths: seq<nat>, first: Job, second: Job, c: nat)
    requires |lengths| == CLASSES && first.withoutAck && c < CLASSES && lengths[c] == 0
    requires first.body == null || ClassOf(first.body.bytes.Length) != c
    requires ClassOf(first.size) == ClassOf(second.size) == c
    ensures HandedOn(lengths, [first, second], 0)
  {
    var jobs := [first, second];
    assert jobs[..0] == [] && jobs[..1] == [first] && jobs[1..] == [second];
    assert [first][..0] == [] && [second][..0] == [];
  }

  // ---- the code ----

  /** What the pass takes from a request. */
  datatype Ask = Ask(cmd: Int32, seqNo: Int32, body: NativeByteBuffer?, withoutAck: bool)

  /** The packet's length has 16 bits; a missing body counts as an empty one. */
  function JobOf(ask: Ask): (job: Job)
    reads ask.body
    ensures job.size < TWO_16
  {
    Job(NetworkMessage.PackLength(if ask.body == null then 0 else ask.body.limit), ask.body, ask.withoutAck)
  }

  ghost function MessageOf(ask: Ask, uin: Uint64): Message
    reads ask.body, if ask.body == null then {} else {ask.body.bytes}
    requires ask.body != null ==> ask.body.Valid()
  {
    Message(ask.cmd, uin, ask.seqNo, NetworkMessage.BodyOf(ask.body))
  }

  /** A request's buffer is out. */
  ghost predicate Held(pool: BufferStorage, body: NativeByteBuffer?)
    reads pool, body
  {
    body != null ==> body in pool.live && body.Valid()
  }

  /** The buffer holds the packet of `m`. */
  ghost predicate Carries(b: NativeByteBuffer, size: nat, m: Message)
    reads b, b.bytes
  {
    b.limit == size <= b.bytes.Length && NetworkMessage.Prints(b.bytes[..size], m)
  }

  /** Different buffers have different bytes. */
  ghost predicate Own(buffers: set<NativeByteBuffer>) {
    forall a, b :: a in buffers && b in buffers && a.bytes == b.bytes ==> a == b
  }

  /** Every buffer the pool knows. */
  ghost function Known(pool: BufferStorage): set<NativeByteBuffer>
    reads pool
  {
    pool.pooled + pool.live
  }

  lemma ShelvedIsTidy(lists: Lists, pooled: set<NativeByteBuffer>)
    requires Shelved(lists, pooled)
    ensures Tidy(lists) && forall b :: Listed(lists, b) ==> b in pooled
  {
    forall b | Listed(lists, b) ensures b in pooled {
      var c :| 0 <= c < |lists| && b in lists[c];
      var k :| 0 <= k < |lists[c]| && lists[c][k] == b;
      assert Slot(lists, c, k);
    }
  }

  /** A buffer for `size` bytes, as the pool hands it out. */
  method Take(pool: BufferStorage, size: nat) returns (out: NativeByteBuffer)
    requires pool.Valid()
    modifies pool, pool.pooled
    ensures pool.Valid() && out !in old(pool.live) && pool.live == old(pool.live) + {out} && pool.pooled == old(pool.pooled) - {out}
    ensures out in old(pool.pooled) || (fresh(out) && fresh(out.bytes))
    ensures Hands(old(pool.freeBuffers), Job(size, null, false), out, []) && pool.freeBuffers == Taken(old(pool.freeBuffers), size)
    ensures forall b :: b in pool.pooled ==> unchanged(b)
    ensures out.Valid() && out.position == 0 && out.limit == size
  {
    ShelvedIsTidy(pool.freeBuffers, pool.pooled);
    out := pool.GetBuffer(size);
  }

  /** The first half of `serializeToBuffer`: a buffer is taken and the packet written into it. */
  method Fill(pool: BufferStorage, ask: Ask, uin: Uint64, size: nat)
    returns (out: NativeByteBuffer)
    requires pool.Valid() && Own(Known(pool)) && Held(pool, ask.body) && size < TWO_16
    modifies pool, pool.pooled, set b | b in pool.pooled :: b.bytes, ask.body
    ensures pool.Valid() && out !in old(pool.live) && pool.live == old(pool.live) + {out} && pool.pooled == old(pool.pooled) - {out}
    ensures Held(pool, ask.body)
    ensures out in old(pool.pooled) || (fresh(out) && fresh(out.bytes))
    ensures Hands(old(pool.freeBuffers), Job(size, null, false), out, []) && pool.freeBuffers == Taken(old(pool.freeBuffers), size)
    ensures forall b :: b in pool.pooled ==> unchanged(b) && unchanged(b.bytes)
    ensures out.Valid() && Carries(out, size, old(MessageOf(ask, uin)))
  {
    out := Take(pool, size);
    assert ask.body != null ==> ask.body != out && ask.body.bytes != out.bytes;
    ghost var lists, pooled, live := pool.freeBuffers, pool.pooled, pool.live;
    var message := new NetworkMessage(out, ask.cmd, ask.seqNo);
    message.WritePacket(out, ask.body, uin);
    assert pool.freeBuffers == lists && pool.pooled == pooled && pool.live == live;
  }

  /** What is given back once the packet is written. */
  method Release(pool: BufferStorage, body: NativeByteBuffer?, out: NativeByteBuffer, withoutAck: bool)
    requires pool.Valid() && out in pool.live && out.Valid() && body != out && Held(pool, body)
    modifies pool
    ensures pool.Valid()
    ensures pool.live == if withoutAck then old(pool.live) - {body, out} else old(pool.live) - {body}
    ensures Known(pool) <= old(Known(pool)) && pool.pooled <= old(pool.pooled) + {body, out}
    ensures var t := Returned(old(pool.freeBuffers), body);
            pool.freeBuffers == if withoutAck then Returned(t, out) else t
  {
    pool.ReuseFreeBuffer(body);
    if withoutAck {
      pool.ReuseFreeBuffer(out);
    }
  }

  /**
   * `serializeToBuffer`, and the end of a request that wants no ack: one buffer is taken,
   * the request's own is given back, and the new one stays out exactly if there is an ack.
   */
  method Serialize(pool: BufferStorage, ask: Ask, uin: Uint64) returns (out: NativeByteBuffer)
    requires pool.Valid() && Own(Known(pool)) && Held(pool, ask.body)
    modifies pool, pool.pooled, set b | b in pool.pooled :: b.bytes, ask.body
    ensures pool.Valid() && out !in old(pool.live)
    ensures pool.live == if ask.withoutAck then old(pool.live) - {ask.body} else old(pool.live) - {ask.body} + {out}
    ensures Known(pool) <= old(Known(pool)) + {out} && pool.pooled <= old(pool.pooled) + {out, ask.body}
    ensures out in old(pool.pooled) || (fresh(out) && fresh(out.bytes))
    ensures Hands(old(pool.freeBuffers), old(JobOf(ask)), out, [])
    ensures pool.freeBuffers == Served(old(pool.freeBuffers), old(JobOf(ask)), out)
    ensures forall b :: b in old(pool.pooled) && b != out ==> unchanged(b) && unchanged(b.bytes)
    ensures out.Valid() && Carries(out, old(JobOf(ask)).size, old(MessageOf(ask, uin)))
  {
    out := Fill(pool, ask, uin, JobOf(ask).size);
    Release(pool, ask.body, out, ask.withoutAck);
  }

  /** The requests from `i` on still hold their buffers, which say what the jobs and messages say. */
  ghost predicate Waiting(pool: BufferStorage, asks: seq<Ask>, uin: Uint64, jobs: seq<Job>, ms: seq<Message>, i: nat)
    reads *
  {
    && |jobs| == |ms| == |asks|
    && (forall j | i <= j < |asks| ::
          Held(pool, asks[j].body) && JobOf(asks[j]) == jobs[j] && MessageOf(asks[j], uin) == ms[j])
    && (forall j, k | i <= j < k < |asks| && asks[j].body != null :: asks[j].body != asks[k].body)
  }

  /** Every buffer that was not handed out again holds its message. */
  ghost predicate Intact(outs: seq<NativeByteBuffer>, jobs: seq<Job>, ms: seq<Message>)
    reads *
  {
    && |outs| <= |jobs| == |ms|
    && forall k | 0 <= k < |outs| && outs[k] !in outs[k + 1..] :: Carries(outs[k], jobs[k].size, ms[k])
  }

  /** The lists so far, the buffers handed out, and that nobody shares their bytes. */
  ghost predicate Passing(pool: BufferStorage, ls: seq<Lists>, jobs: seq<Job>, outs: seq<NativeByteBuffer>, seen: set<NativeByteBuffer>)
    reads *
  {
    pool.Valid() && Own(seen) && Known(pool) <= seen && Traced(pool.freeBuffers, ls, jobs, outs, seen)
  }

  ghost predicate Traced(lists: Lists, ls: seq<Lists>, jobs: seq<Job>, outs: seq<NativeByteBuffer>, seen: set<NativeByteBuffer>) {
    && |outs| <= |jobs| && Trace(ls, jobs[..|outs|], outs) && ls[|outs|] == lists
    && (forall b :: b in outs ==> b in seen)
    && (forall k, j | 0 <= k < |outs| <= j < |jobs| :: outs[k] != jobs[j].body)
  }

  lemma TraceMore(ls: seq<Lists>, jobs: seq<Job>, outs: seq<NativeByteBuffer>, job: Job, out: NativeByteBuffer)
    requires Trace(ls, jobs, outs) && Tidy(ls[|jobs|]) && Hands(ls[|jobs|], job, out, outs) && job.body !in outs + [out]
    ensures Trace(ls + [Served(ls[|jobs|], job, out)], jobs + [job], outs + [out])
  {
    var ls', jobs', outs' := ls + [Served(ls[|jobs|], job, out)], jobs + [job], outs + [out];
    forall n | 0 <= n < |jobs'| ensures Turn(ls', jobs', outs', n) {
      if n < |jobs| {
        assert Turn(ls, jobs, outs, n);
        assert outs'[..n] == outs[..n] && outs'[..n + 1] == outs[..n + 1];
      } else {
        assert outs'[..n] == outs && outs'[..n + 1] == outs';
      }
    }
  }

  lemma OwnMore(seen: set<NativeByteBuffer>, b: NativeByteBuffer)
    requires Own(seen) && (b in seen || forall a :: a in seen ==> a.bytes != b.bytes)
    ensures Own(seen + {b})
  {
  }

  /** Serving one request touches no buffer but the one it takes and the request's own. */
  method SerializeApart(pool: BufferStorage, ask: Ask, uin: Uint64, ghost seen: set<NativeByteBuffer>) returns (out: NativeByteBuffer)
    requires pool.Valid() && Own(seen) && Known(pool) <= seen && Held(pool, ask.body)
    modifies pool, pool.pooled, set b | b in pool.pooled :: b.bytes, ask.body
    ensures pool.Valid() && out !in old(pool.live) && Own(seen + {out}) && Known(pool) <= seen + {out}
    ensures old(pool.live) - {ask.body} <= pool.live && pool.pooled <= old(pool.pooled) + {out, ask.body}
    ensures out in old(pool.pooled) || (fresh(out) && fresh(out.bytes))
    ensures Hands(old(pool.freeBuffers), old(JobOf(ask)), out, [])
    ensures pool.freeBuffers == Served(old(pool.freeBuffers), old(JobOf(ask)), out)
    ensures forall b :: b in seen && b != out && b != ask.body ==> unchanged(b) && unchanged(b.bytes)
    ensures Carries(out, old(JobOf(ask)).size, old(MessageOf(ask, uin)))
  {
    out := Serialize(pool, ask, uin);
    OwnMore(seen, out);
  }

  /** The requests still to be served keep their buffers as they are. */
  method SerializeWaiting(pool: BufferStorage, asks: seq<Ask>, uin: Uint64, i: nat, ghost jobs: seq<Job>, ghost ms: seq<Message>,
                          ghost seen: set<NativeByteBuffer>)
    returns (out: NativeByteBuffer)
    requires i < |asks| && Waiting(pool, asks, uin, jobs, ms, i) && pool.Valid() && Own(seen) && Known(pool) <= seen
    modifies pool, pool.pooled, set b | b in pool.pooled :: b.bytes, asks[i].body
    ensures Waiting(pool, asks, uin, jobs, ms, i + 1) && Carries(out, jobs[i].size, ms[i])
    ensures pool.Valid() && out !in old(pool.live) && Own(seen + {out}) && Known(pool) <= seen + {out}
    ensures pool.pooled <= old(pool.pooled) + {out, asks[i].body}
    ensures out in old(pool.pooled) || (fresh(out) && fresh(out.bytes))
    ensures Hands(old(pool.freeBuffers), jobs[i], out, []) && pool.freeBuffers == Served(old(pool.freeBuffers), jobs[i], out)
    ensures forall b :: b in seen && b != out && b != asks[i].body ==> unchanged(b) && unchanged(b.bytes)
  {
    assert jobs[i] == JobOf(asks[i]) && ms[i] == MessageOf(asks[i], uin);
    out := SerializeApart(pool, asks[i], uin, seen);
    forall j | i + 1 <= j < |asks|
      ensures Held(pool, asks[j].body) && JobOf(asks[j]) == jobs[j] && MessageOf(asks[j], uin) == ms[j]
    {
      var b := asks[j].body;
      assert old(Held(pool, b)) && old(JobOf(asks[j])) == jobs[j] && old(MessageOf(asks[j], uin)) == ms[j];
      if b != null {
        assert b in seen && b != out && b != asks[i].body && unchanged(b) && unchanged(b.bytes);
      }
    }
  }

  /** So do the messages whose buffers nobody takes again. */
  method SerializeIntact(pool: BufferStorage, asks: seq<Ask>, uin: Uint64, i: nat, ghost outs: seq<NativeByteBuffer>,
                         ghost jobs: seq<Job>, ghost ms: seq<Message>, ghost seen: set<NativeByteBuffer>)
    returns (out: NativeByteBuffer)
    requires i < |asks| && Waiting(pool, asks, uin, jobs, ms, i) && pool.Valid() && Own(seen) && Known(pool) <= seen
    requires |outs| == i && Intact(outs, jobs, ms) && forall b :: b in outs ==> b in seen && b != asks[i].body
    modifies pool, pool.pooled, set b | b in pool.pooled :: b.bytes, asks[i].body
    ensures Waiting(pool, asks, uin, jobs, ms, i + 1) && Intact(outs + [out], jobs, ms)
    ensures pool.Valid() && out !in old(pool.live) && Own(seen + {out}) && Known(pool) <= seen + {out}
    ensures pool.pooled <= old(pool.pooled) + {out, asks[i].body}
    ensures out in old(pool.pooled) || (fresh(out) && fresh(out.bytes))
    ensures Hands(old(pool.freeBuffers), jobs[i], out, []) && pool.freeBuffers == Served(old(pool.freeBuffers), jobs[i], out)
  {
    out := SerializeWaiting(pool, asks, uin, i, jobs, ms, seen);
    forall k | 0 <= k < |outs| && outs[k] !in outs[k + 1..] && outs[k] != out ensures Carries(outs[k], jobs[k].size, ms[k]) {
      var b := outs[k];
      assert b in outs;
      assert old(Carries(b, jobs[k].size, ms[k])) && unchanged(b) && unchanged(b.bytes);
    }
    IntactNext(outs, jobs, ms, out);
  }

  lemma IntactNext(outs: seq<NativeByteBuffer>, jobs: seq<Job>, ms: seq<Message>, out: NativeByteBuffer)
    requires |outs| < |jobs| == |ms| && Carries(out, jobs[|outs|].size, ms[|outs|])
    requires forall k | 0 <= k < |outs| && outs[k] !in outs[k + 1..] && outs[k] != out :: Carries(outs[k], jobs[k].size, ms[k])
    ensures Intact(outs + [out], jobs, ms)
  {
    var all := outs + [out];
    forall k | 0 <= k < |all| && all[k] !in all[k + 1..] ensures Carries(all[k], jobs[k].size, ms[k]) {
      if k < |outs| { assert all[k + 1..] == outs[k + 1..] + [out]; }
    }
  }

  lemma HandsAmong(lists: Lists, pooled: set<NativeByteBuffer>, job: Job, out: NativeByteBuffer, outs: seq<NativeByteBuffer>)
    requires Shelved(lists, pooled) && Hands(lists, job, out, []) && (out !in pooled ==> out !in outs)
    ensures Tidy(lists) && Hands(lists, job, out, outs)
  {
    ShelvedIsTidy(lists, pooled);
  }

  lemma TracedNext(lists: Lists, ls: seq<Lists>, jobs: seq<Job>, outs: seq<NativeByteBuffer>, seen: set<NativeByteBuffer>,
                   out: NativeByteBuffer)
    requires Traced(lists, ls, jobs, outs, seen) && |outs| < |jobs|
    requires Tidy(lists) && Hands(lists, jobs[|outs|], out, outs) && forall j | |outs| <= j < |jobs| :: out != jobs[j].body
    ensures var after := Served(lists, jobs[|outs|], out);
            Traced(after, ls + [after], jobs, outs + [out], seen + {out})
  {
    var i := |outs|;
    TraceMore(ls, jobs[..i], outs, jobs[i], out);
    assert jobs[..i + 1] == jobs[..i] + [jobs[i]];
  }

  /** One more request is served; what the others hold, or held and nobody took again, stays as it is. */
  method SerializeNext(pool: BufferStorage, asks: seq<Ask>, uin: Uint64, i: nat, outs: seq<NativeByteBuffer>,
                       ghost jobs: seq<Job>, ghost ms: seq<Message>, ghost ls: seq<Lists>, ghost seen: set<NativeByteBuffer>)
    returns (out: NativeByteBuffer, ghost next: seq<Lists>)
    requires i < |asks| && |outs| == i && Waiting(pool, asks, uin, jobs, ms, i)
    requires Passing(pool, ls, jobs, outs, seen) && Intact(outs, jobs, ms)
    modifies pool, pool.pooled, set b | b in pool.pooled :: b.bytes, asks[i].body
    ensures Waiting(pool, asks, uin, jobs, ms, i + 1)
    ensures Passing(pool, next, jobs, outs + [out], seen + {out}) && Intact(outs + [out], jobs, ms) && next[0] == ls[0]
    ensures out in old(pool.pooled) || (fresh(out) && fresh(out.bytes))
    ensures pool.pooled <= old(pool.pooled) + {out, asks[i].body}
  {
    ghost var lists, pooled, job := pool.freeBuffers, pool.pooled, jobs[i];
    assert forall j | i <= j < |asks| :: JobOf(asks[j]) == jobs[j];
    out := SerializeIntact(pool, asks, uin, i, outs, jobs, ms, seen);
    HandsAmong(lists, pooled, job, out, outs);
    next := ls + [pool.freeBuffers];
    TracedNext(lists, ls, jobs, outs, seen, out);
  }

  /** The loop over the requests. */
  method SerializeLoop(pool: BufferStorage, asks: seq<Ask>, uin: Uint64, ghost jobs: seq<Job>, ghost ms: seq<Message>,
                       ghost region: set<NativeByteBuffer>)
    returns (outs: seq<NativeByteBuffer>, ghost ls: seq<Lists>)
    requires pool.Valid() && Own(Known(pool)) && Waiting(pool, asks, uin, jobs, ms, 0)
    requires pool.pooled <= region && forall j | 0 <= j < |asks| && asks[j].body != null :: asks[j].body in region
    modifies pool, region, set b | b in region :: b.bytes
    ensures pool.Valid() && |outs| == |jobs| && Intact(outs, jobs, ms)
    ensures Trace(ls, jobs, outs) && ls[0] == old(pool.freeBuffers) && ls[|jobs|] == pool.freeBuffers
  {
    outs, ls := [], [pool.freeBuffers];
    ghost var seen := Known(pool);
    var i := 0;
    while i < |asks|
      invariant i == |outs| <= |asks| && Waiting(pool, asks, uin, jobs, ms, i)
      invariant Passing(pool, ls, jobs, outs, seen) && Intact(outs, jobs, ms) && ls[0] == old(pool.freeBuffers)
      invariant forall b :: b in pool.pooled ==> b in region || (fresh(b) && fresh(b.bytes))
    {
      var out;
      out, ls := SerializeNext(pool, asks, uin, i, outs, jobs, ms, ls, seen);
      outs, seen := outs + [out], seen + {out};
      i := i + 1;
    }
    assert jobs[..|outs|] == jobs;
  }

  /**
   * The messages of one pass. A message whose buffer is handed on has the buffer of a later
   * message; any other holds its packet, in a buffer of its own unless that was deleted.
   */
  method SerializeAll(pool: BufferStorage, asks: seq<Ask>, uin: Uint64, ghost jobs: seq<Job>, ghost ms: seq<Message>,
                      ghost region: set<NativeByteBuffer>)
    returns (outs: seq<NativeByteBuffer>)
    requires pool.Valid() && Own(Known(pool)) && Waiting(pool, asks, uin, jobs, ms, 0)
    requires pool.pooled <= region && forall j | 0 <= j < |asks| && asks[j].body != null :: asks[j].body in region
    modifies pool, region, set b | b in region :: b.bytes
    ensures pool.Valid() && |outs| == |jobs|
    ensures forall k | 0 <= k < |jobs| ::
      if HandedOn(Lengths(old(pool.freeBuffers)), jobs, k) then outs[k] in outs[k + 1..]
      else outs[k] !in outs[k + 1..] && Carries(outs[k], jobs[k].size, ms[k])
    ensures forall k | 0 <= k < |jobs| && Deleted(Lengths(old(pool.freeBuffers)), jobs, k) :: outs[k] !in pool.pooled
  {
    ghost var ls;
    outs, ls := SerializeLoop(pool, asks, uin, jobs, ms, region);
    forall k | 0 <= k < |jobs| ensures outs[k] in outs[k + 1..] <==> HandedOn(Lengths(ls[0]), jobs, k) {
      HandedOutAgain(ls, jobs, outs, k);
    }
    forall k | 0 <= k < |jobs| && Deleted(Lengths(ls[0]), jobs, k) ensures outs[k] !in pool.pooled {
      DeletedIsGone(ls, jobs, outs, k);
    }
  }
}
