/** `BufferStorage`: free lists of buffers, one list per size class. */
module BufferStorages {
  import opened Bytes
  import opened ByteBuffers

  const CAPACITIES: seq<nat> :=
    [8, 128, 1024 + 200, 4 * 1024 + 200, 16 * 1024 + 200, 32 * 1024 + 200, 128 * 1024 + 200]

  const CLASSES: nat := 7

  /** The first class that `size` fits into, or `CLASSES` when there is none. */
  function ClassOf(size: nat): (c: nat)
    ensures c <= CLASSES
    ensures c < CLASSES ==> size <= CAPACITIES[c]
    ensures forall d :: 0 <= d < CLASSES && size <= CAPACITIES[d] ==> c <= d
  {
    if size <= 8 then 0
    else if size <= 128 then 1
    else if size <= 1024 + 200 then 2
    else if size <= 4 * 1024 + 200 then 3
    else if size <= 16 * 1024 + 200 then 4
    else if size <= 32 * 1024 + 200 then 5
    else if size <= 128 * 1024 + 200 then 6
    else CLASSES
  }

  /** Capacity of the buffer that `getBuffer(size)` hands out. */
  function ClassCapacity(size: nat): (n: nat)
    ensures size <= n
  {
    var c := ClassOf(size);
    if c < CLASSES then CAPACITIES[c] else size
  }

  function MaxFree(c: nat): nat {
    if c < 2 then 80 else 10
  }

  /** A buffer nobody else holds, of the capacity the pool would hand out for `size`. */
  method Acquire(size: nat) returns (b: NativeByteBuffer)
    ensures fresh(b) && fresh(b.bytes) && b.Valid()
    ensures b.position == 0 && b.limit == size && b.bytes.Length == ClassCapacity(size)
  {
    b := new NativeByteBuffer(ClassCapacity(size));
    b.SetLimit(size);
    b.Rewind();
  }

  ghost predicate Listed(lists: seq<seq<NativeByteBuffer>>, b: NativeByteBuffer) {
    exists c :: 0 <= c < |lists| && b in lists[c]
  }

  predicate Slot(lists: seq<seq<NativeByteBuffer>>, c: int, k: int) {
    0 <= c < |lists| && 0 <= k < |lists[c]|
  }

  /** The pooled buffers are those in the lists; each has its class's capacity and sits in one slot only. */
  ghost predicate Shelved(lists: seq<seq<NativeByteBuffer>>, pooled: set<NativeByteBuffer>) {
    && |lists| == CLASSES
    && (forall c :: 0 <= c < CLASSES ==> |lists[c]| <= MaxFree(c))
    && (forall b :: b in pooled ==> Listed(lists, b))
    && (forall c, k | Slot(lists, c, k) :: lists[c][k] in pooled && lists[c][k].bytes.Length == CAPACITIES[c])
    && (forall c, k, d, j | Slot(lists, c, k) && Slot(lists, d, j) && lists[c][k] == lists[d][j] :: c == d && k == j)
  }

  lemma Shelve(lists: seq<seq<NativeByteBuffer>>, pooled: set<NativeByteBuffer>, c: nat, b: NativeByteBuffer)
    requires Shelved(lists, pooled) && c < CLASSES && |lists[c]| < MaxFree(c)
    requires b !in pooled && b.bytes.Length == CAPACITIES[c]
    ensures Shelved(lists[c := lists[c] + [b]], pooled + {b})
  {
    var after := lists[c := lists[c] + [b]];
    assert b in after[c];
    forall x | x in pooled ensures Listed(after, x) {
      var d :| 0 <= d < |lists| && x in lists[d];
      assert x in after[d];
    }
    assert forall d, k | Slot(after, d, k) && !(d == c && k == |lists[c]|) :: Slot(lists, d, k) && after[d][k] == lists[d][k];
  }

  lemma Unshelve(lists: seq<seq<NativeByteBuffer>>, pooled: set<NativeByteBuffer>, c: nat)
    requires Shelved(lists, pooled) && c < CLASSES && lists[c] != []
    ensures lists[c][0] in pooled && lists[c][0].bytes.Length == CAPACITIES[c]
    ensures Shelved(lists[c := lists[c][1..]], pooled - {lists[c][0]})
  {
    var b, after := lists[c][0], lists[c := lists[c][1..]];
    assert Slot(lists, c, 0);
    forall x | x in pooled && x != b ensures Listed(after, x) {
      var d :| 0 <= d < |lists| && x in lists[d];
      if d == c { assert lists[c] == [b] + lists[c][1..]; }
      assert x in after[d];
    }
    forall d, k | Slot(after, d, k)
      ensures Slot(lists, d, if d == c then k + 1 else k) && after[d][k] == lists[d][if d == c then k + 1 else k] != b
    {
    }
  }

  class BufferStorage {
    /** The seven free lists, smallest class first. */
    var freeBuffers: seq<seq<NativeByteBuffer>>
    ghost var pooled: set<NativeByteBuffer>
    /** The buffers handed out and not yet returned. */
    ghost var live: set<NativeByteBuffer>

    /** Nobody holds a pooled buffer. */
    ghost predicate Valid()
      reads this, pooled
    {
      && Shelved(freeBuffers, pooled) && pooled !! live
      && (forall b :: b in pooled ==> b.Valid())
      && (forall b :: b in live ==> b.bytes.Length == ClassCapacity(b.bytes.Length))
    }

    /** Adds `b` to the list of its class. */
    method Push(c: nat, b: NativeByteBuffer)
      requires Valid() && c < CLASSES && |freeBuffers[c]| < MaxFree(c)
      requires b !in pooled && b !in live && b.Valid() && b.bytes.Length == CAPACITIES[c]
      modifies this`freeBuffers, this`pooled
      ensures Valid() && pooled == old(pooled) + {b}
      ensures freeBuffers == old(freeBuffers)[c := old(freeBuffers)[c] + [b]]
    {
      Shelve(freeBuffers, pooled, c, b);
      freeBuffers := freeBuffers[c := freeBuffers[c] + [b]];
      pooled := pooled + {b};
    }

    /** Takes the oldest buffer of a class. */
    method Pop(c: nat) returns (b: NativeByteBuffer)
      requires Valid() && c < CLASSES && |freeBuffers[c]| > 0
      modifies this`freeBuffers, this`pooled
      ensures Valid() && b == old(freeBuffers)[c][0] && b in old(pooled) && pooled == old(pooled) - {b}
      ensures freeBuffers == old(freeBuffers)[c := old(freeBuffers)[c][1..]]
      ensures b.Valid() && b.bytes.Length == CAPACITIES[c]
    {
      Unshelve(freeBuffers, pooled, c);
      b := freeBuffers[c][0];
      freeBuffers := freeBuffers[c := freeBuffers[c][1..]];
      pooled := pooled - {b};
    }

    /** Adds a new buffer to a list. */
    method Stock(c: nat)
      requires Valid() && c < CLASSES && |freeBuffers[c]| < MaxFree(c) && live == {}
      modifies this`freeBuffers, this`pooled
      ensures Valid() && fresh(pooled - old(pooled))
      ensures |freeBuffers| == CLASSES && |freeBuffers[c]| == |old(freeBuffers)[c]| + 1
      ensures forall d | 0 <= d < CLASSES && d != c :: freeBuffers[d] == old(freeBuffers)[d]
    {
      var b := new NativeByteBuffer(CAPACITIES[c]);
      Push(c, b);
    }

    /** Five new buffers for an empty list. */
    method StockFive(c: nat)
      requires Valid() && c < CLASSES && freeBuffers[c] == [] && live == {}
      modifies this`freeBuffers, this`pooled
      ensures Valid() && fresh(pooled - old(pooled)) && |freeBuffers[c]| == 5
      ensures forall d | 0 <= d < CLASSES && d != c :: freeBuffers[d] == old(freeBuffers)[d]
    {
      for i := 0 to 5
        invariant Valid() && fresh(pooled - old(pooled)) && |freeBuffers[c]| == i
        invariant forall d | 0 <= d < CLASSES && d != c :: freeBuffers[d] == old(freeBuffers)[d]
      {
        Stock(c);
      }
    }

    constructor ()
      ensures Valid() && live == {} && fresh(pooled)
      ensures forall c | 0 <= c < CLASSES :: |freeBuffers[c]| == if c < 2 then 5 else 0
    {
      freeBuffers := seq(CLASSES, _ => []);
      pooled, live := {}, {};
      new;
      StockFive(0);
      StockFive(1);
    }

    /** The oldest buffer of the class of `size` has left its list, if there was one. */
    static ghost predicate TakenFor(size: nat, b: NativeByteBuffer, before: seq<seq<NativeByteBuffer>>,
                                    after: seq<seq<NativeByteBuffer>>)
      requires |before| == CLASSES
    {
      var c := ClassOf(size);
      if c < CLASSES && before[c] != [] then b == before[c][0] && after == before[c := before[c][1..]]
      else after == before
    }

    /** A buffer of the class of `size`: from its list, or new. */
    method Obtain(size: nat) returns (buffer: NativeByteBuffer)
      requires Valid()
      modifies this`freeBuffers, this`pooled
      ensures Valid() && buffer !in live && buffer !in pooled
      ensures buffer in old(pooled) || (fresh(buffer) && fresh(buffer.bytes))
      ensures pooled == old(pooled) - {buffer}
      ensures TakenFor(size, buffer, old(freeBuffers), freeBuffers)
      ensures buffer.Valid() && size <= buffer.bytes.Length == ClassCapacity(size)
    {
      var c := ClassOf(size);
      if c == CLASSES {
        buffer := new NativeByteBuffer(size);
      } else if |freeBuffers[c]| > 0 {
        buffer := Pop(c);
      } else {
        buffer := new NativeByteBuffer(CAPACITIES[c]);
      }
    }

    /** Hands out a buffer that was neither live nor stays pooled, empty, with room for `size` bytes. */
    method GetBuffer(size: nat) returns (buffer: NativeByteBuffer)
      requires Valid()
      modifies this, pooled
      ensures Valid() && live == old(live) + {buffer} && buffer !in old(live) && buffer !in pooled
      ensures buffer in old(pooled) || (fresh(buffer) && fresh(buffer.bytes))
      ensures pooled == old(pooled) - {buffer}
      ensures TakenFor(size, buffer, old(freeBuffers), freeBuffers)
      ensures forall b :: b in pooled ==> unchanged(b)
      ensures buffer.Valid() && buffer.position == 0 && buffer.limit == size <= buffer.bytes.Length
      ensures buffer.bytes.Length == ClassCapacity(size)
    {
      buffer := Obtain(size);
      live := live + {buffer};
      buffer.SetLimit(size);
      buffer.Rewind();
    }

    /** Takes a live buffer back: into its list while that has room, else it is deleted. */
    method ReuseFreeBuffer(buffer: NativeByteBuffer?)
      requires Valid() && (buffer != null ==> buffer in live && buffer.Valid())
      modifies this
      ensures Valid() && live == old(live) - {buffer}
      ensures var c := if buffer == null then CLASSES else ClassOf(buffer.bytes.Length);
              if c < CLASSES && |old(freeBuffers)[c]| < (if buffer.bytes.Length <= 128 then 80 else 10) then
                pooled == old(pooled) + {buffer} && freeBuffers == old(freeBuffers)[c := old(freeBuffers)[c] + [buffer]]
              else pooled == old(pooled) && freeBuffers == old(freeBuffers)
    {
      if buffer == null {
        return;
      }
      live := live - {buffer};
      var c := ClassOf(buffer.bytes.Length);
      if c < CLASSES && |freeBuffers[c]| < MaxFree(c) {
        Push(c, buffer);
      }
    }
  }
}
