/** The overwriting keyboard ring, twice: as wrapped indices over slots, and as a bounded sequence.

`Cells` holds what the control extension holds: a slot array and two indices. `Put` and `Take` are one iteration of the
queueing and the draining loop. The lemmas say what an iteration does to the pending sequence the indices denote. */
module KeyboardRing {
  import opened Records

  // ---- The bounded sequence ----

  function LastOf<T>(s: seq<T>, n: nat): (r: seq<T>)
    ensures |r| == if |s| <= n then |s| else n
    ensures |s| <= n ==> r == s
    ensures r == s[|s| - |r|..]
  {
    if |s| <= n then s else s[|s| - n..]
  }

  function Enqueue<T>(capacity: nat, pending: seq<T>, batch: seq<T>): seq<T> { LastOf(pending + batch, capacity) }

  /** How many records one drain into `bytes` bytes of buffer removes. */
  function DrainCount(pending: nat, bytes: nat): nat {
    if pending <= bytes / RECORD_BYTES then pending else bytes / RECORD_BYTES
  }

  /** Queueing two batches is queueing their concatenation, however much of it is overwritten. */
  lemma BatchesMerge<T>(capacity: nat, pending: seq<T>, first: seq<T>, second: seq<T>)
    ensures Enqueue(capacity, Enqueue(capacity, pending, first), second) == Enqueue(capacity, pending, first + second)
  {
    assert pending + (first + second) == pending + first + second;
    LastOfLast(pending + first, second, capacity);
  }

  lemma LastOfLast<T>(a: seq<T>, b: seq<T>, n: nat)
    ensures LastOf(LastOf(a, n) + b, n) == LastOf(a + b, n)
  {
    hide LastOf;
    var kept := LastOf(a, n);
    assert kept + b == (a + b)[|a| - |kept|..];
  }

  // ---- The slots and the two indices ----

  datatype Cells = Cells(slots: seq<Record>, read: nat, write: nat) {
    ghost predicate Valid() { read < |slots| && write < |slots| }

    /** The pending records, oldest first. */
    ghost function Contents(): (s: seq<Record>)
      requires Valid()
      ensures |s| < |slots|
      ensures s == [] <==> read == write
    {
      if read <= write then slots[read..write] else slots[read..] + slots[..write]
    }

    /** One iteration of the queueing loop. */
    function Put(x: Record): Cells
      requires Valid()
    {
      var next := (write + 1) % |slots|;
      Cells(slots[write := x], if next == read then (read + 1) % |slots| else read, next)
    }

    /** One iteration of the draining loop. */
    function Take(): Cells
      requires Valid()
    {
      this.(read := (read + 1) % |slots|)
    }

    /** What opening the control device does. */
    function Reset(): Cells { this.(read := write) }
  }

  function Next(i: nat, n: nat): nat
    requires i < n
    ensures Next(i, n) == (i + 1) % n
  {
    if i + 1 == n then 0 else i + 1
  }

  /** One queueing iteration refines queueing one record to a sequence bounded by one less than the slot count. */
  lemma PutRefines(c: Cells, x: Record)
    requires c.Valid()
    ensures c.Put(x).Valid() && |c.Put(x).slots| == |c.slots|
    ensures c.Put(x).Contents() == Enqueue(|c.slots| - 1, c.Contents(), [x])
  {
    var n := |c.slots|;
    var d := c.Put(x);
    assert d.write == Next(c.write, n);
    if d.write == c.read {
      assert d.read == Next(c.read, n);
      assert |c.Contents()| == n - 1;
      assert d.Contents() == (c.Contents() + [x])[1..];
    } else {
      assert d.Contents() == c.Contents() + [x];
    }
  }

  /** One draining iteration removes the oldest record, which is the one in the read slot. */
  lemma TakeRefines(c: Cells)
    requires c.Valid() && c.read != c.write
    ensures c.Take().Valid()
    ensures c.Contents() == [c.slots[c.read]] + c.Take().Contents()
  {
    assert c.Take().read == Next(c.read, |c.slots|);
  }

  /** Opening discards exactly the pending records. */
  lemma ResetRefines(c: Cells)
    requires c.Valid()
    ensures c.Reset().Valid() && c.Reset().Contents() == []
  {
  }

  /** One more iteration of a queueing loop that has already queued `front`. */
  lemma EnqueueOneMore<T>(capacity: nat, pending: seq<T>, front: seq<T>, last: T, batch: seq<T>)
    requires batch == front + [last]
    ensures Enqueue(capacity, Enqueue(capacity, pending, front), [last]) == Enqueue(capacity, pending, batch)
  {
    BatchesMerge(capacity, pending, front, [last]);
  }

  /** A queueing loop that has queued `done` records of its batch queues one more. */
  lemma QueueContinues(c: Cells, before: seq<Record>, batch: seq<Record>, done: nat)
    requires c.Valid() && done < |batch|
    requires c.Contents() == Enqueue(|c.slots| - 1, before, batch[..done])
    ensures var d := c.Put(batch[done]);
            && d.Valid() && |d.slots| == |c.slots|
            && d.Contents() == Enqueue(|c.slots| - 1, before, batch[..done + 1])
  {
    hide Cells.Contents, Cells.Put, Enqueue;
    PutRefines(c, batch[done]);
    assert batch[..done + 1] == batch[..done] + [batch[done]];
    EnqueueOneMore(|c.slots| - 1, before, batch[..done], batch[done], batch[..done + 1]);
  }

  /** A draining loop that has drained `done` records drains one more. */
  lemma DrainContinues(c: Cells, before: seq<Record>, done: nat)
    requires c.Valid() && c.read != c.write && done <= |before| && c.Contents() == before[done..]
    ensures c.Take().Valid() && done < |before| && c.slots[c.read] == before[done]
    ensures c.Take().Contents() == before[done + 1..]
  {
    TakeRefines(c);
    assert before[done..][0] == c.slots[c.read];
    assert before[done..][1..] == c.Take().Contents();
  }

  // ---- The whole loops ----

  /** The ring after `done` iterations of the queueing loop. */
  ghost function QueueLoop(c: Cells, batch: seq<Record>, done: nat): (d: Cells)
    requires c.Valid() && done <= |batch|
    ensures d.Valid() && |d.slots| == |c.slots|
  {
    if done == 0 then c
    else
      var before := QueueLoop(c, batch, done - 1);
      PutRefines(before, batch[done - 1]);
      before.Put(batch[done - 1])
  }

  lemma {:induction false} QueueLoopRefines(c: Cells, batch: seq<Record>, done: nat)
    requires c.Valid() && done <= |batch|
    ensures QueueLoop(c, batch, done).Contents() == Enqueue(|c.slots| - 1, c.Contents(), batch[..done])
  {
    hide Cells.Contents, Cells.Put, LastOf;
    if done == 0 {
      NothingEnqueued(|c.slots| - 1, c.Contents(), batch);
    } else {
      QueueLoopRefines(c, batch, done - 1);
      QueueContinues(QueueLoop(c, batch, done - 1), c.Contents(), batch, done - 1);
    }
  }

  lemma NothingEnqueued(capacity: nat, pending: seq<Record>, records: seq<Record>)
    requires |pending| <= capacity
    ensures Enqueue(capacity, pending, records[..0]) == pending
  {
    assert pending + records[..0] == pending;
  }

  /** The draining loop with room for `bytes` more bytes: the ring it leaves and the records it copies out. */
  ghost function DrainLoop(c: Cells, bytes: nat): (r: (Cells, seq<Record>))
    requires c.Valid()
    ensures r.0.Valid() && |r.0.slots| == |c.slots|
    decreases bytes
  {
    if c.read == c.write || bytes < RECORD_BYTES then (c, [])
    else
      TakeRefines(c);
      var (d, out) := DrainLoop(c.Take(), bytes - RECORD_BYTES);
      (d, [c.slots[c.read]] + out)
  }

  lemma {:induction false} DrainLoopRefines(c: Cells, bytes: nat)
    requires c.Valid()
    ensures var (d, out) := DrainLoop(c, bytes);
            var count := DrainCount(|c.Contents()|, bytes);
            d.Contents() == c.Contents()[count..] && out == c.Contents()[..count]
    decreases bytes
  {
    if c.read != c.write && bytes >= RECORD_BYTES {
      hide Cells.Contents, Cells.Take, DrainCount;
      TakeRefines(c);
      var rest := c.Take().Contents();
      DrainLoopRefines(c.Take(), bytes - RECORD_BYTES);
      OneMoreFits(|c.Contents()|, bytes);
      FirstThenMore(c.slots[c.read], rest, DrainCount(|rest|, bytes - RECORD_BYTES));
    } else {
      NothingFits(|c.Contents()|, bytes);
    }
  }

  lemma FirstThenMore(first: Record, rest: seq<Record>, count: nat)
    requires count <= |rest|
    ensures var s := [first] + rest; s[..count + 1] == [first] + rest[..count] && s[count + 1..] == rest[count..]
  {
  }

  lemma NothingFits(pending: nat, bytes: nat)
    requires pending == 0 || bytes < RECORD_BYTES
    ensures DrainCount(pending, bytes) == 0
  {
  }

  lemma OneMoreFits(pending: nat, bytes: nat)
    requires pending > 0 && bytes >= RECORD_BYTES
    ensures DrainCount(pending, bytes) == DrainCount(pending - 1, bytes - RECORD_BYTES) + 1
  {
  }
}
