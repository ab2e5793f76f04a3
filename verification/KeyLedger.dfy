/** What becomes of every arrival, over every run of queueing, draining and opening.

`Ring` runs the bounded sequence and keeps what drains returned. `Ledger` is a second machine that only accounts: the
history of arrivals and, for each arrival that has left the ring, its fate. The lemmas show the two agree. */
module KeyLedger {
  import opened Records
  import opened KeyboardRing

  datatype Event = Queue(batch: seq<Record>) | Drain(bytes: nat) | Open

  // ---- The bounded ring with its drained output ----

  datatype Ring = Ring(pending: seq<Record>, delivered: seq<Record>)

  /** What the event hands to its caller: a drain's records, oldest first. */
  function Output(s: Ring, e: Event): seq<Record> {
    if e.Drain? then s.pending[..DrainCount(|s.pending|, e.bytes)] else []
  }

  function Step(capacity: nat, s: Ring, e: Event): Ring {
    match e
    case Queue(batch) => s.(pending := Enqueue(capacity, s.pending, batch))
    case Drain(bytes) => Ring(s.pending[DrainCount(|s.pending|, bytes)..], s.delivered + Output(s, e))
    case Open => s.(pending := [])
  }

  function Run(capacity: nat, s: Ring, events: seq<Event>): Ring
    decreases |events|
  {
    if events == [] then s else Run(capacity, Step(capacity, s, events[0]), events[1..])
  }

  lemma {:induction false} RunConcat(capacity: nat, s: Ring, a: seq<Event>, b: seq<Event>)
    ensures Run(capacity, s, a + b) == Run(capacity, Run(capacity, s, a), b)
    decreases |a|
  {
    if a == [] {
      assert a + b == b;
    } else {
      assert (a + b)[1..] == a[1..] + b;
      RunConcat(capacity, Step(capacity, s, a[0]), a[1..], b);
    }
  }

  // ---- The account ----

  datatype Fate = Drained | Overwritten | Discarded

  /** `settled[i]` is the fate of arrival i; arrivals from |settled| on are pending. */
  datatype Ledger = Ledger(history: seq<Record>, settled: seq<Fate>) {
    ghost predicate Valid() { |settled| <= |history| }

    function Pending(): seq<Record>
      requires Valid()
    {
      history[|settled|..]
    }
  }

  const EMPTY_LEDGER := Ledger([], [])

  function Repeat(f: Fate, n: nat): (r: seq<Fate>)
    ensures |r| == n && forall i | 0 <= i < n :: r[i] == f
  {
    seq(n, i => f)
  }

  function Account(capacity: nat, l: Ledger, e: Event): (r: Ledger)
    requires l.Valid()
    ensures r.Valid() && l.history <= r.history && l.settled <= r.settled
  {
    match e
    case Queue(batch) =>
      var now := |l.Pending()| + |batch|;
      Ledger(l.history + batch, l.settled + Repeat(Overwritten, if now <= capacity then 0 else now - capacity))
    case Drain(bytes) => l.(settled := l.settled + Repeat(Drained, DrainCount(|l.Pending()|, bytes)))
    case Open => l.(settled := l.settled + Repeat(Discarded, |l.Pending()|))
  }

  /** Fates are final: an account only ever appends arrivals and appends fates. */
  function AccountAll(capacity: nat, l: Ledger, events: seq<Event>): (r: Ledger)
    requires l.Valid()
    ensures r.Valid() && l.history <= r.history && l.settled <= r.settled
    decreases |events|
  {
    if events == [] then l else AccountAll(capacity, Account(capacity, l, events[0]), events[1..])
  }

  /** The arrivals with a given fate, in arrival order. */
  function Select(history: seq<Record>, fates: seq<Fate>, f: Fate): seq<Record>
    requires |fates| <= |history|
  {
    if fates == [] then []
    else
      var n := |fates| - 1;
      Select(history, fates[..n], f) + (if fates[n] == f then [history[n]] else [])
  }

  function Count(fates: seq<Fate>, f: Fate): nat {
    if fates == [] then 0
    else Count(fates[..|fates| - 1], f) + (if fates[|fates| - 1] == f then 1 else 0)
  }

  function Arrivals(events: seq<Event>): seq<Record> {
    if events == [] then [] else (if events[0].Queue? then events[0].batch else []) + Arrivals(events[1..])
  }

  /** Appending n equal fates to a selection appends the next n arrivals, or nothing. */
  lemma {:induction false} SelectRepeat(history: seq<Record>, fates: seq<Fate>, g: Fate, n: nat, f: Fate)
    requires |fates| + n <= |history|
    ensures Select(history, fates + Repeat(g, n), f) ==
            Select(history, fates, f) + (if f == g then history[|fates|..|fates| + n] else [])
    decreases n
  {
    if n == 0 {
      assert fates + Repeat(g, 0) == fates;
    } else {
      SelectRepeat(history, fates, g, n - 1, f);
      assert (fates + Repeat(g, n))[..|fates| + n - 1] == fates + Repeat(g, n - 1);
    }
  }

  /** A selection depends only on the arrivals that have fates. */
  lemma {:induction false} SelectPrefix(history: seq<Record>, more: seq<Record>, fates: seq<Fate>, f: Fate)
    requires |fates| <= |history|
    ensures Select(history + more, fates, f) == Select(history, fates, f)
    decreases |fates|
  {
    if fates != [] {
      SelectPrefix(history, more, fates[..|fates| - 1], f);
    }
  }

  lemma {:induction false} SelectLength(history: seq<Record>, fates: seq<Fate>, f: Fate)
    requires |fates| <= |history|
    ensures |Select(history, fates, f)| == Count(fates, f)
    decreases |fates|
  {
    if fates != [] {
      SelectLength(history, fates[..|fates| - 1], f);
    }
  }

  lemma {:induction false} CountsAddUp(fates: seq<Fate>)
    ensures Count(fates, Drained) + Count(fates, Overwritten) + Count(fates, Discarded) == |fates|
    decreases |fates|
  {
    if fates != [] {
      CountsAddUp(fates[..|fates| - 1]);
    }
  }

  /** The ring and the account describe the same run. */
  ghost predicate Agree(s: Ring, l: Ledger) {
    l.Valid() && s.pending == l.Pending() && s.delivered == Select(l.history, l.settled, Drained)
  }

  lemma AgreeQueue(capacity: nat, s: Ring, l: Ledger, batch: seq<Record>)
    requires Agree(s, l)
    ensures Agree(Step(capacity, s, Queue(batch)), Account(capacity, l, Queue(batch)))
  {
    hide Select;
    var now := |s.pending| + |batch|;
    var lost := if now <= capacity then 0 else now - capacity;
    SelectRepeat(l.history + batch, l.settled, Overwritten, lost, Drained);
    SelectPrefix(l.history, batch, l.settled, Drained);
    assert (l.history + batch)[|l.settled|..] == s.pending + batch;
    assert (l.history + batch)[|l.settled| + lost..] == (s.pending + batch)[lost..];
  }

  lemma AgreeDrain(capacity: nat, s: Ring, l: Ledger, bytes: nat)
    requires Agree(s, l)
    ensures Agree(Step(capacity, s, Drain(bytes)), Account(capacity, l, Drain(bytes)))
    ensures var head := |l.settled|;
            Output(s, Drain(bytes)) == l.history[head..head + DrainCount(|s.pending|, bytes)]
  {
    var head, count := |l.settled|, DrainCount(|s.pending|, bytes);
    SelectRepeat(l.history, l.settled, Drained, count, Drained);
    assert l.history[head + count..] == s.pending[count..];
    assert l.history[head..head + count] == s.pending[..count];
  }

  lemma AgreeOpen(capacity: nat, s: Ring, l: Ledger)
    requires Agree(s, l)
    ensures Agree(Step(capacity, s, Open), Account(capacity, l, Open))
  {
    SelectRepeat(l.history, l.settled, Discarded, |s.pending|, Drained);
  }

  lemma AgreeStep(capacity: nat, s: Ring, l: Ledger, e: Event)
    requires Agree(s, l)
    ensures Agree(Step(capacity, s, e), Account(capacity, l, e))
  {
    match e
    case Queue(batch) => AgreeQueue(capacity, s, l, batch);
    case Drain(bytes) => AgreeDrain(capacity, s, l, bytes);
    case Open => AgreeOpen(capacity, s, l);
  }

  lemma {:induction false} AgreeAlways(capacity: nat, s: Ring, l: Ledger, events: seq<Event>)
    requires Agree(s, l)
    ensures Agree(Run(capacity, s, events), AccountAll(capacity, l, events))
    decreases |events|
  {
    if events != [] {
      AgreeStep(capacity, s, l, events[0]);
      AgreeAlways(capacity, Step(capacity, s, events[0]), Account(capacity, l, events[0]), events[1..]);
    }
  }

  lemma {:induction false} HistoryIsArrivals(capacity: nat, l: Ledger, events: seq<Event>)
    requires l.Valid()
    ensures AccountAll(capacity, l, events).history == l.history + Arrivals(events)
    decreases |events|
  {
    if events != [] {
      HistoryIsArrivals(capacity, Account(capacity, l, events[0]), events[1..]);
    }
  }

  /** The two machines from the empty ring. */
  lemma AgreeFromStart(capacity: nat, events: seq<Event>)
    ensures Agree(Run(capacity, Ring([], []), events), AccountAll(capacity, EMPTY_LEDGER, events))
    ensures AccountAll(capacity, EMPTY_LEDGER, events).history == Arrivals(events)
  {
    AgreeAlways(capacity, Ring([], []), EMPTY_LEDGER, events);
    HistoryIsArrivals(capacity, EMPTY_LEDGER, events);
  }

  /** Conservation. In every run from the empty ring the history is exactly the arrivals; what is pending is a suffix of
      it; every earlier arrival has exactly one fate; what was drained is the drained arrivals, in order, each once. */
  lemma Conservation(capacity: nat, events: seq<Event>)
    ensures var s, l := Run(capacity, Ring([], []), events), AccountAll(capacity, EMPTY_LEDGER, events);
            && l.history == Arrivals(events)
            && l.history == l.history[..|l.settled|] + s.pending
            && s.delivered == Select(l.history, l.settled, Drained)
            && |s.delivered| == Count(l.settled, Drained)
            && |s.delivered| + Count(l.settled, Overwritten) + Count(l.settled, Discarded) + |s.pending| ==
               |Arrivals(events)|
  {
    hide Run, AccountAll, Arrivals, Select, Count;
    var l := AccountAll(capacity, EMPTY_LEDGER, events);
    AgreeFromStart(capacity, events);
    SelectLength(l.history, l.settled, Drained);
    CountsAddUp(l.settled);
  }

  /** Each drain returns one contiguous block of the arrival history, starting at the oldest pending record. */
  lemma DrainsAreBlocks(capacity: nat, before: seq<Event>, bytes: nat)
    ensures var s, l := Run(capacity, Ring([], []), before), AccountAll(capacity, EMPTY_LEDGER, before);
            var block := Output(s, Drain(bytes));
            && |l.settled| + |block| <= |Arrivals(before)|
            && block == Arrivals(before)[|l.settled|..|l.settled| + |block|]
            && |block| == DrainCount(|s.pending|, bytes)
  {
    hide Run, AccountAll, Arrivals, Select;
    var l := AccountAll(capacity, EMPTY_LEDGER, before);
    AgreeFromStart(capacity, before);
    AgreeDrain(capacity, Run(capacity, Ring([], []), before), l, bytes);
  }
}
