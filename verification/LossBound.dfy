/** When is no key ever overwritten?

From an empty ring of some capacity, with polls that each take up to `batch` records, nothing is lost if and only if
every window of k consecutive inter-poll intervals delivers at most capacity + batch * (k - 1) records. */
module LossBound {
  import opened Records
  import opened KeyLedger

  function Sum(a: seq<nat>): nat
  {
    if a == [] then 0 else a[0] + Sum(a[1..])
  }

  /** The arrivals in the window of intervals i, i + 1, ..., j - 1. */
  function Window(a: seq<nat>, i: nat, j: nat): nat
    requires i <= j <= |a|
  {
    Sum(a[i..j])
  }

  ghost predicate WindowsFit(capacity: nat, batch: nat, a: seq<nat>) {
    forall i, j | 0 <= i < j <= |a| :: Window(a, i, j) <= capacity + batch * (j - i - 1)
  }

  /** The windows that start now, with q records already in the ring. */
  ghost predicate PrefixesFit(capacity: nat, batch: nat, q: nat, a: seq<nat>) {
    forall j | 0 < j <= |a| :: q + Window(a, 0, j) <= capacity + batch * (j - 1)
  }

  function AfterPoll(q: nat, batch: nat): nat { if q <= batch then 0 else q - batch }

  /** The queue recurrence: each interval's arrivals fit on top of what the previous poll left. */
  predicate Fits(capacity: nat, batch: nat, q: nat, a: seq<nat>)
    decreases |a|
  {
    a == [] || (q + a[0] <= capacity && Fits(capacity, batch, AfterPoll(q + a[0], batch), a[1..]))
  }

  lemma ShiftWindow(a: seq<nat>, i: nat, j: nat)
    requires i <= j < |a|
    ensures Window(a[1..], i, j) == Window(a, i + 1, j + 1)
  {
    assert a[1..][i..j] == a[i + 1..j + 1];
  }

  lemma UnfoldWindow(a: seq<nat>, j: nat)
    requires j < |a|
    ensures Window(a, 0, j + 1) == a[0] + Window(a[1..], 0, j)
  {
    assert a[0..j + 1][1..] == a[1..][0..j];
  }

  lemma WindowsUnfold(capacity: nat, batch: nat, a: seq<nat>)
    requires a != []
    ensures WindowsFit(capacity, batch, a) <==>
            WindowsFit(capacity, batch, a[1..]) && PrefixesFit(capacity, batch, 0, a)
  {
    forall i, j | 0 <= i < j <= |a[1..]|
      ensures Window(a[1..], i, j) == Window(a, i + 1, j + 1)
    {
      ShiftWindow(a, i, j);
    }
    if WindowsFit(capacity, batch, a) {
      forall i, j | 0 <= i < j <= |a[1..]|
        ensures Window(a[1..], i, j) <= capacity + batch * (j - i - 1)
      {
        assert Window(a, i + 1, j + 1) <= capacity + batch * ((j + 1) - (i + 1) - 1);
      }
    }
    if WindowsFit(capacity, batch, a[1..]) && PrefixesFit(capacity, batch, 0, a) {
      forall i, j | 0 <= i < j <= |a|
        ensures Window(a, i, j) <= capacity + batch * (j - i - 1)
      {
        if i > 0 {
          assert Window(a[1..], i - 1, j - 1) <= capacity + batch * ((j - 1) - (i - 1) - 1);
        }
      }
    }
  }

  /** The prefix condition after the next poll, in terms of the prefix condition now. */
  lemma PrefixesUnfold(capacity: nat, batch: nat, q: nat, a: seq<nat>)
    requires a != []
    ensures PrefixesFit(capacity, batch, q, a) && PrefixesFit(capacity, batch, 0, a[1..]) <==>
            q + a[0] <= capacity && PrefixesFit(capacity, batch, AfterPoll(q + a[0], batch), a[1..])
  {
    var rest, left := a[1..], AfterPoll(q + a[0], batch);
    forall j | 0 <= j < |a| ensures Window(a, 0, j + 1) == a[0] + Window(rest, 0, j) {
      UnfoldWindow(a, j);
    }
    assert Window(rest, 0, 0) == 0;
    forall j: nat ensures batch * (j + 1) == batch * j + batch {}
    if PrefixesFit(capacity, batch, q, a) && PrefixesFit(capacity, batch, 0, rest) {
      assert q + Window(a, 0, 1) <= capacity + batch * 0;
      forall j | 0 < j <= |rest| ensures left + Window(rest, 0, j) <= capacity + batch * (j - 1) {
        assert q + Window(a, 0, j + 1) <= capacity + batch * (j + 1 - 1);
        assert batch * j == batch * (j - 1) + batch;
      }
    }
    if q + a[0] <= capacity && PrefixesFit(capacity, batch, left, rest) {
      forall j | 0 < j <= |rest| ensures 0 + Window(rest, 0, j) <= capacity + batch * (j - 1) {
        assert left + Window(rest, 0, j) <= capacity + batch * (j - 1);
      }
      forall j | 0 < j <= |a| ensures q + Window(a, 0, j) <= capacity + batch * (j - 1) {
        if j > 1 {
          assert left + Window(rest, 0, j - 1) <= capacity + batch * (j - 1 - 1);
          assert batch * (j - 1) == batch * (j - 1 - 1) + batch;
        } else {
          assert Window(a, 0, 1) == a[0] + Window(rest, 0, 0);
        }
      }
    }
  }

  /** The recurrence never exceeds the capacity exactly when the windows fit. */
  lemma {:induction false} FitsIffWindows(capacity: nat, batch: nat, q: nat, a: seq<nat>)
    ensures Fits(capacity, batch, q, a) <==> WindowsFit(capacity, batch, a) && PrefixesFit(capacity, batch, q, a)
    decreases |a|
  {
    if a != [] {
      FitsIffWindows(capacity, batch, AfterPoll(q + a[0], batch), a[1..]);
      WindowsUnfold(capacity, batch, a);
      PrefixesUnfold(capacity, batch, q, a);
      if PrefixesFit(capacity, batch, q, a) {
        PrefixesMonotone(capacity, batch, q, a);
      }
      if WindowsFit(capacity, batch, a[1..]) {
        WindowsIncludePrefixes(capacity, batch, a[1..]);
      }
    }
  }

  lemma PrefixesMonotone(capacity: nat, batch: nat, q: nat, a: seq<nat>)
    requires PrefixesFit(capacity, batch, q, a)
    ensures PrefixesFit(capacity, batch, 0, a)
  {
  }

  lemma WindowsIncludePrefixes(capacity: nat, batch: nat, a: seq<nat>)
    requires WindowsFit(capacity, batch, a)
    ensures PrefixesFit(capacity, batch, 0, a)
  {
  }

  // ---- The ring's own runs ----

  /** The number of arrivals in each interval between polls; the last interval need not have ended. */
  function Intervals(events: seq<Event>): (a: seq<nat>)
    ensures a != []
    decreases |events|
  {
    if events == [] then [0] else Extend(events[0], Intervals(events[1..]))
  }

  /** A batch counts towards the interval it arrives in; a poll ends an interval. */
  function Extend(e: Event, rest: seq<nat>): (a: seq<nat>)
    requires rest != []
    ensures a != []
  {
    if e.Queue? then [|e.batch| + rest[0]] + rest[1..] else [0] + rest
  }

  ghost predicate PollsOnly(bytes: nat, events: seq<Event>) {
    forall e | e in events :: e.Queue? || e == Drain(bytes)
  }

  /** Nothing was overwritten by these events. */
  ghost predicate LossFree(capacity: nat, l: Ledger, events: seq<Event>)
    requires l.Valid()
  {
    Overwritten !in AccountAll(capacity, l, events).settled[|l.settled|..]
  }

  lemma LossFreeUnfold(capacity: nat, l: Ledger, events: seq<Event>)
    requires l.Valid() && events != []
    ensures var next := Account(capacity, l, events[0]);
            LossFree(capacity, l, events) <==>
            Overwritten !in next.settled[|l.settled|..] && LossFree(capacity, next, events[1..])
  {
  }

  /** A queued batch that fits joins the current interval; one that does not fit is a loss. */
  lemma QueueJoinsInterval(capacity: nat, batch: nat, l: Ledger, more: seq<Record>, rest: seq<nat>)
    requires l.Valid() && |l.Pending()| <= capacity && rest != []
    ensures var next := Account(capacity, l, Queue(more));
            && |next.Pending()| <= capacity
            && (Fits(capacity, batch, |l.Pending()|, [|more| + rest[0]] + rest[1..]) <==>
                Overwritten !in next.settled[|l.settled|..] && Fits(capacity, batch, |next.Pending()|, rest))
  {
    var q, next := |l.Pending()|, Account(capacity, l, Queue(more));
    var joined := [|more| + rest[0]] + rest[1..];
    assert joined[1..] == rest[1..];
    if q + |more| > capacity {
      assert next.settled[|l.settled|..][0] == Overwritten;
    }
  }

  lemma PollEndsInterval(capacity: nat, bytes: nat, l: Ledger, rest: seq<nat>)
    requires l.Valid() && |l.Pending()| <= capacity
    ensures var next := Account(capacity, l, Drain(bytes));
            && |next.Pending()| <= capacity
            && Overwritten !in next.settled[|l.settled|..]
            && (Fits(capacity, bytes / RECORD_BYTES, |l.Pending()|, [0] + rest) <==>
                Fits(capacity, bytes / RECORD_BYTES, |next.Pending()|, rest))
  {
  }

  lemma EventExtendsIntervals(capacity: nat, bytes: nat, l: Ledger, e: Event, rest: seq<nat>)
    requires l.Valid() && |l.Pending()| <= capacity && rest != []
    requires e.Queue? || e == Drain(bytes)
    ensures var next := Account(capacity, l, e);
            && |next.Pending()| <= capacity
            && (Fits(capacity, bytes / RECORD_BYTES, |l.Pending()|, Extend(e, rest)) <==>
                Overwritten !in next.settled[|l.settled|..] &&
                Fits(capacity, bytes / RECORD_BYTES, |next.Pending()|, rest))
  {
    if e.Queue? {
      QueueJoinsInterval(capacity, bytes / RECORD_BYTES, l, e.batch, rest);
    } else {
      PollEndsInterval(capacity, bytes, l, rest);
    }
  }

  lemma {:induction false} LossFreeIffFits(capacity: nat, bytes: nat, l: Ledger, events: seq<Event>)
    requires l.Valid() && |l.Pending()| <= capacity && PollsOnly(bytes, events)
    ensures LossFree(capacity, l, events) <==>
            Fits(capacity, bytes / RECORD_BYTES, |l.Pending()|, Intervals(events))
    decreases |events|
  {
    if events == [] {
      assert Overwritten !in l.settled[|l.settled|..];
    } else {
      var e, rest := events[0], events[1..];
      LossFreeUnfold(capacity, l, events);
      EventExtendsIntervals(capacity, bytes, l, e, Intervals(rest));
      LossFreeIffFits(capacity, bytes, Account(capacity, l, e), rest);
    }
  }

  /** The exact loss bound. From the moment an open has emptied the ring, no arrival is overwritten if and only if every
      window of k consecutive inter-poll intervals delivers at most capacity + batch * (k - 1) records. */
  lemma ExactLossBound(capacity: nat, bytes: nat, start: Ledger, events: seq<Event>)
    requires start.Valid() && start.Pending() == [] && PollsOnly(bytes, events)
    ensures LossFree(capacity, start, events) <==>
            WindowsFit(capacity, bytes / RECORD_BYTES, Intervals(events))
  {
    var a := Intervals(events);
    LossFreeIffFits(capacity, bytes, start, events);
    FitsIffWindows(capacity, bytes / RECORD_BYTES, 0, a);
    if WindowsFit(capacity, bytes / RECORD_BYTES, a) {
      WindowsIncludePrefixes(capacity, bytes / RECORD_BYTES, a);
    }
  }

  /** The smallest burst that loses a key: 128 records between an open and the first poll overwrite the oldest. */
  lemma BurstOf128LosesTheOldest(batch: seq<Record>)
    requires |batch| == 128
    ensures var l := AccountAll(127, EMPTY_LEDGER, [Queue(batch)]);
            l.settled == [Overwritten] && l.Pending() == batch[1..] && !LossFree(127, EMPTY_LEDGER, [Queue(batch)])
  {
    var l := Account(127, EMPTY_LEDGER, Queue(batch));
    assert AccountAll(127, EMPTY_LEDGER, [Queue(batch)]) == AccountAll(127, l, []);
    assert l.settled[|EMPTY_LEDGER.settled|..] == l.settled == [Overwritten];
    assert l.history == batch && l.settled[0] == Overwritten;
  }
}
