/** From the keyboard to Doom: what the client tells Doom over whole runs of the ring. */
module DoomInput {
  import opened Records
  import opened KeyboardRing
  import opened KeyLedger
  import opened LossBound
  import opened DoomKeys
  import opened Helpers
  import Serialization

  /** The client's buffer, and so the size of a poll, in bytes. */
  const POLL_BYTES: nat := 384

  const START := Ring([], [])

  /** The calls made while these events happen: each drain's records are translated as they are drained. */
  function Calls(capacity: nat, s: Ring, events: seq<Event>): seq<KeyCall>
    decreases |events|
  {
    if events == [] then []
    else Translate(Output(s, events[0])) + Calls(capacity, Step(capacity, s, events[0]), events[1..])
  }

  /** What was delivered before only stands in front of what is delivered now. */
  lemma {:induction false} DeliveredIsAppended(capacity: nat, pending: seq<Record>, earlier: seq<Record>,
                                               events: seq<Event>)
    ensures var s, t := Run(capacity, Ring(pending, earlier), events), Run(capacity, Ring(pending, []), events);
            s.pending == t.pending && s.delivered == earlier + t.delivered
    decreases |events|
  {
    if events == [] {
      assert earlier + [] == earlier;
    } else {
      var e := events[0];
      var s, t := Step(capacity, Ring(pending, earlier), e), Step(capacity, Ring(pending, []), e);
      assert s.pending == t.pending && s.delivered == earlier + t.delivered;
      DeliveredIsAppended(capacity, s.pending, s.delivered, events[1..]);
      DeliveredIsAppended(capacity, t.pending, t.delivered, events[1..]);
    }
  }

  /** Doom is told the translation of the delivered stream, however the polls cut it up. */
  lemma {:induction false} CallsTranslateDelivered(capacity: nat, pending: seq<Record>, events: seq<Event>)
    ensures Calls(capacity, Ring(pending, []), events) ==
            Translate(Run(capacity, Ring(pending, []), events).delivered)
    decreases |events|
  {
    if events != [] {
      var s := Ring(pending, []);
      var t := Step(capacity, s, events[0]);
      var out := Output(s, events[0]);
      assert t.delivered == out;
      DeliveredIsAppended(capacity, t.pending, out, events[1..]);
      CallsIgnoreDelivered(capacity, t.pending, out, [], events[1..]);
      CallsTranslateDelivered(capacity, t.pending, events[1..]);
      TranslateConcat(out, Run(capacity, Ring(t.pending, []), events[1..]).delivered);
    }
  }

  lemma {:induction false} CallsIgnoreDelivered(capacity: nat, pending: seq<Record>, a: seq<Record>, b: seq<Record>,
                                                events: seq<Event>)
    ensures Calls(capacity, Ring(pending, a), events) == Calls(capacity, Ring(pending, b), events)
    decreases |events|
  {
    if events != [] {
      var s, t := Step(capacity, Ring(pending, a), events[0]), Step(capacity, Ring(pending, b), events[0]);
      CallsIgnoreDelivered(capacity, s.pending, s.delivered, t.delivered, events[1..]);
    }
  }

  /** Opening the device hides every earlier arrival from Doom: what it is told afterwards is what it would be told had
      the ring just been created. */
  lemma OpenForgetsThePast(capacity: nat, before: seq<Event>, after: seq<Event>)
    ensures var s := Run(capacity, START, before + [Open]);
            && Calls(capacity, s, after) == Calls(capacity, START, after)
            && Run(capacity, s, after).pending == Run(capacity, START, after).pending
            && Run(capacity, s, after).delivered == s.delivered + Run(capacity, START, after).delivered
  {
    var s := Run(capacity, START, before + [Open]);
    RunConcat(capacity, START, before, [Open]);
    assert Run(capacity, Run(capacity, START, before), [Open]) ==
           Run(capacity, Step(capacity, Run(capacity, START, before), Open), []);
    assert s.pending == [];
    DeliveredIsAppended(capacity, [], s.delivered, after);
    CallsIgnoreDelivered(capacity, [], s.delivered, [], after);
  }

  ghost predicate NoOpen(events: seq<Event>) { forall e | e in events :: !e.Open? }

  lemma {:induction false} NoOpenNoDiscard(capacity: nat, l: Ledger, events: seq<Event>)
    requires l.Valid() && NoOpen(events) && Discarded !in l.settled
    ensures Discarded !in AccountAll(capacity, l, events).settled
    decreases |events|
  {
    if events != [] {
      NoOpenNoDiscard(capacity, Account(capacity, l, events[0]), events[1..]);
    }
  }

  lemma {:induction false} SelectAll(history: seq<Record>, fates: seq<Fate>)
    requires |fates| <= |history| && forall f | f in fates :: f == Drained
    ensures Select(history, fates, Drained) == history[..|fates|]
    decreases |fates|
  {
    if fates != [] {
      var n := |fates| - 1;
      assert fates[n] in fates && forall f | f in fates[..n] :: f in fates;
      SelectAll(history, fates[..n]);
      assert history[..n] + [history[n]] == history[..n + 1];
    }
  }

  /** End to end. After an open, and until the next, Doom is told the translation of the arrivals drained since. In a
      loss-free run those and the still pending ones are all the arrivals since the open, and none from before it. */
  lemma EndToEnd(capacity: nat, before: seq<Event>, after: seq<Event>)
    requires NoOpen(after)
    ensures var s, t := Run(capacity, START, before + [Open]), Run(capacity, START, after);
            && Calls(capacity, s, after) == Translate(t.delivered)
            && (LossFree(capacity, EMPTY_LEDGER, after) ==> t.delivered + t.pending == Arrivals(after))
  {
    OpenForgetsThePast(capacity, before, after);
    CallsTranslateDelivered(capacity, [], after);
    if LossFree(capacity, EMPTY_LEDGER, after) {
      LossFreeDeliversAll(capacity, after);
    }
  }

  lemma LossFreeDeliversAll(capacity: nat, after: seq<Event>)
    requires NoOpen(after) && LossFree(capacity, EMPTY_LEDGER, after)
    ensures var t := Run(capacity, START, after); t.delivered + t.pending == Arrivals(after)
  {
    hide Run, AccountAll, Arrivals, Select, NoOpen;
    var l := AccountAll(capacity, EMPTY_LEDGER, after);
    AgreeFromStart(capacity, after);
    NoOpenNoDiscard(capacity, EMPTY_LEDGER, after);
    assert l.settled[|EMPTY_LEDGER.settled|..] == l.settled;
    forall f | f in l.settled ensures f == Drained {}
    SelectAll(l.history, l.settled);
    assert l.history[..|l.settled|] + l.Pending() == l.history;
  }

  /** Over every run, opens included: the state Doom keeps for a key differs from what it would be had nothing been lost
      exactly when the key's newest settled record was overwritten or discarded and its direction differs from that of
      the newest drained record for the key. */
  lemma KeyIsWrongExactlyWhenNewestLost(capacity: nat, events: seq<Event>, key: DoomKey)
    requires key != Unknown
    ensures var l := AccountAll(capacity, EMPTY_LEDGER, events);
            var gone := l.history[..|l.settled|];
            IsDown(Calls(capacity, START, events), key) != IsDown(Translate(gone), key) <==>
            exists i: nat :: IsNewest(gone, key, i) && l.settled[i] != Drained &&
                             IsPress(gone[i]) != LeftDown(gone, l.settled, key)
  {
    hide Run, AccountAll, Calls, Translate, Select, IsDown, IsNewest, LeftDown, IsPress;
    var l := AccountAll(capacity, EMPTY_LEDGER, events);
    DeliveredIsDrained(capacity, events);
    WrongExactlyWhenNewestLost(l.history[..|l.settled|], l.settled, key);
  }

  /** Until the next open only overwriting can do harm, and it is harmless to a key unless that key's newest settled
      record was itself overwritten. */
  lemma OverwritingIsHarmless(capacity: nat, after: seq<Event>, key: DoomKey)
    requires NoOpen(after) && key != Unknown
    ensures var l := AccountAll(capacity, EMPTY_LEDGER, after);
            var gone := l.history[..|l.settled|];
            IsDown(Calls(capacity, START, after), key) != IsDown(Translate(gone), key) <==>
            exists i: nat :: IsNewest(gone, key, i) && l.settled[i] == Overwritten &&
                             IsPress(gone[i]) != LeftDown(gone, l.settled, key)
  {
    hide Run, AccountAll, Calls, Translate, IsDown, IsNewest, LeftDown, IsPress, NoOpen;
    var l := AccountAll(capacity, EMPTY_LEDGER, after);
    KeyIsWrongExactlyWhenNewestLost(capacity, after, key);
    NoOpenNoDiscard(capacity, EMPTY_LEDGER, after);
    NewestIsThere(l.history[..|l.settled|], key);
    assert forall i | 0 <= i < |l.settled| :: l.settled[i] != Drained <==> l.settled[i] == Overwritten;
  }

  lemma NewestIsThere(history: seq<Record>, key: DoomKey)
    ensures forall i: nat :: IsNewest(history, key, i) ==> i < |history|
  {
  }

  /** What has been delivered are the drained ones of the arrivals that have left the ring. */
  lemma DeliveredIsDrained(capacity: nat, events: seq<Event>)
    ensures var l := AccountAll(capacity, EMPTY_LEDGER, events);
            Calls(capacity, START, events) == Translate(Select(l.history[..|l.settled|], l.settled, Drained))
  {
    hide Run, AccountAll, Calls, Translate, Select;
    var l := AccountAll(capacity, EMPTY_LEDGER, events);
    CallsTranslateDelivered(capacity, [], events);
    AgreeFromStart(capacity, events);
    SelectGone(l);
  }

  lemma SelectGone(l: Ledger)
    requires l.Valid()
    ensures Select(l.history, l.settled, Drained) == Select(l.history[..|l.settled|], l.settled, Drained)
  {
    SelectPrefix(l.history[..|l.settled|], l.Pending(), l.settled, Drained);
    assert l.history[..|l.settled|] + l.Pending() == l.history;
  }

  function Polls(bytes: nat, count: nat): seq<Event> {
    if count == 0 then [] else [Drain(bytes)] + Polls(bytes, count - 1)
  }

  /** With no new arrivals, polling empties the ring exactly when the polls together have room for what is pending. */
  lemma {:induction false} PollsEmptyTheRing(capacity: nat, s: Ring, bytes: nat, count: nat)
    ensures Run(capacity, s, Polls(bytes, count)).pending == [] <==>
            |s.pending| <= count * (bytes / RECORD_BYTES)
    decreases count
  {
    if count > 0 {
      var room, next := bytes / RECORD_BYTES, Step(capacity, s, Drain(bytes));
      assert Polls(bytes, count)[1..] == Polls(bytes, count - 1);
      PollsEmptyTheRing(capacity, next, bytes, count - 1);
      RoomOfPolls(count, room);
      assert |next.pending| == if |s.pending| <= room then 0 else |s.pending| - room;
    }
  }

  lemma RoomOfPolls(count: nat, room: nat)
    requires count > 0
    ensures count * room == (count - 1) * room + room && (count - 1) * room >= 0
  {
  }

  lemma {:induction false} PendingIsBounded(capacity: nat, s: Ring, events: seq<Event>)
    requires |s.pending| <= capacity
    ensures |Run(capacity, s, events).pending| <= capacity
    decreases |events|
  {
    if events != [] {
      PendingIsBounded(capacity, Step(capacity, s, events[0]), events[1..]);
    }
  }

  /** After any run of the driver's 128-slot ring, four polls without new arrivals empty it. */
  lemma FourPollsSuffice(events: seq<Event>)
    ensures Run(127, START, events + Polls(POLL_BYTES, 4)).pending == [] && POLL_BYTES == 384
  {
    PendingIsBounded(127, START, events);
    RunConcat(127, START, events, Polls(POLL_BYTES, 4));
    PollsEmptyTheRing(127, Run(127, START, events), POLL_BYTES, 4);
  }

  lemma {:induction false} PollsConserve(capacity: nat, s: Ring, bytes: nat, count: nat)
    ensures var t := Run(capacity, s, Polls(bytes, count)); t.delivered + t.pending == s.delivered + s.pending
    decreases count
  {
    if count > 0 {
      assert Polls(bytes, count)[1..] == Polls(bytes, count - 1);
      PollsConserve(capacity, Step(capacity, s, Drain(bytes)), bytes, count - 1);
    }
  }

  /** A press, a poll, then the release in a burst that overwrites it, and more polls. */
  function StuckRun(press: Record, burst: seq<Record>): seq<Event> {
    [Queue([press]), Drain(POLL_BYTES), Queue(burst)] + Polls(POLL_BYTES, 4)
  }

  /** A key can stay stuck: it is pressed and polled, then released in a burst that overwrites the release before the
      next poll. However much is polled afterwards Doom holds the key down, though its newest arrival is a release. */
  lemma KeyStaysStuck(press: Record, release: Record, rest: seq<Record>)
    requires KeyOf(press) == KeyOf(release) != Unknown && IsPress(press) && !IsPress(release)
    requires |rest| == 127 && forall r | r in rest :: KeyOf(r) != KeyOf(press)
    ensures var events := StuckRun(press, [release] + rest);
            && Run(127, START, events).pending == []
            && IsDown(Calls(127, START, events), KeyOf(press))
            && !IsDown(Translate([press, release] + rest), KeyOf(press))
  {
    hide KeyOf, IsPress, Run, Calls, Translate, IsDown, StuckRun;
    var key, drained, all := KeyOf(press), [press] + rest, [press, release] + rest;
    ReleaseIsLost(press, release, rest);
    DownIfNothingLost(drained, key);
    assert IsNewest(drained, key, 0);
    DownIfNothingLost(all, key);
    assert IsNewest(all, key, 1);
    NewestIsUnique(all, key);
  }

  lemma ReleaseIsLost(press: Record, release: Record, rest: seq<Record>)
    requires |rest| == 127
    ensures var events := StuckRun(press, [release] + rest);
            Run(127, START, events).pending == [] && Calls(127, START, events) == Translate([press] + rest)
  {
    hide Run, Calls, Translate, Polls;
    var head := [Queue([press]), Drain(POLL_BYTES), Queue([release] + rest)];
    var s := BurstIsPending(press, release, rest);
    FourPollsDeliver(s);
    RunConcat(127, START, head, Polls(POLL_BYTES, 4));
    CallsTranslateDelivered(127, [], StuckRun(press, [release] + rest));
  }

  lemma FourPollsDeliver(s: Ring)
    requires |s.pending| <= 127
    ensures Run(127, s, Polls(POLL_BYTES, 4)) == Ring([], s.delivered + s.pending)
  {
    hide Run, Polls;
    PollsEmptyTheRing(127, s, POLL_BYTES, 4);
    PollsConserve(127, s, POLL_BYTES, 4);
  }

  lemma BurstIsPending(press: Record, release: Record, rest: seq<Record>) returns (s: Ring)
    requires |rest| == 127
    ensures s == Ring(rest, [press])
    ensures Run(127, START, [Queue([press]), Drain(POLL_BYTES), Queue([release] + rest)]) == s
  {
    var queue, drain, burst := Queue([press]), Drain(POLL_BYTES), Queue([release] + rest);
    s := Ring(rest, [press]);
    PressIsPolled(press);
    BurstFills(press, release, rest);
    hide Step;
    RunOfThree(queue, drain, burst);
  }

  lemma PressIsPolled(press: Record)
    ensures Step(127, Step(127, START, Queue([press])), Drain(POLL_BYTES)) == Ring([], [press])
  {
    PressIsQueued(press);
    PressIsDrained(press);
    hide *;
  }

  lemma PressIsQueued(press: Record)
    ensures Step(127, START, Queue([press])) == Ring([press], [])
  {
    assert [] + [press] == [press];
  }

  lemma PressIsDrained(press: Record)
    ensures Step(127, Ring([press], []), Drain(POLL_BYTES)) == Ring([], [press])
  {
    assert DrainCount(1, POLL_BYTES) == 1;
    assert [press][1..] == [] && [press][..1] == [press];
  }

  lemma BurstFills(press: Record, release: Record, rest: seq<Record>)
    requires |rest| == 127
    ensures Step(127, Ring([], [press]), Queue([release] + rest)) == Ring(rest, [press])
  {
    assert [] + ([release] + rest) == [release] + rest;
  }

  lemma RunOfThree(a: Event, b: Event, c: Event)
    ensures Run(127, START, [a, b, c]) == Step(127, Step(127, Step(127, START, a), b), c)
  {
    hide Step;
    assert [a, b, c][1..] == [b, c] && [b, c][1..] == [c] && [c][1..] == [];
    var one := Step(127, START, a);
    var two := Step(127, one, b);
    assert Run(127, START, [a, b, c]) == Run(127, one, [b, c]) == Run(127, two, [c]);
    assert Run(127, two, [c]) == Run(127, Step(127, two, c), []);
  }

  // ---- Losing a release to an open ----

  /** Opening again while a release is pending leaves the key down, though nothing was overwritten. */
  lemma OpenLosesARelease(press: Record, release: Record)
    requires KeyOf(press) == KeyOf(release) != Unknown && IsPress(press) && !IsPress(release)
    ensures var events := [Queue([press]), Drain(POLL_BYTES), Queue([release]), Open];
            && AccountAll(127, EMPTY_LEDGER, events) == Ledger([press, release], [Drained, Discarded])
            && IsDown(Calls(127, START, events), KeyOf(press)) && !IsDown(Translate([press, release]), KeyOf(press))
  {
    hide *;
    var events, key := [Queue([press]), Drain(POLL_BYTES), Queue([release]), Open], KeyOf(press);
    var fates := [Drained, Discarded];
    ReleaseIsDiscarded(press, release);
    DeliveredIsDrained(127, events);
    SelectGone(Ledger([press, release], fates));
    DownIffLeftDown([press, release], fates, key);
    DownIfNothingLost([press, release], key);
    PressIsNewestDrained(press, release);
  }

  lemma PressIsNewestDrained(press: Record, release: Record)
    requires KeyOf(press) == KeyOf(release) && IsPress(press) && !IsPress(release)
    ensures LeftDown([press, release], [Drained, Discarded], KeyOf(press))
    ensures forall i: nat :: IsNewest([press, release], KeyOf(press), i) ==> i == 1
  {
    hide KeyOf, IsPress;
    var history := [press, release];
    assert IsNewestDrained(history, [Drained, Discarded], KeyOf(press), 0) && IsPress(history[0]);
    assert IsNewest(history, KeyOf(press), 1) && !IsNewest(history, KeyOf(press), 0) by {
      assert KeyOf(history[1]) == KeyOf(press);
    }
  }

  lemma ReleaseIsDiscarded(press: Record, release: Record)
    ensures var events := [Queue([press]), Drain(POLL_BYTES), Queue([release]), Open];
            AccountAll(127, EMPTY_LEDGER, events) == Ledger([press, release], [Drained, Discarded])
  {
    var press0, drain, release0 := Queue([press]), Drain(POLL_BYTES), Queue([release]);
    PressIsAccounted(press);
    ReleaseIsAccounted(press, release);
    hide Account;
    assert [press0, drain, release0, Open] == [press0] + ([drain] + ([release0] + ([Open] + [])));
    AccountUnfolds(EMPTY_LEDGER, press0, [drain] + ([release0] + ([Open] + [])));
    AccountUnfolds(Ledger([press], []), drain, [release0] + ([Open] + []));
    AccountUnfolds(Ledger([press], [Drained]), release0, [Open] + []);
    AccountUnfolds(Ledger([press, release], [Drained]), Open, []);
  }

  lemma AccountUnfolds(l: Ledger, e: Event, rest: seq<Event>)
    requires l.Valid()
    ensures AccountAll(127, l, [e] + rest) == AccountAll(127, Account(127, l, e), rest)
  {
    assert ([e] + rest)[1..] == rest;
  }

  lemma PressIsAccounted(press: Record)
    ensures Account(127, EMPTY_LEDGER, Queue([press])) == Ledger([press], [])
    ensures Account(127, Ledger([press], []), Drain(POLL_BYTES)) == Ledger([press], [Drained])
  {
    assert DrainCount(1, POLL_BYTES) == 1;
    assert Repeat(Drained, 1) == [Drained];
  }

  lemma ReleaseIsAccounted(press: Record, release: Record)
    ensures Account(127, Ledger([press], [Drained]), Queue([release])) == Ledger([press, release], [Drained])
    ensures Account(127, Ledger([press, release], [Drained]), Open) == Ledger([press, release], [Drained, Discarded])
  {
    assert Repeat(Discarded, 1) == [Discarded];
  }

  // ---- Under every interleaving ----

  /** What Doom is told when the outputs of the first n operations to take the lock are translated in lock order. */
  ghost function Told(m: Serialization.Machine, n: nat): seq<KeyCall>
    requires Serialization.HaveOutputs(m, n)
  {
    if n == 0 then [] else Told(m, n - 1) + Translate(m.threads[m.order[n - 1]].out)
  }

  lemma {:induction false} ToldIsTranslated(m: Serialization.Machine, n: nat)
    requires Serialization.HaveOutputs(m, n)
    ensures Told(m, n) == Translate(Serialization.Received(m, n))
  {
    if n > 0 {
      hide Translate;
      ToldIsTranslated(m, n - 1);
      hide Told, Serialization.Received;
      OneMoreIsTold(m, n);
      TranslateConcat(Serialization.Received(m, n - 1), m.threads[m.order[n - 1]].out);
    }
  }

  lemma OneMoreIsTold(m: Serialization.Machine, n: nat)
    requires n > 0 && Serialization.HaveOutputs(m, n)
    ensures Told(m, n) == Told(m, n - 1) + Translate(m.threads[m.order[n - 1]].out)
    ensures Serialization.Received(m, n) == Serialization.Received(m, n - 1) + m.threads[m.order[n - 1]].out
  {
    hide Translate;
  }

  /** End to end under every interleaving of callbacks, drains and opens: whenever the lock is free, Doom is told the
      translation of exactly the drained arrivals, as in the serial run, and a key's state is wrong exactly when its
      newest settled record was lost and its direction differs from that of the newest drained record for the key. */
  lemma KeysUnderEveryInterleaving(slots: seq<Record>, actions: seq<Serialization.Action>, key: DoomKey)
    requires slots != [] && key != Unknown && Serialization.Exec(Serialization.Initial(slots), actions).Some?
    requires Serialization.Exec(Serialization.Initial(slots), actions).value.lock == None
    ensures var m := Serialization.Exec(Serialization.Initial(slots), actions).value;
            var l := AccountAll(|slots| - 1, EMPTY_LEDGER, m.serial);
            var gone := l.history[..|l.settled|];
            && (forall t | t in m.order :: t in m.threads && m.threads[t].Finished?)
            && Told(m, |m.order|) == Translate(Select(gone, l.settled, Drained))
            && Told(m, |m.order|) == Calls(|slots| - 1, START, m.serial)
            && (IsDown(Told(m, |m.order|), key) != IsDown(Translate(gone), key) <==>
                exists i: nat :: IsNewest(gone, key, i) && l.settled[i] != Drained &&
                                 IsPress(gone[i]) != LeftDown(gone, l.settled, key))
  {
    hide Run, AccountAll, Calls, Translate, Select, IsDown, IsNewest, LeftDown, IsPress, Told,
         Serialization.Exec, Serialization.Received, Arrivals, Count;
    var m := Serialization.Exec(Serialization.Initial(slots), actions).value;
    Serialization.InterleavingsConserve(slots, actions);
    ToldIsTranslated(m, |m.order|);
    SelectGone(AccountAll(|slots| - 1, EMPTY_LEDGER, m.serial));
    DeliveredIsDrained(|slots| - 1, m.serial);
    KeyIsWrongExactlyWhenNewestLost(|slots| - 1, m.serial, key);
  }
}
