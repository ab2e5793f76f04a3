/** The keyboard filter: interposing on the connect request, and the service callback put in its place.

Device objects and class callbacks are numbered. The pointers a callback receives are positions in the caller's array of
records. */
module KeyboardFilter {
  import opened Helpers
  import opened Records
  import opened KeyboardRing
  import opened ControlDevice
  import KeyLedger

  const CONNECT_DATA_BYTES: nat := 16

  datatype Routine = NoRoutine | ClassRoutine(id: nat) | FilterRoutine

  datatype ConnectData = ConnectData(device: nat, service: Routine)

  const ZEROED := ConnectData(0, NoRoutine)

  /** What a lower driver makes of a forwarded request is an argument of the request. */
  datatype Status = SharingViolation | InvalidParameter | FromBelow(code: int)

  datatype Filter = Filter(connected: bool, upper: ConnectData)

  /** A call of the class callback: whom, and with which arguments. */
  datatype Call = Call(service: Routine, device: nat, begin: nat, end: nat, argument3: int)

  // ---- The two operations as functions ----

  /** A connect request's answer, and what the lower driver finds in the connect data if it is forwarded. */
  function Connect(f: Filter, self: nat, inputLength: nat, data: Option<ConnectData>, below: int):
      (Filter, Status, Option<ConnectData>) {
    if f.connected then (f, SharingViolation, None)
    else if inputLength < CONNECT_DATA_BYTES || data.None? || data.value.service == NoRoutine then
      (f, InvalidParameter, None)
    else (Filter(true, data.value), FromBelow(below), Some(ConnectData(self, FilterRoutine)))
  }

  /** The records a callback queues: a count is 32 bits wide, and a backward range holds none. */
  function Batch(memory: seq<Record>, begin: nat, end: nat): seq<Record>
    requires begin <= |memory| && end <= |memory|
  {
    if end >= begin then memory[begin..begin + (end - begin) % 0x1_0000_0000] else []
  }

  /** A block holds the records from `begin` up to `end`; if those are 2^32 or more, only the first of them, as many as
      the count says modulo 2^32; and none if the range runs backwards. */
  ghost predicate HoldsTheRange(block: seq<Record>, memory: seq<Record>, begin: nat, end: nat)
    requires begin <= |memory| && end <= |memory|
  {
    && (end < begin ==> block == [])
    && (begin <= end < begin + 0x1_0000_0000 ==> block == memory[begin..end])
    && (begin <= end ==> block <= memory[begin..end] && |block| < 0x1_0000_0000 &&
                         (end - begin - |block|) % 0x1_0000_0000 == 0)
  }

  lemma BatchHoldsTheRange(memory: seq<Record>, begin: nat, end: nat)
    requires begin <= |memory| && end <= |memory|
    ensures HoldsTheRange(Batch(memory, begin, end), memory, begin, end)
  {
    if begin <= end {
      var count := end - begin;
      WholeWraps(count);
    }
  }

  lemma WholeWraps(count: nat)
    ensures (count - count % 0x1_0000_0000) % 0x1_0000_0000 == 0
  {
  }

  function UpperCalls(f: Filter, begin: nat, end: nat, argument3: int): seq<Call> {
    if f.upper.service == NoRoutine then []
    else [Call(f.upper.service, f.upper.device, begin, end, argument3)]
  }

  // ---- The filter device ----

  /** The connect data in the requester's memory, which the filter overwrites. */
  class ConnectCell {
    var data: ConnectData

    constructor (d: ConnectData)
      ensures data == d
    {
      data := d;
    }
  }

  class FilterExtension {
    const deviceObject: nat
    var upperConnectData: ConnectData
    var connected: bool
    ghost var forwarded: seq<Option<ConnectData>>  // the connect data of each request sent on to the lower driver
    ghost var upperCalls: seq<Call>                // the calls made to the class driver

    /** As AddDevice leaves it: zeroed. */
    constructor (self: nat)
      ensures deviceObject == self && State() == Filter(false, ZEROED) && forwarded == [] && upperCalls == []
    {
      deviceObject, upperConnectData, connected := self, ZEROED, false;
      forwarded, upperCalls := [], [];
    }

    ghost function State(): Filter
      reads this`connected, this`upperConnectData
    {
      Filter(connected, upperConnectData)
    }

    method Forward(ghost data: Option<ConnectData>, below: int) returns (status: Status)
      modifies this`forwarded
      ensures forwarded == old(forwarded) + [data] && status == FromBelow(below)
    {
      forwarded := forwarded + [data];
      status := FromBelow(below);
    }

    method InternalDeviceControl(isConnect: bool, inputLength: nat, cell: ConnectCell?, below: int)
      returns (status: Status)
      modifies this`upperConnectData, this`connected, this`forwarded, cell
      ensures !isConnect ==>
                State() == old(State()) && forwarded == old(forwarded) + [None] && status == FromBelow(below) &&
                (cell != null ==> cell.data == old(cell.data))
      ensures isConnect ==>
                var given := if cell == null then None else Some(old(cell.data));
                var (state, answer, sent) := Connect(old(State()), deviceObject, inputLength, given, below);
                && State() == state && status == answer
                && forwarded == old(forwarded) + (if sent.Some? then [sent] else [])
                && (cell != null ==> cell.data == if sent.Some? then sent.value else old(cell.data))
    {
      if isConnect {
        if connected {
          return SharingViolation;
        }
        if inputLength < CONNECT_DATA_BYTES {
          return InvalidParameter;
        }
        if cell == null || cell.data.service == NoRoutine {
          return InvalidParameter;
        }
        upperConnectData := cell.data;
        cell.data := ConnectData(deviceObject, FilterRoutine);
        connected := true;
        status := Forward(Some(cell.data), below);
      } else {
        status := Forward(None, below);
      }
    }

    /** The callback: the records go to the ring, if there is one; then the saved callback gets the same arguments. */
    method ServiceCallback(control: ControlExtension?, memory: seq<Record>, begin: nat, end: nat, argument3: int)
      requires begin <= |memory| && end <= |memory| && (control != null ==> control.Valid())
      modifies this`upperCalls, control, if control == null then {} else {control.keyboardRing}
      ensures State() == old(State()) && upperCalls == old(upperCalls) + UpperCalls(State(), begin, end, argument3)
      ensures control != null ==>
                && control.Valid() && control.history == old(control.history) + Batch(memory, begin, end)
                && control.Pending() == Enqueue(control.Capacity(), old(control.Pending()), Batch(memory, begin, end))
                && HoldsTheRange(Batch(memory, begin, end), memory, begin, end)
    {
      BatchHoldsTheRange(memory, begin, end);
      if end >= begin {
        if control != null {
          control.QueueKeyboard(memory[begin..begin + (end - begin) % 0x1_0000_0000]);
        }
      } else if control != null {
        NothingQueued(control.Capacity(), control.Pending());
      }
      if upperConnectData.service != NoRoutine {
        upperCalls := upperCalls + [Call(upperConnectData.service, upperConnectData.device, begin, end, argument3)];
      }
    }
  }

  lemma NothingQueued(capacity: nat, pending: seq<Record>)
    requires |pending| <= capacity
    ensures Enqueue(capacity, pending, []) == pending
  {
  }

  // ---- Runs with any number of keyboards and one ring ----

  datatype Event =
    | Attach(filter: nat)
    | ConnectRequest(filter: nat, inputLength: nat, data: Option<ConnectData>, below: int)
    | Callback(filter: nat, memory: seq<Record>, begin: nat, end: nat, argument3: int)
    | DrainRequest(bytes: nat)
    | OpenRequest {
    predicate Valid(filters: set<nat>) {
      match this
      case Attach(f) => f !in filters
      case ConnectRequest(f, _, _, _) => f in filters
      case Callback(f, memory, begin, end, _) => f in filters && begin <= |memory| && end <= |memory|
      case _ => true
    }

    /** Drains and opens concern only the ring. */
    predicate RingOnly() { DrainRequest? || OpenRequest? }
  }

  /** All filters; the ring and what has been drained from it; what each filter has called and has sent on. */
  datatype System = System(filters: map<nat, Filter>, cells: Cells, drained: seq<Record>, calls: seq<(nat, Call)>,
                           sent: seq<(nat, ConnectData)>)

  function Loaded(slots: seq<Record>): System { System(map[], Cells(slots, 0, 0), [], [], []) }

  function Tag(f: nat, calls: seq<Call>): seq<(nat, Call)> { if calls == [] then [] else [(f, calls[0])] }

  ghost function Step(s: System, e: Event): (t: System)
    requires s.cells.Valid() && e.Valid(s.filters.Keys)
    ensures t.cells.Valid() && |t.cells.slots| == |s.cells.slots|
  {
    match e
    case Attach(f) => s.(filters := s.filters[f := Filter(false, ZEROED)])
    case ConnectRequest(f, inputLength, data, below) =>
      var (state, _, sent) := Connect(s.filters[f], f, inputLength, data, below);
      s.(filters := s.filters[f := state], sent := s.sent + (if sent.Some? then [(f, sent.value)] else []))
    case Callback(f, memory, begin, end, argument3) =>
      var batch := Batch(memory, begin, end);
      s.(cells := QueueLoop(s.cells, batch, |batch|),
         calls := s.calls + Tag(f, UpperCalls(s.filters[f], begin, end, argument3)))
    case DrainRequest(bytes) =>
      var (cells, out) := DrainLoop(s.cells, bytes);
      s.(cells := cells, drained := s.drained + out)
    case OpenRequest => s.(cells := s.cells.Reset())
  }

  ghost predicate ValidRun(s: System, events: seq<Event>)
    requires s.cells.Valid()
    decreases |events|
  {
    events == [] || (events[0].Valid(s.filters.Keys) && ValidRun(Step(s, events[0]), events[1..]))
  }

  ghost function Run(s: System, events: seq<Event>): (t: System)
    requires s.cells.Valid() && ValidRun(s, events)
    ensures t.cells.Valid() && |t.cells.slots| == |s.cells.slots|
    decreases |events|
  {
    if events == [] then s else Run(Step(s, events[0]), events[1..])
  }

  // ---- The ring under all keyboards ----

  /** What an event means to the ring. */
  function RingEvent(e: Event): seq<KeyLedger.Event> {
    match e
    case Callback(_, memory, begin, end, _) =>
      if begin <= |memory| && end <= |memory| then [KeyLedger.Queue(Batch(memory, begin, end))] else []
    case DrainRequest(bytes) => [KeyLedger.Drain(bytes)]
    case OpenRequest => [KeyLedger.Open]
    case _ => []
  }

  function RingEvents(events: seq<Event>): seq<KeyLedger.Event>
    decreases |events|
  {
    if events == [] then [] else RingEvent(events[0]) + RingEvents(events[1..])
  }

  lemma {:induction false} RingEventsConcat(a: seq<Event>, b: seq<Event>)
    ensures RingEvents(a + b) == RingEvents(a) + RingEvents(b)
    decreases |a|
  {
    if a == [] {
      assert a + b == b;
    } else {
      assert (a + b)[1..] == a[1..] + b;
      RingEventsConcat(a[1..], b);
    }
  }

  /** The slots and indices hold what the bounded ring holds, and the same records have been drained. */
  ghost predicate Matches(s: System, r: KeyLedger.Ring) {
    s.cells.Valid() && s.cells.Contents() == r.pending && s.drained == r.delivered
  }

  lemma StepMatches(s: System, e: Event, r: KeyLedger.Ring)
    requires Matches(s, r) && e.Valid(s.filters.Keys)
    ensures Matches(Step(s, e), KeyLedger.Run(|s.cells.slots| - 1, r, RingEvent(e)))
  {
    var capacity := |s.cells.slots| - 1;
    if e.Callback? || e.RingOnly() {
      var ringEvent := RingEvent(e)[0];
      assert RingEvent(e) == [ringEvent] && RingEvent(e)[1..] == [];
      assert KeyLedger.Run(capacity, r, RingEvent(e)) == KeyLedger.Step(capacity, r, ringEvent);
      hide Cells.Contents, QueueLoop, DrainLoop, LastOf, KeyLedger.Run;
      match e
      case Callback(_, memory, begin, end, _) =>
        var batch := Batch(memory, begin, end);
        QueueLoopRefines(s.cells, batch, |batch|);
        assert batch[..|batch|] == batch;
      case DrainRequest(bytes) => DrainLoopRefines(s.cells, bytes);
      case OpenRequest => ResetRefines(s.cells);
    }
  }

  lemma RingEventsUnfold(events: seq<Event>)
    requires events != []
    ensures RingEvents(events) == RingEvent(events[0]) + RingEvents(events[1..])
  {
  }

  lemma NothingRuns(s: System, r: KeyLedger.Ring)
    requires s.cells.Valid()
    ensures Run(s, []) == s && KeyLedger.Run(|s.cells.slots| - 1, r, RingEvents([])) == r
  {
  }

  lemma {:induction false} RunMatches(s: System, events: seq<Event>, r: KeyLedger.Ring)
    requires Matches(s, r) && s.cells.Valid() && ValidRun(s, events)
    ensures Matches(Run(s, events), KeyLedger.Run(|s.cells.slots| - 1, r, RingEvents(events)))
    decreases |events|
  {
    hide Matches, Step, Run, ValidRun, RingEvents, RingEvent, KeyLedger.Run;
    if events == [] {
      NothingRuns(s, r);
    } else {
      var capacity, e, rest := |s.cells.slots| - 1, events[0], events[1..];
      RunUnfolds(s, events);
      RingEventsUnfold(events);
      StepMatches(s, e, r);
      RunMatches(Step(s, e), rest, KeyLedger.Run(capacity, r, RingEvent(e)));
      KeyLedger.RunConcat(capacity, r, RingEvent(e), RingEvents(rest));
    }
  }

  /** In any run of any number of keyboards over one ring of any size: the slots hold exactly the pending part of the
      arrival history, which is all callbacks' batches in order, and what was drained is exactly the drained part. */
  lemma RingServesAllKeyboards(slots: seq<Record>, events: seq<Event>)
    requires slots != [] && ValidRun(Loaded(slots), events)
    ensures var s := Run(Loaded(slots), events);
            var l := KeyLedger.AccountAll(|slots| - 1, KeyLedger.EMPTY_LEDGER, RingEvents(events));
            && l.history == KeyLedger.Arrivals(RingEvents(events))
            && s.cells.Contents() == l.Pending()
            && s.drained == KeyLedger.Select(l.history, l.settled, KeyLedger.Drained)
  {
    hide *;
    LoadedIsEmpty(slots);
    RingServesFrom(Loaded(slots), KeyLedger.Ring([], []), KeyLedger.EMPTY_LEDGER, events);
    NoneBefore(KeyLedger.Arrivals(RingEvents(events)));
  }

  lemma NoneBefore(arrivals: seq<Record>)
    ensures KeyLedger.EMPTY_LEDGER.history + arrivals == arrivals
  {
  }

  lemma RingServesFrom(s: System, r: KeyLedger.Ring, l: KeyLedger.Ledger, events: seq<Event>)
    requires Matches(s, r) && KeyLedger.Agree(r, l) && ValidRun(s, events)
    ensures var t := Run(s, events);
            var m := KeyLedger.AccountAll(|s.cells.slots| - 1, l, RingEvents(events));
            && m.history == l.history + KeyLedger.Arrivals(RingEvents(events))
            && t.cells.Contents() == m.Pending()
            && t.drained == KeyLedger.Select(m.history, m.settled, KeyLedger.Drained)
  {
    hide Cells.Contents, Run, RingEvents, KeyLedger.Run, KeyLedger.AccountAll, KeyLedger.Arrivals, KeyLedger.Select;
    var capacity := |s.cells.slots| - 1;
    RunMatches(s, events, r);
    KeyLedger.AgreeAlways(capacity, r, l, RingEvents(events));
    KeyLedger.HistoryIsArrivals(capacity, l, RingEvents(events));
  }

  lemma LoadedIsEmpty(slots: seq<Record>)
    requires slots != []
    ensures Matches(Loaded(slots), KeyLedger.Ring([], [])) && |Loaded(slots).cells.slots| == |slots| > 0
    ensures KeyLedger.Agree(KeyLedger.Ring([], []), KeyLedger.EMPTY_LEDGER)
  {
  }

  lemma {:induction false} ArrivalsConcat(a: seq<KeyLedger.Event>, b: seq<KeyLedger.Event>)
    ensures KeyLedger.Arrivals(a + b) == KeyLedger.Arrivals(a) + KeyLedger.Arrivals(b)
    decreases |a|
  {
    if a == [] {
      assert a + b == b;
    } else {
      assert (a + b)[1..] == a[1..] + b;
      ArrivalsConcat(a[1..], b);
    }
  }

  /** Each callback owns one contiguous block of the arrival history, the records of its range in order, and the blocks
      of all callbacks together are the history: no record is queued twice or left out, whatever the ring
      overwrites. */
  lemma CallbackOwnsABlock(before: seq<Event>, e: Event, after: seq<Event>) returns (block: seq<Record>)
    requires e.Callback? && e.begin <= |e.memory| && e.end <= |e.memory|
    ensures HoldsTheRange(block, e.memory, e.begin, e.end)
    ensures var first := |KeyLedger.Arrivals(RingEvents(before))|;
            var history := KeyLedger.Arrivals(RingEvents(before + [e] + after));
            && first + |block| <= |history|
            && history[..first] == KeyLedger.Arrivals(RingEvents(before))
            && history[first..first + |block|] == block
            && history[first + |block|..] == KeyLedger.Arrivals(RingEvents(after))
  {
    var batch := Batch(e.memory, e.begin, e.end);
    block := batch;
    BatchHoldsTheRange(e.memory, e.begin, e.end);
    assert RingEvents([e]) == [KeyLedger.Queue(batch)] by {
      assert [e][1..] == [];
    }
    assert KeyLedger.Arrivals([KeyLedger.Queue(batch)]) == batch by {
      assert [KeyLedger.Queue(batch)][1..] == [];
    }
    hide Batch, RingEvents, KeyLedger.Arrivals, HoldsTheRange;
    RingEventsConcat(before + [e], after);
    RingEventsConcat(before, [e]);
    ArrivalsConcat(RingEvents(before) + RingEvents([e]), RingEvents(after));
    ArrivalsConcat(RingEvents(before), RingEvents([e]));
  }

  // ---- The chain of callbacks, apart from the ring ----

  /** The events without the drains and opens. */
  function WithoutRing(events: seq<Event>): seq<Event>
    decreases |events|
  {
    if events == [] then []
    else (if events[0].RingOnly() then [] else [events[0]]) + WithoutRing(events[1..])
  }

  ghost predicate SameChain(s: System, t: System) {
    s.filters == t.filters && s.calls == t.calls && s.sent == t.sent
  }

  lemma StepIgnoresRing(s: System, t: System, e: Event)
    requires s.cells.Valid() && t.cells.Valid() && SameChain(s, t) && e.Valid(s.filters.Keys)
    ensures SameChain(Step(s, e), if e.RingOnly() then t else Step(t, e))
  {
    hide QueueLoop, DrainLoop;
  }

  /** The ring does not disturb the chain: with a ring of another size, and without any of the drains and opens, the
      filters' states, the calls to the class driver and the connects sent on are the same. */
  lemma {:induction false} ChainIgnoresRing(s: System, t: System, events: seq<Event>)
    requires s.cells.Valid() && t.cells.Valid() && SameChain(s, t) && ValidRun(s, events)
    ensures ValidRun(t, WithoutRing(events)) && SameChain(Run(s, events), Run(t, WithoutRing(events)))
    decreases |events|
  {
    if events != [] {
      var e := events[0];
      StepIgnoresRing(s, t, e);
      if e.RingOnly() {
        assert WithoutRing(events) == WithoutRing(events[1..]);
        ChainIgnoresRing(Step(s, e), t, events[1..]);
      } else {
        assert WithoutRing(events)[1..] == WithoutRing(events[1..]);
        ChainIgnoresRing(Step(s, e), Step(t, e), events[1..]);
      }
    }
  }

  /** One call for each callback on filter f, to the given target, with the callback's own arguments. */
  function Passed(f: nat, target: ConnectData, events: seq<Event>): seq<Call>
    decreases |events|
  {
    if events == [] then []
    else
      (if events[0].Callback? && events[0].filter == f
       then [Call(target.service, target.device, events[0].begin, events[0].end, events[0].argument3)] else []) +
      Passed(f, target, events[1..])
  }

  function CallsOf(f: nat, calls: seq<(nat, Call)>): seq<Call> {
    if calls == [] then []
    else CallsOf(f, calls[..|calls| - 1]) + (if calls[|calls| - 1].0 == f then [calls[|calls| - 1].1] else [])
  }

  function SentBy(f: nat, sent: seq<(nat, ConnectData)>): nat {
    if sent == [] then 0 else SentBy(f, sent[..|sent| - 1]) + (if sent[|sent| - 1].0 == f then 1 else 0)
  }

  /** What holds of every filter at every moment: it has sent on one connect if it is connected and none otherwise; only
      a connected one has a target; and lower drivers have only ever seen the filter's own callback. */
  ghost predicate Invariant(s: System) {
    && (forall f | f in s.filters :: SentBy(f, s.sent) == if s.filters[f].connected then 1 else 0)
    && (forall f | f in s.filters :: s.filters[f].connected <==> s.filters[f].upper.service != NoRoutine)
    && (forall i | 0 <= i < |s.sent| ::
          s.sent[i].0 in s.filters && s.sent[i].1 == ConnectData(s.sent[i].0, FilterRoutine))
  }

  lemma SentByOne(f: nat, sent: seq<(nat, ConnectData)>, g: nat, d: ConnectData)
    ensures SentBy(f, sent + [(g, d)]) == SentBy(f, sent) + if f == g then 1 else 0
  {
  }

  lemma {:induction false} NeverSent(f: nat, sent: seq<(nat, ConnectData)>)
    requires forall i | 0 <= i < |sent| :: sent[i].0 != f
    ensures SentBy(f, sent) == 0
    decreases |sent|
  {
    if sent != [] {
      NeverSent(f, sent[..|sent| - 1]);
    }
  }

  lemma AttachKeeps(s: System, f: nat)
    requires s.cells.Valid() && Invariant(s) && f !in s.filters
    ensures Invariant(Step(s, Attach(f)))
  {
    hide SentBy;
    NeverSent(f, s.sent);
  }

  lemma ConnectKeeps(s: System, e: Event)
    requires s.cells.Valid() && Invariant(s) && e.ConnectRequest? && e.Valid(s.filters.Keys)
    ensures Invariant(Step(s, e))
  {
    hide SentBy;
    var f := e.filter;
    var (_, _, sent) := Connect(s.filters[f], f, e.inputLength, e.data, e.below);
    if sent.Some? {
      forall g | g in s.filters
        ensures SentBy(g, s.sent + [(f, sent.value)]) == SentBy(g, s.sent) + if f == g then 1 else 0
      {
        SentByOne(g, s.sent, f, sent.value);
      }
    } else {
      assert s.sent + [] == s.sent;
    }
  }

  lemma StepKeeps(s: System, e: Event)
    requires s.cells.Valid() && Invariant(s) && e.Valid(s.filters.Keys)
    ensures Invariant(Step(s, e))
  {
    hide SentBy, QueueLoop, DrainLoop, Connect;
    match e
    case Attach(f) => AttachKeeps(s, f);
    case ConnectRequest(_, _, _, _) => ConnectKeeps(s, e);
    case _ =>
  }

  lemma {:induction false} InvariantAlways(s: System, events: seq<Event>)
    requires s.cells.Valid() && Invariant(s) && ValidRun(s, events)
    ensures Invariant(Run(s, events))
    decreases |events|
  {
    if events != [] {
      StepKeeps(s, events[0]);
      InvariantAlways(Step(s, events[0]), events[1..]);
    }
  }

  /** In any run of a loaded driver each filter sends on at most one connect, and lower drivers see only the filter's
      own callback. */
  lemma AtMostOneConnect(slots: seq<Record>, events: seq<Event>)
    requires slots != [] && ValidRun(Loaded(slots), events)
    ensures var s := Run(Loaded(slots), events);
            && (forall f | f in s.filters :: SentBy(f, s.sent) <= 1)
            && (forall i | 0 <= i < |s.sent| :: s.sent[i].1 == ConnectData(s.sent[i].0, FilterRoutine))
  {
    InvariantAlways(Loaded(slots), events);
  }

  lemma CallsOfOne(f: nat, calls: seq<(nat, Call)>, g: nat, c: Call)
    ensures CallsOf(f, calls + [(g, c)]) == CallsOf(f, calls) + if f == g then [c] else []
  {
  }

  lemma StepIsTransparent(s: System, e: Event, f: nat)
    requires s.cells.Valid() && e.Valid(s.filters.Keys) && f in s.filters
    requires s.filters[f].connected && s.filters[f].upper.service != NoRoutine
    ensures var t := Step(s, e);
            && f in t.filters && t.filters[f] == s.filters[f]
            && CallsOf(f, t.calls) == CallsOf(f, s.calls) + Passed(f, s.filters[f].upper, [e])
  {
    assert Passed(f, s.filters[f].upper, [e][1..]) == [];
    if e.Callback? {
      var calls := UpperCalls(s.filters[e.filter], e.begin, e.end, e.argument3);
      if calls == [] {
        assert s.calls + [] == s.calls;
      } else {
        CallsOfOne(f, s.calls, e.filter, calls[0]);
      }
    }
  }

  lemma RunUnfolds(s: System, events: seq<Event>)
    requires s.cells.Valid() && ValidRun(s, events) && events != []
    ensures events[0].Valid(s.filters.Keys) && ValidRun(Step(s, events[0]), events[1..])
    ensures Run(s, events) == Run(Step(s, events[0]), events[1..])
  {
  }

  lemma PassedUnfolds(f: nat, target: ConnectData, events: seq<Event>)
    requires events != []
    ensures Passed(f, target, events) == Passed(f, target, [events[0]]) + Passed(f, target, events[1..])
  {
  }

  /** Transparency. From the moment a filter is connected, whatever any keyboard does and even if the connect was
      rejected further down, its saved target never changes, and every one of its callbacks is passed on to that target
      exactly once, in order, with unchanged arguments. */
  lemma {:induction false} Transparent(s: System, events: seq<Event>, f: nat)
    requires s.cells.Valid() && ValidRun(s, events) && f in s.filters
    requires s.filters[f].connected && s.filters[f].upper.service != NoRoutine
    ensures var t := Run(s, events);
            && f in t.filters && t.filters[f] == s.filters[f]
            && CallsOf(f, t.calls) == CallsOf(f, s.calls) + Passed(f, s.filters[f].upper, events)
    decreases |events|
  {
    if events != [] {
      RunUnfolds(s, events);
      hide Run, ValidRun, Passed, CallsOf, Step;
      var target := s.filters[f].upper;
      StepIsTransparent(s, events[0], f);
      Transparent(Step(s, events[0]), events[1..], f);
      PassedUnfolds(f, target, events);
      Associate(CallsOf(f, s.calls), Passed(f, target, [events[0]]), Passed(f, target, events[1..]));
    }
  }

  // ---- Which filters are connected ----

  /** What a request asks filter f to pass its callbacks on to, if it is a well-formed connect. */
  function Asked(f: nat, e: Event): Option<ConnectData> {
    if e.ConnectRequest? && e.filter == f && e.inputLength >= 16 && e.data.Some? && e.data.value.service != NoRoutine
    then e.data else None
  }

  function FirstAsked(f: nat, events: seq<Event>): Option<ConnectData>
    decreases |events|
  {
    if events == [] then None
    else if Asked(f, events[0]).Some? then Asked(f, events[0])
    else FirstAsked(f, events[1..])
  }

  /** The callbacks after the first well-formed connect, passed on to what it asked for. */
  function PassedSinceAsked(f: nat, events: seq<Event>): seq<Call>
    decreases |events|
  {
    if events == [] then []
    else if Asked(f, events[0]).Some? then Passed(f, Asked(f, events[0]).value, events[1..])
    else PassedSinceAsked(f, events[1..])
  }

  ghost predicate NotConnected(s: System, f: nat) { f in s.filters ==> s.filters[f] == Filter(false, ZEROED) }

  lemma StepUnlessAsked(s: System, e: Event, f: nat)
    requires s.cells.Valid() && e.Valid(s.filters.Keys) && NotConnected(s, f)
    ensures var t := Step(s, e);
            && CallsOf(f, t.calls) == CallsOf(f, s.calls)
            && (if Asked(f, e).Some? then f in t.filters && t.filters[f] == Filter(true, Asked(f, e).value)
                else NotConnected(t, f))
            && (f in s.filters ==> f in t.filters)
  {
    hide QueueLoop, DrainLoop;
    if e.Callback? {
      var calls := UpperCalls(s.filters[e.filter], e.begin, e.end, e.argument3);
      if calls == [] {
        assert s.calls + [] == s.calls;
      } else {
        CallsOfOne(f, s.calls, e.filter, calls[0]);
      }
    }
  }

  lemma {:induction false} ConnectedSinceAsked(s: System, events: seq<Event>, f: nat)
    requires s.cells.Valid() && ValidRun(s, events) && NotConnected(s, f)
    ensures var t, asked := Run(s, events), FirstAsked(f, events);
            && (asked.Some? ==> f in t.filters && t.filters[f] == Filter(true, asked.value))
            && (asked.None? ==> NotConnected(t, f))
            && CallsOf(f, t.calls) == CallsOf(f, s.calls) + PassedSinceAsked(f, events)
    decreases |events|
  {
    if events != [] {
      var e, next := events[0], Step(s, events[0]);
      RunUnfolds(s, events);
      StepUnlessAsked(s, e, f);
      hide Run, ValidRun, Passed, CallsOf, Step;
      if Asked(f, e).Some? {
        Transparent(next, events[1..], f);
      } else {
        ConnectedSinceAsked(next, events[1..], f);
      }
    }
  }

  /** A filter is connected if and only if some request for it was a well-formed connect, to what the first such request
      asked for; and the class driver has been called exactly for the callbacks since then, with their own arguments. */
  lemma ConnectedIffAsked(slots: seq<Record>, events: seq<Event>, f: nat)
    requires slots != [] && ValidRun(Loaded(slots), events) && f in Run(Loaded(slots), events).filters
    ensures var t, asked := Run(Loaded(slots), events), FirstAsked(f, events);
            && (t.filters[f].connected <==> asked.Some?)
            && (asked.Some? ==> t.filters[f].upper == asked.value)
            && CallsOf(f, t.calls) == PassedSinceAsked(f, events)
  {
    ConnectedSinceAsked(Loaded(slots), events, f);
  }

  /** How a connect is answered: a sharing violation once a well-formed connect has been made, an invalid parameter if
      it is not well formed, and otherwise by the lower driver, which is given the filter's own callback. */
  lemma ConnectIsAnswered(slots: seq<Record>, before: seq<Event>, e: Event)
    requires slots != [] && ValidRun(Loaded(slots), before)
    requires e.ConnectRequest? && e.Valid(Run(Loaded(slots), before).filters.Keys)
    ensures var f := e.filter;
            var (_, answer, sent) :=
              Connect(Run(Loaded(slots), before).filters[f], f, e.inputLength, e.data, e.below);
            && answer == (if FirstAsked(f, before).Some? then SharingViolation
                          else if Asked(f, e).None? then InvalidParameter else FromBelow(e.below))
            && sent == (if answer == FromBelow(e.below) then Some(ConnectData(f, FilterRoutine)) else None)
  {
    ConnectedSinceAsked(Loaded(slots), before, e.filter);
  }

  /** A connect that the filter accepts leaves it connected whatever the lower driver answers, so that the requester,
      even when told that its connect failed, can never connect again. */
  lemma RejectionBelowIsNotUndone(f: Filter, self: nat, inputLength: nat, data: Option<ConnectData>, below: int,
                                  length2: nat, data2: Option<ConnectData>, below2: int)
    requires Connect(f, self, inputLength, data, below).2.Some?
    ensures var (g, answer, _) := Connect(f, self, inputLength, data, below);
            && answer == FromBelow(below) && g == Filter(true, data.value)
            && Connect(g, self, length2, data2, below2) == (g, SharingViolation, None)
  {
  }
}
