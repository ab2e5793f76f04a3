/** Callbacks, drains and opens interleaved one loop iteration at a time.

Any number of threads run the three critical sections of the control extension. Starting, taking the lock, one loop
iteration and giving up the lock are separate steps, and any enabled step of any thread may come next. Every such run is
equivalent to running the operations one at a time in the order in which they took the lock. */
module Serialization {
  import opened Helpers
  import opened Records
  import opened KeyboardRing
  import opened KeyLedger

  type Thread = nat

  /** `done` counts loop iterations; `out` is what the thread has copied to its output buffer. */
  datatype Local =
    | Waiting(op: Event)
    | Critical(op: Event, done: nat, out: seq<Record>)
    | Finished(op: Event, out: seq<Record>)

  datatype Action = Start(thread: Thread, op: Event) | Acquire(thread: Thread) | Iterate(thread: Thread)
                  | Release(thread: Thread)

  /** `order` and `serial` only record which threads took the lock, in what order, to do what. */
  datatype Machine = Machine(cells: Cells, lock: Option<Thread>, threads: map<Thread, Local>,
                             order: seq<Thread>, serial: seq<Event>)

  ghost function Initial(slots: seq<Record>): Machine { Machine(Cells(slots, 0, 0), None, map[], [], []) }

  /** The loop conditions of the three critical sections; opening is a single assignment. */
  predicate LoopGoesOn(c: Cells, op: Event, done: nat) {
    match op
    case Queue(batch) => done < |batch|
    case Drain(bytes) => c.read != c.write && RECORD_BYTES * done + RECORD_BYTES <= bytes
    case Open => done == 0
  }

  predicate Enabled(m: Machine, a: Action) {
    var t := a.thread;
    match a
    case Start(_, _) => t !in m.threads
    case Acquire(_) => t in m.threads && m.threads[t].Waiting? && m.lock == None
    case Iterate(_) =>
      t in m.threads && m.threads[t].Critical? && LoopGoesOn(m.cells, m.threads[t].op, m.threads[t].done)
    case Release(_) =>
      t in m.threads && m.threads[t].Critical? && !LoopGoesOn(m.cells, m.threads[t].op, m.threads[t].done)
  }

  function Iteration(c: Cells, l: Local): (Cells, Local)
    requires c.Valid() && l.Critical? && LoopGoesOn(c, l.op, l.done)
  {
    match l.op
    case Queue(batch) => (c.Put(batch[l.done]), l.(done := l.done + 1))
    case Drain(bytes) => (c.Take(), l.(done := l.done + 1, out := l.out + [c.slots[c.read]]))
    case Open => (c.Reset(), l.(done := 1))
  }

  ghost function Apply(m: Machine, a: Action): Machine
    requires m.cells.Valid() && Enabled(m, a)
  {
    var t := a.thread;
    match a
    case Start(_, op) => m.(threads := m.threads[t := Waiting(op)])
    case Acquire(_) =>
      var op := m.threads[t].op;
      m.(lock := Some(t), threads := m.threads[t := Critical(op, 0, [])], order := m.order + [t],
         serial := m.serial + [op])
    case Iterate(_) =>
      var (cells, local) := Iteration(m.cells, m.threads[t]);
      m.(cells := cells, threads := m.threads[t := local])
    case Release(_) => m.(lock := None, threads := m.threads[t := Finished(m.threads[t].op, m.threads[t].out)])
  }

  /** The machine after a run; none if some step was not enabled. */
  ghost function Exec(m: Machine, actions: seq<Action>): Option<Machine>
    decreases |actions|
  {
    if actions == [] then Some(m)
    else if m.cells.Valid() && Enabled(m, actions[0]) then Exec(Apply(m, actions[0]), actions[1..])
    else None
  }

  // ---- The serial run ----

  const EMPTY_RING := Ring([], [])

  /** The ring before the i-th operation of the serial run. */
  function Before(m: Machine, i: nat): Ring
    requires i <= |m.serial| && m.cells.slots != []
  {
    Run(|m.cells.slots| - 1, EMPTY_RING, m.serial[..i])
  }

  lemma SerialExtends(m: Machine, op: Event)
    requires m.cells.slots != []
    ensures forall k: Machine, i |
              k.cells.slots == m.cells.slots && k.serial == m.serial + [op] && 0 <= i <= |m.serial| ::
              Before(k, i) == Before(m, i)
  {
    forall i | 0 <= i <= |m.serial| ensures (m.serial + [op])[..i] == m.serial[..i] {}
  }

  lemma NextStep(m: Machine, n: nat)
    requires m.cells.slots != [] && n < |m.serial|
    ensures Before(m, n + 1) == Step(|m.cells.slots| - 1, Before(m, n), m.serial[n])
  {
    var capacity, op := |m.cells.slots| - 1, m.serial[n];
    RunConcat(capacity, EMPTY_RING, m.serial[..n], [op]);
    assert m.serial[..n] + [op] == m.serial[..n + 1];
    assert Run(capacity, Before(m, n), [op]) == Run(capacity, Step(capacity, Before(m, n), op), []);
  }

  // ---- What the steps say ----

  /** Which threads took the lock, in order, read off the steps. */
  function Acquirers(actions: seq<Action>): seq<Thread>
    decreases |actions|
  {
    if actions == [] then []
    else (if actions[0].Acquire? then [actions[0].thread] else []) + Acquirers(actions[1..])
  }

  /** A step changes no operation of a thread that is there. */
  lemma StepKeepsOps(m: Machine, a: Action)
    requires m.cells.Valid() && Enabled(m, a)
    ensures forall t | t in m.threads :: t in Apply(m, a).threads && Apply(m, a).threads[t].op == m.threads[t].op
    ensures forall t | t in Apply(m, a).threads :: t in m.threads || (a.Start? && t == a.thread)
    ensures a.Start? ==> a.thread in Apply(m, a).threads && Apply(m, a).threads[a.thread].op == a.op
    ensures Apply(m, a).order == m.order + if a.Acquire? then [a.thread] else []
  {
    hide Cells.Put, Cells.Take, Cells.Reset;
  }

  lemma ExecUnfolds(m: Machine, actions: seq<Action>)
    requires Exec(m, actions).Some? && actions != []
    ensures m.cells.Valid() && Enabled(m, actions[0])
    ensures Exec(m, actions) == Exec(Apply(m, actions[0]), actions[1..])
  {
    hide Apply, Enabled;
  }

  lemma {:induction false} OperationsStay(m: Machine, actions: seq<Action>)
    requires Exec(m, actions).Some?
    ensures var k := Exec(m, actions).value;
            forall t | t in m.threads :: t in k.threads && k.threads[t].op == m.threads[t].op
    decreases |actions|
  {
    if actions != [] {
      ExecUnfolds(m, actions);
      StepKeepsOps(m, actions[0]);
      hide Exec, Apply, Enabled;
      OperationsStay(Apply(m, actions[0]), actions[1..]);
    }
  }

  /** Whatever is started is there, with the operation it was started with. */
  lemma {:induction false} StartedIsThere(m: Machine, actions: seq<Action>, i: nat)
    requires Exec(m, actions).Some? && i < |actions| && actions[i].Start?
    ensures var k := Exec(m, actions).value;
            actions[i].thread in k.threads && k.threads[actions[i].thread].op == actions[i].op
    decreases |actions|
  {
    ExecUnfolds(m, actions);
    StepKeepsOps(m, actions[0]);
    hide Exec, Apply, Enabled;
    if i == 0 {
      OperationsStay(Apply(m, actions[0]), actions[1..]);
    } else {
      StartedIsThere(Apply(m, actions[0]), actions[1..], i - 1);
    }
  }

  /** Whatever is there was there before or was started, with the operation it has. */
  lemma {:induction false} ThereWasStarted(m: Machine, actions: seq<Action>, t: Thread)
    requires Exec(m, actions).Some? && t in Exec(m, actions).value.threads && t !in m.threads
    ensures exists i :: 0 <= i < |actions| && actions[i] == Start(t, Exec(m, actions).value.threads[t].op)
    decreases |actions|
  {
    if actions != [] {
      var next := Apply(m, actions[0]);
      ExecUnfolds(m, actions);
      StepKeepsOps(m, actions[0]);
      hide Exec, Apply, Enabled;
      if t in next.threads {
        OperationsStay(next, actions[1..]);
        assert actions[0] == Start(t, Exec(m, actions).value.threads[t].op);
      } else {
        ThereWasStarted(next, actions[1..], t);
        var i :| 0 <= i < |actions[1..]| && actions[1..][i] == Start(t, Exec(m, actions).value.threads[t].op);
        assert actions[i + 1] == actions[1..][i];
      }
    }
  }

  /** The lock was taken as the steps say. */
  lemma {:induction false} OrderIsAcquirers(m: Machine, actions: seq<Action>)
    requires Exec(m, actions).Some?
    ensures Exec(m, actions).value.order == m.order + Acquirers(actions)
    decreases |actions|
  {
    if actions != [] {
      ExecUnfolds(m, actions);
      StepKeepsOps(m, actions[0]);
      AcquirersUnfold(m.order, actions);
      hide Exec, Apply, Enabled, Acquirers;
      OrderIsAcquirers(Apply(m, actions[0]), actions[1..]);
    }
  }

  lemma AcquirersUnfold(order: seq<Thread>, actions: seq<Action>)
    requires actions != []
    ensures order + (if actions[0].Acquire? then [actions[0].thread] else []) + Acquirers(actions[1..]) ==
            order + Acquirers(actions)
  {
  }

  /** Who does what is as the steps say: a thread that was started does what it was started with, there are no other
      threads, and the lock order is the order of the steps that took it. */
  lemma ThreadsAreTheStartedOnes(slots: seq<Record>, actions: seq<Action>)
    requires slots != [] && Exec(Initial(slots), actions).Some?
    ensures var m := Exec(Initial(slots), actions).value;
            && (forall i | 0 <= i < |actions| && actions[i].Start? ::
                  actions[i].thread in m.threads && m.threads[actions[i].thread].op == actions[i].op)
            && (forall t | t in m.threads :: exists i :: 0 <= i < |actions| && actions[i] == Start(t, m.threads[t].op))
            && m.order == Acquirers(actions)
  {
    var m := Exec(Initial(slots), actions).value;
    assert Initial(slots).threads == map[] && Initial(slots).order == [];
    hide Exec, Initial;
    OrderIsAcquirers(Initial(slots), actions);
    forall i | 0 <= i < |actions| && actions[i].Start?
      ensures actions[i].thread in m.threads && m.threads[actions[i].thread].op == actions[i].op
    {
      StartedIsThere(Initial(slots), actions, i);
    }
    forall t | t in m.threads ensures exists i :: 0 <= i < |actions| && actions[i] == Start(t, m.threads[t].op) {
      ThereWasStarted(Initial(slots), actions, t);
    }
  }

  // ---- The invariant ----

  ghost predicate OrderOk(m: Machine) {
    && |m.order| == |m.serial|
    && (forall i, j | 0 <= i < j < |m.order| :: m.order[i] != m.order[j])
    && (forall t | t in m.order :: t in m.threads && !m.threads[t].Waiting?)
    && (forall t | t in m.threads && !m.threads[t].Waiting? :: t in m.order)
    && (forall i | 0 <= i < |m.order| :: m.threads[m.order[i]].op == m.serial[i])
  }

  ghost predicate LockOk(m: Machine) {
    && (forall t | t in m.threads && m.threads[t].Critical? :: m.lock == Some(t))
    && (m.lock.Some? ==> m.order != [] && m.order[|m.order| - 1] == m.lock.value &&
                         m.lock.value in m.threads && m.threads[m.lock.value].Critical?)
  }

  /** Finished operations returned what they return in the serial run. */
  ghost predicate OutputsOk(m: Machine)
    requires m.cells.slots != [] && OrderOk(m)
  {
    forall i | 0 <= i < |m.order| && m.threads[m.order[i]].Finished? ::
      m.threads[m.order[i]].out == Output(Before(m, i), m.serial[i])
  }

  /** What a critical section that began with `before` pending has made of the ring so far. */
  ghost predicate Partial(c: Cells, before: seq<Record>, l: Local)
    requires c.Valid() && l.Critical?
  {
    match l.op
    case Queue(batch) =>
      l.done <= |batch| && l.out == [] && c.Contents() == Enqueue(|c.slots| - 1, before, batch[..l.done])
    case Drain(bytes) =>
      && l.done <= |before| && RECORD_BYTES * l.done <= bytes
      && l.out == before[..l.done] && c.Contents() == before[l.done..]
    case Open =>
      l.done <= 1 && l.out == [] && c.Contents() == if l.done == 0 then before else []
  }

  ghost predicate RingOk(m: Machine)
    requires m.cells.Valid() && OrderOk(m) && LockOk(m)
  {
    if m.lock == None then m.cells.Contents() == Before(m, |m.serial|).pending
    else Partial(m.cells, Before(m, |m.serial| - 1).pending, m.threads[m.lock.value])
  }

  ghost predicate Invariant(m: Machine) {
    m.cells.Valid() && OrderOk(m) && LockOk(m) && OutputsOk(m) && RingOk(m)
  }

  // ---- One critical section, iteration by iteration ----

  lemma PartialBegins(c: Cells, op: Event)
    requires c.Valid()
    ensures Partial(c, c.Contents(), Critical(op, 0, []))
  {
  }

  lemma PartialQueueContinues(c: Cells, before: seq<Record>, l: Local)
    requires c.Valid() && l.Critical? && l.op.Queue? && Partial(c, before, l) && LoopGoesOn(c, l.op, l.done)
    ensures var (d, k) := Iteration(c, l);
            d.Valid() && |d.slots| == |c.slots| && k.Critical? && k.op == l.op && Partial(d, before, k)
  {
    hide Cells.Put, Cells.Contents, LastOf;
    QueueContinues(c, before, l.op.batch, l.done);
  }

  lemma PartialDrainContinues(c: Cells, before: seq<Record>, l: Local)
    requires c.Valid() && l.Critical? && l.op.Drain? && Partial(c, before, l) && LoopGoesOn(c, l.op, l.done)
    ensures var (d, k) := Iteration(c, l);
            d.Valid() && |d.slots| == |c.slots| && k.Critical? && k.op == l.op && Partial(d, before, k)
  {
    DrainContinues(c, before, l.done);
  }

  lemma PartialOpenContinues(c: Cells, before: seq<Record>, l: Local)
    requires c.Valid() && l.Critical? && l.op.Open? && Partial(c, before, l) && LoopGoesOn(c, l.op, l.done)
    ensures var (d, k) := Iteration(c, l);
            d.Valid() && |d.slots| == |c.slots| && k.Critical? && k.op == l.op && Partial(d, before, k)
  {
  }

  lemma PartialContinues(c: Cells, before: seq<Record>, l: Local)
    requires c.Valid() && l.Critical? && Partial(c, before, l) && LoopGoesOn(c, l.op, l.done)
    ensures var (d, k) := Iteration(c, l);
            d.Valid() && |d.slots| == |c.slots| && k.Critical? && k.op == l.op && Partial(d, before, k)
  {
    match l.op
    case Queue(_) => PartialQueueContinues(c, before, l);
    case Drain(_) => PartialDrainContinues(c, before, l);
    case Open => PartialOpenContinues(c, before, l);
  }

  lemma PartialEnds(c: Cells, s: Ring, l: Local)
    requires c.Valid() && l.Critical? && Partial(c, s.pending, l) && !LoopGoesOn(c, l.op, l.done)
    ensures c.Contents() == Step(|c.slots| - 1, s, l.op).pending
    ensures l.out == Output(s, l.op)
  {
    if l.op.Queue? {
      assert l.op.batch[..l.done] == l.op.batch;
    }
  }

  // ---- Every step keeps the invariant ----

  lemma InvariantInitially(slots: seq<Record>)
    requires slots != []
    ensures Invariant(Initial(slots))
  {
  }

  lemma StartKeeps(m: Machine, a: Action)
    requires Invariant(m) && Enabled(m, a) && a.Start?
    ensures Invariant(Apply(m, a))
  {
    hide Output, Cells.Contents, Partial, Run;
    var k := Apply(m, a);
    assert k.cells == m.cells && k.serial == m.serial && k.order == m.order;
    assert OrderOk(k) && LockOk(k);
    assert forall i | 0 <= i <= |m.serial| :: Before(k, i) == Before(m, i);
    assert OutputsOk(k);
  }

  lemma AcquireKeepsOrder(m: Machine, a: Action)
    requires Invariant(m) && Enabled(m, a) && a.Acquire?
    ensures OrderOk(Apply(m, a)) && LockOk(Apply(m, a))
  {
    hide OutputsOk, RingOk;
  }

  lemma AcquireKeepsOutputs(m: Machine, a: Action)
    requires Invariant(m) && Enabled(m, a) && a.Acquire? && OrderOk(Apply(m, a))
    ensures OutputsOk(Apply(m, a))
  {
    hide RingOk, LockOk, Output, Before;
    SerialExtends(m, m.threads[a.thread].op);
    var k := Apply(m, a);
    forall i | 0 <= i < |k.order| && k.threads[k.order[i]].Finished?
      ensures k.threads[k.order[i]].out == Output(Before(k, i), k.serial[i])
    {
      assert i < |m.order| && k.order[i] == m.order[i] && k.threads[k.order[i]] == m.threads[m.order[i]];
    }
  }

  lemma AcquireKeeps(m: Machine, a: Action)
    requires Invariant(m) && Enabled(m, a) && a.Acquire?
    ensures Invariant(Apply(m, a))
  {
    AcquireKeepsOrder(m, a);
    AcquireKeepsOutputs(m, a);
    hide Output, Cells.Contents, Partial, OrderOk, OutputsOk, Before;
    SerialExtends(m, m.threads[a.thread].op);
    PartialBegins(m.cells, m.threads[a.thread].op);
  }

  lemma IterateKeepsOrder(m: Machine, a: Action)
    requires Invariant(m) && Enabled(m, a) && a.Iterate?
    ensures OrderOk(Apply(m, a)) && LockOk(Apply(m, a)) && |m.serial| > 0
    ensures m.lock == Apply(m, a).lock == Some(a.thread) && m.serial == Apply(m, a).serial
  {
    hide OutputsOk, RingOk, Cells.Put, Cells.Take, Cells.Reset;
  }

  lemma IterateKeepsOutputs(m: Machine, a: Action)
    requires Invariant(m) && Enabled(m, a) && a.Iterate?
    requires Apply(m, a).cells.Valid() && |Apply(m, a).cells.slots| == |m.cells.slots| && OrderOk(Apply(m, a))
    ensures OutputsOk(Apply(m, a))
  {
    hide RingOk, LockOk, Output, Run, Cells.Put, Cells.Take, Cells.Reset;
    var k := Apply(m, a);
    forall i | 0 <= i < |k.order| && k.threads[k.order[i]].Finished?
      ensures k.threads[k.order[i]].out == Output(Before(k, i), k.serial[i])
    {
      assert Before(k, i) == Before(m, i);
    }
  }

  lemma IterateKeepsRing(m: Machine, a: Action)
    requires Invariant(m) && Enabled(m, a) && a.Iterate? && OrderOk(Apply(m, a)) && LockOk(Apply(m, a))
    requires |m.serial| > 0 && m.lock == Apply(m, a).lock == Some(a.thread) && m.serial == Apply(m, a).serial
    ensures Apply(m, a).cells.Valid() && |Apply(m, a).cells.slots| == |m.cells.slots| && RingOk(Apply(m, a))
  {
    hide OutputsOk, OrderOk, Iteration, Partial, Run;
    PartialContinues(m.cells, Before(m, |m.serial| - 1).pending, m.threads[a.thread]);
  }

  lemma IterateKeeps(m: Machine, a: Action)
    requires Invariant(m) && Enabled(m, a) && a.Iterate?
    ensures Invariant(Apply(m, a))
  {
    IterateKeepsOrder(m, a);
    IterateKeepsRing(m, a);
    IterateKeepsOutputs(m, a);
    hide OrderOk, LockOk, OutputsOk, RingOk, Apply, Cells.Valid;
  }

  lemma ReleaseKeepsOrder(m: Machine, a: Action)
    requires Invariant(m) && Enabled(m, a) && a.Release?
    ensures OrderOk(Apply(m, a)) && LockOk(Apply(m, a)) && m.order[|m.order| - 1] == a.thread
  {
    hide OutputsOk, RingOk;
  }

  lemma ReleaseKeepsRing(m: Machine, a: Action)
    requires Invariant(m) && Enabled(m, a) && a.Release?
    ensures var n := |m.serial|;
            && n > 0 && m.cells.Contents() == Before(m, n).pending
            && m.threads[a.thread].out == Output(Before(m, n - 1), m.serial[n - 1])
  {
    hide Output;
    PartialEnds(m.cells, Before(m, |m.serial| - 1), m.threads[a.thread]);
    NextStep(m, |m.serial| - 1);
  }

  lemma ReleaseKeepsOutputs(m: Machine, a: Action)
    requires Invariant(m) && Enabled(m, a) && a.Release? && OrderOk(Apply(m, a))
    requires var n := |m.serial|;
             n > 0 && m.order[n - 1] == a.thread && m.threads[a.thread].out == Output(Before(m, n - 1), m.serial[n - 1])
    ensures OutputsOk(Apply(m, a))
  {
    hide RingOk, LockOk, Output, Run;
    var k := Apply(m, a);
    forall i | 0 <= i < |k.order| && k.threads[k.order[i]].Finished?
      ensures k.threads[k.order[i]].out == Output(Before(k, i), k.serial[i])
    {
      assert Before(k, i) == Before(m, i);
      if i < |m.order| - 1 {
        assert k.threads[k.order[i]] == m.threads[m.order[i]];
      }
    }
  }

  lemma ReleaseKeeps(m: Machine, a: Action)
    requires Invariant(m) && Enabled(m, a) && a.Release?
    ensures Invariant(Apply(m, a))
  {
    ReleaseKeepsOrder(m, a);
    ReleaseKeepsRing(m, a);
    ReleaseKeepsOutputs(m, a);
    hide Output, Cells.Contents, Partial, OrderOk, LockOk, OutputsOk, Run;
    assert Before(Apply(m, a), |m.serial|) == Before(m, |m.serial|);
  }

  lemma StepKeeps(m: Machine, a: Action)
    requires Invariant(m) && Enabled(m, a)
    ensures Invariant(Apply(m, a))
  {
    match a
    case Start(_, _) => StartKeeps(m, a);
    case Acquire(_) => AcquireKeeps(m, a);
    case Iterate(_) => IterateKeeps(m, a);
    case Release(_) => ReleaseKeeps(m, a);
  }

  lemma {:induction false} InvariantAlways(m: Machine, actions: seq<Action>)
    requires Invariant(m) && Exec(m, actions).Some?
    ensures Invariant(Exec(m, actions).value)
    ensures m.order <= Exec(m, actions).value.order
    decreases |actions|
  {
    if actions != [] {
      StepKeeps(m, actions[0]);
      InvariantAlways(Apply(m, actions[0]), actions[1..]);
    }
  }

  /** Every interleaving is serial in lock order, the serial run being that of the operations the threads were started
      with, in the order in which the steps took the lock: at most one critical section is active; whenever the lock is
      free the ring holds what the serial run leaves; every finished operation, in particular every drain, returned
      what it returns there. */
  lemma InterleavingsAreSerial(slots: seq<Record>, actions: seq<Action>)
    requires slots != [] && Exec(Initial(slots), actions).Some?
    ensures var m := Exec(Initial(slots), actions).value;
            var capacity := |slots| - 1;
            && (forall i | 0 <= i < |actions| && actions[i].Start? ::
                  actions[i].thread in m.threads && m.threads[actions[i].thread].op == actions[i].op)
            && (forall t | t in m.threads :: exists i :: 0 <= i < |actions| && actions[i] == Start(t, m.threads[t].op))
            && m.order == Acquirers(actions) && |m.order| == |m.serial|
            && (forall i | 0 <= i < |m.order| ::
                  m.order[i] in m.threads && m.serial[i] == m.threads[m.order[i]].op)
            && m.cells.Valid() && |m.cells.slots| == |slots|
            && (forall i, j | 0 <= i < j < |m.order| :: m.order[i] != m.order[j])
            && (forall t, u | t in m.threads && u in m.threads &&
                              m.threads[t].Critical? && m.threads[u].Critical? :: t == u)
            && (m.lock == None ==> m.cells.Contents() == Run(capacity, EMPTY_RING, m.serial).pending)
            && (forall t | t in m.threads && m.threads[t].Finished? ::
                  exists i :: 0 <= i < |m.order| && m.order[i] == t && m.serial[i] == m.threads[t].op &&
                              m.threads[t].out == Output(Run(capacity, EMPTY_RING, m.serial[..i]), m.serial[i]))
  {
    hide Output, Exec, Run, Acquirers, OrderOk, LockOk, OutputsOk, RingOk, Cells.Contents;
    InvariantInitially(slots);
    InvariantAlways(Initial(slots), actions);
    SlotsKept(Initial(slots), actions);
    ThreadsAreTheStartedOnes(slots, actions);
    InvariantIsSerial(Exec(Initial(slots), actions).value);
  }

  /** What the invariant says of the serial run. */
  lemma InvariantIsSerial(m: Machine)
    requires Invariant(m)
    ensures var capacity := |m.cells.slots| - 1;
            && |m.order| == |m.serial|
            && (forall i | 0 <= i < |m.order| ::
                  m.order[i] in m.threads && m.serial[i] == m.threads[m.order[i]].op)
            && (forall i, j | 0 <= i < j < |m.order| :: m.order[i] != m.order[j])
            && (forall t, u | t in m.threads && u in m.threads &&
                              m.threads[t].Critical? && m.threads[u].Critical? :: t == u)
            && (m.lock == None ==> m.cells.Contents() == Run(capacity, EMPTY_RING, m.serial).pending)
            && (forall t | t in m.threads && m.threads[t].Finished? ::
                  exists i :: 0 <= i < |m.order| && m.order[i] == t && m.serial[i] == m.threads[t].op &&
                              m.threads[t].out == Output(Run(capacity, EMPTY_RING, m.serial[..i]), m.serial[i]))
  {
    hide Output, Cells.Contents, Partial, Run;
    assert m.serial[..|m.serial|] == m.serial;
    forall t | t in m.threads && m.threads[t].Finished?
      ensures exists i :: 0 <= i < |m.order| && m.order[i] == t && m.serial[i] == m.threads[t].op &&
                          m.threads[t].out == Output(Run(|m.cells.slots| - 1, EMPTY_RING, m.serial[..i]), m.serial[i])
    {
      var i :| 0 <= i < |m.order| && m.order[i] == t;
      assert m.threads[m.order[i]].out == Output(Before(m, i), m.serial[i]);
    }
  }

  /** The first n threads to take the lock are there and have taken it. */
  ghost predicate HaveOutputs(m: Machine, n: nat) {
    n <= |m.order| && forall i | 0 <= i < n :: m.order[i] in m.threads && !m.threads[m.order[i]].Waiting?
  }

  /** What the first n operations to take the lock have copied out, in lock order. */
  ghost function Received(m: Machine, n: nat): seq<Record>
    requires HaveOutputs(m, n)
  {
    if n == 0 then [] else Received(m, n - 1) + m.threads[m.order[n - 1]].out
  }

  lemma {:induction false} ReceivedIsDelivered(m: Machine, n: nat)
    requires Invariant(m) && m.lock == None && n <= |m.order|
    ensures Received(m, n) == Before(m, n).delivered
  {
    hide RingOk, Before, Output, KeyLedger.Step;
    if n == 0 {
      NothingYet(m);
    } else {
      ReceivedIsDelivered(m, n - 1);
      NextStep(m, n - 1);
      assert m.threads[m.order[n - 1]].Finished?;
      StepDelivers(|m.cells.slots| - 1, Before(m, n - 1), m.serial[n - 1]);
    }
  }

  lemma NothingYet(m: Machine)
    requires m.cells.slots != []
    ensures Before(m, 0) == EMPTY_RING
  {
  }

  lemma StepDelivers(capacity: nat, s: Ring, e: Event)
    ensures Step(capacity, s, e).delivered == s.delivered + Output(s, e)
  {
  }

  /** Conservation under every interleaving: whenever the lock is free, the arrivals are what the queueing threads
      brought, in lock order; the ring holds the last of them; each other one has one fate; and what the draining
      threads hold in their buffers, put together in lock order, is exactly the drained ones, each once. */
  lemma InterleavingsConserve(slots: seq<Record>, actions: seq<Action>)
    requires slots != [] && Exec(Initial(slots), actions).Some? && Exec(Initial(slots), actions).value.lock == None
    ensures var m := Exec(Initial(slots), actions).value;
            var l := AccountAll(|slots| - 1, EMPTY_LEDGER, m.serial);
            && l.history == Arrivals(m.serial) && m.cells.Valid() && m.cells.Contents() == l.Pending()
            && (forall t | t in m.order :: t in m.threads && m.threads[t].Finished?)
            && Received(m, |m.order|) == Select(l.history, l.settled, Drained)
            && |Received(m, |m.order|)| + Count(l.settled, Overwritten) + Count(l.settled, Discarded) +
                 |m.cells.Contents()| == |Arrivals(m.serial)|
  {
    hide Exec, Run, Account, AccountAll, Cells.Contents, Count, Arrivals, Received, RingOk, OutputsOk;
    InvariantInitially(slots);
    InvariantAlways(Initial(slots), actions);
    SlotsKept(Initial(slots), actions);
    Conserves(Exec(Initial(slots), actions).value);
  }

  lemma Conserves(m: Machine)
    requires Invariant(m) && m.lock == None
    ensures var l := AccountAll(|m.cells.slots| - 1, EMPTY_LEDGER, m.serial);
            && l.history == Arrivals(m.serial) && m.cells.Contents() == l.Pending()
            && (forall t | t in m.order :: t in m.threads && m.threads[t].Finished?)
            && Received(m, |m.order|) == Select(l.history, l.settled, Drained)
            && |Received(m, |m.order|)| + Count(l.settled, Overwritten) + Count(l.settled, Discarded) +
                 |m.cells.Contents()| == |Arrivals(m.serial)|
  {
    hide Run, AccountAll, Cells.Contents, Count, Arrivals, Received;
    assert m.serial[..|m.serial|] == m.serial;
    ReceivedIsDelivered(m, |m.order|);
    Conservation(|m.cells.slots| - 1, m.serial);
    AgreeAlways(|m.cells.slots| - 1, EMPTY_RING, EMPTY_LEDGER, m.serial);
  }

  lemma {:induction false} SlotsKept(m: Machine, actions: seq<Action>)
    requires Exec(m, actions).Some?
    ensures |Exec(m, actions).value.cells.slots| == |m.cells.slots|
    decreases |actions|
  {
    if actions != [] {
      SlotsKept(Apply(m, actions[0]), actions[1..]);
    }
  }

  /** The serial order respects real time: an operation that finished before another one started comes first. */
  lemma SerialOrderIsRealTime(slots: seq<Record>, first: seq<Action>, more: seq<Action>, t: Thread, u: Thread)
    requires slots != [] && Exec(Initial(slots), first).Some?
    requires var m := Exec(Initial(slots), first).value;
             Exec(m, more).Some? && t in m.threads && m.threads[t].Finished? && u !in m.threads &&
             u in Exec(m, more).value.order
    ensures var k := Exec(Exec(Initial(slots), first).value, more).value;
            exists i, j :: 0 <= i < j < |k.order| && k.order[i] == t && k.order[j] == u
  {
    hide Exec, LockOk, OutputsOk, RingOk;
    var m := Exec(Initial(slots), first).value;
    InvariantInitially(slots);
    InvariantAlways(Initial(slots), first);
    InvariantAlways(m, more);
    var k := Exec(m, more).value;
    var i :| 0 <= i < |m.order| && m.order[i] == t;
    var j :| 0 <= j < |k.order| && k.order[j] == u;
    assert forall x | 0 <= x < |m.order| :: m.order[x] in m.order && k.order[x] == m.order[x];
  }

  /** No reachable state is stuck: an unfinished thread means that some lock holder or waiter can take a step. */
  lemma NoDeadlock(slots: seq<Record>, actions: seq<Action>, t: Thread)
    requires slots != [] && Exec(Initial(slots), actions).Some?
    requires var m := Exec(Initial(slots), actions).value; t in m.threads && !m.threads[t].Finished?
    ensures var m := Exec(Initial(slots), actions).value;
            exists a: Action :: !a.Start? && a.thread in m.threads && Enabled(m, a)
  {
    InvariantInitially(slots);
    InvariantAlways(Initial(slots), actions);
    var m := Exec(Initial(slots), actions).value;
    if m.lock == None {
      assert Enabled(m, Acquire(t));
    } else {
      var u := m.lock.value;
      assert Enabled(m, Iterate(u)) || Enabled(m, Release(u));
    }
  }

  // ---- Every run ends ----

  /** A bound on the steps a thread still has to take. */
  function Cost(l: Local): nat {
    match l
    case Waiting(op) => 2 + Iterations(op)
    case Critical(op, done, _) => 1 + (if done < Iterations(op) then Iterations(op) - done else 0)
    case Finished(_, _) => 0
  }

  /** A bound on the iterations of an operation's loop. */
  function Iterations(op: Event): nat {
    match op
    case Queue(batch) => |batch|
    case Drain(bytes) => bytes / RECORD_BYTES
    case Open => 1
  }

  ghost function Total(threads: map<Thread, Local>, some: set<Thread>): nat
    requires some <= threads.Keys
  {
    if some == {} then 0
    else
      var t :| t in some;
      Cost(threads[t]) + Total(threads, some - {t})
  }

  lemma {:induction false} TotalSplits(threads: map<Thread, Local>, some: set<Thread>, t: Thread)
    requires some <= threads.Keys && t in some
    ensures Total(threads, some) == Cost(threads[t]) + Total(threads, some - {t})
    decreases |some|
  {
    hide Cost;
    var u :| u in some && Total(threads, some) == Cost(threads[u]) + Total(threads, some - {u});
    if u != t {
      TotalSplits(threads, some - {u}, t);
      TotalSplits(threads, some - {t}, u);
      assert some - {u} - {t} == some - {t} - {u};
    }
  }

  lemma {:induction false} TotalIgnores(threads: map<Thread, Local>, some: set<Thread>, t: Thread, l: Local)
    requires some <= threads.Keys && t !in some
    ensures Total(threads[t := l], some) == Total(threads, some)
    decreases |some|
  {
    hide Cost;
    if some != {} {
      var u :| u in some;
      TotalSplits(threads, some, u);
      TotalSplits(threads[t := l], some, u);
      TotalIgnores(threads, some - {u}, t, l);
    }
  }

  ghost function Measure(m: Machine): nat { Total(m.threads, m.threads.Keys) }

  /** Taking the lock, iterating and giving up the lock each bring the thread closer to its end. */
  lemma CostFalls(m: Machine, a: Action)
    requires m.cells.Valid() && Enabled(m, a) && !a.Start?
    ensures Apply(m, a).threads.Keys == m.threads.Keys
    ensures Apply(m, a).threads == m.threads[a.thread := Apply(m, a).threads[a.thread]]
    ensures Cost(Apply(m, a).threads[a.thread]) < Cost(m.threads[a.thread])
  {
    hide Cells.Put, Cells.Take, Cells.Reset;
  }

  lemma MeasureFalls(m: Machine, a: Action)
    requires m.cells.Valid() && Enabled(m, a) && !a.Start?
    ensures Measure(Apply(m, a)) < Measure(m)
  {
    CostFalls(m, a);
    hide Cost, Apply, Enabled;
    var k, t := Apply(m, a), a.thread;
    TotalSplits(m.threads, m.threads.Keys, t);
    TotalSplits(k.threads, k.threads.Keys, t);
    TotalIgnores(m.threads, m.threads.Keys - {t}, t, k.threads[t]);
  }

  /** Steps that start no thread use up the measure, so only boundedly many can follow each other. */
  lemma {:induction false} RunsAreBounded(m: Machine, actions: seq<Action>)
    requires Exec(m, actions).Some? && forall i | 0 <= i < |actions| :: !actions[i].Start?
    ensures |actions| + Measure(Exec(m, actions).value) <= Measure(m)
    decreases |actions|
  {
    if actions != [] {
      MeasureFalls(m, actions[0]);
      RunsAreBounded(Apply(m, actions[0]), actions[1..]);
    }
  }

  /** Once no more threads start, every run is finite, and it can only stop when all threads have finished: from any
      reachable state a run without starts has at most `Measure` steps, and if no step is enabled any more then every
      thread has returned. */
  lemma EveryThreadFinishes(slots: seq<Record>, first: seq<Action>, more: seq<Action>)
    requires slots != [] && Exec(Initial(slots), first).Some?
    requires forall i | 0 <= i < |more| :: !more[i].Start?
    requires Exec(Exec(Initial(slots), first).value, more).Some?
    ensures var m := Exec(Initial(slots), first).value;
            var k := Exec(m, more).value;
            && |more| <= Measure(m)
            && ((forall a: Action | !a.Start? :: !Enabled(k, a)) ==>
                forall t | t in k.threads :: k.threads[t].Finished?)
  {
    var m := Exec(Initial(slots), first).value;
    RunsAreBounded(m, more);
    ExecConcat(Initial(slots), first, more);
    var k := Exec(m, more).value;
    if forall a: Action | !a.Start? :: !Enabled(k, a) {
      forall t | t in k.threads ensures k.threads[t].Finished? {
        if !k.threads[t].Finished? {
          NoDeadlock(slots, first + more, t);
        }
      }
    }
  }

  lemma {:induction false} ExecConcat(m: Machine, a: seq<Action>, b: seq<Action>)
    requires Exec(m, a).Some?
    ensures Exec(m, a + b) == Exec(Exec(m, a).value, b)
    decreases |a|
  {
    if a == [] {
      assert a + b == b;
    } else {
      assert (a + b)[1..] == a[1..] + b;
      ExecConcat(Apply(m, a[0]), a[1..], b);
    }
  }

  // ---- Every serial run happens ----

  lemma {:induction false} ExecOne(m: Machine, a: Action)
    requires m.cells.Valid() && Enabled(m, a)
    ensures Exec(m, [a]) == Some(Apply(m, a))
  {
    assert [a][1..] == [];
  }

  /** A lock holder that keeps stepping comes to its end and gives up the lock. */
  lemma {:induction false} HolderFinishes(m: Machine) returns (actions: seq<Action>)
    requires Invariant(m) && m.lock.Some?
    ensures Exec(m, actions).Some?
    ensures var k := Exec(m, actions).value;
            && k.lock == None && k.serial == m.serial && k.threads.Keys == m.threads.Keys
            && k.threads[m.lock.value].Finished?
            && forall u | u in m.threads && u != m.lock.value :: k.threads[u] == m.threads[u]
    decreases Cost(m.threads[m.lock.value])
  {
    var t := m.lock.value;
    var a := if LoopGoesOn(m.cells, m.threads[t].op, m.threads[t].done) then Iterate(t) else Release(t);
    StepKeeps(m, a);
    CostFalls(m, a);
    ExecOne(m, a);
    hide Exec, Invariant, Cost, Iteration;
    if a.Release? {
      actions := [a];
    } else {
      var more := HolderFinishes(Apply(m, a));
      actions := [a] + more;
      ExecConcat(m, [a], more);
    }
  }

  lemma NewThreadTakesTheLock(m: Machine, t: Thread, op: Event) returns (k: Machine)
    requires Invariant(m) && m.lock == None && t !in m.threads
    ensures Exec(m, [Start(t, op)] + [Acquire(t)]) == Some(k) && Invariant(k)
    ensures k.lock == Some(t) && k.serial == m.serial + [op] && k.threads == m.threads[t := Critical(op, 0, [])]
  {
    hide Exec, OrderOk, LockOk, OutputsOk, RingOk;
    var start, acquire := Start(t, op), Acquire(t);
    StepKeeps(m, start);
    ExecOne(m, start);
    var one := Apply(m, start);
    StepKeeps(one, acquire);
    ExecOne(one, acquire);
    k := Apply(one, acquire);
    ExecConcat(m, [start], [acquire]);
  }

  /** A new thread can run an operation from start to finish whenever the lock is free. */
  lemma NextOperationRuns(m: Machine, t: Thread, op: Event) returns (actions: seq<Action>)
    requires Invariant(m) && m.lock == None && t !in m.threads
    ensures Exec(m, actions).Some?
    ensures var k := Exec(m, actions).value;
            && Invariant(k) && k.lock == None && k.serial == m.serial + [op]
            && k.threads.Keys == m.threads.Keys + {t} && k.threads[t].Finished?
            && forall u | u in m.threads :: k.threads[u] == m.threads[u]
  {
    hide Exec, Invariant, Apply, Enabled;
    var first := [Start(t, op)] + [Acquire(t)];
    var two := NewThreadTakesTheLock(m, t, op);
    var more := HolderFinishes(two);
    ExecConcat(m, first, more);
    actions := first + more;
    InvariantAlways(m, actions);
  }

  /** Nothing is ruled out: every sequence of operations is the serial run of some interleaving, in which every thread
      has finished. So what is proved of all interleavings is proved of every serial run too. */
  lemma {:induction false} EverySerialRunHappens(slots: seq<Record>, events: seq<Event>) returns (actions: seq<Action>)
    requires slots != []
    ensures Exec(Initial(slots), actions).Some?
    ensures var m := Exec(Initial(slots), actions).value;
            && Invariant(m) && m.lock == None && m.serial == events
            && forall t | t in m.threads :: t < |events| && m.threads[t].Finished?
    decreases |events|
  {
    if events == [] {
      actions := [];
      InvariantInitially(slots);
    } else {
      var n := |events| - 1;
      var first := EverySerialRunHappens(slots, events[..n]);
      var m := Exec(Initial(slots), first).value;
      hide Exec, Invariant, Initial;
      var more := NextOperationRuns(m, n, events[n]);
      ExecConcat(Initial(slots), first, more);
      actions := first + more;
      var k := Exec(Initial(slots), actions).value;
      forall t | t in k.threads ensures t < |events| && k.threads[t].Finished? {
        assert t in k.threads.Keys;
      }
    }
  }
}
