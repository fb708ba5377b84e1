/** Injector::insert_content: a queue of entries of which at most eight are being added at a time. */
module InjectorQueue {
  const CONCURRENCY: nat := 8

  /** An entry; its callback is known by the number of entries submitted before it. */
  datatype InsertEntry = InsertEntry(key: string, value: string, ticket: nat)

  /** adds are the outstanding backend adds, spawned the coroutines that have not begun, updating
      those that wait for the database. submitted, started, called and dropped record the entries
      handed in, handed to the backend, called back, and given up by the destructor. */
  datatype Machine = Machine(
    alive: bool, queue: seq<InsertEntry>, jobs: int, adds: seq<InsertEntry>, spawned: seq<InsertEntry>,
    updating: seq<InsertEntry>, submitted: seq<InsertEntry>, started: seq<InsertEntry>,
    called: seq<InsertEntry>, dropped: seq<InsertEntry>)

  datatype Event =
    | Insert(key: string, value: string)
    | AddDone(i: nat, ok: bool)
    | Begin(i: nat)
    | UpdateDone(i: nat)
    | Destroy

  const START := Machine(true, [], 0, [], [], [], [], [], [], [])

  predicate Enabled(m: Machine, e: Event) {
    match e
    case Insert(_, _) => m.alive
    case AddDone(i, _) => i < |m.adds|
    case Begin(i) => i < |m.spawned|
    case UpdateDone(i) => i < |m.updating|
    case Destroy => m.alive
  }

  function Without(s: seq<InsertEntry>, i: nat): seq<InsertEntry>
    requires i < |s|
  {
    s[..i] + s[i + 1..]
  }

  /** Injector::insert_content_from_queue. */
  function FromQueue(m: Machine): Machine {
    if m.queue == [] then m
    else m.(queue := m.queue[1..], jobs := m.jobs + 1,
            adds := m.adds + [m.queue[0]], started := m.started + [m.queue[0]])
  }

  /** Injector::insert_content. */
  function StepInsert(m: Machine, key: string, value: string): Machine {
    var e := InsertEntry(key, value, |m.submitted|);
    var m' := m.(queue := m.queue + [e], submitted := m.submitted + [e]);
    if m'.jobs >= CONCURRENCY then m' else FromQueue(m')
  }

  /** The completion of an add: the next entry is started before anything is done about this one. */
  function StepAddDone(m: Machine, i: nat, ok: bool): Machine
    requires i < |m.adds|
  {
    var e := m.adds[i];
    var m' := m.(adds := Without(m.adds, i));
    if !m.alive then m'.(dropped := m.dropped + [e])
    else
      var next := FromQueue(m'.(jobs := m.jobs - 1));
      if ok then next.(spawned := next.spawned + [e]) else next.(called := next.called + [e])
  }

  /** A spawned coroutine begins its update. */
  function StepBegin(m: Machine, i: nat): Machine
    requires i < |m.spawned|
  {
    var m' := m.(spawned := Without(m.spawned, i));
    if m.alive then m'.(updating := m.updating + [m.spawned[i]])
    else m'.(dropped := m.dropped + [m.spawned[i]])
  }

  function StepUpdateDone(m: Machine, i: nat): Machine
    requires i < |m.updating|
  {
    m.(updating := Without(m.updating, i), called := m.called + [m.updating[i]])
  }

  /** The destructor; the queue goes with the object. */
  function StepDestroy(m: Machine): Machine {
    m.(alive := false, queue := [], dropped := m.dropped + m.queue)
  }

  function Step(m: Machine, e: Event): Machine
    requires Enabled(m, e)
  {
    match e
    case Insert(k, v) => StepInsert(m, k, v)
    case AddDone(i, ok) => StepAddDone(m, i, ok)
    case Begin(i) => StepBegin(m, i)
    case UpdateDone(i) => StepUpdateDone(m, i)
    case Destroy => StepDestroy(m)
  }

  predicate ValidRun(m: Machine, es: seq<Event>)
    decreases |es|
  {
    es == [] || (Enabled(m, es[0]) && ValidRun(Step(m, es[0]), es[1..]))
  }

  function Run(m: Machine, es: seq<Event>): Machine
    requires ValidRun(m, es)
    decreases |es|
  {
    if es == [] then m else Run(Step(m, es[0]), es[1..])
  }

  // ----- what every step keeps -----

  /** How often an entry occurs. */
  function Count(s: seq<InsertEntry>, e: InsertEntry): nat {
    if s == [] then 0 else (if s[0] == e then 1 else 0) + Count(s[1..], e)
  }

  /** How often an entry occurs in all the places where it may be. */
  function Places(m: Machine, e: InsertEntry): nat {
    Count(m.queue, e) + Count(m.adds, e) + Count(m.spawned, e) + Count(m.updating, e)
    + Count(m.called, e) + Count(m.dropped, e)
  }

  ghost predicate MachineOk(m: Machine) {
    && (forall e :: Places(m, e) == Count(m.submitted, e))
    && Bounds(m)
  }

  ghost predicate Bounds(m: Machine) {
    && (forall i :: 0 <= i < |m.submitted| ==> m.submitted[i].ticket == i)
    && m.jobs <= CONCURRENCY
    && (if m.alive then m.jobs == |m.adds| && (m.queue != [] ==> m.jobs == CONCURRENCY)
                        && m.started + m.queue == m.submitted && m.dropped == []
        else m.queue == [] && m.started <= m.submitted && |m.adds| <= m.jobs)
  }

  lemma {:induction false} CountConcat(s: seq<InsertEntry>, t: seq<InsertEntry>, e: InsertEntry)
    ensures Count(s + t, e) == Count(s, e) + Count(t, e)
  {
    if s == [] {
      assert s + t == t;
    } else {
      assert (s + t)[1..] == s[1..] + t;
      CountConcat(s[1..], t, e);
    }
  }

  lemma {:induction false} CountSnoc(s: seq<InsertEntry>, x: InsertEntry, e: InsertEntry)
    ensures Count(s + [x], e) == Count(s, e) + (if x == e then 1 else 0)
  {
    CountConcat(s, [x], e);
    assert [x][1..] == [];
  }

  lemma {:induction false} CountTaken(s: seq<InsertEntry>, i: nat, e: InsertEntry)
    requires i < |s|
    ensures Count(s, e) == Count(Without(s, i), e) + (if s[i] == e then 1 else 0)
    ensures |Without(s, i)| == |s| - 1
  {
    assert s == s[..i] + [s[i]] + s[i + 1..];
    CountConcat(s[..i] + [s[i]], s[i + 1..], e);
    CountSnoc(s[..i], s[i], e);
    CountConcat(s[..i], s[i + 1..], e);
  }

  lemma {:induction false} FromQueuePlaces(m: Machine, e: InsertEntry)
    ensures Places(FromQueue(m), e) == Places(m, e)
  {
    if m.queue != [] {
      CountSnoc(m.adds, m.queue[0], e);
    }
  }

  lemma {:induction false} FromQueueOrder(m: Machine)
    ensures FromQueue(m).started + FromQueue(m).queue == m.started + m.queue
  {
    if m.queue != [] {
      assert m.queue == [m.queue[0]] + m.queue[1..];
    }
  }

  /** Where one entry is, before and after a step. */
  lemma {:induction false} StepPlaces(m: Machine, ev: Event, e: InsertEntry)
    requires Enabled(m, ev) && Places(m, e) == Count(m.submitted, e)
    ensures Places(Step(m, ev), e) == Count(Step(m, ev).submitted, e)
  {
    match ev
    case Insert(k, v) =>
      var x := InsertEntry(k, v, |m.submitted|);
      CountSnoc(m.queue, x, e);
      CountSnoc(m.submitted, x, e);
      FromQueuePlaces(m.(queue := m.queue + [x], submitted := m.submitted + [x]), e);
    case AddDone(i, ok) => AddDonePlaces(m, i, ok, e);
    case Begin(i) =>
      CountTaken(m.spawned, i, e);
      CountSnoc(m.updating, m.spawned[i], e);
      CountSnoc(m.dropped, m.spawned[i], e);
    case UpdateDone(i) =>
      CountTaken(m.updating, i, e);
      CountSnoc(m.called, m.updating[i], e);
    case Destroy =>
      CountConcat(m.dropped, m.queue, e);
  }

  lemma {:induction false} AddDonePlaces(m: Machine, i: nat, ok: bool, e: InsertEntry)
    requires i < |m.adds|
    ensures Places(StepAddDone(m, i, ok), e) == Places(m, e)
  {
    var x := m.adds[i];
    var m1 := m.(adds := Without(m.adds, i), jobs := m.jobs - 1);
    CountTaken(m.adds, i, e);
    FromQueuePlaces(m1, e);
    if !m.alive {
      CountSnoc(m.dropped, x, e);
    } else if ok {
      CountSnoc(m.spawned, x, e);
    } else {
      CountSnoc(m.called, x, e);
    }
  }

  lemma {:induction false} StepOk(m: Machine, ev: Event)
    requires MachineOk(m) && Enabled(m, ev)
    ensures MachineOk(Step(m, ev))
  {
    forall e
      ensures Places(Step(m, ev), e) == Count(Step(m, ev).submitted, e)
    {
      StepPlaces(m, ev, e);
    }
    StepBounds(m, ev);
  }

  lemma {:induction false} StepBounds(m: Machine, ev: Event)
    requires Enabled(m, ev) && Bounds(m)
    ensures Bounds(Step(m, ev))
  {
    match ev
    case Insert(k, v) =>
      var x := InsertEntry(k, v, |m.submitted|);
      FromQueueOrder(m.(queue := m.queue + [x], submitted := m.submitted + [x]));
    case AddDone(i, ok) =>
      FromQueueOrder(m.(adds := Without(m.adds, i), jobs := m.jobs - 1));
    case Begin(_) =>
    case UpdateDone(_) =>
    case Destroy =>
  }

  lemma {:induction false} RunOk(m: Machine, es: seq<Event>)
    requires MachineOk(m) && ValidRun(m, es)
    ensures MachineOk(Run(m, es))
    decreases |es|
  {
    if es == [] {
    } else {
      StepOk(m, es[0]);
      RunOk(Step(m, es[0]), es[1..]);
    }
  }

  lemma {:induction false} StartOk()
    ensures MachineOk(START)
  {
  }

  // ----- over every run -----

  /** _job_count is the number of outstanding adds and at most eight, an entry waits only while it
      is eight, and entries are started in the order they were submitted in. */
  lemma {:induction false} Bounded(es: seq<Event>)
    requires ValidRun(START, es)
    ensures var m := Run(START, es);
            && |m.adds| <= CONCURRENCY
            && m.started <= m.submitted
            && (m.alive ==> m.jobs == |m.adds| && m.started + m.queue == m.submitted)
            && (m.queue != [] ==> |m.adds| == CONCURRENCY)
  {
    StartOk();
    RunOk(START, es);
  }

  lemma {:induction false} Absent(s: seq<InsertEntry>, e: InsertEntry)
    requires e !in s
    ensures Count(s, e) == 0
  {
    if s == [] {
    } else {
      Absent(s[1..], e);
    }
  }

  lemma {:induction false} Once(s: seq<InsertEntry>, i: nat)
    requires i < |s| && forall j :: 0 <= j < |s| ==> s[j].ticket == j
    ensures Count(s, s[i]) == 1
  {
    CountTaken(s, i, s[i]);
    Absent(Without(s, i), s[i]);
  }

  /** No callback is called twice; and in a run without destruction, once nothing is outstanding,
      every callback has been called exactly once. */
  lemma {:induction false} CalledOnce(es: seq<Event>, i: nat)
    requires ValidRun(START, es) && i < |Run(START, es).submitted|
    ensures var m := Run(START, es);
            && Count(m.called, m.submitted[i]) <= 1
            && (m.alive && m.adds == [] && m.spawned == [] && m.updating == [] ==>
                  Count(m.called, m.submitted[i]) == 1)
  {
    StartOk();
    RunOk(START, es);
    var m := Run(START, es);
    Once(m.submitted, i);
    assert Places(m, m.submitted[i]) == 1;
  }

  function Work(m: Machine): nat {
    3 * |m.queue| + 3 * |m.adds| + 2 * |m.spawned| + |m.updating|
  }

  function Inserts(es: seq<Event>): nat {
    if es == [] then 0 else (if es[0].Insert? then 1 else 0) + Inserts(es[1..])
  }

  function Steps(es: seq<Event>): nat {
    if es == [] then 0 else (if es[0].Insert? || es[0].Destroy? then 0 else 1) + Steps(es[1..])
  }

  /** An entry causes at most three more steps, and as long as one waits there is a step to take:
      every run without destruction comes to where every callback has been called. */
  lemma {:induction false} QueueDrains(m: Machine, es: seq<Event>)
    requires MachineOk(m) && ValidRun(m, es)
    ensures Steps(es) + Work(Run(m, es)) <= 3 * Inserts(es) + Work(m)
    ensures Run(m, es).queue != [] ==> Enabled(Run(m, es), AddDone(0, true))
    decreases |es|
  {
    if es == [] {
    } else {
      StepOk(m, es[0]);
      QueueDrains(Step(m, es[0]), es[1..]);
    }
  }

  // ----- the object -----

  /** The Injector's fields, then what the backend and the event queue hold for it, and the records. */
  class Injector {
    var wasDestroyed: bool
    var insertQueue: seq<InsertEntry>
    var jobCount: int
    var adds: seq<InsertEntry>
    var spawned: seq<InsertEntry>
    var updating: seq<InsertEntry>
    ghost var submitted: seq<InsertEntry>
    ghost var started: seq<InsertEntry>
    ghost var called: seq<InsertEntry>
    ghost var dropped: seq<InsertEntry>
    var tickets: nat

    constructor ()
      ensures State() == START && Valid()
    {
      wasDestroyed, insertQueue, jobCount, tickets := false, [], 0, 0;
      adds, spawned, updating := [], [], [];
      submitted, started, called, dropped := [], [], [], [];
    }

    ghost function State(): Machine
      reads this
    {
      Machine(!wasDestroyed, insertQueue, jobCount, adds, spawned, updating, submitted, started, called, dropped)
    }

    ghost predicate Valid()
      reads this
    {
      MachineOk(State()) && tickets == |submitted|
    }

    method InsertContentFromQueue()
      modifies this`insertQueue, this`jobCount, this`adds, this`started
      ensures State() == FromQueue(old(State()))
    {
      if insertQueue == [] {
        return;
      }
      jobCount := jobCount + 1;
      var e := insertQueue[0];
      insertQueue := insertQueue[1..];
      adds, started := adds + [e], started + [e];
    }

    method InsertContent(key: string, value: string)
      requires Valid() && !wasDestroyed
      modifies this
      ensures Valid() && State() == StepInsert(old(State()), key, value)
    {
      StepOk(State(), Insert(key, value));
      var e := InsertEntry(key, value, tickets);
      tickets := tickets + 1;
      insertQueue, submitted := insertQueue + [e], submitted + [e];
      if jobCount >= CONCURRENCY {
        return;
      }
      InsertContentFromQueue();
    }

    /** The handler of a backend add. */
    method AddDone(i: nat, ok: bool)
      requires Valid() && i < |adds|
      modifies this
      ensures Valid() && State() == StepAddDone(old(State()), i, ok)
    {
      StepOk(State(), Event.AddDone(i, ok));
      var e := adds[i];
      adds := adds[..i] + adds[i + 1..];
      if wasDestroyed {
        dropped := dropped + [e];
        return;
      }
      jobCount := jobCount - 1;
      InsertContentFromQueue();
      if ok {
        spawned := spawned + [e];
      } else {
        called := called + [e];
      }
    }
  }
}
