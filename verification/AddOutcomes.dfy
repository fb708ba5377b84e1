/** What becomes of an entry of the Injector's queue, by how its backend add ended. */
module AddOutcomes {
  import opened InjectorQueue

  /** Read off the events of a run: the entries whose adds have failed or succeeded while the object
      was alive, and those whose updates have begun or ended. */
  datatype Log = Log(
    failed: set<InsertEntry>, succeeded: set<InsertEntry>, begun: set<InsertEntry>, finished: set<InsertEntry>)

  const NOTHING := Log({}, {}, {}, {})

  function Note(m: Machine, e: Event, l: Log): Log
    requires Enabled(m, e)
  {
    match e
    case AddDone(i, ok) =>
      if !m.alive then l
      else if ok then l.(succeeded := l.succeeded + {m.adds[i]})
      else l.(failed := l.failed + {m.adds[i]})
    case Begin(i) => if m.alive then l.(begun := l.begun + {m.spawned[i]}) else l
    case UpdateDone(i) => l.(finished := l.finished + {m.updating[i]})
    case _ => l
  }

  function NoteAll(m: Machine, es: seq<Event>, l: Log): Log
    requires ValidRun(m, es)
    decreases |es|
  {
    if es == [] then l else NoteAll(Step(m, es[0]), es[1..], Note(m, es[0], l))
  }

  /** The entries that the inserts of a run hand in, the first one with ticket n. */
  function HandedIn(es: seq<Event>, n: nat): seq<InsertEntry> {
    if es == [] then []
    else if es[0].Insert? then [InsertEntry(es[0].key, es[0].value, n)] + HandedIn(es[1..], n + 1)
    else HandedIn(es[1..], n)
  }

  // ----- what every step keeps -----

  /** Everybody called back has a failed add or an ended update, and every successful add leads to an
      update, unless the object is destroyed before that begins. */
  ghost predicate LogOk(m: Machine, l: Log) {
    && (forall x :: x in m.called <==> x in l.failed || x in l.finished)
    && (forall x :: x in l.begun <==> x in m.updating || x in l.finished)
    && (forall x :: x in m.spawned || x in l.begun ==> x in l.succeeded)
    && (m.alive ==> forall x :: x in l.succeeded ==> x in m.spawned || x in l.begun)
    && l.failed !! l.succeeded
  }

  lemma {:induction false} Present(s: seq<InsertEntry>, e: InsertEntry)
    ensures Count(s, e) > 0 <==> e in s
  {
    if s == [] {
    } else {
      Present(s[1..], e);
    }
  }

  /** An entry is in one place at most. */
  lemma {:induction false} OnePlace(m: Machine, e: InsertEntry)
    requires MachineOk(m)
    ensures Places(m, e) <= 1
  {
    Present(m.submitted, e);
    assert Places(m, e) == Count(m.submitted, e);
    if e in m.submitted {
      var i :| 0 <= i < |m.submitted| && m.submitted[i] == e;
      Once(m.submitted, i);
    }
  }

  /** An entry that is being added is nowhere else. */
  lemma {:induction false} StillAdding(m: Machine, e: InsertEntry)
    requires MachineOk(m) && e in m.adds
    ensures e !in m.spawned && e !in m.updating && e !in m.called
  {
    OnePlace(m, e);
    Present(m.adds, e);
    Present(m.spawned, e);
    Present(m.updating, e);
    Present(m.called, e);
  }

  lemma {:induction false} Members(s: seq<InsertEntry>, i: nat, x: InsertEntry)
    requires i < |s|
    ensures x in s <==> x in Without(s, i) || x == s[i]
  {
    assert s == s[..i] + ([s[i]] + s[i + 1..]);
  }

  lemma {:induction false} FromQueueKeeps(m: Machine)
    ensures var m' := FromQueue(m);
            && m'.spawned == m.spawned && m'.updating == m.updating && m'.called == m.called
            && m'.alive == m.alive
  {
  }

  lemma {:induction false} AddDoneNoted(m: Machine, i: nat, ok: bool, l: Log)
    requires MachineOk(m) && i < |m.adds| && LogOk(m, l)
    ensures LogOk(StepAddDone(m, i, ok), Note(m, AddDone(i, ok), l))
  {
    var x := m.adds[i];
    StillAdding(m, x);
    assert m.alive ==> x !in l.succeeded && x !in l.failed;
    FromQueueKeeps(m.(adds := Without(m.adds, i), jobs := m.jobs - 1));
  }

  lemma {:induction false} BeginNoted(m: Machine, i: nat, l: Log)
    requires i < |m.spawned| && LogOk(m, l)
    ensures LogOk(StepBegin(m, i), Note(m, Begin(i), l))
  {
    forall x
      ensures x in m.spawned <==> x in Without(m.spawned, i) || x == m.spawned[i]
    {
      Members(m.spawned, i, x);
    }
  }

  lemma {:induction false} UpdateDoneNoted(m: Machine, i: nat, l: Log)
    requires i < |m.updating| && LogOk(m, l)
    ensures LogOk(StepUpdateDone(m, i), Note(m, UpdateDone(i), l))
  {
    forall x
      ensures x in m.updating <==> x in Without(m.updating, i) || x == m.updating[i]
    {
      Members(m.updating, i, x);
    }
  }

  lemma {:induction false} StepNoted(m: Machine, e: Event, l: Log)
    requires MachineOk(m) && Enabled(m, e) && LogOk(m, l)
    ensures LogOk(Step(m, e), Note(m, e, l))
  {
    match e
    case Insert(_, _) =>
    case AddDone(i, ok) => AddDoneNoted(m, i, ok, l);
    case Begin(i) => BeginNoted(m, i, l);
    case UpdateDone(i) => UpdateDoneNoted(m, i, l);
    case Destroy =>
  }

  lemma {:induction false} RunNoted(m: Machine, es: seq<Event>, l: Log)
    requires MachineOk(m) && ValidRun(m, es) && LogOk(m, l)
    ensures LogOk(Run(m, es), NoteAll(m, es, l))
    decreases |es|
  {
    if es == [] {
    } else {
      StepOk(m, es[0]);
      StepNoted(m, es[0], l);
      RunNoted(Step(m, es[0]), es[1..], Note(m, es[0], l));
    }
  }

  // ----- over every run -----

  /** A caller is called back without an update having begun exactly if its add failed; a failed add
      never leads to an update, and a successful one always does, unless the object is destroyed. */
  lemma {:induction false} ToldByOutcome(es: seq<Event>, m: Machine, l: Log, x: InsertEntry)
    requires ValidRun(START, es) && m == Run(START, es) && l == NoteAll(START, es, NOTHING)
    ensures x in m.called && x !in l.begun <==> x in l.failed
    ensures x in l.failed ==> x !in m.spawned && x !in m.updating && x !in l.begun
    ensures m.alive ==> (x in l.succeeded <==> x in m.spawned || x in m.updating || (x in m.called && x in l.begun))
  {
    StartOk();
    RunNoted(START, es, NOTHING);
  }

  lemma {:induction false} StepSubmits(m: Machine, e: Event)
    requires Enabled(m, e)
    ensures Step(m, e).submitted ==
            if e.Insert? then m.submitted + [InsertEntry(e.key, e.value, |m.submitted|)] else m.submitted
  {
  }

  lemma {:induction false} RunSubmits(m: Machine, es: seq<Event>)
    requires ValidRun(m, es)
    ensures Run(m, es).submitted == m.submitted + HandedIn(es, |m.submitted|)
    decreases |es|
  {
    if es == [] {
      assert m.submitted + [] == m.submitted;
    } else {
      StepSubmits(m, es[0]);
      RunSubmits(Step(m, es[0]), es[1..]);
      if es[0].Insert? {
        var e := InsertEntry(es[0].key, es[0].value, |m.submitted|);
        Regroup(m.submitted, e, HandedIn(es[1..], |m.submitted| + 1));
      }
    }
  }

  lemma {:induction false} Regroup(s: seq<InsertEntry>, e: InsertEntry, t: seq<InsertEntry>)
    ensures (s + [e]) + t == s + ([e] + t)
  {
  }

  /** The entries are those that were handed in, with their keys and values; in that order they go to
      the backend, and nobody else is called back. */
  lemma {:induction false} EntriesHandedIn(es: seq<Event>, m: Machine, x: InsertEntry)
    requires ValidRun(START, es) && m == Run(START, es)
    ensures m.submitted == HandedIn(es, 0) && m.started <= HandedIn(es, 0)
    ensures x in m.adds || x in m.spawned || x in m.updating || x in m.called ==> x in HandedIn(es, 0)
  {
    StartOk();
    RunOk(START, es);
    RunSubmits(START, es);
    assert [] + HandedIn(es, 0) == HandedIn(es, 0);
    Present(m.submitted, x);
    Present(m.adds, x);
    Present(m.spawned, x);
    Present(m.updating, x);
    Present(m.called, x);
    assert Places(m, x) == Count(m.submitted, x);
  }
}
