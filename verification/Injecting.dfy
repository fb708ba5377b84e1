/** The Injector's queue over its database: what has been inserted when callers are told so. */
module Injecting {
  import opened OrderedMap
  import opened Codec
  import opened InjectorDb
  import Q = InjectorQueue
  import A = AddOutcomes

  /** The queue, the database, and what has become of the entries. */
  datatype Whole = Whole(queue: Q.Machine, db: Sys, log: A.Log)

  /** Begin is a spawned coroutine that calls update with the value made of the content's id. Queue is
      an insert or the end of a backend add, Db a step of tree or Republisher, Tell the end of an
      update. */
  datatype Event =
    | Queue(ev: Q.Event)
    | Begin(i: nat, value: string, storing: bool)
    | Db(step: InjectorDb.Event)
    | Tell(i: nat)

  const EMPTY := Whole(Q.START, InjectorDb.START, A.NOTHING)

  function UpdateOf(e: Q.InsertEntry, value: string, storing: bool): InjectorDb.Event {
    InjectorDb.Update(e.key, value, storing)
  }

  ghost predicate CanHappen(w: Whole, e: Event) {
    match e
    case Queue(e) => Q.Enabled(w.queue, e) && (e.Insert? || e.AddDone?)
    case Begin(i, v, storing) => i < |w.queue.spawned| && Enabled(w.db, UpdateOf(w.queue.spawned[i], v, storing))
    case Db(e) => Enabled(w.db, e) && !e.Update?
    case Tell(i) => i < |w.queue.updating|
  }

  function NextQueue(w: Whole, e: Q.Event): Whole
    requires Q.Enabled(w.queue, e)
  {
    w.(queue := Q.Step(w.queue, e), log := A.Note(w.queue, e, w.log))
  }

  function Next(w: Whole, e: Event): Whole
    requires CanHappen(w, e)
  {
    match e
    case Queue(e) => NextQueue(w, e)
    case Begin(i, v, storing) =>
      NextQueue(w, Q.Begin(i)).(db := Step(w.db, UpdateOf(w.queue.spawned[i], v, storing)))
    case Db(e) => w.(db := Step(w.db, e))
    case Tell(i) => NextQueue(w, Q.UpdateDone(i))
  }

  ghost predicate Happens(w: Whole, es: seq<Event>)
    decreases |es|
  {
    es == [] || (CanHappen(w, es[0]) && Happens(Next(w, es[0]), es[1..]))
  }

  function After(w: Whole, es: seq<Event>): Whole
    requires Happens(w, es)
    decreases |es|
  {
    if es == [] then w else After(Next(w, es[0]), es[1..])
  }

  // ----- what every step keeps -----

  /** The database has come about by a run of its own, of updates of begun entries. */
  ghost predicate MadeBy(db: Sys, begun: set<Q.InsertEntry>, es: seq<InjectorDb.Event>) {
    && ValidRun(InjectorDb.START, es) && Run(InjectorDb.START, es) == db
    && (forall x :: x in begun ==> x.key in C.KeySet(Updates(es)))
    && (forall p :: p in Updates(es) ==> exists x :: x in begun && x.key == p.key)
  }

  ghost predicate WholeOk(w: Whole) {
    && Q.MachineOk(w.queue) && w.queue.alive
    && A.LogOk(w.queue, w.log)
    && (forall x :: x in w.log.begun ==> x in w.queue.submitted)
    && (exists es :: MadeBy(w.db, w.log.begun, es))
  }

  lemma {:induction false} SpawnedIsSubmitted(m: Q.Machine, i: nat)
    requires Q.MachineOk(m) && i < |m.spawned|
    ensures m.spawned[i] in m.submitted
  {
    var x := m.spawned[i];
    A.Present(m.spawned, x);
    A.Present(m.submitted, x);
    assert Q.Places(m, x) == Q.Count(m.submitted, x);
  }

  lemma {:induction false} OneMore(db: Sys, es: seq<InjectorDb.Event>, e: InjectorDb.Event)
    requires ValidRun(InjectorDb.START, es) && Run(InjectorDb.START, es) == db && Enabled(db, e)
    ensures ValidRun(InjectorDb.START, es + [e]) && Run(InjectorDb.START, es + [e]) == Step(db, e)
    ensures Updates(es + [e]) == Updates(es) + (if e.Update? then {Pair(e.key, e.value)} else {})
  {
    assert [e] + [] == [e] && [e][1..] == [];
    Unroll(db, e, []);
    RunConcat(InjectorDb.START, es, [e]);
    UpdatesConcat(es, [e]);
  }

  lemma {:induction false} MadeByUpdate(db: Sys, begun: set<Q.InsertEntry>, x: Q.InsertEntry, v: string, storing: bool)
    requires (exists es :: MadeBy(db, begun, es)) && Enabled(db, UpdateOf(x, v, storing))
    ensures exists es :: MadeBy(Step(db, UpdateOf(x, v, storing)), begun + {x}, es)
  {
    var e := UpdateOf(x, v, storing);
    var es :| MadeBy(db, begun, es);
    OneMore(db, es, e);
    assert Pair(x.key, v) in Updates(es + [e]);
    forall y | y in begun + {x}
      ensures y.key in C.KeySet(Updates(es + [e]))
    {
      if y in begun {
        var p :| p in Updates(es) && p.key == y.key;
        assert p in Updates(es + [e]);
      }
    }
    forall p | p in Updates(es + [e])
      ensures exists y :: y in begun + {x} && y.key == p.key
    {
      if p in Updates(es) {
        var y :| y in begun && y.key == p.key;
        assert y in begun + {x};
      } else {
        assert x in begun + {x};
      }
    }
    assert MadeBy(Step(db, e), begun + {x}, es + [e]);
  }

  lemma {:induction false} MadeByStep(db: Sys, begun: set<Q.InsertEntry>, e: InjectorDb.Event)
    requires (exists es :: MadeBy(db, begun, es)) && Enabled(db, e) && !e.Update?
    ensures exists es :: MadeBy(Step(db, e), begun, es)
  {
    var es :| MadeBy(db, begun, es);
    OneMore(db, es, e);
    assert MadeBy(Step(db, e), begun, es + [e]);
  }

  lemma {:induction false} QueueGrows(m: Q.Machine, e: Q.Event)
    requires Q.Enabled(m, e) && m.alive && (e.Insert? || e.AddDone?)
    ensures var m' := Q.Step(m, e);
            m'.alive && m'.updating == m.updating && m.submitted <= m'.submitted
  {
  }

  lemma {:induction false} BeginOk(w: Whole, i: nat, v: string, storing: bool)
    requires WholeOk(w) && CanHappen(w, Begin(i, v, storing))
    ensures WholeOk(Next(w, Begin(i, v, storing)))
  {
    Q.StepOk(w.queue, Q.Begin(i));
    A.StepNoted(w.queue, Q.Begin(i), w.log);
    SpawnedIsSubmitted(w.queue, i);
    MadeByUpdate(w.db, w.log.begun, w.queue.spawned[i], v, storing);
  }

  lemma {:induction false} NextOk(w: Whole, e: Event)
    requires WholeOk(w) && CanHappen(w, e)
    ensures WholeOk(Next(w, e))
  {
    match e
    case Queue(e) =>
      Q.StepOk(w.queue, e);
      A.StepNoted(w.queue, e, w.log);
      QueueGrows(w.queue, e);
    case Begin(i, v, storing) =>
      BeginOk(w, i, v, storing);
    case Db(e) =>
      MadeByStep(w.db, w.log.begun, e);
    case Tell(i) =>
      Q.StepOk(w.queue, Q.UpdateDone(i));
      A.StepNoted(w.queue, Q.UpdateDone(i), w.log);
  }

  lemma {:induction false} AfterOk(w: Whole, es: seq<Event>)
    requires WholeOk(w) && Happens(w, es)
    ensures WholeOk(After(w, es))
    decreases |es|
  {
    if es == [] {
    } else {
      NextOk(w, es[0]);
      AfterOk(Next(w, es[0]), es[1..]);
    }
  }

  lemma {:induction false} EmptyOk()
    ensures WholeOk(EMPTY)
  {
    Q.StartOk();
    assert MadeBy(EMPTY.db, {}, []);
  }

  /** After any run without destruction, whenever nobody is inserting and the last store went through:
      the key of every entry whose caller has been called back, and whose add did not fail, is found
      from the root hash that the Republisher was asked for last, and so is that of every other entry
      whose update has begun. No callback has been called twice. */
  lemma {:induction false} ToldMeansPublished(es: seq<Event>, w: Whole, x: Q.InsertEntry)
    requires Happens(EMPTY, es) && w == After(EMPTY, es) && C.Quiet(w.db.tree)
    requires forall y :: y in w.queue.submitted ==> GoodKey(y.key)
    requires x in w.log.begun || (x in w.queue.called && x !in w.log.failed)
    ensures Stored(w.db, x.key) && w.db.publisher.toPublish == Cid(w.db.tree.db.hash.n)
    ensures x in w.log.succeeded && x in w.queue.submitted && Q.Count(w.queue.called, x) <= 1
  {
    EmptyOk();
    AfterOk(EMPTY, es);
    var made :| MadeBy(w.db, w.log.begun, made);
    forall p | p in Updates(made)
      ensures GoodKey(p.key)
    {
      var y :| y in w.log.begun && y.key == p.key;
    }
    StoredWhenQuiet(made, x.key);
    PublishedRootHoldsEveryUpdate(made, x.key);
    A.OnePlace(w.queue, x);
  }

  lemma {:induction false} QueuePart(w: Whole, es: seq<Event>) returns (fs: seq<Q.Event>)
    requires Happens(w, es)
    ensures Q.ValidRun(w.queue, fs) && Q.Run(w.queue, fs) == After(w, es).queue
    ensures A.NoteAll(w.queue, fs, w.log) == After(w, es).log
    decreases |es|
  {
    if es == [] {
      fs := [];
    } else {
      var rest := QueuePart(Next(w, es[0]), es[1..]);
      fs := rest;
      if !es[0].Db? {
        var e := match es[0]
                 case Queue(e) => e
                 case Begin(i, _, _) => Q.Begin(i)
                 case Tell(i) => Q.UpdateDone(i);
        fs := [e] + rest;
        assert fs[0] == e && fs[1..] == rest;
      }
    }
  }

  /** What is logged is read off the queue's part of the run: whoever is called back although no update
      of its entry has begun has a failed add; and what the database is updated with are entries whose
      adds succeeded. */
  lemma {:induction false} CalledByOutcome(es: seq<Event>, w: Whole, x: Q.InsertEntry)
    requires Happens(EMPTY, es) && w == After(EMPTY, es)
    ensures x in w.queue.called && x !in w.log.begun <==> x in w.log.failed
    ensures exists fs :: Q.ValidRun(Q.START, fs) && Q.Run(Q.START, fs) == w.queue
                         && A.NoteAll(Q.START, fs, A.NOTHING) == w.log
    ensures exists made :: MadeBy(w.db, w.log.begun, made) && w.log.begun <= w.log.succeeded
  {
    EmptyOk();
    AfterOk(EMPTY, es);
    var fs := QueuePart(EMPTY, es);
  }
}
