/** InjectorDb::update: the coalescing insert and the Republisher put together. */
module InjectorDb {
  import opened OrderedMap
  import opened Tree
  import opened Codec
  import opened LazyFind
  import opened Database
  import C = Coalescing
  import P = Publishing

  /** The database of db.cpp: nodes of at most 64 keys, with add and remove operations. */
  const CONFIG := Config(64, true, true)

  datatype Sys = Sys(tree: C.Machine, publisher: P.Machine)

  /** Update is a call of update up to its first suspension; storing says that it comes while the
      inserter stores the tree, when the root has no hash. Apply and Finish are the steps of the
      one who inserts, and Publisher is what happens to the Republisher on its own. */
  datatype Event =
    | Update(key: string, value: string, storing: bool)
    | Apply
    | Finish(credit: nat)
    | Publisher(e: P.Event)

  const START := Sys(C.START, P.START)

  ghost predicate Enabled(s: Sys, e: Event) {
    match e
    case Update(_, _, storing) => storing ==> s.tree.inserting && C.Enabled(s.tree, C.Finish(0, 0))
    case Apply => C.Enabled(s.tree, C.Apply(0))
    case Finish(credit) => C.Enabled(s.tree, C.Finish(0, credit))
    case Publisher(e) => P.Enabled(s.publisher, e) && !e.Publish? && !e.Destroy?
  }

  /** The storage's name for the blob with id n: no two have the same. */
  function Cid(n: nat): string {
    seq(n + 1, i => 'Q')
  }

  /** InjectorDb::upload_database. */
  function Upload(p: P.Machine, root: Hash): P.Machine {
    if root.NoHash? then p else P.StepPublish(p, Cid(root.n))
  }

  /** A caller that finds somebody inserting leaves its pair in the buffer and uploads the root there
      is, which need not hold its key. One that begins to insert uploads when its insert returns. */
  function StepUpdate(s: Sys, k: string, v: string, storing: bool): Sys {
    var t := C.StepCall(s.tree, k, v);
    Sys(t, if s.tree.inserting && !storing then Upload(s.publisher, s.tree.db.hash) else s.publisher)
  }

  /** When the insert returns without an error its caller uploads. */
  function StepFinish(s: Sys, credit: nat): Sys
    requires C.Enabled(s.tree, C.Finish(0, credit))
  {
    var t := C.StepFinish(CONFIG, s.tree, 0, credit);
    Sys(t, if t.inserting || t.db.hash.NoHash? then s.publisher else Upload(s.publisher, t.db.hash))
  }

  function Step(s: Sys, e: Event): Sys
    requires Enabled(s, e)
  {
    match e
    case Update(k, v, storing) => StepUpdate(s, k, v, storing)
    case Apply => s.(tree := C.StepApply(CONFIG, s.tree, 0))
    case Finish(credit) => StepFinish(s, credit)
    case Publisher(e) => s.(publisher := P.Step(s.publisher, e))
  }

  ghost predicate ValidRun(s: Sys, es: seq<Event>)
    decreases |es|
  {
    es == [] || (Enabled(s, es[0]) && ValidRun(Step(s, es[0]), es[1..]))
  }

  function Run(s: Sys, es: seq<Event>): Sys
    requires ValidRun(s, es)
    decreases |es|
  {
    if es == [] then s else Run(Step(s, es[0]), es[1..])
  }

  /** The updates made so far. */
  function Updates(es: seq<Event>): set<Pair> {
    if es == [] then {}
    else (match es[0]
          case Update(k, v, _) => {Pair(k, v)}
          case Apply => {}
          case Finish(_) => {}
          case Publisher(_) => {}) + Updates(es[1..])
  }

  // ----- what every step keeps -----

  /** While nobody is inserting, the Republisher has been asked for the root there is. */
  ghost predicate SysOk(s: Sys) {
    && C.MachineOk(CONFIG, s.tree, multiset{})
    && P.MachineOk(s.publisher) && s.publisher.alive
    && (C.Quiet(s.tree) ==> s.publisher.requests != [] && s.publisher.toPublish == Cid(s.tree.db.hash.n))
  }

  lemma {:induction false} UploadOk(p: P.Machine, root: Hash)
    requires P.MachineOk(p) && p.alive
    ensures P.MachineOk(Upload(p, root)) && Upload(p, root).alive
    ensures root.Id? ==> Upload(p, root).requests != [] && Upload(p, root).toPublish == Cid(root.n)
  {
    if root.Id? {
      P.PublishOk(p, Cid(root.n));
    }
  }

  /** What a step does to the tree is a step of the coalescing machine, or nothing. */
  function TreeEvents(e: Event): seq<C.Event> {
    match e
    case Update(k, v, _) => [C.Call(k, v)]
    case Apply => [C.Apply(0)]
    case Finish(credit) => [C.Finish(0, credit)]
    case Publisher(_) => []
  }

  lemma {:induction false} StepOk(s: Sys, e: Event)
    requires SysOk(s) && Enabled(s, e)
    ensures SysOk(Step(s, e))
  {
    match e
    case Update(k, v, storing) =>
      C.StepOk(CONFIG, s.tree, C.Call(k, v), multiset{});
      UploadOk(s.publisher, s.tree.db.hash);
    case Apply =>
      C.StepOk(CONFIG, s.tree, C.Apply(0), multiset{});
    case Finish(credit) =>
      C.StepOk(CONFIG, s.tree, C.Finish(0, credit), multiset{});
      UploadOk(s.publisher, C.StepFinish(CONFIG, s.tree, 0, credit).db.hash);
    case Publisher(e) =>
      P.StepOk(s.publisher, e);
      PublisherKeeps(s.publisher, e);
  }

  lemma {:induction false} PublisherKeeps(p: P.Machine, e: P.Event)
    requires P.MachineOk(p) && P.Enabled(p, e) && !e.Publish? && !e.Destroy?
    ensures var p' := P.Step(p, e);
            p'.alive == p.alive && p'.requests == p.requests && p'.toPublish == p.toPublish
  {
  }

  lemma {:induction false} RunOk(s: Sys, es: seq<Event>)
    requires SysOk(s) && ValidRun(s, es)
    ensures SysOk(Run(s, es))
    decreases |es|
  {
    if es == [] {
    } else {
      StepOk(s, es[0]);
      RunOk(Step(s, es[0]), es[1..]);
    }
  }

  function TreeRun(es: seq<Event>): seq<C.Event> {
    if es == [] then [] else TreeEvents(es[0]) + TreeRun(es[1..])
  }

  /** The tree's part of a run is a run of the coalescing machine. */
  lemma {:induction false} Projects(s: Sys, es: seq<Event>)
    requires ValidRun(s, es)
    ensures C.ValidRun(CONFIG, s.tree, TreeRun(es))
    ensures Run(s, es).tree == C.Run(CONFIG, s.tree, TreeRun(es))
    ensures C.Handed(TreeRun(es)) == Updates(es)
    decreases |es|
  {
    if es == [] {
    } else {
      var e, s1 := es[0], Step(s, es[0]);
      Projects(s1, es[1..]);
      ProjectsOne(s, e);
      if e.Publisher? {
        assert TreeRun(es) == TreeRun(es[1..]);
      } else {
        RunCons(s.tree, TreeEvents(e)[0], TreeRun(es[1..]));
        assert TreeRun(es) == [TreeEvents(e)[0]] + TreeRun(es[1..]);
      }
      HandedConcat(TreeEvents(e), TreeRun(es[1..]));
    }
  }

  lemma {:induction false} ProjectsOne(s: Sys, e: Event)
    requires Enabled(s, e)
    ensures if e.Publisher? then TreeEvents(e) == [] && Step(s, e).tree == s.tree
            else (|TreeEvents(e)| == 1 && C.Enabled(s.tree, TreeEvents(e)[0])
                  && C.Step(CONFIG, s.tree, TreeEvents(e)[0]) == Step(s, e).tree)
    ensures C.Handed(TreeEvents(e)) == match e
                                       case Update(k, v, _) => {Pair(k, v)}
                                       case Apply => {}
                                       case Finish(_) => {}
                                       case Publisher(_) => {}
  {
    if !e.Publisher? {
      assert C.Handed(TreeEvents(e)[1..]) == {};
    }
  }

  lemma {:induction false} RunCons(m: C.Machine, e: C.Event, fs: seq<C.Event>)
    requires C.Enabled(m, e) && C.ValidRun(CONFIG, C.Step(CONFIG, m, e), fs)
    ensures C.ValidRun(CONFIG, m, [e] + fs)
    ensures C.Run(CONFIG, m, [e] + fs) == C.Run(CONFIG, C.Step(CONFIG, m, e), fs)
  {
    assert ([e] + fs)[1..] == fs;
  }

  lemma {:induction false} HandedConcat(es: seq<C.Event>, fs: seq<C.Event>)
    ensures C.Handed(es + fs) == C.Handed(es) + C.Handed(fs)
  {
    if es == [] {
      assert es + fs == fs;
    } else {
      HandedConcat(es[1..], fs);
      assert (es + fs)[1..] == es[1..] + fs;
    }
  }

  lemma {:induction false} StartOk()
    ensures SysOk(START)
  {
    C.StartOk(CONFIG);
    P.StartedOk();
  }

  // ----- over every run -----

  /** Whenever nobody is inserting and the last insert went through: what the Republisher has been
      asked for last is the root hash; from that hash alone any reader of the storage finds every
      key updated so far, with a value it was updated with, and no other key; and when nothing is
      being published, that hash was published last and every caller has been called back. */
  lemma {:induction false} PublishedRootHoldsEveryUpdate(es: seq<Event>, k: string)
    requires ValidRun(START, es) && C.Quiet(Run(START, es).tree)
    requires forall p :: p in Updates(es) ==> GoodKey(p.key)
    ensures var s := Run(START, es);
            var root := s.tree.db.hash.n;
            && s.publisher.toPublish == Cid(root)
            && HashOk(s.tree.db.store.blobs, root)
            && (match FindHash(s.tree.db.store.blobs, root, k).answer
                case Found(v) => Pair(k, v) in Updates(es)
                case NotFound => k !in C.KeySet(Updates(es))
                case CatFailed => false)
            && (!s.publisher.publishing ==>
                  && s.publisher.issued != []
                  && s.publisher.issued[|s.publisher.issued| - 1].cid == Cid(root)
                  && |s.publisher.called| == |s.publisher.requests|)
  {
    StartOk();
    Projects(START, es);
    RunOk(START, es);
    var s := Run(START, es);
    RootHoldsEveryUpdate(TreeRun(es), k);
    if !s.publisher.publishing {
      P.IdleMeansDone(s.publisher);
    }
  }

  lemma {:induction false} RootHoldsEveryUpdate(t: seq<C.Event>, k: string)
    requires C.ValidRun(CONFIG, C.START, t) && C.Quiet(C.Run(CONFIG, C.START, t))
    requires forall p :: p in C.Handed(t) ==> GoodKey(p.key)
    ensures var db := C.Run(CONFIG, C.START, t).db;
            && HashOk(db.store.blobs, db.hash.n)
            && (match FindHash(db.store.blobs, db.hash.n, k).answer
                case Found(v) => Pair(k, v) in C.Handed(t)
                case NotFound => k !in C.KeySet(C.Handed(t))
                case CatFailed => false)
  {
    C.QuietMeansComplete(CONFIG, t);
    C.QuietReadsBack(CONFIG, t, k);
    LookupMeans(Pairs(C.Run(CONFIG, C.START, t).db), k);
  }

  lemma {:induction false} LookupMeans(s: seq<Pair>, k: string)
    ensures match Lookup(s, k)
            case Found(v) => Pair(k, v) in C.PairSet(s)
            case NotFound => k !in C.KeySet(C.PairSet(s))
            case CatFailed => false
  {
    if s == [] {
    } else {
      LookupMeans(s[1..], k);
      assert s == [s[0]] + s[1..];
    }
  }

  // ----- when no store fails -----

  ghost predicate NeverFails(s: Sys, es: seq<Event>)
    requires ValidRun(s, es)
    decreases |es|
  {
    es == [] || ((es[0].Finish? ==> Step(s, es[0]).tree.db.hash.Id?) && NeverFails(Step(s, es[0]), es[1..]))
  }

  /** If no store fails then, from the first update on, there is a root hash whenever nobody is
      inserting, so that what is said above always holds then. */
  lemma {:induction false} QuietUnlessInserting(s: Sys, es: seq<Event>)
    requires SysOk(s) && ValidRun(s, es) && NeverFails(s, es)
    requires s.tree.inserting || C.Quiet(s.tree) || Updates(es) != {}
    ensures Run(s, es).tree.inserting || C.Quiet(Run(s, es).tree)
    decreases |es|
  {
    if es == [] {
    } else {
      StepOk(s, es[0]);
      QuietUnlessInserting(Step(s, es[0]), es[1..]);
    }
  }

  // ----- what an update that returns without an error can rely on -----

  /** A run up to the first moment when nobody is inserting. */
  ghost predicate UntilIdle(s: Sys, es: seq<Event>)
    decreases |es|
  {
    if s.tree.inserting then es != [] && Enabled(s, es[0]) && UntilIdle(Step(s, es[0]), es[1..])
    else es == []
  }

  ghost function AtRest(s: Sys, es: seq<Event>): Sys
    requires UntilIdle(s, es)
    decreases |es|
  {
    if s.tree.inserting then AtRest(Step(s, es[0]), es[1..]) else s
  }

  /** The insert of an update made in s has told its caller of no error by the time nobody is inserting
      any more, in s2: it never does if it found somebody inserting, since then it returned at once. */
  predicate Succeeded(s: Sys, s2: Sys) {
    s.tree.inserting || s2.tree.db.hash.Id?
  }

  /** The key can be found from the root hash alone. */
  predicate Stored(s: Sys, k: string) {
    s.tree.db.hash.Id? && FindHash(s.tree.db.store.blobs, s.tree.db.hash.n, k).answer.Found?
  }

  ghost predicate GoodUpdates(es: seq<Event>) {
    forall p :: p in Updates(es) ==> GoodKey(p.key)
  }

  lemma {:induction false} IdleRun(s: Sys, es: seq<Event>)
    requires UntilIdle(s, es)
    ensures ValidRun(s, es) && Run(s, es) == AtRest(s, es) && !AtRest(s, es).tree.inserting
    decreases |es|
  {
    if es == [] {
    } else {
      IdleRun(Step(s, es[0]), es[1..]);
    }
  }

  lemma {:induction false} Unroll(s: Sys, e: Event, es: seq<Event>)
    requires Enabled(s, e) && ValidRun(Step(s, e), es)
    ensures ValidRun(s, [e] + es) && Run(s, [e] + es) == Run(Step(s, e), es)
  {
    assert ([e] + es)[1..] == es;
  }

  lemma {:induction false} RunConcat(s: Sys, a: seq<Event>, b: seq<Event>)
    requires ValidRun(s, a) && ValidRun(Run(s, a), b)
    ensures ValidRun(s, a + b) && Run(s, a + b) == Run(Run(s, a), b)
    decreases |a|
  {
    if a == [] {
      assert a + b == b;
    } else {
      var e, tail := a[0], a[1..];
      assert a + b == [e] + (tail + b);
      RunConcat(Step(s, e), tail, b);
      Unroll(s, e, tail + b);
    }
  }

  lemma {:induction false} UpdatesConcat(a: seq<Event>, b: seq<Event>)
    ensures Updates(a + b) == Updates(a) + Updates(b)
  {
    if a == [] {
      assert a + b == b;
    } else {
      UpdatesConcat(a[1..], b);
      assert (a + b)[0] == a[0] && (a + b)[1..] == a[1..] + b;
    }
  }

  lemma {:induction false} StoredWhenQuiet(es: seq<Event>, k: string)
    requires ValidRun(START, es) && C.Quiet(Run(START, es).tree) && GoodUpdates(es)
    requires k in C.KeySet(Updates(es))
    ensures Stored(Run(START, es), k)
  {
    PublishedRootHoldsEveryUpdate(es, k);
  }

  /** From wherever somebody is inserting, the store may fail, and leave no root hash behind. */
  lemma {:induction false} MayFail(s: Sys) returns (es: seq<Event>)
    requires SysOk(s) && s.tree.inserting
    ensures UntilIdle(s, es) && Updates(es) == {} && AtRest(s, es).tree.db.hash.NoHash?
    decreases C.Work(s.tree)
  {
    var e := if s.tree.drains[0] == [] then Finish(0) else Apply;
    var s1 := Step(s, e);
    StepOk(s, e);
    C.StepWork(CONFIG, s.tree, TreeEvents(e)[0], multiset{});
    var rest := [];
    if s1.tree.inserting {
      rest := MayFail(s1);
    } else {
      EndRoundOk(CONFIG, s.tree.db, 0, multiset{});
    }
    es := [e] + rest;
    assert es[1..] == rest;
  }

  lemma {:induction false} UpdatesOf(e: Event, es: seq<Event>)
    requires e.Update?
    ensures Updates([e] + es) == {Pair(e.key, e.value)} + Updates(es)
  {
    assert ([e] + es)[1..] == es;
  }

  lemma {:induction false} SuccessIsStored(es: seq<Event>, e: Event, rest: seq<Event>)
    requires ValidRun(START, es) && e.Update? && Enabled(Run(START, es), e)
    requires UntilIdle(Step(Run(START, es), e), rest) && AtRest(Step(Run(START, es), e), rest).tree.db.hash.Id?
    requires GoodUpdates(es) && GoodKey(e.key) && GoodUpdates(rest)
    ensures Stored(AtRest(Step(Run(START, es), e), rest), e.key)
  {
    var s := Run(START, es);
    var all := es + ([e] + rest);
    IdleRun(Step(s, e), rest);
    Unroll(s, e, rest);
    RunConcat(START, es, [e] + rest);
    UpdatesConcat(es, [e] + rest);
    UpdatesOf(e, rest);
    assert Pair(e.key, e.value) in Updates(all);
    StoredWhenQuiet(all, e.key);
  }

  lemma {:induction false} FailureLosesIt(s: Sys, e: Event)
    requires SysOk(s) && s.tree.inserting && e.Update? && Enabled(s, e)
    ensures exists rest :: UntilIdle(Step(s, e), rest) && GoodUpdates(rest) && !Stored(AtRest(Step(s, e), rest), e.key)
  {
    StepOk(s, e);
    var rest := MayFail(Step(s, e));
    assert GoodUpdates(rest);
  }

  /** After any run: that the insert of an update has returned without an error means that its key is
      in the stored root, as soon as nobody is inserting, exactly if nobody was when it was called. */
  lemma {:induction false} SuccessMeansStored(es: seq<Event>, e: Event)
    requires ValidRun(START, es) && e.Update? && Enabled(Run(START, es), e)
    requires GoodUpdates(es) && GoodKey(e.key)
    ensures var s := Run(START, es);
            (forall rest ::
               UntilIdle(Step(s, e), rest) && GoodUpdates(rest) && Succeeded(s, AtRest(Step(s, e), rest)) ==>
                 Stored(AtRest(Step(s, e), rest), e.key))
            <==> !s.tree.inserting
  {
    var s := Run(START, es);
    if s.tree.inserting {
      StartOk();
      RunOk(START, es);
      FailureLosesIt(s, e);
    } else {
      forall rest | UntilIdle(Step(s, e), rest) && GoodUpdates(rest) && AtRest(Step(s, e), rest).tree.db.hash.Id?
        ensures Stored(AtRest(Step(s, e), rest), e.key)
      {
        SuccessIsStored(es, e, rest);
      }
    }
  }

  lemma {:induction false} LostEnd(s: Sys, k: string, v: string)
    requires SysOk(s) && s.tree.inserting && s.tree.buffer == [] && s.tree.drains == [[]] && s.tree.db.root.Node?
    ensures var es := [Update(k, v, true), Finish(0)];
            && ValidRun(s, es)
            && var s2 := Run(s, es);
               s2.publisher == s.publisher && !s2.tree.inserting && s2.tree.db.hash.NoHash?
                 && s2.tree.buffer == [Pair(k, v)]
  {
    var s1 := Step(s, Update(k, v, true));
    StepOk(s, Update(k, v, true));
    assert s1.tree.buffer == [Pair(k, v)];
    EndRoundOk(CONFIG, s1.tree.db, 0, multiset{});
    Unroll(s1, Finish(0), []);
    Unroll(s, Update(k, v, true), [Finish(0)]);
    assert [Update(k, v, true)] + [Finish(0)] == [Update(k, v, true), Finish(0)];
  }

  ghost predicate ToBeStored(s: Sys) {
    && SysOk(s) && s.tree.inserting && s.tree.buffer == [] && s.tree.drains == [[]]
    && s.tree.db.root.Node? && s.publisher == P.START
  }

  lemma {:induction false} LostApply(s: Sys, p: Pair)
    requires SysOk(s) && s.tree.inserting && s.tree.buffer == [] && s.tree.drains == [[p]] && s.publisher == P.START
    ensures Enabled(s, Apply) && ToBeStored(Step(s, Apply))
  {
    assert [p][1..] == [] && [[p]][0 := []] == [[]];
    StepOk(s, Apply);
  }

  lemma {:induction false} LostBegin(k: string, v: string)
    ensures ValidRun(START, [Update(k, v, false), Apply]) && ToBeStored(Run(START, [Update(k, v, false), Apply]))
  {
    var e := Update(k, v, false);
    var s1 := Step(START, e);
    StartOk();
    StepOk(START, e);
    assert s1.tree.drains == [[Pair(k, v)]];
    LostApply(s1, Pair(k, v));
    Unroll(s1, Apply, []);
    Unroll(START, e, [Apply]);
    assert [e] + [Apply] == [e, Apply];
  }

  /** Runs in which it fails: the update of b returns without an error and without publishing
      anything, while the tree is being stored; the store fails, only the update of a is told, and
      b is left in the buffer. */
  lemma {:induction false} UpdateLost(a: Pair, b: Pair)
    ensures var es := [Update(a.key, a.value, false), Apply] + [Update(b.key, b.value, true), Finish(0)];
            && ValidRun(START, es)
            && var s := Run(START, es);
               s.publisher == P.START && !s.tree.inserting && s.tree.db.hash.NoHash? && s.tree.buffer == [b]
  {
    LostBegin(a.key, a.value);
    LostEnd(Run(START, [Update(a.key, a.value, false), Apply]), b.key, b.value);
    RunConcat(START, [Update(a.key, a.value, false), Apply], [Update(b.key, b.value, true), Finish(0)]);
  }

  // ----- a run of the tree with the uploads it brings -----

  function UploadAll(p: P.Machine, roots: seq<Hash>): P.Machine
    decreases |roots|
  {
    if roots == [] then p
    else UploadAll(Upload(p, roots[0]), roots[1..])
  }

  lemma {:induction false} UploadAllConcat(p: P.Machine, a: seq<Hash>, b: seq<Hash>)
    ensures UploadAll(p, a + b) == UploadAll(UploadAll(p, a), b)
    decreases |a|
  {
    if a == [] {
      assert a + b == b;
    } else {
      assert (a + b)[0] == a[0] && (a + b)[1..] == a[1..] + b;
      UploadAllConcat(Upload(p, a[0]), a[1..], b);
    }
  }

  lemma {:induction false} UploadOne(p: P.Machine, h: Hash)
    ensures UploadAll(p, [h]) == Upload(p, h)
  {
    assert [h][1..] == [];
  }

  function LiftOne(e: C.Event): Event {
    match e
    case Call(k, v) => Update(k, v, false)
    case Apply(_) => Apply
    case Finish(_, credit) => Finish(credit)
  }

  function Lift(es: seq<C.Event>): seq<Event> {
    if es == [] then [] else [LiftOne(es[0])] + Lift(es[1..])
  }

  predicate Single(t: C.Machine) {
    |t.drains| == (if t.inserting then 1 else 0)
  }

  /** s2 is s after its tree has become t and the roots found on the way have been uploaded. */
  ghost predicate Uploaded(s: Sys, found: seq<Hash>, t: C.Machine, s2: Sys) {
    t.seen == s.tree.seen + found && s2 == Sys(t, UploadAll(s.publisher, found)) && Single(t)
  }

  /** A step of the tree is a step of the whole, with the upload of the root its caller found. */
  lemma {:induction false} LiftStep(s: Sys, e: C.Event) returns (found: seq<Hash>)
    requires Single(s.tree) && C.Enabled(s.tree, e)
    ensures Enabled(s, LiftOne(e)) && Uploaded(s, found, C.Step(CONFIG, s.tree, e), Step(s, LiftOne(e)))
  {
    var t := C.Step(CONFIG, s.tree, e);
    match e
    case Call(_, _) =>
      found := if s.tree.inserting then [s.tree.db.hash] else [];
      UploadOne(s.publisher, s.tree.db.hash);
    case Apply(_) =>
      found := [];
    case Finish(_, _) =>
      found := if t.inserting then [] else [t.db.hash];
      UploadOne(s.publisher, t.db.hash);
  }

  lemma {:induction false} UploadedJoin(s: Sys, a: seq<Hash>, s1: Sys, b: seq<Hash>, t: C.Machine, s2: Sys)
    requires Uploaded(s, a, s1.tree, s1) && Uploaded(s1, b, t, s2)
    ensures Uploaded(s, a + b, t, s2)
  {
    UploadAllConcat(s.publisher, a, b);
    assert (s.tree.seen + a) + b == s.tree.seen + (a + b);
  }

  lemma {:induction false} LiftCons(s: Sys, e: C.Event, tail: seq<C.Event>, es: seq<C.Event>)
    requires es == [e] + tail && C.ValidRun(CONFIG, s.tree, es) && Enabled(s, LiftOne(e))
    requires ValidRun(Step(s, LiftOne(e)), Lift(tail))
    ensures C.Run(CONFIG, s.tree, es) == C.Run(CONFIG, C.Step(CONFIG, s.tree, e), tail)
    ensures ValidRun(s, Lift(es)) && Run(s, Lift(es)) == Run(Step(s, LiftOne(e)), Lift(tail))
  {
    assert es[0] == e && es[1..] == tail;
    assert Lift(es)[0] == LiftOne(e) && Lift(es)[1..] == Lift(tail);
  }

  /** A run of the tree is a run of the whole, in which every caller uploads the root it found. */
  lemma {:induction false} LiftRun(s: Sys, es: seq<C.Event>) returns (found: seq<Hash>)
    requires Single(s.tree) && C.ValidRun(CONFIG, s.tree, es)
    ensures ValidRun(s, Lift(es)) && Uploaded(s, found, C.Run(CONFIG, s.tree, es), Run(s, Lift(es)))
    decreases |es|
  {
    if es == [] {
      found := [];
    } else {
      var s1 := Step(s, LiftOne(es[0]));
      var first := LiftStep(s, es[0]);
      var rest := LiftRun(s1, es[1..]);
      found := first + rest;
      LiftCons(s, es[0], es[1..], es);
      UploadedJoin(s, first, s1, rest, C.Run(CONFIG, s.tree, es), Run(s, Lift(es)));
    }
  }

  lemma {:induction false} LiftHead(es: seq<C.Event>, k: string, v: string)
    requires [C.Call(k, v)] <= es
    ensures [Update(k, v, false)] <= Lift(es)
  {
    assert es[0] == C.Call(k, v);
  }

  lemma {:induction false} LastUpload(s: Sys, found: seq<Hash>, t: C.Machine, s2: Sys)
    requires Uploaded(s, found, t, s2) && |s.tree.seen| < |t.seen| && t.seen[|t.seen| - 1] == t.db.hash
    ensures s2 == Sys(t, Upload(UploadAll(s.publisher, t.seen[|s.tree.seen|..|t.seen| - 1]), t.db.hash))
  {
    var first := found[..|found| - 1];
    assert t.seen[|s.tree.seen|..|t.seen| - 1] == first && found == first + [t.db.hash];
    UploadAllConcat(s.publisher, first, [t.db.hash]);
    UploadOne(UploadAll(s.publisher, first), t.db.hash);
  }

  /** A run of the tree with all the uploads it brings, the one of the root it ends with last. */
  lemma {:induction false} LiftWithLast(s: Sys, es: seq<C.Event>, t: C.Machine)
    requires Single(s.tree) && C.ValidRun(CONFIG, s.tree, es) && t == C.Run(CONFIG, s.tree, es)
    requires |s.tree.seen| < |t.seen| && t.seen[|t.seen| - 1] == t.db.hash
    ensures ValidRun(s, Lift(es)) && s.tree.seen <= t.seen
    ensures Run(s, Lift(es)) == Sys(t, Upload(UploadAll(s.publisher, t.seen[|s.tree.seen|..|t.seen| - 1]), t.db.hash))
  {
    var found := LiftRun(s, es);
    LastUpload(s, found, t, Run(s, Lift(es)));
  }

  /** An insert that ran from idle to idle, with all the uploads that belong to it, its own last. */
  lemma {:induction false} InsertRan(s: Sys, es: seq<C.Event>, k: string, v: string, t: C.Machine)
    requires SysOk(s) && !s.tree.inserting && [C.Call(k, v)] <= es && C.ValidRun(CONFIG, s.tree, es)
    requires t == C.Run(CONFIG, s.tree, es) && !t.inserting
    ensures ValidRun(s, Lift(es)) && [Update(k, v, false)] <= Lift(es) && SysOk(Run(s, Lift(es)))
    ensures |s.tree.seen| < |t.seen|
    ensures Run(s, Lift(es)) == Sys(t, Upload(UploadAll(s.publisher, t.seen[|s.tree.seen|..|t.seen| - 1]), t.db.hash))
  {
    C.InserterFindsRoot(CONFIG, s.tree, es, k, v, multiset{});
    LiftHead(es, k, v);
    LiftWithLast(s, es, t);
    RunOk(s, Lift(es));
  }
}

/** The InjectorDb object. */
module InjectorDbObject {
  import opened Tree
  import opened InjectorDb
  import opened Nodes
  import opened RepublisherObject
  import opened Requests

  class InjectorDatabase {
    const dbMap: BTree
    const republisher: Republisher

    constructor (dbMap: BTree, republisher: Republisher)
      ensures this.dbMap == dbMap && this.republisher == republisher
    {
      this.dbMap, this.republisher := dbMap, republisher;
    }

    ghost predicate TreeInOrder()
      reads dbMap`root, dbMap`insertBuffer, dbMap`isInserting, dbMap`rootsRead
      reads dbMap.RootSet(), dbMap.NodeSet(), dbMap.Repr(), dbMap.store
    {
      && dbMap.store.config == CONFIG && dbMap.Valid() && !dbMap.isInserting
      && C.MachineOk(CONFIG, dbMap.Idle(), multiset{})
    }

    /** The tree, with nobody inserting, and the Republisher. */
    ghost function System(): Sys
      reads dbMap`root, dbMap`insertBuffer, dbMap`rootsRead, dbMap.RootSet(), dbMap.NodeSet(), dbMap.store, republisher
    {
      Sys(dbMap.Idle(), republisher.State())
    }

    method Ask(cid: string)
      modifies republisher
      ensures republisher.State() == P.StepPublish(old(republisher.State()), cid)
      ensures old(TreeInOrder()) ==> TreeInOrder() && dbMap.Idle() == old(dbMap.Idle())
    {
      republisher.Publish(cid);
    }

    method UploadRoot(h: Hash)
      modifies republisher
      ensures republisher.State() == Upload(old(republisher.State()), h)
      ensures republisher.requests == old(republisher.requests) + Cids(IdOf(h))
      ensures old(TreeInOrder()) ==> TreeInOrder() && dbMap.Idle() == old(dbMap.Idle())
    {
      UploadAsks(republisher.State(), h);
      if h.NoHash? {
        return;
      }
      Ask(Cid(h.n));
    }

    /** InjectorDb::upload_database: a request of the root's own, whatever has been asked for before. */
    method UploadDatabase()
      modifies republisher
      ensures republisher.State() == Upload(old(republisher.State()), dbMap.RootHash())
      ensures republisher.requests == old(republisher.requests) + Cids(IdOf(dbMap.RootHash()))
      ensures old(TreeInOrder()) ==> TreeInOrder() && dbMap.Idle() == old(dbMap.Idle())
    {
      UploadRoot(dbMap.RootHash());
    }

    /** What callers that found somebody inserting have uploaded meanwhile. */
    method UploadFound(roots: seq<Hash>)
      modifies republisher
      ensures republisher.State() == UploadAll(old(republisher.State()), roots)
      ensures old(TreeInOrder()) ==> TreeInOrder() && dbMap.Idle() == old(dbMap.Idle())
    {
      var i := 0;
      while i < |roots|
        invariant i <= |roots|
        invariant UploadAll(republisher.State(), roots[i..]) == UploadAll(old(republisher.State()), roots)
        invariant old(TreeInOrder()) ==> TreeInOrder() && dbMap.Idle() == old(dbMap.Idle())
      {
        assert roots[i..][0] == roots[i] && roots[i..][1..] == roots[i + 1..];
        UploadRoot(roots[i]);
        i := i + 1;
      }
    }

    method InsertIntoTree(key: string, value: string) returns (ok: bool, ghost es: seq<C.Event>)
      requires TreeInOrder()
      modifies dbMap`root, dbMap`insertBuffer, dbMap`isInserting, dbMap`arrivals, dbMap`rootsRead
      modifies dbMap.RootSet(), dbMap.Repr(), dbMap.store
      ensures TreeInOrder()
      ensures ok <==> dbMap.RootHash().Id?
      ensures [C.Call(key, value)] <= es && C.ValidRun(CONFIG, old(dbMap.Idle()), es)
      ensures C.Run(CONFIG, old(dbMap.Idle()), es) == dbMap.Idle()
      ensures |old(dbMap.rootsRead)| < |dbMap.rootsRead|
    {
      ghost var t := dbMap.Idle();
      ok, es := dbMap.Insert(key, value, multiset{});
      C.InserterFindsRoot(CONFIG, t, es, key, value, multiset{});
    }

    method UploadIf(ok: bool)
      requires ok <==> dbMap.RootHash().Id?
      modifies republisher
      ensures republisher.State() == Upload(old(republisher.State()), dbMap.RootHash())
      ensures old(TreeInOrder()) ==> TreeInOrder() && dbMap.Idle() == old(dbMap.Idle())
    {
      if ok {
        UploadDatabase();
      }
    }

    /** The uploads that belong to an insert which began when rootsRead had length n. */
    method UploadSince(n: nat, ok: bool)
      requires n < |dbMap.rootsRead| && (ok <==> dbMap.RootHash().Id?)
      modifies republisher
      ensures republisher.State() ==
              Upload(UploadAll(old(republisher.State()), dbMap.rootsRead[n..|dbMap.rootsRead| - 1]), dbMap.RootHash())
      ensures old(TreeInOrder()) ==> TreeInOrder() && dbMap.Idle() == old(dbMap.Idle())
    {
      var roots := dbMap.rootsRead[n..|dbMap.rootsRead| - 1];
      UploadFound(roots);
      UploadIf(ok);
    }

    method InsertAndUpload(key: string, value: string) returns (ok: bool, ghost es: seq<C.Event>)
      requires TreeInOrder()
      modifies dbMap`root, dbMap`insertBuffer, dbMap`isInserting, dbMap`arrivals, dbMap`rootsRead
      modifies dbMap.RootSet(), dbMap.Repr(), dbMap.store, republisher
      ensures TreeInOrder()
      ensures ok <==> dbMap.RootHash().Id?
      ensures [C.Call(key, value)] <= es && C.ValidRun(CONFIG, old(dbMap.Idle()), es)
      ensures C.Run(CONFIG, old(dbMap.Idle()), es) == dbMap.Idle()
      ensures |old(dbMap.rootsRead)| < |dbMap.rootsRead|
      ensures republisher.State() ==
              Upload(UploadAll(old(republisher.State()),
                dbMap.rootsRead[|old(dbMap.rootsRead)|..|dbMap.rootsRead| - 1]), dbMap.RootHash())
    {
      var n := |dbMap.rootsRead|;
      ok, es := InsertIntoTree(key, value);
      UploadSince(n, ok);
    }

    /** update, when nobody is inserting; other callers may come while it waits, and upload the root
        they find. */
    method UpdateAlone(key: string, value: string) returns (ok: bool, ghost es: seq<Event>)
      requires TreeInOrder() && SysOk(System())
      modifies dbMap`root, dbMap`insertBuffer, dbMap`isInserting, dbMap`arrivals, dbMap`rootsRead
      modifies dbMap.RootSet(), dbMap.Repr(), dbMap.store, republisher
      ensures TreeInOrder() && SysOk(System())
      ensures [Event.Update(key, value, false)] <= es && ValidRun(old(System()), es)
          && Run(old(System()), es) == System()
      ensures ok <==> dbMap.RootHash().Id?
      ensures old(dbMap.rootsRead) <= dbMap.rootsRead
      ensures AskedBy(dbMap.rootsRead[|old(dbMap.rootsRead)|..], dbMap.RootHash(),
                      old(republisher.requests), republisher.requests)
    {
      ghost var s := System();
      ghost var es0;
      ok, es0 := InsertAndUpload(key, value);
      InsertRan(s, es0, key, value, dbMap.Idle());
      ghost var before, after, root := InsertFinds(s, es0, key, value, dbMap.Idle());
      FoundAsk(s.publisher, before, after, root);
      es := Lift(es0);
    }

    /** update, when somebody is inserting: the pair is left in the buffer, and the root that is
        there is uploaded. */
    method UpdateBusy(key: string, value: string)
      requires dbMap.store.config == CONFIG && dbMap.Valid() && dbMap.isInserting
      modifies dbMap`root, dbMap`insertBuffer, dbMap`isInserting, dbMap`arrivals, dbMap`rootsRead
      modifies dbMap.RootSet(), dbMap.Repr(), dbMap.store, republisher
      ensures dbMap.Valid() && dbMap.isInserting
      ensures republisher.requests == old(republisher.requests) + Cids(IdOf(old(dbMap.RootHash())))
      ensures forall buf ::
        Sys(dbMap.Draining(buf), republisher.State()) ==
        StepUpdate(Sys(old(dbMap.Draining(buf)), old(republisher.State())), key, value, false)
    {
      ghost var buf := [];
      var ok; ghost var es;
      ok, es := dbMap.Insert(key, value, multiset{});
      assert dbMap.Draining(buf).db.hash == old(dbMap.Draining(buf)).db.hash;
      UploadDatabase();
    }

    /** InjectorDb::update: a run of the whole system that begins with this update and ends with
        nobody inserting, or one step of it if somebody is. Either way every caller that finds a root
        makes a request for it. */
    method Update(key: string, value: string) returns (ok: bool, ghost es: seq<Event>)
      requires dbMap.store.config == CONFIG && dbMap.Valid()
      requires !dbMap.isInserting ==> TreeInOrder() && SysOk(System())
      modifies dbMap`root, dbMap`insertBuffer, dbMap`isInserting, dbMap`arrivals, dbMap`rootsRead
      modifies dbMap.RootSet(), dbMap.Repr(), dbMap.store, republisher
      ensures old(dbMap.isInserting) ==>
        republisher.requests == old(republisher.requests) + Cids(IdOf(old(dbMap.RootHash())))
      ensures old(dbMap.isInserting) ==> ok && forall buf ::
        Sys(dbMap.Draining(buf), republisher.State()) ==
        StepUpdate(Sys(old(dbMap.Draining(buf)), old(republisher.State())), key, value, false)
      ensures !old(dbMap.isInserting) ==>
        && TreeInOrder() && SysOk(System())
        && [Event.Update(key, value, false)] <= es
        && ValidRun(old(System()), es) && Run(old(System()), es) == System()
        && (ok <==> dbMap.RootHash().Id?)
        && old(dbMap.rootsRead) <= dbMap.rootsRead
        && AskedBy(dbMap.rootsRead[|old(dbMap.rootsRead)|..], dbMap.RootHash(),
                   old(republisher.requests), republisher.requests)
    {
      if dbMap.isInserting {
        UpdateBusy(key, value);
        return true, [];
      }
      ok, es := UpdateAlone(key, value);
    }
  }
}
