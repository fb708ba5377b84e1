/** BTree::insert as a step machine. A caller runs until it suspends in a storage operation; other
    callers may come in there. All they can touch is _insert_buffer, so one step is one raw_insert
    or one end of a round, and calls fall in between in any order. */
module Coalescing {
  import opened OrderedMap
  import opened Tree
  import opened Codec
  import opened Storage
  import opened LazyFind
  import opened Database

  /** The database, _is_inserting, _insert_buffer, and for every caller that is inside the drain
      loop what is left of the buffer it took. seen records the root hashes that the callers found
      when their inserts returned; for one that comes while the tree is being stored, and finds none,
      it has the hash from before. */
  datatype Machine = Machine(db: Db, inserting: bool, buffer: seq<Pair>, drains: seq<seq<Pair>>, seen: seq<Hash>)

  datatype Event =
    | Call(key: string, value: string)
    | Apply(drain: nat)
    | Finish(drain: nat, credit: nat)

  const START := Machine(Db(Nil, NoHash, Store(map[], 0, 0)), false, [], [], [])

  ghost predicate Enabled(m: Machine, e: Event) {
    match e
    case Call(_, _) => true
    case Apply(d) => d < |m.drains| && m.drains[d] != []
    case Finish(d, _) => d < |m.drains| && m.drains[d] == []
  }

  /** A call hands over its pair; unless somebody is inserting it starts to drain the buffer. */
  function StepCall(m: Machine, k: string, v: string): Machine {
    var buffer := Put(m.buffer, k, v, false);
    if m.inserting then m.(buffer := buffer, seen := m.seen + [m.db.hash])
    else Machine(m.db, true, [], m.drains + [buffer], m.seen)
  }

  function StepApply(c: Config, m: Machine, d: nat): Machine
    requires d < |m.drains| && m.drains[d] != []
  {
    var p := m.drains[d][0];
    m.(db := RawInsert(c, m.db, p.key, p.value), drains := m.drains[d := m.drains[d][1..]])
  }

  /** Whether the round ends the insert: on a failed store, or with nothing left in the buffer. */
  function Returns(c: Config, m: Machine, credit: nat): bool {
    (c.canAdd && m.db.root.Node? && EndRound(c, m.db, credit).hash.NoHash?) || m.buffer == []
  }

  /** The end of a round: on failure the insert returns and leaves the buffer as it is, on success
      it takes the buffer again or returns. */
  function StepFinish(c: Config, m: Machine, d: nat, credit: nat): Machine
    requires d < |m.drains|
  {
    var db := EndRound(c, m.db, credit);
    if Returns(c, m, credit) then Machine(db, false, m.buffer, m.drains[..d] + m.drains[d + 1..], m.seen + [db.hash])
    else Machine(db, m.inserting, [], m.drains[d := m.buffer], m.seen)
  }

  function Step(c: Config, m: Machine, e: Event): Machine
    requires Enabled(m, e)
  {
    match e
    case Call(k, v) => StepCall(m, k, v)
    case Apply(d) => StepApply(c, m, d)
    case Finish(d, credit) => StepFinish(c, m, d, credit)
  }

  ghost predicate ValidRun(c: Config, m: Machine, es: seq<Event>)
    decreases |es|
  {
    es == [] || (Enabled(m, es[0]) && ValidRun(c, Step(c, m, es[0]), es[1..]))
  }

  function Run(c: Config, m: Machine, es: seq<Event>): Machine
    requires ValidRun(c, m, es)
    decreases |es|
  {
    if es == [] then m else Run(c, Step(c, m, es[0]), es[1..])
  }

  /** The pairs handed to insert so far. */
  function Handed(es: seq<Event>): set<Pair> {
    if es == [] then {}
    else (match es[0]
          case Call(k, v) => {Pair(k, v)}
          case Apply(_) => {}
          case Finish(_, _) => {}) + Handed(es[1..])
  }

  // ----- what every step keeps -----

  function PairSet(s: seq<Pair>): set<Pair> {
    set p | p in s
  }

  function KeySet(s: set<Pair>): set<string> {
    set p | p in s :: p.key
  }

  /** Everything the machine holds: in the tree, in the buffer, on the way from one to the other. */
  function Held(m: Machine): set<Pair> {
    PairSet(Pairs(m.db)) + PairSet(m.buffer) + (if m.drains == [] then {} else PairSet(m.drains[0]))
  }

  /** At most one caller drains, exactly while _is_inserting is set; and while nobody does, the
      root hash, if there is one, names the whole tree and nothing waits in the buffer. */
  ghost predicate MachineOk(c: Config, m: Machine, others: multiset<nat>) {
    && DbOk(c, m.db, others)
    && |m.drains| == (if m.inserting then 1 else 0)
    && Sorted(m.buffer)
    && (!m.inserting ==> Settled(m.db))
    && (!m.inserting && (m.db.hash.Id? || !c.canAdd) ==> m.buffer == [])
    && (!m.inserting && m.seen != [] ==> m.seen[|m.seen| - 1] == m.db.hash)
  }

  lemma {:induction false} PairSetConcat(a: seq<Pair>, b: seq<Pair>)
    ensures PairSet(a + b) == PairSet(a) + PairSet(b)
  {
  }

  lemma {:induction false} KeySetUnion(a: set<Pair>, b: set<Pair>)
    ensures KeySet(a + b) == KeySet(a) + KeySet(b)
  {
    forall k | k in KeySet(a) + KeySet(b)
      ensures k in KeySet(a + b)
    {
      var p :| p in a + b && p.key == k;
    }
  }

  lemma {:induction false} PairSetCons(p: Pair, s: seq<Pair>)
    ensures PairSet([p] + s) == {p} + PairSet(s)
    ensures KeySet(PairSet([p] + s)) == {p.key} + KeySet(PairSet(s))
  {
    assert PairSet([p]) == {p};
    PairSetConcat([p], s);
    KeySetUnion({p}, PairSet(s));
    assert KeySet({p}) == {p.key} by {
      assert p in {p};
    }
  }

  /** One step of Put: whatever is behind the head has become t2. */
  lemma {:induction false} PutSetStep(h: Pair, t: seq<Pair>, t2: seq<Pair>, p: Pair)
    requires PairSet(t2) <= PairSet(t) + {p} && KeySet(PairSet(t2)) == KeySet(PairSet(t)) + {p.key}
    ensures PairSet([h] + t2) <= PairSet([h] + t) + {p}
    ensures KeySet(PairSet([h] + t2)) == KeySet(PairSet([h] + t)) + {p.key}
  {
    PairSetCons(h, t);
    PairSetCons(h, t2);
  }

  lemma {:induction false} PutSetHere(h: Pair, t: seq<Pair>, p: Pair)
    ensures var s := [h] + t;
            && PairSet([p] + s) == PairSet(s) + {p} && KeySet(PairSet([p] + s)) == KeySet(PairSet(s)) + {p.key}
            && (h.key == p.key ==>
                  PairSet([p] + t) <= PairSet(s) + {p}
                    && KeySet(PairSet([p] + t)) == KeySet(PairSet(s)) == KeySet(PairSet(s)) + {p.key})
  {
    PairSetCons(h, t);
    PairSetCons(p, t);
    PairSetCons(p, [h] + t);
  }

  lemma {:induction false} PutSet(s: seq<Pair>, k: string, v: string, overwrite: bool)
    ensures PairSet(Put(s, k, v, overwrite)) <= PairSet(s) + {Pair(k, v)}
    ensures KeySet(PairSet(Put(s, k, v, overwrite))) == KeySet(PairSet(s)) + {k}
  {
    if s == [] {
      PairSetCons(Pair(k, v), []);
      assert [Pair(k, v)] + [] == [Pair(k, v)];
    } else {
      assert s == [s[0]] + s[1..];
      PutSetHere(s[0], s[1..], Pair(k, v));
      if s[0].key != k && !Keys.Less(k, s[0].key) {
        PutSet(s[1..], k, v, overwrite);
        PutSetStep(s[0], s[1..], Put(s[1..], k, v, overwrite), Pair(k, v));
      }
    }
  }

  /** What one step does to the pairs held: keys are never lost, and no pair appears that was not
      handed over. */
  ghost predicate Carries(m: Machine, m': Machine, added: set<Pair>) {
    && Held(m') <= Held(m) + added
    && KeySet(Held(m')) == KeySet(Held(m)) + KeySet(added)
  }

  lemma {:induction false} StartOk(c: Config)
    ensures MachineOk(c, START, multiset{}) && Held(START) == {}
  {
    assert Bag([]) == multiset{} && Flat([]) == [];
    assert Linked(START.db) == multiset{};
    var none: map<nat, Blob> := map[];
    assert multiset(none.Keys) == multiset{};
  }

  lemma {:induction false} CallOk(c: Config, m: Machine, k: string, v: string, others: multiset<nat>)
    requires MachineOk(c, m, others)
    ensures MachineOk(c, StepCall(m, k, v), others)
    ensures Carries(m, StepCall(m, k, v), {Pair(k, v)})
  {
    PutSorted(m.buffer, k, v, false);
    CallCarries(m, k, v);
  }

  lemma {:induction false} CallCarries(m: Machine, k: string, v: string)
    requires |m.drains| == (if m.inserting then 1 else 0)
    ensures Carries(m, StepCall(m, k, v), {Pair(k, v)})
  {
    var p := Pair(k, v);
    PutSet(m.buffer, k, v, false);
    assert KeySet({p}) == {k} by {
      assert p in {p};
    }
    var t, b, b' := PairSet(Pairs(m.db)), PairSet(m.buffer), PairSet(Put(m.buffer, k, v, false));
    var d := if m.drains == [] then {} else PairSet(m.drains[0]);
    assert Held(StepCall(m, k, v)) == t + b' + d;
    GrowKeys(t, b, b', {p}, d);
  }

  lemma {:induction false} GrowKeys(t: set<Pair>, b: set<Pair>, b': set<Pair>, p: set<Pair>, d: set<Pair>)
    requires KeySet(b') == KeySet(b) + KeySet(p)
    ensures KeySet(t + b' + d) == KeySet(t + b + d) + KeySet(p)
  {
    KeySetUnion(t + b, d);
    KeySetUnion(t, b);
    KeySetUnion(t + b', d);
    KeySetUnion(t, b');
  }

  lemma {:induction false} ApplyOk(c: Config, m: Machine, d: nat, others: multiset<nat>)
    requires c.maxSize >= 2 && MachineOk(c, m, others) && Enabled(m, Apply(d))
    ensures MachineOk(c, StepApply(c, m, d), others)
    ensures Carries(m, StepApply(c, m, d), {})
  {
    var p := m.drains[0][0];
    RawInsertOk(c, m.db, p.key, p.value, others);
    ApplyCarries(m, RawInsert(c, m.db, p.key, p.value), p.key in InOrder.InnerKeys(EntriesOf(m.db.root)));
  }

  lemma {:induction false} ApplyCarries(m: Machine, db: Db, overwrite: bool)
    requires |m.drains| == 1 && m.drains[0] != []
    requires Pairs(db) == Put(Pairs(m.db), m.drains[0][0].key, m.drains[0][0].value, overwrite)
    ensures Carries(m, m.(db := db, drains := m.drains[0 := m.drains[0][1..]]), {})
  {
    var q, p := m.drains[0], m.drains[0][0];
    PutSet(Pairs(m.db), p.key, p.value, overwrite);
    assert q == [p] + q[1..];
    PairSetCons(p, q[1..]);
    MovePair(PairSet(Pairs(m.db)), PairSet(Pairs(db)), PairSet(m.buffer), p, PairSet(q[1..]));
    assert KeySet({}) == {};
  }

  lemma {:induction false} MovePair(t: set<Pair>, t': set<Pair>, b: set<Pair>, p: Pair, d: set<Pair>)
    requires t' <= t + {p} && KeySet(t') == KeySet(t) + {p.key}
    ensures t' + b + d <= t + b + ({p} + d)
    ensures KeySet(t' + b + d) == KeySet(t + b + ({p} + d))
  {
    assert KeySet({p}) == {p.key} by {
      assert p in {p};
    }
    MoveKeys(t, t', b, {p}, d);
  }

  lemma {:induction false} MoveKeys(t: set<Pair>, t': set<Pair>, b: set<Pair>, p: set<Pair>, d: set<Pair>)
    requires KeySet(t') == KeySet(t) + KeySet(p)
    ensures KeySet(t' + b + d) == KeySet(t + b + (p + d))
  {
    KeySetUnion(t' + b, d);
    KeySetUnion(t', b);
    KeySetUnion(t + b, p + d);
    KeySetUnion(t, b);
    KeySetUnion(p, d);
  }

  lemma {:induction false} FinishOk(c: Config, m: Machine, d: nat, credit: nat, others: multiset<nat>)
    requires MachineOk(c, m, others) && Enabled(m, Finish(d, credit))
    ensures MachineOk(c, StepFinish(c, m, d, credit), others)
    ensures Carries(m, StepFinish(c, m, d, credit), {})
  {
    var m' := StepFinish(c, m, d, credit);
    EndRoundOk(c, m.db, credit, others);
    assert KeySet({}) == {};
    assert m.drains[0] == [] && PairSet([]) == {};
    assert Held(m') == Held(m);
  }

  /** Every step of every interleaving. */
  lemma {:induction false} StepOk(c: Config, m: Machine, e: Event, others: multiset<nat>)
    requires c.maxSize >= 2 && MachineOk(c, m, others) && Enabled(m, e)
    ensures MachineOk(c, Step(c, m, e), others)
    ensures Carries(m, Step(c, m, e), Handed([e]))
  {
    HandedOne(e);
    match e
    case Call(k, v) => CallOk(c, m, k, v, others);
    case Apply(d) => ApplyOk(c, m, d, others);
    case Finish(d, credit) => FinishOk(c, m, d, credit, others);
  }

  lemma {:induction false} RunOk(c: Config, m: Machine, es: seq<Event>, others: multiset<nat>)
    requires c.maxSize >= 2 && MachineOk(c, m, others) && ValidRun(c, m, es)
    ensures MachineOk(c, Run(c, m, es), others)
    ensures Carries(m, Run(c, m, es), Handed(es))
    decreases |es|
  {
    if es != [] {
      var m1 := Step(c, m, es[0]);
      StepOk(c, m, es[0], others);
      RunOk(c, m1, es[1..], others);
      HandedCons(es);
      KeySetUnion(Handed([es[0]]), Handed(es[1..]));
    } else {
      assert KeySet({}) == {};
    }
  }

  lemma {:induction false} RunSnoc(c: Config, m: Machine, es: seq<Event>, e: Event)
    requires ValidRun(c, m, es) && Enabled(Run(c, m, es), e)
    ensures ValidRun(c, m, es + [e]) && Run(c, m, es + [e]) == Step(c, Run(c, m, es), e)
    decreases |es|
  {
    if es == [] {
      assert ([] + [e])[1..] == [];
    } else {
      RunSnoc(c, Step(c, m, es[0]), es[1..], e);
      assert (es + [e])[1..] == es[1..] + [e];
    }
  }

  lemma {:induction false} HandedOne(e: Event)
    ensures Handed([e]) == if e.Call? then {Pair(e.key, e.value)} else {}
  {
    assert [e][1..] == [];
  }

  lemma {:induction false} HandedCons(es: seq<Event>)
    requires es != []
    ensures Handed(es) == Handed([es[0]]) + Handed(es[1..])
  {
    assert [es[0]][1..] == [];
  }

  /** Nobody is inserting and the last insert went through: root_hash() is not empty. */
  predicate Quiet(m: Machine) {
    !m.inserting && m.db.hash.Id?
  }

  /** Over every run from the empty tree, failed stores included: at most one caller drains at any
      time, and whenever the machine is quiet nothing waits in the buffer and the tree holds exactly
      the keys handed to insert so far, each with a value it was handed with. In particular the
      first success after a failure covers the keys of the failed insert. */
  lemma {:induction false} QuietMeansComplete(c: Config, es: seq<Event>)
    requires c.maxSize >= 2 && ValidRun(c, START, es)
    ensures var m := Run(c, START, es);
            && |m.drains| == (if m.inserting then 1 else 0)
            && (Quiet(m) ==>
                  && m.buffer == []
                  && KeySet(PairSet(Pairs(m.db))) == KeySet(Handed(es))
                  && PairSet(Pairs(m.db)) <= Handed(es))
  {
    var m := Run(c, START, es);
    StartOk(c);
    RunOk(c, START, es, multiset{});
    assert KeySet({}) == {};
    if Quiet(m) {
      assert PairSet([]) == {};
      assert Held(m) == PairSet(Pairs(m.db));
    }
  }

  /** The same for a tree without an add operation, which never has a root hash: whenever nobody is
      inserting nothing waits in the buffer and the tree holds exactly the keys handed in. */
  lemma {:induction false} IdleMeansComplete(c: Config, es: seq<Event>)
    requires c.maxSize >= 2 && !c.canAdd && ValidRun(c, START, es) && !Run(c, START, es).inserting
    ensures var m := Run(c, START, es);
            && m.buffer == []
            && KeySet(PairSet(Pairs(m.db))) == KeySet(Handed(es))
            && PairSet(Pairs(m.db)) <= Handed(es)
  {
    var m := Run(c, START, es);
    StartOk(c);
    RunOk(c, START, es, multiset{});
    assert KeySet({}) == {} && PairSet([]) == {};
    assert Held(m) == PairSet(Pairs(m.db));
  }

  lemma {:induction false} GoodPairs(s: seq<Pair>, given: set<Pair>)
    requires PairSet(s) <= given && forall p :: p in given ==> GoodKey(p.key)
    ensures AllGood(s)
  {
    forall i | 0 <= i < |s|
      ensures GoodKey(s[i].key)
    {
      assert s[i] in PairSet(s);
    }
  }

  /** When the machine is quiet its root hash alone gives back the whole tree, to any reader of the
      storage; everything below it is stored, and with a remove operation nothing else is. */
  lemma {:induction false} QuietReadsBack(c: Config, es: seq<Event>, k: string)
    requires c.maxSize >= 2 && ValidRun(c, START, es) && Quiet(Run(c, START, es))
    ensures var db := Run(c, START, es).db;
            && (c.canRemove ==>
                  && |db.store.blobs| == NodeCount(EntriesOf(db.root))
                  && forall h :: h in db.store.blobs ==> ChildrenLive(db.store.blobs[h], db.store.blobs))
            && ((forall p :: p in Handed(es) ==> GoodKey(p.key)) ==>
                  && HashOk(db.store.blobs, db.hash.n)
                  && FindHash(db.store.blobs, db.hash.n, k).answer == Lookup(Pairs(db), k))
  {
    var m := Run(c, START, es);
    StartOk(c);
    RunOk(c, START, es, multiset{});
    if c.canRemove {
      OneBlobPerNode(c, m.db, multiset{});
      NothingDangles(c, m.db);
    }
    if forall p :: p in Handed(es) ==> GoodKey(p.key) {
      QuietMeansComplete(c, es);
      GoodPairs(Pairs(m.db), Handed(es));
      FreshTreeFinds(c, m.db, multiset{}, k);
    }
  }

  // ----- the drain loop ends -----

  /** What is left to do for the one who drains. */
  function Work(m: Machine): nat {
    |m.buffer| + (if m.inserting then 1 + (if m.buffer == [] then 0 else 1) else 0)
    + (if m.drains == [] then 0 else |m.drains[0]|)
  }

  function Calls(es: seq<Event>): nat {
    if es == [] then 0 else (if es[0].Call? then 1 else 0) + Calls(es[1..])
  }

  lemma {:induction false} PutGrows(s: seq<Pair>, k: string, v: string, overwrite: bool)
    ensures 1 <= |Put(s, k, v, overwrite)| <= |s| + 1
  {
    if s == [] {
    } else {
      PutGrows(s[1..], k, v, overwrite);
    }
  }

  lemma {:induction false} StepWork(c: Config, m: Machine, e: Event, others: multiset<nat>)
    requires MachineOk(c, m, others) && Enabled(m, e)
    ensures Work(Step(c, m, e)) <= if e.Call? then Work(m) + 2 else Work(m) - 1
    ensures !e.Call? ==> Work(m) >= 1
  {
    match e
    case Call(k, v) => PutGrows(m.buffer, k, v, false);
    case Apply(_) =>
    case Finish(_, _) =>
  }

  /** Finitely many calls cause at most twice as many steps of the drain loop, and as long as
      somebody is inserting the loop can take a step: it always comes to an end. */
  lemma {:induction false} DrainEnds(c: Config, m: Machine, es: seq<Event>, others: multiset<nat>)
    requires c.maxSize >= 2 && MachineOk(c, m, others) && ValidRun(c, m, es)
    ensures |es| - Calls(es) + Work(Run(c, m, es)) <= 2 * Calls(es) + Work(m)
    ensures Run(c, m, es).inserting ==> Enabled(Run(c, m, es), Apply(0)) || Enabled(Run(c, m, es), Finish(0, 0))
    decreases |es|
  {
    if es == [] {
    } else {
      StepOk(c, m, es[0], others);
      StepWork(c, m, es[0], others);
      DrainEnds(c, Step(c, m, es[0]), es[1..], others);
    }
  }

  /** Every call returns once: its root is recorded, or it is the one who is draining. */
  lemma {:induction false} EveryCallReturns(c: Config, m: Machine, es: seq<Event>, others: multiset<nat>)
    requires c.maxSize >= 2 && MachineOk(c, m, others) && ValidRun(c, m, es)
    ensures Returned(Run(c, m, es)) == Returned(m) + Calls(es)
    decreases |es|
  {
    if es == [] {
    } else {
      StepReturns(c, m, es[0], others);
      EveryCallReturns(c, Step(c, m, es[0]), es[1..], others);
    }
  }

  function Returned(m: Machine): nat {
    |m.seen| + |m.drains|
  }

  lemma {:induction false} StepReturns(c: Config, m: Machine, e: Event, others: multiset<nat>)
    requires c.maxSize >= 2 && MachineOk(c, m, others) && Enabled(m, e)
    ensures MachineOk(c, Step(c, m, e), others)
    ensures Returned(Step(c, m, e)) == Returned(m) + (if e.Call? then 1 else 0)
  {
    StepOk(c, m, e, others);
  }

  /** What callers have found is only added to, and whoever begins to insert finds something in the end. */
  lemma {:induction false} SeenGrows(c: Config, m: Machine, es: seq<Event>)
    requires ValidRun(c, m, es)
    ensures var m' := Run(c, m, es);
            && m.seen <= m'.seen
            && (m.inserting && !m'.inserting ==> |m.seen| < |m'.seen|)
    decreases |es|
  {
    if es == [] {
    } else {
      SeenGrows(c, Step(c, m, es[0]), es[1..]);
    }
  }

  lemma {:induction false} InserterFindsRoot(
      c: Config, m: Machine, es: seq<Event>, k: string, v: string, others: multiset<nat>)
    requires c.maxSize >= 2 && MachineOk(c, m, others) && !m.inserting
    requires [Call(k, v)] <= es && ValidRun(c, m, es) && !Run(c, m, es).inserting
    ensures var m' := Run(c, m, es);
            m.seen <= m'.seen && |m.seen| < |m'.seen| && m'.seen[|m'.seen| - 1] == m'.db.hash
  {
    RunOk(c, m, es, others);
    SeenGrows(c, Step(c, m, es[0]), es[1..]);
  }

  lemma {:induction false} CalledIs(c: Config, m: Machine, k: string, v: string)
    requires m == Machine(m.db, false, m.buffer, [], m.seen)
    ensures ValidRun(c, m, [Call(k, v)])
    ensures Run(c, m, [Call(k, v)]) == Machine(m.db, true, [], [Put(m.buffer, k, v, false)], m.seen)
    ensures Put(m.buffer, k, v, false) != []
  {
    PutGrows(m.buffer, k, v, false);
    RunSnoc(c, m, [], Call(k, v));
    assert [] + [Call(k, v)] == [Call(k, v)];
  }

  lemma {:induction false} FinishedIs(
      c: Config, m0: Machine, es: seq<Event>, db: Db, buffer: seq<Pair>, seen: seq<Hash>, credit: nat,
      others: multiset<nat>)
    requires c.maxSize >= 2 && MachineOk(c, m0, others)
    requires ValidRun(c, m0, es) && Run(c, m0, es) == Machine(db, true, buffer, [[]], seen)
    ensures var es' := es + [Finish(0, credit)];
            && ValidRun(c, m0, es')
            && Run(c, m0, es') ==
                 (if buffer == [] || (c.canAdd && db.root.Node? && EndRound(c, db, credit).hash.NoHash?)
                  then Machine(EndRound(c, db, credit), false, buffer, [], seen + [EndRound(c, db, credit).hash])
                  else Machine(EndRound(c, db, credit), true, [], [buffer], seen))
  {
    RunSnoc(c, m0, es, Finish(0, credit));
    var none: seq<seq<Pair>> := [];
    assert [[]][..0] + [[]][1..] == none;
    assert [[]][0 := buffer] == [buffer];
  }

  lemma {:induction false} AppliedIs(
      c: Config, m0: Machine, es: seq<Event>, db: Db, buffer: seq<Pair>, seen: seq<Hash>, buf: seq<Pair>,
      others: multiset<nat>)
    requires c.maxSize >= 2 && MachineOk(c, m0, others) && buf != []
    requires ValidRun(c, m0, es) && Run(c, m0, es) == Machine(db, true, buffer, [buf], seen)
    ensures InOrder.Loose(EntriesOf(db.root)) && Sorted(Flat(EntriesOf(db.root)))
    ensures ValidRun(c, m0, es + [Apply(0)])
    ensures Run(c, m0, es + [Apply(0)]) ==
            Machine(RawInsert(c, db, buf[0].key, buf[0].value), true, buffer, [buf[1..]], seen)
  {
    RunOk(c, m0, es, others);
    TreeIsInsertable(c, EntriesOf(db.root));
    RunSnoc(c, m0, es, Apply(0));
    assert [buf][0 := buf[1..]] == [buf[1..]];
  }
}
