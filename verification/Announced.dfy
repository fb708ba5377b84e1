/** What the Republisher announces, failed stores included: the root hash of InjectorDb's tree, or a
    hash that leads nowhere. */
module Announced {
  import opened Tree
  import opened Database
  import opened InjectorDb

  /** The value to be published names the blob that has or had id n: the root, or one that is gone for
      good. */
  ghost predicate Names(s: Sys, n: nat) {
    && s.publisher.toPublish == Cid(n) && n < s.tree.db.store.next
    && (s.tree.db.hash == Id(n) || n !in s.tree.db.store.blobs)
  }

  ghost predicate RootOrGone(s: Sys) {
    s.publisher.requests != [] ==> exists n :: Names(s, n)
  }

  lemma {:induction false} CidInjective(m: nat, n: nat)
    requires Cid(m) == Cid(n)
    ensures m == n
  {
    assert |Cid(m)| == m + 1 && |Cid(n)| == n + 1;
  }

  lemma {:induction false} RootIsLive(s: Sys)
    requires SysOk(s) && s.tree.db.hash.Id?
    ensures s.tree.db.hash.n in s.tree.db.store.blobs && s.tree.db.hash.n < s.tree.db.store.next
  {
    var db := s.tree.db;
    assert db.hash.n in Linked(db) + multiset{};
    assert db.hash.n in multiset(db.store.blobs.Keys);
  }

  lemma {:induction false} UploadNames(s: Sys, s': Sys)
    requires SysOk(s) && s'.publisher == Upload(s.publisher, s.tree.db.hash) && s'.tree.db == s.tree.db
    requires RootOrGone(s)
    ensures RootOrGone(s')
  {
    if s.tree.db.hash.Id? {
      RootIsLive(s);
      assert Names(s', s.tree.db.hash.n);
    } else if s.publisher.requests != [] {
      var n :| Names(s, n);
      assert Names(s', n);
    }
  }

  lemma {:induction false} FinishNames(s: Sys, credit: nat)
    requires SysOk(s) && C.Enabled(s.tree, C.Finish(0, credit)) && RootOrGone(s)
    ensures RootOrGone(StepFinish(s, credit))
  {
    var s' := StepFinish(s, credit);
    var stored := s.(tree := s'.tree);
    OldRootGone(CONFIG, s.tree.db, credit);
    if s.publisher.requests != [] {
      var n :| Names(s, n);
      assert Names(stored, n);
    }
    if s'.publisher != s.publisher {
      C.StepOk(CONFIG, s.tree, C.Finish(0, credit), multiset{});
      FreshRootNames(s', s.publisher);
    }
  }

  lemma {:induction false} FreshRootNames(s: Sys, p: P.Machine)
    requires C.MachineOk(CONFIG, s.tree, multiset{}) && s.tree.db.hash.Id? && s.publisher == Upload(p, s.tree.db.hash)
    ensures RootOrGone(s)
  {
    var db := s.tree.db;
    assert db.hash.n in Linked(db) + multiset{};
    assert db.hash.n in multiset(db.store.blobs.Keys);
    assert Names(s, db.hash.n);
  }

  lemma {:induction false} ApplyNames(s: Sys)
    requires C.Enabled(s.tree, C.Apply(0)) && RootOrGone(s)
    ensures RootOrGone(Step(s, Apply))
  {
    if s.publisher.requests != [] {
      var n :| Names(s, n);
      assert Names(Step(s, Apply), n);
    }
  }

  lemma {:induction false} PublisherNames(s: Sys, e: P.Event)
    requires SysOk(s) && Enabled(s, Publisher(e)) && RootOrGone(s)
    ensures RootOrGone(Step(s, Publisher(e)))
  {
    PublisherKeeps(s.publisher, e);
    if s.publisher.requests != [] {
      var n :| Names(s, n);
      assert Names(Step(s, Publisher(e)), n);
    }
  }

  lemma {:induction false} UpdateNames(s: Sys, k: string, v: string, storing: bool)
    requires SysOk(s) && RootOrGone(s)
    ensures RootOrGone(StepUpdate(s, k, v, storing))
  {
    var s' := StepUpdate(s, k, v, storing);
    if s.tree.inserting && !storing {
      UploadNames(s, s');
    } else if s.publisher.requests != [] {
      var n :| Names(s, n);
      assert Names(s', n);
    }
  }

  lemma {:induction false} StepNames(s: Sys, e: Event)
    requires SysOk(s) && Enabled(s, e) && RootOrGone(s)
    ensures RootOrGone(Step(s, e))
  {
    match e
    case Update(k, v, storing) => UpdateNames(s, k, v, storing);
    case Apply => ApplyNames(s);
    case Finish(credit) => FinishNames(s, credit);
    case Publisher(e) => PublisherNames(s, e);
  }

  lemma {:induction false} RunNames(s: Sys, es: seq<Event>)
    requires SysOk(s) && ValidRun(s, es) && RootOrGone(s)
    ensures RootOrGone(Run(s, es))
    decreases |es|
  {
    if es == [] {
    } else {
      StepOk(s, es[0]);
      StepNames(s, es[0]);
      RunNames(Step(s, es[0]), es[1..]);
    }
  }

  lemma {:induction false} LiveIffQuiet(s: Sys)
    requires SysOk(s) && RootOrGone(s) && s.publisher.requests != [] && !s.tree.inserting
    ensures (exists n: nat :: s.publisher.toPublish == Cid(n) && n in s.tree.db.store.blobs) <==> C.Quiet(s.tree)
  {
    if C.Quiet(s.tree) {
      RootIsLive(s);
    } else {
      var n :| Names(s, n);
      forall m: nat | s.publisher.toPublish == Cid(m)
        ensures m !in s.tree.db.store.blobs
      {
        CidInjective(m, n);
      }
    }
  }

  /** After any run, when nobody is inserting and something has been requested: the value that the
      Republisher announces, now and whenever the timer fires, is the id of a blob that is there
      exactly if the last store went through. After one that failed it names a root that has been
      removed, until the next insert succeeds. */
  lemma {:induction false} AnnouncedRootIsThere(es: seq<Event>, s: Sys)
    requires ValidRun(START, es) && s == Run(START, es) && s.publisher.requests != [] && !s.tree.inserting
    ensures (exists n: nat :: s.publisher.toPublish == Cid(n) && n in s.tree.db.store.blobs) <==> C.Quiet(s.tree)
  {
    StartOk();
    RunOk(START, es);
    RunNames(START, es);
    LiveIffQuiet(s);
  }
}
