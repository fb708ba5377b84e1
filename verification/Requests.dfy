/** What the Republisher is asked for by the updates of a run: one request each. */
module Requests {
  import opened Tree
  import opened InjectorDb

  function IdOf(h: Hash): seq<nat> {
    if h.Id? then [h.n] else []
  }

  /** The root hash that an update finds whose insert returns in this step without an error: at once if
      somebody is inserting, and with the end of the last round for the one who inserts. */
  function Found(s: Sys, e: Event): seq<nat>
    requires Enabled(s, e)
  {
    match e
    case Update(_, _, storing) => if s.tree.inserting && !storing then IdOf(s.tree.db.hash) else []
    case Finish(_) => if Step(s, e).tree.inserting then [] else IdOf(Step(s, e).tree.db.hash)
    case Apply => []
    case Publisher(_) => []
  }

  function FoundAll(s: Sys, es: seq<Event>): seq<nat>
    requires ValidRun(s, es)
    decreases |es|
  {
    if es == [] then [] else Found(s, es[0]) + FoundAll(Step(s, es[0]), es[1..])
  }

  function Cids(ns: seq<nat>): seq<string> {
    if ns == [] then [] else [Cid(ns[0])] + Cids(ns[1..])
  }

  lemma {:induction false} CidsConcat(a: seq<nat>, b: seq<nat>)
    ensures Cids(a + b) == Cids(a) + Cids(b)
  {
    if a == [] {
      assert a + b == b;
    } else {
      assert (a + b)[0] == a[0] && (a + b)[1..] == a[1..] + b;
      CidsConcat(a[1..], b);
    }
  }

  lemma {:induction false} UploadAsks(p: P.Machine, root: Hash)
    ensures Upload(p, root).requests == p.requests + Cids(IdOf(root))
  {
    assert root.Id? ==> IdOf(root)[1..] == [];
  }

  lemma {:induction false} StepAsks(s: Sys, e: Event)
    requires SysOk(s) && Enabled(s, e)
    ensures Step(s, e).publisher.requests == s.publisher.requests + Cids(Found(s, e))
  {
    match e
    case Update(k, v, storing) =>
      UploadAsks(s.publisher, s.tree.db.hash);
    case Finish(_) =>
      UploadAsks(s.publisher, Step(s, e).tree.db.hash);
    case Apply =>
    case Publisher(e) =>
      PublisherKeeps(s.publisher, e);
  }

  lemma {:induction false} OneAsks(s: Sys, e: Event) returns (s1: Sys, found: seq<nat>)
    requires SysOk(s) && Enabled(s, e)
    ensures s1 == Step(s, e) && SysOk(s1) && found == Found(s, e)
    ensures s1.publisher.requests == s.publisher.requests + Cids(found)
  {
    s1, found := Step(s, e), Found(s, e);
    StepOk(s, e);
    StepAsks(s, e);
  }

  lemma {:induction false} Regroup(a: seq<string>, b: seq<string>, c: seq<string>)
    ensures (a + b) + c == a + (b + c)
  {
  }

  /** Over every run: the requests are those of the updates that have returned without an error and
      found a root hash, one each, for that root, in the order they returned in. */
  lemma {:induction false} OneRequestEach(s: Sys, es: seq<Event>)
    requires SysOk(s) && ValidRun(s, es)
    ensures Run(s, es).publisher.requests == s.publisher.requests + Cids(FoundAll(s, es))
    decreases |es|
  {
    if es == [] {
    } else {
      var s1, found := OneAsks(s, es[0]);
      OneRequestEach(s1, es[1..]);
      CidsConcat(found, FoundAll(s1, es[1..]));
      Regroup(s.publisher.requests, Cids(found), Cids(FoundAll(s1, es[1..])));
    }
  }

  // ----- the requests of the roots that callers have found -----

  /** The requests of the callers that found these roots. */
  function Asked(roots: seq<Hash>): seq<string> {
    if roots == [] then [] else Cids(IdOf(roots[0])) + Asked(roots[1..])
  }

  lemma {:induction false} AskedConcat(a: seq<Hash>, b: seq<Hash>)
    ensures Asked(a + b) == Asked(a) + Asked(b)
  {
    if a == [] {
      assert a + b == b;
    } else {
      assert (a + b)[0] == a[0] && (a + b)[1..] == a[1..] + b;
      AskedConcat(a[1..], b);
    }
  }

  lemma {:induction false} UploadAllAsks(p: P.Machine, roots: seq<Hash>)
    ensures UploadAll(p, roots).requests == p.requests + Asked(roots)
    decreases |roots|
  {
    if roots == [] {
    } else {
      UploadAsks(p, roots[0]);
      UploadAllAsks(Upload(p, roots[0]), roots[1..]);
      Regroup(p.requests, Cids(IdOf(roots[0])), Asked(roots[1..]));
    }
  }

  predicate EndsWith(s: seq<string>, cid: string) {
    s != [] && s[|s| - 1] == cid
  }

  /** The requests of the callers that found roots, when the last of them is the inserter itself. */
  lemma {:induction false} AskedLast(roots: seq<Hash>, p: P.Machine)
    requires roots != []
    ensures Upload(UploadAll(p, roots[..|roots| - 1]), roots[|roots| - 1]).requests == p.requests + Asked(roots)
    ensures roots[|roots| - 1].Id? ==> EndsWith(Asked(roots), Cid(roots[|roots| - 1].n))
  {
    var n := |roots| - 1;
    assert roots == roots[..n] + [roots[n]] && [roots[n]][1..] == [];
    AskedConcat(roots[..n], [roots[n]]);
    UploadAllAsks(p, roots[..n]);
    UploadAsks(UploadAll(p, roots[..n]), roots[n]);
    assert roots[n].Id? ==> IdOf(roots[n])[1..] == [] && Asked([roots[n]]) == [Cid(roots[n].n)];
  }

  /** Callers have returned meanwhile and have found roots; the last of them found root. The requests
      made meanwhile are theirs, one for each that found a root hash. */
  ghost predicate AskedBy(roots: seq<Hash>, root: Hash, before: seq<string>, after: seq<string>) {
    && roots != [] && roots[|roots| - 1] == root
    && after == before + Asked(roots)
    && (root.Id? ==> EndsWith(after, Cid(root.n)))
  }

  lemma {:induction false} FoundAsk(p: P.Machine, before: seq<Hash>, after: seq<Hash>, root: Hash)
    requires before <= after && |before| < |after| && after[|after| - 1] == root
    ensures AskedBy(after[|before|..], root, p.requests,
                    Upload(UploadAll(p, after[|before|..|after| - 1]), root).requests)
  {
    var roots := after[|before|..];
    assert roots[..|roots| - 1] == after[|before|..|after| - 1];
    AskedLast(roots, p);
  }

  /** An insert that ran from idle to idle: the roots found before and after it. */
  lemma {:induction false} InsertFinds(s: Sys, es: seq<C.Event>, k: string, v: string, t: C.Machine)
      returns (before: seq<Hash>, after: seq<Hash>, root: Hash)
    requires SysOk(s) && !s.tree.inserting && [C.Call(k, v)] <= es && C.ValidRun(CONFIG, s.tree, es)
    requires t == C.Run(CONFIG, s.tree, es) && !t.inserting
    ensures before == s.tree.seen && after == t.seen && root == t.db.hash
    ensures before <= after && |before| < |after| && after[|after| - 1] == root
  {
    C.InserterFindsRoot(CONFIG, s.tree, es, k, v, multiset{});
    before, after, root := s.tree.seen, t.seen, t.db.hash;
  }
}
