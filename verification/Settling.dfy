/** InjectorDb comes to rest: tree and Republisher together. */
module Settling {
  import opened InjectorDb

  /** The steps that get done what updates and the timer have asked for. */
  predicate Moves(e: Event) {
    e.Apply? || e.Finish? || (e.Publisher? && P.Advances(e.e))
  }

  /** How many of them an event may cause. */
  function Demand(e: Event): nat {
    match e
    case Update(_, _, _) => 11
    case Publisher(e) => if e.RunTimer? then 3 else 0
    case Apply => 0
    case Finish(_) => 0
  }

  function Moving(es: seq<Event>): nat {
    if es == [] then 0 else (if Moves(es[0]) then 1 else 0) + Moving(es[1..])
  }

  function Demands(es: seq<Event>): nat {
    if es == [] then 0 else Demand(es[0]) + Demands(es[1..])
  }

  function Work(s: Sys): nat {
    4 * C.Work(s.tree) + P.Work(s.publisher)
  }

  lemma {:induction false} UploadWork(s: Sys, root: Tree.Hash)
    requires SysOk(s)
    ensures P.Work(Upload(s.publisher, root)) <= P.Work(s.publisher) + 3
  {
    P.IsTidy(s.publisher);
    if root.Id? {
      P.PublishWork(s.publisher, Cid(root.n));
    }
  }

  lemma {:induction false} StepWork(s: Sys, e: Event)
    requires SysOk(s) && Enabled(s, e)
    ensures Work(Step(s, e)) + (if Moves(e) then 1 else 0) <= Work(s) + Demand(e)
  {
    match e
    case Update(k, v, storing) =>
      C.StepWork(CONFIG, s.tree, C.Call(k, v), multiset{});
      UploadWork(s, s.tree.db.hash);
    case Apply =>
      C.StepWork(CONFIG, s.tree, C.Apply(0), multiset{});
    case Finish(credit) =>
      C.StepWork(CONFIG, s.tree, C.Finish(0, credit), multiset{});
      UploadWork(s, C.StepFinish(CONFIG, s.tree, 0, credit).db.hash);
    case Publisher(e) =>
      P.IsTidy(s.publisher);
      P.StepWork(s.publisher, e);
  }

  /** Whether there is nothing left to do. */
  ghost predicate AtRest(s: Sys) {
    forall e :: Enabled(s, e) ==> !Moves(e)
  }

  lemma {:induction false} RestMeansDone(s: Sys)
    requires SysOk(s) && AtRest(s)
    ensures !s.tree.inserting && !s.publisher.publishing && |s.publisher.called| == |s.publisher.requests|
  {
    if s.tree.inserting {
      var e := if s.tree.drains[0] == [] then Finish(0) else Apply;
      assert Enabled(s, e) && Moves(e);
    }
    if s.publisher.publishing {
      P.IsTidy(s.publisher);
      var e := match s.publisher.loop
               case NotRunning => P.Complete(0, true)
               case Popping(_, _, _, _) => P.CallNext
               case Popped(_) => P.LoopEnd;
      assert Enabled(s, Publisher(e)) && Moves(Publisher(e));
    }
    forall e | P.Enabled(s.publisher, e)
      ensures !P.Advances(e)
    {
      if P.Advances(e) {
        assert Enabled(s, Publisher(e)) && Moves(Publisher(e));
      }
    }
    P.NothingLeft(s.publisher);
  }

  /** In every run an update causes at most eleven steps of tree and Republisher together, and a timer
      three; and when no step is left nobody is inserting, nothing is being published and every
      caller whose upload was requested has been called back. */
  lemma {:induction false} SystemSettles(s: Sys, es: seq<Event>)
    requires SysOk(s) && ValidRun(s, es)
    ensures Moving(es) + Work(Run(s, es)) <= Demands(es) + Work(s)
    ensures AtRest(Run(s, es)) ==>
      var s' := Run(s, es);
      !s'.tree.inserting && !s'.publisher.publishing && |s'.publisher.called| == |s'.publisher.requests|
    decreases |es|
  {
    if es == [] {
      if AtRest(s) {
        RestMeansDone(s);
      }
    } else {
      StepOk(s, es[0]);
      StepWork(s, es[0]);
      SystemSettles(Step(s, es[0]), es[1..]);
    }
  }
}
