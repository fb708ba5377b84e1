/** What the Republisher publishes and when, and what its callers are told about it, read off the
    events of a run. */
module Outcomes {
  import opened Publishing

  // ----- what a run says by itself -----

  /** The cids requested, and the results that the backend has reported, in order. */
  function Requested(es: seq<Event>): seq<string> {
    if es == [] then [] else (if es[0].Publish? then [es[0].cid] else []) + Requested(es[1..])
  }

  function Reported(es: seq<Event>): seq<bool> {
    if es == [] then [] else (if es[0].Complete? then [es[0].ok] else []) + Reported(es[1..])
  }

  function Expiries(es: seq<Event>): nat {
    if es == [] then 0 else (if es[0].Expire? then 1 else 0) + Expiries(es[1..])
  }

  /** A callback's batch: the first publish that was made after its request. */
  predicate Batch(issued: seq<Flight>, j: nat, ticket: nat) {
    j < |issued| && ticket < issued[j].version && (j > 0 ==> issued[j - 1].version <= ticket)
  }

  /** The callback was told what the backend reported for its batch. */
  ghost predicate TrueResult(c: Completion, ticket: nat, issued: seq<Flight>, outs: seq<bool>) {
    c.result.Published? ==> exists j: nat ::
      Batch(issued, j, ticket) && j < |outs| && c.result == Published(outs[j], issued[j].version)
  }

  // ----- when something is published -----

  ghost predicate IssuesLatest(m: Machine, m': Machine) {
    && m'.alive && m'.requests != [] && m'.callbacks != []
    && m'.issued == m.issued + [Flight(m'.requests[|m'.requests| - 1], |m'.requests|, LastSerial(m'.callbacks))]
    && m'.flights == [m'.issued[|m.issued|]]
  }

  lemma {:induction false} StartIssues(m: Machine)
    requires m.alive && m.requests != [] && m.toPublish == m.requests[|m.requests| - 1] && m.flights == []
    ensures if m.callbacks == [] then StartPublishing(m).issued == m.issued && StartPublishing(m).flights == []
            else IssuesLatest(m, StartPublishing(m))
  {
  }

  /** Whatever is published is the last cid requested, for all callbacks that wait; and it is so for a
      request that finds the object idle, for callbacks that have come during a batch, and when the
      timer's handler runs in an idle object after the timer has expired, and never else. */
  lemma {:induction false} PublishesLatest(m: Machine, e: Event)
    requires MachineOk(m) && Enabled(m, e)
    ensures var m' := Step(m, e);
            var starts := match e
                          case Publish(_) => !m.publishing
                          case LoopEnd => m.callbacks != []
                          case RunTimer(i) => m.alive && m.ready[i] && !m.publishing
                          case _ => false;
            if starts then IssuesLatest(m, m') else m'.issued == m.issued
  {
    match e
    case Publish(cid) =>
      var m1 := Push(m.(toPublish := cid, requests := m.requests + [cid]), Cb(|m.requests|));
      if !m.publishing {
        StartIssues(m1);
      }
    case LoopEnd =>
      assert m.issued[|m.issued| - 1] in m.issued;
      StartIssues(m.(loop := NotRunning));
    case RunTimer(i) =>
      var m1 := m.(ready := m.ready[..i] + m.ready[i + 1..]);
      if m.alive && m.ready[i] && !m.publishing {
        assert m.ready[i] in m.ready;
        StartIssues(Push(m1, Null));
      }
    case _ =>
  }

  // ----- what every step keeps -----

  /** outs are the results reported so far. */
  ghost predicate Told(m: Machine, outs: seq<bool>) {
    var n := |m.issued|;
    && |outs| + |m.flights| == n
    && (m.flights != [] ==> m.flights[0] == m.issued[n - 1])
    && (m.loop.Popping? ==> outs != [] && m.loop.ok == outs[|outs| - 1] && m.loop.version == LastVersion(m))
    && (m.alive && n >= 2 ==> m.issued[n - 2].version <= |m.called|)
    && (forall i :: 0 <= i < |m.called| ==> TrueResult(m.called[i], i, m.issued, outs))
  }

  lemma {:induction false} StillTrue(
      called: seq<Completion>, issued: seq<Flight>, issued': seq<Flight>, outs: seq<bool>, outs': seq<bool>)
    requires issued <= issued' && outs <= outs'
    requires forall i :: 0 <= i < |called| ==> TrueResult(called[i], i, issued, outs)
    ensures forall i :: 0 <= i < |called| ==> TrueResult(called[i], i, issued', outs')
  {
    forall i | 0 <= i < |called|
      ensures TrueResult(called[i], i, issued', outs')
    {
      assert TrueResult(called[i], i, issued, outs);
      if called[i].result.Published? {
        var j: nat :|
          Batch(issued, j, i) && j < |outs| && called[i].result == Published(outs[j], issued[j].version);
        assert Batch(issued', j, i);
      }
    }
  }

  /** Before a new publish, everybody whose request the one before covers has been called. */
  lemma {:induction false} CaughtUp(m: Machine)
    requires MachineOk(m) && m.alive && (!m.publishing || m.loop.Popped?)
    ensures LastVersion(m) <= |m.called|
  {
    RangeSnoc(|m.called|, |m.requests|);
    if m.publishing {
      RangeSnoc(m.loop.version, |m.requests|);
    }
  }

  lemma {:induction false} NewPublish(m: Machine, m': Machine, outs: seq<bool>)
    requires Told(m, outs) && IssuesLatest(m, m') && m.flights == [] && LastVersion(m) <= |m.called|
    requires m'.called == m.called && m'.loop.NotRunning?
    ensures Told(m', outs)
  {
    StillTrue(m.called, m.issued, m'.issued, outs, outs);
  }

  lemma {:induction false} CallTold(m: Machine, outs: seq<bool>)
    requires MachineOk(m) && m.alive && m.loop.Popping? && Told(m, outs)
    ensures Told(StepCallNext(m), outs)
  {
    var m' := StepCallNext(m);
    var p: nat :| CutAt(m.callbacks, p, m.loop.last, m.loop.version, |m.requests|);
    PopTickets(m.callbacks, p, m.loop.last, m.loop.version, |m.called|, |m.requests|);
    var t, j := |m.called|, |m.issued| - 1;
    assert m.callbacks[0].cb.Cb? ==> Batch(m.issued, j, t);
    forall i | 0 <= i < |m'.called|
      ensures TrueResult(m'.called[i], i, m.issued, outs)
    {
      assert i < t ==> TrueResult(m.called[i], i, m.issued, outs);
    }
  }

  lemma {:induction false} StartTold(m: Machine, e: Event, outs: seq<bool>)
    requires MachineOk(m) && Enabled(m, e) && Told(m, outs)
    requires e.Publish? || e.LoopEnd? || e.RunTimer?
    ensures Told(Step(m, e), outs)
  {
    PublishesLatest(m, e);
    var m' := Step(m, e);
    if m'.issued != m.issued {
      CaughtUp(m);
      NewPublish(m, m', outs);
    }
  }

  lemma {:induction false} CompleteTold(m: Machine, i: nat, ok: bool, outs: seq<bool>)
    requires MachineOk(m) && i < |m.flights| && Told(m, outs)
    ensures Told(StepComplete(m, i, ok), outs + [ok])
  {
    StillTrue(m.called, m.issued, m.issued, outs, outs + [ok]);
  }

  lemma {:induction false} PostedTold(m: Machine, outs: seq<bool>)
    requires m.posted != [] && MachineOk(m) && Told(m, outs)
    ensures Told(StepRunPosted(m), outs)
  {
    var m' := StepRunPosted(m);
    forall i | 0 <= i < |m'.called|
      ensures TrueResult(m'.called[i], i, m.issued, outs)
    {
      assert i < |m.called| ==> TrueResult(m.called[i], i, m.issued, outs);
    }
  }

  lemma {:induction false} StepTold(m: Machine, e: Event, outs: seq<bool>)
    requires MachineOk(m) && Enabled(m, e) && Told(m, outs)
    ensures Told(Step(m, e), if e.Complete? then outs + [e.ok] else outs)
  {
    match e
    case Complete(i, ok) => CompleteTold(m, i, ok, outs);
    case CallNext => CallTold(m, outs);
    case RunPosted => PostedTold(m, outs);
    case Expire =>
    case Destroy =>
    case _ => StartTold(m, e, outs);
  }

  lemma {:induction false} StepRequests(m: Machine, e: Event)
    requires Enabled(m, e)
    ensures Step(m, e).requests == if e.Publish? then m.requests + [e.cid] else m.requests
  {
  }

  lemma {:induction false} ReportedHead(es: seq<Event>, outs: seq<bool>)
    requires es != []
    ensures outs + Reported(es) == (if es[0].Complete? then outs + [es[0].ok] else outs) + Reported(es[1..])
  {
  }

  lemma {:induction false} RequestedHead(es: seq<Event>, cids: seq<string>)
    requires es != []
    ensures cids + Requested(es) == (if es[0].Publish? then cids + [es[0].cid] else cids) + Requested(es[1..])
  {
  }

  lemma {:induction false} RunRequests(m: Machine, es: seq<Event>)
    requires ValidRun(m, es)
    ensures Run(m, es).requests == m.requests + Requested(es)
    decreases |es|
  {
    if es == [] {
      assert m.requests + [] == m.requests;
    } else {
      StepRequests(m, es[0]);
      RunRequests(Step(m, es[0]), es[1..]);
      RequestedHead(es, m.requests);
    }
  }

  lemma {:induction false} OneTold(m: Machine, e: Event, outs: seq<bool>, outs1: seq<bool>) returns (m1: Machine)
    requires MachineOk(m) && Enabled(m, e) && Told(m, outs)
    requires outs1 == if e.Complete? then outs + [e.ok] else outs
    ensures m1 == Step(m, e) && MachineOk(m1) && Told(m1, outs1)
  {
    m1 := Step(m, e);
    StepOk(m, e);
    StepTold(m, e, outs);
  }

  lemma {:induction false} RunTold(m: Machine, es: seq<Event>, outs: seq<bool>)
    requires MachineOk(m) && ValidRun(m, es) && Told(m, outs)
    ensures Told(Run(m, es), outs + Reported(es))
    decreases |es|
  {
    if es == [] {
      assert outs + [] == outs;
    } else {
      var outs1 := if es[0].Complete? then outs + [es[0].ok] else outs;
      var m1 := OneTold(m, es[0], outs, outs1);
      RunTold(m1, es[1..], outs1);
      ReportedHead(es, outs);
    }
  }

  // ----- over every run -----

  /** A callback that is not aborted is told what the backend reported for the first publish made after
      its request; that publish was of the last cid requested by then. */
  lemma {:induction false} ToldAsReported(es: seq<Event>, i: nat, m: Machine)
    requires ValidRun(START, es) && m == Run(START, es) && i < |m.called| && m.called[i].result.Published?
    ensures m.requests == Requested(es) && m.called[i].ticket == i
    ensures exists j: nat ::
      && Batch(m.issued, j, i) && j < |Reported(es)|
      && m.called[i].result == Published(Reported(es)[j], m.issued[j].version)
      && m.issued[j].version <= |Requested(es)| && m.issued[j].cid == Requested(es)[m.issued[j].version - 1]
  {
    var reached := Reached(es);
    RunTold(START, es, []);
    RunRequests(START, es);
    assert [] + Reported(es) == Reported(es) && [] + Requested(es) == Requested(es);
    assert TrueResult(m.called[i], i, m.issued, Reported(es)) && CompletionOk(m.called[i], i, m.issued);
    var j: nat :| Batch(m.issued, j, i) && j < |Reported(es)|
             && m.called[i].result == Published(Reported(es)[j], m.issued[j].version);
    assert m.issued[j] in m.issued && FlightOk(m.issued[j], m.requests);
  }

  // ----- the timer's publishes -----

  /** How many publishes were of nothing new. */
  function Repeated(issued: seq<Flight>): nat {
    if |issued| < 2 then 0
    else Repeated(issued[..|issued| - 1]) +
         (if issued[|issued| - 1].version == issued[|issued| - 2].version then 1 else 0)
  }

  function Trues(s: seq<bool>): nat {
    if s == [] then 0 else (if s[0] then 1 else 0) + Trues(s[1..])
  }

  lemma {:induction false} TruesConcat(s: seq<bool>, t: seq<bool>)
    ensures Trues(s + t) == Trues(s) + Trues(t)
  {
    if s == [] {
      assert s + t == t;
    } else {
      assert (s + t)[0] == s[0] && (s + t)[1..] == s[1..] + t;
      TruesConcat(s[1..], t);
    }
  }

  lemma {:induction false} TruesOf(n: nat, ok: bool)
    ensures Trues(Times(n, ok)) == if ok then n else 0
  {
    if n == 0 {
    } else {
      assert Times(n, ok)[1..] == Times(n - 1, ok);
      TruesOf(n - 1, ok);
    }
  }

  lemma {:induction false} TruesWithout(s: seq<bool>, i: nat)
    requires i < |s|
    ensures Trues(s) == Trues(s[..i] + s[i + 1..]) + (if s[i] then 1 else 0)
  {
    assert s == s[..i] + ([s[i]] + s[i + 1..]);
    TruesConcat(s[..i], [s[i]] + s[i + 1..]);
    TruesConcat([s[i]], s[i + 1..]);
    assert [s[i]][1..] == [];
    TruesConcat(s[..i], s[i + 1..]);
  }

  /** Repeated publishes made and timer handlers about to make one. */
  function Charges(m: Machine): nat {
    Repeated(m.issued) + Trues(m.ready)
  }

  lemma {:induction false} StartCharges(m: Machine)
    ensures Trues(StartPublishing(m).ready) == Trues(m.ready)
    ensures m.callbacks == [] ==> StartPublishing(m).issued == m.issued
    ensures m.callbacks != [] ==>
              Repeated(StartPublishing(m).issued) ==
              Repeated(m.issued) + (if m.issued != [] && LastVersion(m) == |m.requests| then 1 else 0)
  {
    TruesConcat(m.ready, Times(m.pending, false));
    TruesOf(m.pending, false);
    if m.callbacks != [] {
      var issued := StartPublishing(m).issued;
      assert issued[..|issued| - 1] == m.issued;
    }
  }

  lemma {:induction false} TimerCharges(m: Machine, i: nat)
    requires i < |m.ready|
    ensures Charges(StepRunTimer(m, i)) <= Charges(m)
  {
    TruesWithout(m.ready, i);
    var m1 := m.(ready := m.ready[..i] + m.ready[i + 1..]);
    StartCharges(Push(m1, Null));
  }

  lemma {:induction false} PublishCharges(m: Machine, cid: string)
    requires MachineOk(m) && m.alive
    ensures Charges(StepPublish(m, cid)) <= Charges(m)
  {
    StartCharges(Push(m.(toPublish := cid, requests := m.requests + [cid]), Cb(|m.requests|)));
  }

  lemma {:induction false} LoopEndCharges(m: Machine)
    requires MachineOk(m) && m.alive && m.loop.Popped?
    ensures Charges(StartPublishing(m.(loop := NotRunning))) <= Charges(m)
  {
    StartCharges(m.(loop := NotRunning));
    RangeSnoc(m.loop.version, |m.requests|);
    if m.callbacks != [] {
      assert m.callbacks[0].cb.Cb?;
    }
  }

  lemma {:induction false} StepCharges(m: Machine, e: Event)
    requires MachineOk(m) && Enabled(m, e)
    ensures Charges(Step(m, e)) <= Charges(m) + (if e.Expire? then 1 else 0)
  {
    match e
    case Publish(cid) => PublishCharges(m, cid);
    case LoopEnd => LoopEndCharges(m);
    case RunTimer(i) => TimerCharges(m, i);
    case Expire =>
      TruesConcat(m.ready, Times(m.pending, true));
      TruesOf(m.pending, true);
    case Destroy =>
      TruesConcat(m.ready, Times(m.pending, false));
      TruesOf(m.pending, false);
    case _ =>
  }

  /** Every publish of nothing new has an expiry of the timer of its own: a wait that was cancelled
      publishes nothing. */
  lemma {:induction false} RepeatsNeedExpiries(m: Machine, es: seq<Event>)
    requires MachineOk(m) && ValidRun(m, es)
    ensures Charges(Run(m, es)) <= Charges(m) + Expiries(es)
    ensures m == START ==> Repeated(Run(m, es).issued) <= Expiries(es)
    decreases |es|
  {
    if es == [] {
    } else {
      StepOk(m, es[0]);
      StepCharges(m, es[0]);
      RepeatsNeedExpiries(Step(m, es[0]), es[1..]);
    }
  }

  // ----- the handlers of the timer -----

  /** Waits on the timer, and handlers of waits that have ended. */
  function Handlers(m: Machine): nat {
    m.pending + |m.ready|
  }

  /** The timer is set when a batch ends and nobody has called meanwhile. */
  function IdleEnds(m: Machine, es: seq<Event>): nat
    requires ValidRun(m, es)
    decreases |es|
  {
    if es == [] then 0
    else (if es[0].LoopEnd? && m.callbacks == [] then 1 else 0) + IdleEnds(Step(m, es[0]), es[1..])
  }

  function HandlersRun(es: seq<Event>): nat {
    if es == [] then 0 else (if es[0].RunTimer? then 1 else 0) + HandlersRun(es[1..])
  }

  lemma {:induction false} StepHandlers(m: Machine, e: Event)
    requires MachineOk(m) && Enabled(m, e)
    ensures Handlers(Step(m, e)) + (if e.RunTimer? then 1 else 0) ==
            Handlers(m) + (if e.LoopEnd? && m.callbacks == [] then 1 else 0)
  {
  }

  /** Each wait on the timer has its handler run once: what waits, is about to run, or has run is as
      much as the timer has been set. */
  lemma {:induction false} EveryWaitEnds(m: Machine, es: seq<Event>)
    requires MachineOk(m) && ValidRun(m, es)
    ensures Handlers(Run(m, es)) + HandlersRun(es) == Handlers(m) + IdleEnds(m, es)
    decreases |es|
  {
    if es == [] {
    } else {
      StepOk(m, es[0]);
      StepHandlers(m, es[0]);
      EveryWaitEnds(Step(m, es[0]), es[1..]);
    }
  }
}
