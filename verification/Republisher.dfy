/** Republisher as a step machine: one backend publish at a time, callbacks in batches, a timer that
    publishes the last value again. */
module Publishing {
  /** The cells of the list are told apart by serial numbers, as iterators do. A request's callback
      is known by its ticket, the number of requests before it; the timer adds an empty one. */
  datatype Callback = Null | Cb(ticket: nat)
  datatype Cell = Cell(serial: nat, cb: Callback)

  /** A backend publish: what it publishes, how many requests had been made by then, and last_i. */
  datatype Flight = Flight(cid: string, version: nat, last: nat)

  /** Where the completion handler's loop stands: callbacks may call back in between two pops, but
      nobody gets in before the first one (begun is false until then). */
  datatype Loop = NotRunning | Popping(last: nat, ok: bool, version: nat, begun: bool) | Popped(version: nat)

  datatype Result = Published(ok: bool, version: nat) | Aborted
  datatype Completion = Completion(ticket: nat, result: Result)

  /** flights are the outstanding publishes; pending waits are on the timer, ready ones are queued
      to run, with success or cancelled; posted is what the destructor has queued. emptyPop and
      emptyCall say that an empty list was popped or an empty function called. requests, issued
      and called record what was asked for, published and called back. */
  datatype Machine = Machine(
    alive: bool, toPublish: string, publishing: bool, callbacks: seq<Cell>, serial: nat,
    flights: seq<Flight>, loop: Loop, pending: nat, ready: seq<bool>, posted: seq<Cell>,
    emptyPop: bool, emptyCall: bool,
    requests: seq<string>, issued: seq<Flight>, called: seq<Completion>)

  datatype Event =
    | Publish(cid: string)
    | Complete(flight: nat, ok: bool)
    | CallNext
    | LoopEnd
    | Expire
    | RunTimer(handler: nat)
    | Destroy
    | RunPosted

  const START := Machine(true, "", false, [], 0, [], NotRunning, 0, [], [], false, false, [], [], [])

  /** The completion handler is running and has not called anybody yet. */
  predicate Entering(loop: Loop) {
    loop.Popping? && !loop.begun
  }

  ghost predicate Enabled(m: Machine, e: Event) {
    match e
    case Publish(_) => m.alive && !Entering(m.loop)
    case Complete(f, _) => f < |m.flights|
    case CallNext => m.alive && m.loop.Popping?
    case LoopEnd => m.alive && m.loop.Popped?
    case Expire => true
    case RunTimer(i) => i < |m.ready|
    case Destroy => m.alive && !Entering(m.loop)
    case RunPosted => m.posted != []
  }

  function Times(n: nat, ok: bool): seq<bool> {
    seq(n, i => ok)
  }

  function Push(m: Machine, cb: Callback): Machine {
    m.(callbacks := m.callbacks + [Cell(m.serial, cb)], serial := m.serial + 1)
  }

  function LastSerial(s: seq<Cell>): nat
    requires s != []
  {
    s[|s| - 1].serial
  }

  /** Setting the expiry of the timer and cancelling it both cancel the waits on it. */
  function CancelTimer(m: Machine): Machine {
    m.(pending := 0, ready := m.ready + Times(m.pending, false))
  }

  /** Republisher::start_publishing. */
  function StartPublishing(m: Machine): Machine {
    if m.callbacks == [] then CancelTimer(m).(publishing := false, pending := 1)
    else
      var f := Flight(m.toPublish, |m.requests|, LastSerial(m.callbacks));
      CancelTimer(m).(publishing := true, flights := m.flights + [f], issued := m.issued + [f])
  }

  /** Republisher::publish. */
  function StepPublish(m: Machine, cid: string): Machine {
    var m' := Push(m.(toPublish := cid, requests := m.requests + [cid]), Cb(|m.requests|));
    if m.publishing then m' else StartPublishing(m')
  }

  function StepComplete(m: Machine, i: nat, ok: bool): Machine
    requires i < |m.flights|
  {
    var f := m.flights[i];
    var m' := m.(flights := m.flights[..i] + m.flights[i + 1..]);
    if m.alive then m'.(loop := Popping(f.last, ok, f.version, false)) else m'
  }

  /** One turn of the completion handler's loop. */
  function StepCallNext(m: Machine): Machine
    requires m.loop.Popping?
  {
    if m.callbacks == [] then m.(emptyPop := true)
    else
      var c := m.callbacks[0];
      var m' := m.(callbacks := m.callbacks[1..],
                   loop := if c.serial == m.loop.last then Popped(m.loop.version) else m.loop.(begun := true));
      if c.cb.Null? then m'
      else m'.(called := m.called + [Completion(c.cb.ticket, Published(m.loop.ok, m.loop.version))])
  }

  /** The timer's handler. */
  function StepRunTimer(m: Machine, i: nat): Machine
    requires i < |m.ready|
  {
    var m' := m.(ready := m.ready[..i] + m.ready[i + 1..]);
    if !m.alive || !m.ready[i] || m.publishing then m' else StartPublishing(Push(m', Null))
  }

  /** The destructor; the timer goes with it, and a loop that is running returns. */
  function StepDestroy(m: Machine): Machine {
    CancelTimer(m).(alive := false, callbacks := [], loop := NotRunning, posted := m.posted + m.callbacks)
  }

  /** An empty function throws out of the event loop; if the program runs the loop again, it goes on
      with what is posted behind it. */
  function StepRunPosted(m: Machine): Machine
    requires m.posted != []
  {
    var m' := m.(posted := m.posted[1..]);
    match m.posted[0].cb
    case Null => m'.(emptyCall := true)
    case Cb(t) => m'.(called := m.called + [Completion(t, Aborted)])
  }

  function Step(m: Machine, e: Event): Machine
    requires Enabled(m, e)
  {
    match e
    case Publish(cid) => StepPublish(m, cid)
    case Complete(i, ok) => StepComplete(m, i, ok)
    case CallNext => StepCallNext(m)
    case LoopEnd => StartPublishing(m.(loop := NotRunning))
    case Expire => m.(pending := 0, ready := m.ready + Times(m.pending, true))
    case RunTimer(i) => StepRunTimer(m, i)
    case Destroy => StepDestroy(m)
    case RunPosted => StepRunPosted(m)
  }

  ghost predicate ValidRun(m: Machine, es: seq<Event>)
    decreases |es|
  {
    es == [] || (Enabled(m, es[0]) && ValidRun(Step(m, es[0]), es[1..]))
  }

  function Run(m: Machine, es: seq<Event>): Machine
    requires ValidRun(m, es)
    decreases |es|
  {
    if es == [] then m else Run(Step(m, es[0]), es[1..])
  }

  lemma {:induction false} RunSnoc(m: Machine, es: seq<Event>, e: Event)
    requires ValidRun(m, es) && Enabled(Run(m, es), e)
    ensures ValidRun(m, es + [e]) && Run(m, es + [e]) == Step(Run(m, es), e)
    decreases |es|
  {
    if es != [] {
      RunSnoc(Step(m, es[0]), es[1..], e);
      assert (es + [e])[1..] == es[1..] + [e];
    } else {
      assert ([] + [e])[1..] == [];
    }
  }

  // ----- tickets -----

  function Range(a: nat, b: nat): seq<nat>
    decreases b - a
  {
    if a >= b then [] else [a] + Range(a + 1, b)
  }

  /** The tickets of the callbacks in a list, in order. */
  function Tickets(s: seq<Cell>): seq<nat> {
    if s == [] then []
    else (match s[0].cb
          case Null => []
          case Cb(t) => [t]) + Tickets(s[1..])
  }

  predicate NoNull(s: seq<Cell>) {
    forall i :: 0 <= i < |s| ==> s[i].cb.Cb?
  }

  lemma {:induction false} RangeSnoc(a: nat, b: nat)
    requires a <= b
    ensures Range(a, b + 1) == Range(a, b) + [b] && |Range(a, b)| == b - a
    decreases b - a
  {
    if a < b {
      RangeSnoc(a + 1, b);
    } else {
      assert Range(a + 1, b + 1) == [];
    }
  }

  /** The first ticket of a list and what is left. */
  lemma {:induction false} TicketsHead(s: seq<Cell>, k: nat, n: nat)
    requires s != [] && s[0].cb.Cb? && Tickets(s) == Range(k, n)
    ensures k < n && s[0].cb.ticket == k && Tickets(s[1..]) == Range(k + 1, n)
  {
    var t, rest := s[0].cb.ticket, Tickets(s[1..]);
    assert Tickets(s) == [t] + rest;
    assert ([t] + rest)[0] == t && ([t] + rest)[1..] == rest;
    assert ([k] + Range(k + 1, n))[1..] == Range(k + 1, n);
  }

  lemma {:induction false} TicketsConcat(s: seq<Cell>, t: seq<Cell>)
    ensures Tickets(s + t) == Tickets(s) + Tickets(t)
  {
    if s == [] {
      assert s + t == t;
    } else {
      assert (s + t)[0] == s[0] && (s + t)[1..] == s[1..] + t;
      TicketsConcat(s[1..], t);
    }
  }

  lemma {:induction false} TicketsSnoc(s: seq<Cell>, serial: nat, cb: Callback)
    ensures Tickets(s + [Cell(serial, cb)]) == Tickets(s) + (if cb.Null? then [] else [cb.ticket])
  {
    TicketsConcat(s, [Cell(serial, cb)]);
    assert [Cell(serial, cb)][1..] == [];
  }

  // ----- what every step keeps -----

  /** s is a batch up to index p, whose last cell is last, and behind it the callbacks of the
      requests made since version; an empty callback is a batch of its own. */
  predicate CutAt(s: seq<Cell>, p: nat, last: nat, version: nat, n: nat) {
    && p < |s| && s[p].serial == last
    && (forall i :: 0 <= i < p ==> s[i].serial != last)
    && version <= n && Tickets(s[p + 1..]) == Range(version, n)
    && NoNull(s[1..]) && (s[0].cb.Null? ==> p == 0)
  }

  ghost predicate Cut(s: seq<Cell>, last: nat, version: nat, n: nat) {
    exists p: nat :: CutAt(s, p, last, version, n)
  }

  function LastVersion(m: Machine): nat {
    if m.issued == [] then 0 else m.issued[|m.issued| - 1].version
  }

  /** The last publish was of nothing new: it was the timer's. */
  predicate Repeats(issued: seq<Flight>) {
    |issued| >= 2 && issued[|issued| - 1].version == issued[|issued| - 2].version
  }

  /** Idle with the timer set, waiting for the backend, or in the completion handler's loop. */
  ghost predicate Stage(m: Machine) {
    var n := |m.requests|;
    if !m.publishing then
      && m.flights == [] && m.loop.NotRunning? && m.callbacks == [] && LastVersion(m) == n
      && (n > 0 ==> m.pending == 1 || true in m.ready)
    else
      && m.issued != []
      && match m.loop
         case NotRunning =>
           && m.flights == [m.issued[|m.issued| - 1]]
           && Cut(m.callbacks, m.flights[0].last, m.flights[0].version, n)
           && (m.callbacks[0].cb.Null? <==> Repeats(m.issued))
         case Popping(last, _, v, begun) =>
           m.flights == [] && v == LastVersion(m) && Cut(m.callbacks, last, v, n)
           && (begun ==> m.callbacks[0].cb.Cb?)
         case Popped(v) =>
           && m.flights == [] && v == LastVersion(m) && v <= n
           && Tickets(m.callbacks) == Range(v, n) && NoNull(m.callbacks)
  }

  predicate Serials(s: seq<Cell>, bound: nat) {
    && (forall i :: 0 <= i < |s| ==> s[i].serial < bound)
    && (forall i, j :: 0 <= i < j < |s| ==> s[i].serial < s[j].serial)
  }

  predicate FlightOk(f: Flight, requests: seq<string>) {
    1 <= f.version <= |requests| && f.cid == requests[f.version - 1]
  }

  ghost predicate CompletionOk(c: Completion, i: nat, issued: seq<Flight>) {
    && c.ticket == i
    && (c.result.Published? ==> i < c.result.version && exists f :: f in issued && f.version == c.result.version)
  }

  /** What was asked for, what was published, and what was called back. */
  ghost predicate Records(m: Machine) {
    var n := |m.requests|;
    && (n > 0 ==> m.toPublish == m.requests[n - 1])
    && (forall f :: f in m.issued ==> FlightOk(f, m.requests))
    && (forall i :: 0 <= i < |m.called| ==> CompletionOk(m.called[i], i, m.issued))
    && (m.alive ==> forall i :: 0 <= i < |m.called| ==> m.called[i].result.Published?)
    && |m.called| <= n
    && Tickets(if m.alive then m.callbacks else m.posted) == Range(|m.called|, n)
    && m.pending <= 1
    && (m.pending > 0 || true in m.ready ==> n > 0)
    && !m.emptyPop && (m.emptyCall ==> !m.alive)
  }

  ghost predicate MachineOk(m: Machine) {
    && Records(m)
    && Serials(m.callbacks, m.serial)
    && (if m.alive then Stage(m) && m.posted == []
        else m.callbacks == [] && m.loop.NotRunning? && |m.flights| <= 1)
  }

  lemma {:induction false} Grow(s: seq<Cell>, serial: nat, last: nat, version: nat, n: nat)
    requires Cut(s, last, version, n) && Serials(s, serial)
    ensures Cut(s + [Cell(serial, Cb(n))], last, version, n + 1)
  {
    var p: nat :| CutAt(s, p, last, version, n);
    var s' := s + [Cell(serial, Cb(n))];
    assert s'[p + 1..] == s[p + 1..] + [Cell(serial, Cb(n))];
    TicketsSnoc(s[p + 1..], serial, Cb(n));
    RangeSnoc(version, n);
    assert CutAt(s', p, last, version, n + 1);
  }

  lemma {:induction false} StartRecords(m: Machine)
    requires m.alive && Records(m) && |m.requests| > 0
    ensures Records(StartPublishing(m))
  {
    var m' := StartPublishing(m);
    var n := |m.requests|;
    assert m'.called == m.called && m'.requests == m.requests;
    assert forall f :: f in m'.issued ==> f in m.issued || (f.version == n && f.cid == m.toPublish);
    forall i | 0 <= i < |m'.called|
      ensures CompletionOk(m'.called[i], i, m'.issued)
    {
      assert CompletionOk(m.called[i], i, m.issued);
      assert forall f :: f in m.issued ==> f in m'.issued;
    }
  }

  /** A batch that is the whole list. */
  lemma {:induction false} WholeCut(s: seq<Cell>, serial: nat, n: nat)
    requires s != [] && Serials(s, serial) && NoNull(s[1..]) && (s[0].cb.Null? ==> |s| == 1)
    ensures Cut(s, LastSerial(s), n, n)
  {
    var p := |s| - 1;
    assert s[p + 1..] == [];
    assert CutAt(s, p, LastSerial(s), n, n);
  }

  lemma {:induction false} StartOk(m: Machine)
    requires m.alive && m.flights == [] && m.loop.NotRunning? && m.posted == []
    requires Records(m) && Serials(m.callbacks, m.serial)
    requires m.callbacks == [] ==> LastVersion(m) == |m.requests|
    requires |m.requests| > 0
    requires m.callbacks != [] ==> NoNull(m.callbacks[1..])
    requires m.callbacks != [] && m.callbacks[0].cb.Null? ==> |m.callbacks| == 1
    requires m.callbacks != [] ==> (m.callbacks[0].cb.Null? <==> LastVersion(m) == |m.requests|)
    ensures MachineOk(StartPublishing(m))
  {
    StartRecords(m);
    StartStage(m);
  }

  lemma {:induction false} StartStage(m: Machine)
    requires m.flights == [] && m.loop.NotRunning? && |m.requests| > 0 && Serials(m.callbacks, m.serial)
    requires m.callbacks == [] ==> LastVersion(m) == |m.requests|
    requires m.callbacks != [] ==> NoNull(m.callbacks[1..])
    requires m.callbacks != [] && m.callbacks[0].cb.Null? ==> |m.callbacks| == 1
    requires m.callbacks != [] ==> (m.callbacks[0].cb.Null? <==> LastVersion(m) == |m.requests|)
    ensures Stage(StartPublishing(m))
  {
    if m.callbacks != [] {
      WholeCut(m.callbacks, m.serial, |m.requests|);
    }
  }

  lemma {:induction false} PublishOk(m: Machine, cid: string)
    requires MachineOk(m) && m.alive
    ensures MachineOk(StepPublish(m, cid))
  {
    var n := |m.requests|;
    var m1 := Push(m.(toPublish := cid, requests := m.requests + [cid]), Cb(n));
    TicketsSnoc(m.callbacks, m.serial, Cb(n));
    RangeSnoc(|m.called|, n);
    assert Records(m1) by {
      forall f | f in m1.issued
        ensures FlightOk(f, m1.requests)
      {
        assert FlightOk(f, m.requests);
      }
    }
    if m.publishing {
      AppendOk(m, cid);
    } else {
      StartOk(m1);
    }
  }

  lemma {:induction false} AppendOk(m: Machine, cid: string)
    requires MachineOk(m) && m.alive && m.publishing
    ensures Stage(Push(m.(toPublish := cid, requests := m.requests + [cid]), Cb(|m.requests|)))
  {
    var n := |m.requests|;
    match m.loop
    case NotRunning => Grow(m.callbacks, m.serial, m.flights[0].last, m.flights[0].version, n);
    case Popping(last, _, v, _) => Grow(m.callbacks, m.serial, last, v, n);
    case Popped(v) =>
      RangeSnoc(v, n);
      TicketsSnoc(m.callbacks, m.serial, Cb(n));
  }

  lemma {:induction false} PopTickets(s: seq<Cell>, p: nat, last: nat, version: nat, k: nat, n: nat)
    requires CutAt(s, p, last, version, n) && k <= n && Tickets(s) == Range(k, n)
    ensures s[0].cb.Cb? ==> k < version && s[0].cb.ticket == k && Tickets(s[1..]) == Range(k + 1, n)
    ensures s[0].cb.Null? ==> Tickets(s[1..]) == Range(k, n)
    ensures p > 0 ==> CutAt(s[1..], p - 1, last, version, n)
  {
    assert s == s[..p + 1] + s[p + 1..];
    TicketsConcat(s[..p + 1], s[p + 1..]);
    RangeSnoc(k, n);
    RangeSnoc(version, n);
    assert s[..p + 1][1..] == s[1..p + 1];
    if s[0].cb.Cb? {
      TicketsHead(s, k, n);
    }
    if p > 0 {
      assert s[1..][p..] == s[p + 1..];
    }
  }

  lemma {:induction false} CallNextRecords(m: Machine, p: nat)
    requires MachineOk(m) && m.alive && m.loop.Popping?
    requires CutAt(m.callbacks, p, m.loop.last, m.loop.version, |m.requests|)
    ensures Records(StepCallNext(m))
  {
    var m' := StepCallNext(m);
    PopTickets(m.callbacks, p, m.loop.last, m.loop.version, |m.called|, |m.requests|);
    assert m.issued[|m.issued| - 1] in m.issued;
    forall i | 0 <= i < |m'.called|
      ensures CompletionOk(m'.called[i], i, m'.issued) && m'.called[i].result.Published?
    {
      assert i < |m.called| ==> CompletionOk(m.called[i], i, m.issued);
    }
  }

  /** The list behind the popped cell. */
  lemma {:induction false} PopCut(s: seq<Cell>, last: nat, version: nat, n: nat, bound: nat)
    requires Cut(s, last, version, n) && Serials(s, bound)
    ensures s != [] && Serials(s[1..], bound) && NoNull(s[1..]) && version <= n
    ensures s[0].serial == last ==> Tickets(s[1..]) == Range(version, n)
    ensures s[0].serial != last ==> s[0].cb.Cb? && Cut(s[1..], last, version, n)
  {
    var p: nat :| CutAt(s, p, last, version, n);
    if p > 0 {
      assert s[1..][p..] == s[p + 1..];
      assert NoNull(s[1..][1..]);
      assert CutAt(s[1..], p - 1, last, version, n);
    }
  }

  lemma {:induction false} CallNextOk(m: Machine)
    requires MachineOk(m) && m.alive && m.loop.Popping?
    ensures MachineOk(StepCallNext(m))
  {
    var m' := StepCallNext(m);
    PopCut(m.callbacks, m.loop.last, m.loop.version, |m.requests|, m.serial);
    var p: nat :| CutAt(m.callbacks, p, m.loop.last, m.loop.version, |m.requests|);
    CallNextRecords(m, p);
    assert m'.issued == m.issued && m'.callbacks == m.callbacks[1..];
    assert Stage(m');
  }

  lemma {:induction false} LoopEndOk(m: Machine)
    requires MachineOk(m) && m.alive && m.loop.Popped?
    ensures MachineOk(StartPublishing(m.(loop := NotRunning)))
  {
    var m1 := m.(loop := NotRunning);
    RangeSnoc(m.loop.version, |m.requests|);
    if m.callbacks != [] {
      assert m.callbacks[0].cb.Cb?;
    }
    assert m.issued[|m.issued| - 1] in m.issued;
    StartOk(m1);
  }

  lemma {:induction false} RunTimerOk(m: Machine, i: nat)
    requires MachineOk(m) && i < |m.ready|
    ensures MachineOk(StepRunTimer(m, i))
  {
    var m1 := m.(ready := m.ready[..i] + m.ready[i + 1..]);
    assert m.ready == m.ready[..i] + [m.ready[i]] + m.ready[i + 1..];
    assert Records(m1);
    if m.alive && m.ready[i] && !m.publishing {
      var m2 := Push(m1, Null);
      TicketsSnoc(m.callbacks, m.serial, Null);
      assert m2.callbacks == [Cell(m.serial, Null)];
      assert m.ready[i] in m.ready;
      StartOk(m2);
    }
  }

  /** Who waits for what: there are callbacks exactly as long as there is publishing to be done. */
  predicate Tidy(m: Machine) {
    if m.alive && m.publishing then
      && (m.loop.Popped? || m.callbacks != [])
      && (if m.loop.NotRunning? then |m.flights| == 1 else m.flights == [])
    else m.callbacks == [] && m.loop.NotRunning? && |m.flights| <= (if m.alive then 0 else 1)
  }

  lemma {:induction false} IsTidy(m: Machine)
    requires MachineOk(m)
    ensures Tidy(m)
  {
  }

  lemma {:induction false} DestroyOk(m: Machine)
    requires MachineOk(m) && m.alive
    ensures MachineOk(StepDestroy(m))
  {
    DestroyRecords(m);
    IsTidy(m);
  }

  lemma {:induction false} DestroyRecords(m: Machine)
    requires Records(m) && m.alive && m.posted == []
    ensures Records(StepDestroy(m))
  {
    var m' := StepDestroy(m);
    assert m'.posted == m.callbacks;
    NoneReady(m.ready, m.pending);
    forall i | 0 <= i < |m'.called|
      ensures CompletionOk(m'.called[i], i, m'.issued)
    {
      assert CompletionOk(m.called[i], i, m.issued);
    }
  }

  lemma {:induction false} NoneReady(ready: seq<bool>, n: nat)
    ensures true in ready + Times(n, false) <==> true in ready
  {
  }

  lemma {:induction false} RunPostedOk(m: Machine)
    requires MachineOk(m) && m.posted != []
    ensures MachineOk(StepRunPosted(m))
  {
    assert !m.alive;
    var m' := StepRunPosted(m);
    if m.posted[0].cb.Cb? {
      TicketsHead(m.posted, |m.called|, |m.requests|);
      AbortedOk(m.called, m.posted[0].cb.ticket, m.issued);
    }
  }

  lemma {:induction false} AbortedOk(called: seq<Completion>, ticket: nat, issued: seq<Flight>)
    requires ticket == |called| && forall i :: 0 <= i < |called| ==> CompletionOk(called[i], i, issued)
    ensures var c := called + [Completion(ticket, Aborted)];
            forall i :: 0 <= i < |c| ==> CompletionOk(c[i], i, issued)
  {
    var c := called + [Completion(ticket, Aborted)];
    forall i | 0 <= i < |c|
      ensures CompletionOk(c[i], i, issued)
    {
      assert i < |called| ==> c[i] == called[i];
    }
  }

  lemma {:induction false} ExpireOk(m: Machine)
    requires MachineOk(m)
    ensures MachineOk(Step(m, Expire))
  {
    assert m.pending == 1 ==> Times(1, true)[0] in Times(1, true);
  }

  lemma {:induction false} CompleteOk(m: Machine, i: nat, ok: bool)
    requires MachineOk(m) && i < |m.flights|
    ensures MachineOk(StepComplete(m, i, ok))
  {
  }

  lemma {:induction false} StepOk(m: Machine, e: Event)
    requires MachineOk(m) && Enabled(m, e)
    ensures MachineOk(Step(m, e))
  {
    match e
    case Publish(cid) => PublishOk(m, cid);
    case Complete(i, ok) => CompleteOk(m, i, ok);
    case CallNext => CallNextOk(m);
    case LoopEnd => LoopEndOk(m);
    case Expire => ExpireOk(m);
    case RunTimer(i) => RunTimerOk(m, i);
    case Destroy => DestroyOk(m);
    case RunPosted => RunPostedOk(m);
  }

  lemma {:induction false} RunOk(m: Machine, es: seq<Event>)
    requires MachineOk(m) && ValidRun(m, es)
    ensures MachineOk(Run(m, es))
    decreases |es|
  {
    if es == [] {
    } else {
      StepOk(m, es[0]);
      RunOk(Step(m, es[0]), es[1..]);
    }
  }

  // ----- over every run -----

  lemma {:induction false} StartedOk()
    ensures MachineOk(START)
  {
  }

  lemma {:induction false} Reached(es: seq<Event>) returns (m: Machine)
    requires ValidRun(START, es)
    ensures m == Run(START, es) && MachineOk(m)
  {
    StartedOk();
    RunOk(START, es);
    m := Run(START, es);
  }

  /** At most one backend publish is outstanding, and the loop never pops an empty list. */
  lemma {:induction false} OneOutstanding(es: seq<Event>)
    requires ValidRun(START, es)
    ensures |Run(START, es).flights| <= 1 && !Run(START, es).emptyPop
  {
    StartedOk();
    RunOk(START, es);
  }

  /** Callbacks are called in the order of their requests, none twice. One that is not aborted is
      called for a publish that was really made, of a cid requested no earlier than its own.
      Callbacks are aborted only by the destructor. */
  lemma {:induction false} CalledInOrder(es: seq<Event>, i: nat)
    requires ValidRun(START, es) && i < |Run(START, es).called|
    ensures var m := Run(START, es);
            && i < |m.requests| && m.called[i].ticket == i
            && (m.alive ==> m.called[i].result.Published?)
            && (m.called[i].result.Published? ==>
                  exists f :: f in m.issued && f.version == m.called[i].result.version &&
                    i < f.version <= |m.requests| && f.cid == m.requests[f.version - 1])
  {
    StartedOk();
    RunOk(START, es);
    var m := Run(START, es);
    assert CompletionOk(m.called[i], i, m.issued);
    if m.called[i].result.Published? {
      var f :| f in m.issued && f.version == m.called[i].result.version;
      assert FlightOk(f, m.requests);
    }
  }

  /** From the first request until the destructor, a publish is being made or completed, or the
      timer is waiting, or its handler is about to run. */
  lemma {:induction false} AlwaysWatched(es: seq<Event>)
    requires ValidRun(START, es) && Run(START, es).alive && Run(START, es).requests != []
    ensures var m := Run(START, es);
            m.flights != [] || !m.loop.NotRunning? || m.pending == 1 || true in m.ready
  {
    StartedOk();
    RunOk(START, es);
  }

  lemma {:induction false} IdleMeansDone(m: Machine)
    requires MachineOk(m) && m.alive && m.requests != [] && !m.publishing
    ensures m.issued != [] && |m.called| == |m.requests|
    ensures m.issued[|m.issued| - 1].cid == m.requests[|m.requests| - 1] == m.toPublish
  {
    assert m.issued[|m.issued| - 1] in m.issued;
    RangeSnoc(|m.called|, |m.requests|);
  }

  /** When nothing is being published, the last publish made was of the last cid requested, and
      every callback has been called. */
  lemma {:induction false} DrainedIsCurrent(es: seq<Event>, m: Machine)
    requires ValidRun(START, es) && m == Run(START, es) && m.alive && m.requests != [] && !m.publishing
    ensures m.issued != [] && |m.called| == |m.requests|
    ensures m.issued[|m.issued| - 1].cid == m.requests[|m.requests| - 1] == m.toPublish
  {
    var reached := Reached(es);
    IdleMeansDone(m);
  }

  // ----- every callback is called in the end -----

  /** The events by which what has been asked for gets done. */
  predicate Advances(e: Event) {
    e.Complete? || e.CallNext? || e.LoopEnd? || e.RunPosted?
  }

  function Advancing(es: seq<Event>): nat {
    if es == [] then 0 else (if Advances(es[0]) then 1 else 0) + Advancing(es[1..])
  }

  function Causes(es: seq<Event>): nat {
    if es == [] then 0 else (if es[0].Publish? || es[0].RunTimer? then 1 else 0) + Causes(es[1..])
  }

  function Work(m: Machine): nat {
    if !m.alive then |m.posted| + |m.flights|
    else match m.loop
         case NotRunning => 3 * |m.callbacks|
         case Popping(_, _, _, _) => if m.callbacks == [] then 0 else 3 * |m.callbacks| - 1
         case Popped(_) => 3 * |m.callbacks| + 1
  }

  lemma {:induction false} StepWork(m: Machine, e: Event)
    requires Tidy(m) && (m.alive ==> m.posted == []) && Enabled(m, e)
    ensures Work(Step(m, e)) <= Work(m) + (if e.Publish? || e.RunTimer? then 3 else 0) - (if Advances(e) then 1 else 0)
  {
  }

  /** A request costs at most three steps, wherever it falls. */
  lemma {:induction false} PublishWork(m: Machine, cid: string)
    requires Tidy(m) && m.alive
    ensures Work(StepPublish(m, cid)) <= Work(m) + 3
  {
  }

  /** A request or a timer causes at most three steps of publishing. When no such step is left to
      be done, every callback has been called exactly once. */
  lemma {:induction false} PublishingEnds(m: Machine, es: seq<Event>)
    requires MachineOk(m) && ValidRun(m, es)
    ensures Advancing(es) + Work(Run(m, es)) <= 3 * Causes(es) + Work(m)
    ensures var m' := Run(m, es);
            (forall e :: Enabled(m', e) ==> !Advances(e)) ==> |m'.called| == |m'.requests|
    decreases |es|
  {
    if es != [] {
      StepOk(m, es[0]);
      IsTidy(m);
      StepWork(m, es[0]);
      PublishingEnds(Step(m, es[0]), es[1..]);
    } else {
      NothingLeft(m);
    }
  }

  lemma {:induction false} NothingLeft(m: Machine)
    requires MachineOk(m)
    ensures (forall e :: Enabled(m, e) ==> !Advances(e)) ==> |m.called| == |m.requests|
  {
    if |m.called| != |m.requests| {
      RangeSnoc(|m.called|, |m.requests|);
      var e := if !m.alive then RunPosted
               else match m.loop
                    case NotRunning => Complete(0, true)
                    case Popping(_, _, _, _) => CallNext
                    case Popped(_) => LoopEnd;
      assert Enabled(m, e) && Advances(e);
    }
  }

  // ----- the empty callback -----

  predicate HasNull(s: seq<Cell>) {
    exists i :: 0 <= i < |s| && s[i].cb.Null?
  }

  lemma {:induction false} DeadRun(m: Machine, es: seq<Event>)
    requires !m.alive && ValidRun(m, es)
    ensures var m' := Run(m, es);
            && !m'.alive
            && (m'.emptyCall || HasNull(m'.posted) <==> m.emptyCall || HasNull(m.posted))
    decreases |es|
  {
    if es == [] {
    } else {
      var m1 := Step(m, es[0]);
      if es[0].RunPosted? {
        assert m1.posted == m.posted[1..];
        assert forall i :: 0 <= i < |m1.posted| ==> m1.posted[i] == m.posted[i + 1];
        if HasNull(m.posted) && m.posted[0].cb.Cb? {
          var i :| 0 <= i < |m.posted| && m.posted[i].cb.Null?;
          assert m1.posted[i - 1].cb.Null?;
        }
        if HasNull(m1.posted) {
          var i :| 0 <= i < |m1.posted| && m1.posted[i].cb.Null?;
          assert m.posted[i + 1].cb.Null?;
        }
      }
      DeadRun(m1, es[1..]);
    }
  }

  /** What the destructor posts is called without a check, the timer's empty callback included. So
      an empty function is called exactly if the Republisher is destroyed while there is a publish
      outstanding that is one of the timer's, that is, of the same request as the publish before it.
      In particular it never is when a callback destroys the object: nothing is outstanding then. */
  lemma {:induction false} DestroyedWhileRepeating(es: seq<Event>, rest: seq<Event>)
    requires ValidRun(START, es) && Enabled(Run(START, es), Destroy)
    requires ValidRun(StepDestroy(Run(START, es)), rest) && Run(StepDestroy(Run(START, es)), rest).posted == []
    ensures Run(StepDestroy(Run(START, es)), rest).emptyCall <==>
            Run(START, es).flights != [] && Repeats(Run(START, es).issued)
  {
    StartedOk();
    RunOk(START, es);
    var m := Run(START, es);
    DeadRun(StepDestroy(m), rest);
    assert m.posted + m.callbacks == m.callbacks;
    NullMeansRepeat(m);
  }

  lemma {:induction false} NullMeansRepeat(m: Machine)
    requires MachineOk(m) && Enabled(m, Destroy)
    ensures HasNull(m.callbacks) <==> m.flights != [] && Repeats(m.issued)
  {
    if m.publishing {
      assert forall i :: 0 < i < |m.callbacks| ==> m.callbacks[i] == m.callbacks[1..][i - 1];
      match m.loop
      case NotRunning => assert Cut(m.callbacks, m.flights[0].last, m.flights[0].version, |m.requests|);
      case Popping(last, _, v, _) => assert Cut(m.callbacks, last, v, |m.requests|);
      case Popped(_) =>
    }
  }

  const LONE_REQUEST := [Publish("a"), Complete(0, true), CallNext, LoopEnd]

  lemma {:induction false} LoneRequest()
    ensures ValidRun(START, LONE_REQUEST)
    ensures var m := Run(START, LONE_REQUEST);
            && m.alive && !m.publishing && m.callbacks == [] && m.ready == [] && m.pending == 1
            && m.posted == [] && m.flights == [] && m.loop.NotRunning?
  {
    var m1 := Step(START, Publish("a"));
    var m2 := Step(m1, Complete(0, true));
    assert m1.callbacks == [Cell(0, Cb(0))];
    var m3 := Step(m2, CallNext);
    Chain(START, LONE_REQUEST, [START, m1, m2, m3, Step(m3, LoopEnd)]);
  }

  lemma {:induction false} TimerPublishes(m: Machine)
    requires m.alive && !m.publishing && m.callbacks == [] && m.ready == [] && m.pending == 1 && m.posted == []
    requires m.loop.NotRunning?
    ensures ValidRun(m, [Expire, RunTimer(0)])
    ensures var m' := Run(m, [Expire, RunTimer(0)]);
            m'.alive && m'.callbacks == [Cell(m.serial, Null)] && m'.posted == [] && m'.loop.NotRunning?
  {
    var m1 := Step(m, Expire);
    assert m1.ready == [true];
    Chain(m, [Expire, RunTimer(0)], [m, m1, Step(m1, RunTimer(0))]);
  }

  lemma {:induction false} EmptyOneIsCalled(m: Machine, serial: nat)
    requires m.alive && m.callbacks == [Cell(serial, Null)] && m.posted == [] && m.loop.NotRunning?
    ensures ValidRun(m, [Destroy, RunPosted]) && Run(m, [Destroy, RunPosted]).emptyCall
  {
    var m1 := Step(m, Destroy);
    assert m1.posted == m.callbacks;
    Chain(m, [Destroy, RunPosted], [m, m1, Step(m1, RunPosted)]);
  }

  /** It does happen: one request, the timer's publish, the destructor. */
  lemma {:induction false} EmptyCallHappens()
    ensures var es := LONE_REQUEST + [Expire, RunTimer(0)] + [Destroy, RunPosted];
            ValidRun(START, es) && Run(START, es).emptyCall
  {
    LoneRequest();
    var m := Run(START, LONE_REQUEST);
    TimerPublishes(m);
    RunConcat(START, LONE_REQUEST, [Expire, RunTimer(0)]);
    EmptyOneIsCalled(Run(m, [Expire, RunTimer(0)]), m.serial);
    RunConcat(START, LONE_REQUEST + [Expire, RunTimer(0)], [Destroy, RunPosted]);
  }

  lemma {:induction false} RunConcat(m: Machine, es: seq<Event>, fs: seq<Event>)
    requires ValidRun(m, es) && ValidRun(Run(m, es), fs)
    ensures ValidRun(m, es + fs) && Run(m, es + fs) == Run(Run(m, es), fs)
    decreases |es|
  {
    if es == [] {
      assert es + fs == fs;
    } else {
      RunConcat(Step(m, es[0]), es[1..], fs);
      assert (es + fs)[1..] == es[1..] + fs;
    }
  }

  lemma {:induction false} Chain(m: Machine, es: seq<Event>, ms: seq<Machine>)
    requires |ms| == |es| + 1 && ms[0] == m
    requires forall i :: 0 <= i < |es| ==> Enabled(ms[i], es[i]) && ms[i + 1] == Step(ms[i], es[i])
    ensures ValidRun(m, es) && Run(m, es) == ms[|es|]
    decreases |es|
  {
    if es == [] {
    } else {
      Chain(ms[1], es[1..], ms[1..]);
    }
  }
}

/** The Republisher object: its methods are the steps of the machine, its completion handler a run. */
module RepublisherObject {
  import opened Publishing

  /** What a callback may do while it is called. */
  datatype Reaction = Again(cid: string) | Drop

  /** Everybody called in between was called with result. */
  predicate CalledWith(before: seq<Completion>, after: seq<Completion>, result: Result) {
    before <= after && forall i :: |before| <= i < |after| ==> after[i].result == result
  }

  /** The Republisher's fields, then what the backend, the timer and the event queue hold for it, the
      reactions of the callbacks to come, and the records. Where the loop stands is not a field. */
  class Republisher {
    var wasDestroyed: bool
    var toPublish: string
    var isPublishing: bool
    var callbacks: seq<Cell>
    var serial: nat
    var flights: seq<Flight>
    var pending: nat
    var ready: seq<bool>
    var posted: seq<Cell>
    var reactions: seq<seq<Reaction>>
    var requests: seq<string>
    var issued: seq<Flight>
    var called: seq<Completion>
    ghost var emptyCall: bool
    ghost var loop: Loop

    constructor ()
      ensures State() == START
    {
      wasDestroyed, toPublish, isPublishing, callbacks, serial := false, "", false, [], 0;
      flights, pending, ready, posted, reactions := [], 0, [], [], [];
      requests, issued, called := [], [], [];
      emptyCall, loop := false, NotRunning;
    }

    ghost function State(): Machine
      reads this
    {
      Machine(!wasDestroyed, toPublish, isPublishing, callbacks, serial, flights, loop, pending, ready,
              posted, false, emptyCall, requests, issued, called)
    }

    method CancelWaits()
      modifies this`pending, this`ready
      ensures State() == CancelTimer(old(State()))
    {
      ready, pending := ready + Times(pending, false), 0;
    }

    /** Republisher::publish. */
    method Publish(cid: string)
      modifies this
      ensures State() == StepPublish(old(State()), cid) && reactions == old(reactions)
    {
      var ticket := |requests|;
      requests := requests + [cid];
      toPublish := cid;
      callbacks, serial := callbacks + [Cell(serial, Cb(ticket))], serial + 1;
      if isPublishing {
        return;
      }
      StartPublishing();
    }

    /** Republisher::start_publishing. */
    method StartPublishing()
      modifies this
      ensures State() == Publishing.StartPublishing(old(State())) && reactions == old(reactions)
    {
      if callbacks == [] {
        isPublishing := false;
        CancelWaits();
        pending := 1;
        return;
      }
      isPublishing := true;
      CancelWaits();
      var f := Flight(toPublish, |requests|, callbacks[|callbacks| - 1].serial);
      flights, issued := flights + [f], issued + [f];
    }

    /** The timer's handler. */
    method RunTimer(i: nat)
      requires i < |ready|
      modifies this
      ensures State() == StepRunTimer(old(State()), i)
    {
      var ok := ready[i];
      ready := ready[..i] + ready[i + 1..];
      if wasDestroyed || !ok || isPublishing {
        return;
      }
      callbacks, serial := callbacks + [Cell(serial, Null)], serial + 1;
      StartPublishing();
    }

    /** The destructor. */
    method Destroy()
      modifies this
      ensures State() == StepDestroy(old(State())) && reactions == old(reactions)
    {
      wasDestroyed := true;
      loop := NotRunning;
      var cbs := callbacks;
      callbacks := [];
      posted := posted + cbs;
      CancelWaits();
    }

    /** A callback is running: what it does are steps of the machine. */
    method React(ghost m0: Machine, ghost es: seq<Event>) returns (ghost es': seq<Event>)
      requires MachineOk(m0) && ValidRun(m0, es) && Run(m0, es) == State() && !wasDestroyed && isPublishing
          && !Entering(loop)
      modifies this
      ensures ValidRun(m0, es') && Run(m0, es') == State() && es <= es' && called == old(called)
      ensures !wasDestroyed ==> isPublishing && loop == old(loop) && old(callbacks) <= callbacks
    {
      es' := es;
      if reactions == [] {
        return;
      }
      var due := reactions[0];
      reactions := reactions[1..];
      var i := 0;
      while i < |due| && !wasDestroyed
        invariant ValidRun(m0, es') && Run(m0, es') == State() && es <= es' && called == old(called)
        invariant !wasDestroyed ==> isPublishing && loop == old(loop) && old(callbacks) <= callbacks
        decreases |due| - i
      {
        match due[i] {
          case Again(cid) =>
            RunSnoc(m0, es', Event.Publish(cid));
            Publish(cid);
            es' := es' + [Event.Publish(cid)];
          case Drop =>
            RunSnoc(m0, es', Event.Destroy);
            Destroy();
            es' := es' + [Event.Destroy];
        }
        i := i + 1;
      }
    }

    /** The cell popped next is in the list, and last is found after at most p more. */
    ghost predicate Ahead(p: nat, last: nat)
      reads this
    {
      && p < |callbacks| && callbacks[p].serial == last
      && forall i :: 0 <= i < p ==> callbacks[i].serial != last
    }

    ghost predicate At(last: nat, ok: bool, version: nat)
      reads this
    {
      loop.Popping? && loop.last == last && loop.ok == ok && loop.version == version
    }

    /** One turn of the completion handler's loop, up to where the callback returns. */
    method CallFront(
        last: nat, ok: bool, version: nat, ghost m0: Machine, ghost es: seq<Event>, ghost p: nat)
      returns (isLast: bool, ghost es': seq<Event>)
      requires MachineOk(m0) && ValidRun(m0, es) && Run(m0, es) == State()
      requires !wasDestroyed && isPublishing && At(last, ok, version) && Ahead(p, last)
      modifies this
      ensures ValidRun(m0, es') && Run(m0, es') == State() && es <= es' && |es'| > |es|
      ensures CalledWith(old(called), called, Published(ok, version))
      ensures isLast <==> p == 0
      ensures !wasDestroyed ==> isPublishing && (if isLast then loop == Popped(version)
                                                 else At(last, ok, version) && Ahead(p - 1, last))
    {
      isLast := callbacks[0].serial == last;
      var calls := callbacks[0].cb.Cb?;
      RunSnoc(m0, es, CallNext);
      es' := es + [CallNext];
      PopFront(last, ok, version);
      if calls {
        es' := React(m0, es');
      }
    }

    method PopFront(last: nat, ok: bool, version: nat)
      requires !wasDestroyed && At(last, ok, version) && callbacks != []
      modifies this
      ensures State() == StepCallNext(old(State())) && reactions == old(reactions)
      ensures CalledWith(old(called), called, Published(ok, version))
    {
      var c := callbacks[0];
      callbacks := callbacks[1..];
      loop := if c.serial == last then Popped(version) else loop.(begun := true);
      if c.cb.Cb? {
        called := called + [Completion(c.cb.ticket, Published(ok, version))];
      }
    }

    /** The loop of the completion handler: it ends at the last callback of the batch, or when a
        callback has destroyed the object. */
    method PopBatch(
        last: nat, ok: bool, version: nat, ghost m0: Machine, ghost es: seq<Event>) returns (ghost es': seq<Event>)
      requires MachineOk(m0) && ValidRun(m0, es) && Run(m0, es) == State()
      requires !wasDestroyed && isPublishing && At(last, ok, version)
      modifies this
      ensures ValidRun(m0, es') && Run(m0, es') == State() && es <= es'
      ensures !wasDestroyed ==> loop == Popped(version)
      ensures CalledWith(old(called), called, Published(ok, version))
    {
      es' := es;
      RunOk(m0, es);
      ghost var p: nat :| CutAt(callbacks, p, last, version, |requests|);
      var isLast := false;
      while !isLast
        invariant ValidRun(m0, es') && Run(m0, es') == State() && es <= es'
        invariant !wasDestroyed && isPublishing
        invariant CalledWith(old(called), called, Published(ok, version))
        invariant if isLast then loop == Popped(version) else At(last, ok, version) && Ahead(p, last)
        decreases !isLast, p
      {
        isLast, es' := CallFront(last, ok, version, m0, es', p);
        if wasDestroyed {
          return;
        }
        if !isLast {
          p := p - 1;
        }
      }
    }

    /** The loop of the completion handler, and what follows it. */
    method Completed(
        last: nat, ok: bool, version: nat, ghost m0: Machine, ghost es: seq<Event>) returns (ghost es': seq<Event>)
      requires MachineOk(m0) && ValidRun(m0, es) && Run(m0, es) == State()
      requires !wasDestroyed && isPublishing && At(last, ok, version)
      modifies this
      ensures ValidRun(m0, es') && Run(m0, es') == State() && es <= es' && loop.NotRunning?
      ensures CalledWith(old(called), called, Published(ok, version))
    {
      es' := PopBatch(last, ok, version, m0, es);
      if wasDestroyed {
        RunOk(m0, es');
        return;
      }
      RunSnoc(m0, es', LoopEnd);
      loop := NotRunning;
      StartPublishing();
      es' := es' + [LoopEnd];
    }

    /** The handler of a backend publish: from where the Republisher stands to where it returns is
        a run of the machine, whatever the callbacks do in between, and everybody called on the way is
        told how this publish ended. */
    method Complete(i: nat, ok: bool) returns (ghost es: seq<Event>)
      requires i < |flights| && MachineOk(State()) && loop.NotRunning?
      modifies this
      ensures [Event.Complete(i, ok)] <= es && ValidRun(old(State()), es) && Run(old(State()), es) == State()
      ensures MachineOk(State()) && loop.NotRunning?
      ensures CalledWith(old(called), called, Published(ok, old(flights)[i].version))
    {
      ghost var m0 := State();
      var f := flights[i];
      RunSnoc(m0, [], Event.Complete(i, ok));
      es := [] + [Event.Complete(i, ok)];
      flights := flights[..i] + flights[i + 1..];
      if !wasDestroyed {
        loop := Popping(f.last, ok, f.version, false);
        es := Completed(f.last, ok, f.version, m0, es);
      }
      RunOk(m0, es);
    }
  }
}
