/** Which value a key has that is handed in more than once while somebody inserts. */
module FirstCome {
  import opened OrderedMap
  import opened Tree
  import opened InOrder
  import opened Database
  import opened Coalescing

  /** The pairs handed in since the buffer was last taken, and those handed in before that, which
      the batch being drained stands for. */
  datatype Waiting = Waiting(since: seq<Pair>, taken: seq<Pair>)

  /** A caller that finds nobody inserting takes the buffer with its own pair in it; so does one that
      goes on inserting at the end of a round. */
  function Track(c: Config, m: Machine, e: Event, w: Waiting): Waiting
    requires Enabled(m, e)
  {
    match e
    case Call(k, v) =>
      if m.inserting then w.(since := w.since + [Pair(k, v)]) else Waiting([], w.since + [Pair(k, v)])
    case Apply(_) => w
    case Finish(_, _) => if Step(c, m, e).inserting then Waiting([], w.since) else w
  }

  function TrackAll(c: Config, m: Machine, es: seq<Event>, w: Waiting): Waiting
    requires ValidRun(c, m, es)
    decreases |es|
  {
    if es == [] then w else TrackAll(c, Step(c, m, es[0]), es[1..], Track(c, m, es[0], w))
  }

  /** What is left of a batch, which is what the pairs handed in stand for, first values first come. */
  ghost predicate Rest(rest: seq<Pair>, handed: seq<Pair>) {
    exists done :: Sorted(done + rest) && ToMap(done + rest) == ToMap(handed)
  }

  /** Every key that waits has the first value it was handed in with since the buffer was taken, and so
      has every key of the batch that is being drained. */
  ghost predicate FirstValues(m: Machine, w: Waiting) {
    && Sorted(m.buffer) && ToMap(m.buffer) == ToMap(w.since)
    && |m.drains| == (if m.inserting then 1 else 0)
    && (m.inserting ==> Rest(m.drains[0], w.taken))
  }

  lemma {:induction false} RestBegins(s: seq<Pair>, handed: seq<Pair>)
    requires Sorted(s) && ToMap(s) == ToMap(handed)
    ensures Rest(s, handed)
  {
    assert [] + s == s;
  }

  lemma {:induction false} RestGoesOn(s: seq<Pair>, handed: seq<Pair>)
    requires s != [] && Rest(s, handed)
    ensures Rest(s[1..], handed)
  {
    var done :| Sorted(done + s) && ToMap(done + s) == ToMap(handed);
    assert (done + [s[0]]) + s[1..] == done + s;
  }

  lemma {:induction false} CallKeepsFirst(c: Config, m: Machine, k: string, v: string, w: Waiting)
    requires FirstValues(m, w)
    ensures FirstValues(StepCall(m, k, v), Track(c, m, Call(k, v), w))
  {
    var buffer := Put(m.buffer, k, v, false);
    PutIsOneMore(m.buffer, w.since, k, v);
    PutSorted(m.buffer, k, v, false);
    if !m.inserting {
      RestBegins(buffer, w.since + [Pair(k, v)]);
    }
  }

  lemma {:induction false} StepKeepsFirst(c: Config, m: Machine, e: Event, w: Waiting)
    requires FirstValues(m, w) && Enabled(m, e)
    ensures FirstValues(Step(c, m, e), Track(c, m, e, w))
  {
    match e
    case Call(k, v) => CallKeepsFirst(c, m, k, v, w);
    case Apply(_) => RestGoesOn(m.drains[0], w.taken);
    case Finish(_, _) => RestBegins(m.buffer, w.since);
  }

  lemma {:induction false} RunKeepsFirst(c: Config, m: Machine, es: seq<Event>, w: Waiting)
    requires FirstValues(m, w) && ValidRun(c, m, es)
    ensures FirstValues(Run(c, m, es), TrackAll(c, m, es, w))
    decreases |es|
  {
    if es == [] {
    } else {
      StepKeepsFirst(c, m, es[0], w);
      RunKeepsFirst(c, Step(c, m, es[0]), es[1..], Track(c, m, es[0], w));
    }
  }

  /** Over every run: a key waits in the buffer exactly if it was handed in since the buffer was last
      taken, with the first value it was handed in with since then. */
  lemma {:induction false} FirstOneWaits(c: Config, es: seq<Event>, k: string, m: Machine, since: seq<Pair>)
    requires ValidRun(c, START, es) && m == Run(c, START, es)
    requires since == TrackAll(c, START, es, Waiting([], [])).since
    ensures HasKey(m.buffer, k) <==> HasKey(since, k)
    ensures HasKey(since, k) ==> exists i ::
      0 <= i < |since| && since[i].key == k && since[i] in m.buffer && forall j :: 0 <= j < i ==> since[j].key != k
  {
    RunKeepsFirst(c, START, es, Waiting([], []));
    ToMapKeys(m.buffer, k);
    ToMapKeys(since, k);
    if HasKey(since, k) {
      var i := ToMapIsFirst(since, k);
      var x := ToMapIsFirst(m.buffer, k);
      assert since[i] == m.buffer[x];
    }
  }

  /** Over every run: what is still to be put into the tree are first values of the pairs handed in
      before the buffer was last taken. */
  lemma {:induction false} FirstOneIsDrained(c: Config, es: seq<Event>, p: Pair, m: Machine, taken: seq<Pair>)
    requires ValidRun(c, START, es) && m == Run(c, START, es) && m.inserting
    requires taken == TrackAll(c, START, es, Waiting([], [])).taken
    ensures |m.drains| == 1
    ensures p in m.drains[0] ==>
      exists i :: 0 <= i < |taken| && taken[i] == p && forall j :: 0 <= j < i ==> taken[j].key != p.key
  {
    RunKeepsFirst(c, START, es, Waiting([], []));
    if p in m.drains[0] {
      var done :| Sorted(done + m.drains[0]) && ToMap(done + m.drains[0]) == ToMap(taken);
      var batch := done + m.drains[0];
      assert p in batch && HasKey(batch, p.key);
      ToMapKeys(batch, p.key);
      var x := ToMapIsFirst(batch, p.key);
      var y :| 0 <= y < |batch| && batch[y] == p;
      Keys.LessTrichotomy(p.key, p.key);
      var i := ToMapIsFirst(taken, p.key);
      assert taken[i] == p;
    }
  }

  /** One step of the drain puts the next pair of the batch into the tree as raw_insert does, and
      touches nothing else. */
  lemma {:induction false} ApplyIsInsert(c: Config, m: Machine, others: multiset<nat>)
    requires c.maxSize >= 2 && MachineOk(c, m, others) && Enabled(m, Apply(0))
    ensures var p, m' := m.drains[0][0], Step(c, m, Apply(0));
            && m'.buffer == m.buffer && m'.drains == [m.drains[0][1..]] && m'.inserting
            && m'.db.hash == m.db.hash
            && ToMap(Pairs(m'.db)) ==
               if p.key in ToMap(Pairs(m.db)) && p.key !in InnerKeys(EntriesOf(m.db.root)) then ToMap(Pairs(m.db))
               else ToMap(Pairs(m.db))[p.key := p.value]
  {
    var p := m.drains[0][0];
    RawInsertRefinesMap(c, m.db, p.key, p.value, others);
    assert m.drains[0 := m.drains[0][1..]] == [m.drains[0][1..]];
  }
}
