/** What Node::insert does to the links of a tree: which hashes it gives up, that those left are
    still right, and how much there is to store afterwards. */
module Ledger {
  import opened Keys
  import opened OrderedMap
  import opened Tree
  import opened Insertion
  import opened InOrder
  import opened Shape
  import opened Codec
  import opened Storage

  /** Hashes are conserved: those still in links and those passed to try_remove are together the
      ones that were in links before; and every link left agrees with the blobs. */
  ghost predicate Conserved(es: seq<Entry>, r: Outcome, b: map<nat, Blob>) {
    && Agree(r.self, b)
    && Agree(EntriesOf(r.up), b)
    && Bag(r.self) + Bag(EntriesOf(r.up)) + r.removed == Bag(es)
    && (r.up.Node? ==> forall i :: 0 <= i < |r.up.entries| ==> r.up.entries[i].hash.NoHash?)
  }

  lemma {:induction false} LeafBag(es: seq<Entry>)
    requires forall i :: 0 <= i < |es| ==> es[i].child.Nil? && es[i].hash.NoHash?
    ensures Bag(es) == multiset{} && Unhashed(es) == 0
  {
    if es == [] {
    } else {
      LeafBag(es[1..]);
    }
  }

  lemma {:induction false} HalvesAgree(es: seq<Entry>, b: map<nat, Blob>)
    requires 2 < Size(es) && Agree(es, b)
    ensures Agree(Halves(es), b)
    ensures forall i :: 0 <= i < |Halves(es)| ==> Halves(es)[i].hash.NoHash?
  {
    var m := Size(es) / 2;
    var inf := Entry(Inf, "", es[m].child, NoHash);
    var left, right := es[..m] + [inf], es[m + 1..];
    assert AgreeLink(es[m], b);
    assert AgreeLink(inf, b);
    forall i | 0 <= i < |left|
      ensures AgreeLink(left[i], b)
    {
      assert left[i] == if i < m then es[i] else inf;
    }
    forall i | 0 <= i < |right|
      ensures AgreeLink(right[i], b)
    {
      assert right[i] == es[m + 1 + i];
    }
    var h := Halves(es);
    assert AgreeLink(h[0], b) && AgreeLink(h[1], b);
  }

  lemma {:induction false} Shuffle(a: multiset<nat>, c: multiset<nat>, r: multiset<nat>, h: multiset<nat>)
    ensures ((a + c) + r) + h == a + (h + c) + r
  {
  }

  lemma {:induction false} Regroup(x: multiset<nat>, r: multiset<nat>, h: multiset<nat>)
    ensures (multiset{} + x) + (r + h) == (x + h) + r
  {
  }

  lemma {:induction false} Exchange(a: multiset<nat>, m: multiset<nat>, g: multiset<nat>, c: multiset<nat>)
    ensures ((a + m) + c) + g == (a + (m + g)) + c
  {
  }

  lemma {:induction false} HalvesBag(es: seq<Entry>)
    requires 2 < Size(es)
    ensures Bag(Halves(es)) + HashBag(es[Size(es) / 2].hash) == Bag(es)
  {
    var m := Size(es) / 2;
    var inf := Entry(Inf, "", es[m].child, NoHash);
    var left, right := es[..m] + [inf], es[m + 1..];
    var h := Halves(es);
    assert Bag(left) == Bag(es[..m]) + LinkBag(inf) by {
      BagConcat(es[..m], [inf]);
      BagOne(inf);
    }
    assert Bag(h) == Bag(left) + Bag(right) by {
      assert h == [h[0]] + [h[1]];
      BagConcat([h[0]], [h[1]]);
      BagOne(h[0]);
      BagOne(h[1]);
    }
    BagAt(es, m);
    Shuffle(Bag(es[..m]), LinkBag(inf), Bag(right), HashBag(es[m].hash));
  }

  lemma {:induction false} SplitConserves(
      es: seq<Entry>, es2: seq<Entry>, removed: multiset<nat>, maxSize: nat, b: map<nat, Blob>)
    requires maxSize >= 2 && Agree(es2, b) && Bag(es2) + removed == Bag(es)
    ensures Conserved(es, Split(es2, removed, maxSize), b)
  {
    assert Bag([]) == multiset{};
    if Size(es2) > maxSize {
      HalvesAgree(es2, b);
      HalvesBag(es2);
      Regroup(Bag(Halves(es2)), removed, HashBag(es2[Size(es2) / 2].hash));
    }
  }

  lemma {:induction false} ReplacementAgrees(e: Entry, r: Outcome, b: map<nat, Blob>)
    requires e.child.Node? && Agree(r.self, b) && Agree(EntriesOf(r.up), b)
    requires r.up.Node? ==> |r.up.entries| == 2 && r.up.entries[1].child.Node?
    ensures Agree(Replacement(e, r), b)
  {
    var mid := Replacement(e, r);
    forall j | 0 <= j < |mid|
      ensures AgreeLink(mid[j], b)
    {
      if r.up.Node? {
        assert AgreeLink(r.up.entries[j], b);
      }
    }
  }

  lemma {:induction false} ReplacementBag(e: Entry, r: Outcome, b: map<nat, Blob>)
    requires e.child.Node? && Conserved(e.child.entries, r, b)
    requires r.up.Node? ==> |r.up.entries| == 2 && r.self == [] && r.up.entries[1].child.Node?
    ensures Bag(Replacement(e, r)) + (r.removed + HashBag(e.hash)) == LinkBag(e)
  {
    var mid := Replacement(e, r);
    match r.up
    case Nil =>
      BagOne(mid[0]);
      assert LinkBag(mid[0]) == Bag(r.self);
      assert Bag(EntriesOf(r.up)) == multiset{};
    case Node(up) =>
      assert mid == [mid[0]] + [mid[1]] && up == [up[0]] + [up[1]];
      BagConcat([mid[0]], [mid[1]]);
      BagConcat([up[0]], [up[1]]);
      BagOne(up[0]);
      BagOne(up[1]);
      BagOne(mid[1]);
      assert LinkBag(mid[1]) == LinkBag(up[1]);
      assert Bag(mid) == Bag(up);
      assert Bag(r.self) == multiset{};
  }

  lemma {:induction false} SpliceConserves(
      es: seq<Entry>, i: nat, mid: seq<Entry>, gone: multiset<nat>, b: map<nat, Blob>)
    requires i < |es| && Agree(es, b) && Agree(mid, b)
    requires Bag(mid) + gone == LinkBag(es[i])
    ensures Agree(es[..i] + mid + es[i + 1..], b)
    ensures Bag(es[..i] + mid + es[i + 1..]) + gone == Bag(es)
  {
    var es2 := es[..i] + mid + es[i + 1..];
    forall j | 0 <= j < |es2|
      ensures AgreeLink(es2[j], b)
    {
      assert es2[j] == if j < i then es[j] else if j < i + |mid| then mid[j - i] else es[j - |mid| + 1];
    }
    BagAt(es, i);
    BagReplace(es, i, mid);
    Exchange(Bag(es[..i]), Bag(mid), gone, Bag(es[i + 1..]));
  }

  lemma {:induction false} OverwriteConserves(es: seq<Entry>, i: nat, v: string, b: map<nat, Blob>)
    requires i < |es| && Agree(es, b)
    ensures Conserved(es, Outcome(es[i := es[i].(value := v)], Nil, multiset{}), b)
  {
    var e := es[i].(value := v);
    assert es[i := e] == es[..i] + [e] + es[i + 1..];
    assert AgreeLink(es[i], b) && AgreeLink(e, b);
    BagOne(e);
    SpliceConserves(es, i, [e], multiset{}, b);
  }

  lemma {:induction false} StepConserves(es: seq<Entry>, i: nat, r: Outcome, maxSize: nat, b: map<nat, Blob>)
    requires maxSize >= 2 && i < |es| && Agree(es, b)
    requires es[i].child.Node? && Conserved(es[i].child.entries, r, b)
    requires r.up.Node? ==> |r.up.entries| == 2 && r.self == [] && r.up.entries[1].child.Node?
    ensures var es2 := es[..i] + Replacement(es[i], r) + es[i + 1..];
            && Agree(es2, b)
            && Conserved(es, Split(es2, r.removed + HashBag(es[i].hash), maxSize), b)
  {
    var gone := r.removed + HashBag(es[i].hash);
    ReplacementAgrees(es[i], r, b);
    ReplacementBag(es[i], r, b);
    SpliceConserves(es, i, Replacement(es[i], r), gone, b);
    SplitConserves(es, es[..i] + Replacement(es[i], r) + es[i + 1..], gone, maxSize, b);
  }

  // ----- how much an insertion leaves to be stored -----

  lemma {:induction false} UnhashedConcat(a: seq<Entry>, b: seq<Entry>)
    ensures Unhashed(a + b) == Unhashed(a) + Unhashed(b)
  {
    if a == [] {
      assert a + b == b;
    } else {
      assert (a + b)[0] == a[0] && (a + b)[1..] == a[1..] + b;
      UnhashedConcat(a[1..], b);
    }
  }

  lemma {:induction false} UnhashedOne(e: Entry)
    ensures Unhashed([e]) == UnhashedAt(e)
  {
    assert [e][1..] == [];
  }

  lemma {:induction false} UnhashedReplace(es: seq<Entry>, i: nat, mid: seq<Entry>)
    requires i < |es|
    ensures Unhashed(es[..i] + mid + es[i + 1..]) == Unhashed(es[..i]) + Unhashed(mid) + Unhashed(es[i + 1..])
    ensures Unhashed(es) == Unhashed(es[..i]) + UnhashedAt(es[i]) + Unhashed(es[i + 1..])
  {
    UnhashedConcat(es[..i] + mid, es[i + 1..]);
    UnhashedConcat(es[..i], mid);
    UnhashedOne(es[i]);
    UnhashedConcat(es[..i] + [es[i]], es[i + 1..]);
    UnhashedConcat(es[..i], [es[i]]);
    assert es == es[..i] + [es[i]] + es[i + 1..];
  }

  lemma {:induction false} AllHashedNothingToDo(es: seq<Entry>)
    requires AllHashed(es)
    ensures Unhashed(es) == 0
  {
    if es == [] {
    } else {
      assert forall i :: 0 <= i < |es[1..]| ==> es[1..][i] == es[i + 1];
      AllHashedNothingToDo(es[1..]);
    }
  }

  /** A split puts at most three links more on the list: both halves and the left half's INF. */
  lemma {:induction false} HalvesCost(es: seq<Entry>, b: map<nat, Blob>)
    requires 2 < Size(es) && Agree(es, b)
    ensures Unhashed(Halves(es)) <= Unhashed(es) + (if es[Size(es) / 2].child.Nil? then 2 else 3)
  {
    var m := Size(es) / 2;
    var inf := Entry(Inf, "", es[m].child, NoHash);
    var left, right := es[..m] + [inf], es[m + 1..];
    var h := Halves(es);
    assert AgreeLink(es[m], b);
    if es[m].hash.Id? {
      AllHashedNothingToDo(es[m].child.entries);
    }
    UnhashedConcat(es[..m], [inf]);
    UnhashedOne(inf);
    UnhashedReplace(es, m, []);
    assert h == [h[0]] + [h[1]];
    UnhashedConcat([h[0]], [h[1]]);
    UnhashedOne(h[0]);
    UnhashedOne(h[1]);
  }

  lemma {:induction false} ReplacementCost(e: Entry, r: Outcome, b: map<nat, Blob>)
    requires e.child.Node? && Conserved(e.child.entries, r, b)
    requires r.up.Node? ==> |r.up.entries| == 2 && r.up.entries[1].child.Node?
    ensures Unhashed(Replacement(e, r)) == if r.up.Nil? then 1 + Unhashed(r.self) else Unhashed(r.up.entries)
  {
    var mid := Replacement(e, r);
    match r.up
    case Nil =>
      UnhashedOne(mid[0]);
    case Node(up) =>
      assert mid == [mid[0]] + [mid[1]] && up == [up[0]] + [up[1]];
      UnhashedConcat([mid[0]], [mid[1]]);
      UnhashedConcat([up[0]], [up[1]]);
      UnhashedOne(up[1]);
      UnhashedOne(mid[1]);
  }

  /** Links to store after one insert into a fully hashed node of height h. */
  ghost predicate Cheap(r: Outcome, h: nat) {
    match r.up
    case Nil => if h == 1 then Unhashed(r.self) == 0 else Unhashed(r.self) <= 3 * h - 4
    case Node(up) => Unhashed(up) <= 3 * h - 1
  }

  lemma {:induction false} OverwriteIsFree(es: seq<Entry>, i: nat, v: string)
    requires i < |es|
    ensures Unhashed(es[i := es[i].(value := v)]) == Unhashed(es)
  {
    var e := es[i].(value := v);
    assert es[i := e] == es[..i] + [e] + es[i + 1..];
    UnhashedReplace(es, i, [e]);
    UnhashedOne(e);
    assert UnhashedAt(e) == UnhashedAt(es[i]);
  }

  lemma {:induction false} StepIsCheap(es: seq<Entry>, i: nat, h: nat, r: Outcome, maxSize: nat, b: map<nat, Blob>)
    requires maxSize >= 2 && h >= 2 && i < |es| && Agree(es, b) && Unhashed(es) == 0
    requires es[i].child.Node? && Conserved(es[i].child.entries, r, b) && Cheap(r, h - 1)
    requires r.up.Node? ==> |r.up.entries| == 2 && r.self == [] && r.up.entries[1].child.Node?
    ensures var es2 := es[..i] + Replacement(es[i], r) + es[i + 1..];
            Cheap(Split(es2, r.removed + HashBag(es[i].hash), maxSize), h)
  {
    ReplacementCost(es[i], r, b);
    UnhashedReplace(es, i, Replacement(es[i], r));
    var es2 := es[..i] + Replacement(es[i], r) + es[i + 1..];
    if Size(es2) > maxSize {
      StepConserves(es, i, r, maxSize, b);
      HalvesCost(es2, b);
    }
  }

  lemma {:induction false} LeafIsCheap(es: seq<Entry>, k: string, v: string, maxSize: nat, b: map<nat, Blob>)
    requires maxSize >= 2 && Kids(es, 1, maxSize) && Agree(es, b)
    ensures Conserved(es, Insert(es, k, v, maxSize), b)
    ensures Cheap(Insert(es, k, v, maxSize), 1)
  {
    var es1 := MapInsert(es, Entry(Fin(k), v, Nil, NoHash));
    MapInsertKids(es, maxSize, k, v);
    LeafBag(es);
    LeafBag(es1);
    SplitConserves(es, es1, multiset{}, maxSize, b);
    if Size(es1) > maxSize {
      HalvesCost(es1, b);
    }
  }

  /** Node::insert passes to try_remove exactly the hashes that links lose, what is left of the
      links agrees with the blobs as before, and a fully hashed node of height h is left with at
      most 3h - 1 links to store. */
  lemma {:induction false} InsertConserves(
      es: seq<Entry>, h: nat, k: string, v: string, maxSize: nat, b: map<nat, Blob>)
    requires maxSize >= 2 && Kids(es, h, maxSize) && Size(es) <= maxSize && Sorted(Flat(es))
    requires Agree(es, b)
    ensures Conserved(es, Insert(es, k, v, maxSize), b)
    ensures AllHashed(es) ==> Cheap(Insert(es, k, v, maxSize), h)
    decreases h, 1
  {
    if h == 1 {
      LeafIsCheap(es, k, v, maxSize, b);
    } else if LowerBound(es, Fin(k)) < |es| && es[LowerBound(es, Fin(k))].id == Fin(k) {
      ReplaceConserves(es, h, k, v, maxSize, b);
    } else {
      BelowConserves(es, h, k, v, maxSize, b);
    }
  }

  lemma {:induction false} BelowConserves(es: seq<Entry>, h: nat, k: string, v: string, maxSize: nat, b: map<nat, Blob>)
    requires maxSize >= 2 && h >= 2 && Kids(es, h, maxSize) && Size(es) <= maxSize && Sorted(Flat(es)) && Agree(es, b)
    requires var i := LowerBound(es, Fin(k)); i < |es| ==> es[i].id != Fin(k)
    ensures Conserved(es, Insert(es, k, v, maxSize), b)
    ensures AllHashed(es) ==> Cheap(Insert(es, k, v, maxSize), h)
    decreases h, 0
  {
    var i, c := FindShapeWay(es, h, k, maxSize);
    var r := Insert(c, k, v, maxSize);
    ChildAgrees(es, i, c, b);
    InsertConserves(c, h - 1, k, v, maxSize, b);
    DescendConserves(es, i, h, c, r, k, v, maxSize, b);
  }

  lemma {:induction false} ChildAgrees(es: seq<Entry>, i: nat, c: seq<Entry>, b: map<nat, Blob>)
    requires Agree(es, b) && i < |es| && es[i].child == Node(c)
    ensures Agree(c, b) && (AllHashed(es) ==> AllHashed(c))
  {
    assert AgreeLink(es[i], b);
  }

  lemma {:induction false} ReplaceConserves(
      es: seq<Entry>, h: nat, k: string, v: string, maxSize: nat, b: map<nat, Blob>)
    requires maxSize >= 2 && h >= 2 && Kids(es, h, maxSize) && Size(es) <= maxSize && Sorted(Flat(es)) && Agree(es, b)
    requires LowerBound(es, Fin(k)) < |es| && es[LowerBound(es, Fin(k))].id == Fin(k)
    ensures Conserved(es, Insert(es, k, v, maxSize), b)
    ensures AllHashed(es) ==> Cheap(Insert(es, k, v, maxSize), h)
  {
    var i := LowerBound(es, Fin(k));
    PathChild(es, i, h, k, maxSize);
    OverwriteConserves(es, i, v, b);
    OverwriteIsFree(es, i, v);
    if AllHashed(es) {
      AllHashedNothingToDo(es);
    }
  }

  lemma {:induction false} DescendConserves(
      es: seq<Entry>, i: nat, h: nat, c: seq<Entry>, r: Outcome, k: string, v: string, maxSize: nat,
      b: map<nat, Blob>)
    requires ShapeWay(es, i, h, c, k, maxSize) && r == Insert(c, k, v, maxSize)
    requires Agree(es, b) && Conserved(c, r, b) && (AllHashed(es) ==> Cheap(r, h - 1))
    ensures Conserved(es, Insert(es, k, v, maxSize), b)
    ensures AllHashed(es) ==> Cheap(Insert(es, k, v, maxSize), h)
  {
    InsertInShape(c, h - 1, k, v, maxSize);
    ShapeStep(es, i, h, c, r, k, v, maxSize);
    StepConserves(es, i, r, maxSize, b);
    if AllHashed(es) {
      AllHashedNothingToDo(es);
      StepIsCheap(es, i, h, r, maxSize, b);
    }
  }
}
