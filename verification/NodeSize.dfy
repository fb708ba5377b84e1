/** The assertions of Node::insert_node over whole runs of insertions, and the node size they need. */
module NodeSize {
  import opened Keys
  import opened OrderedMap
  import opened Tree
  import opened Insertion
  import opened InOrder
  import opened Shape
  import opened Database

  /** Whether insert_node's assertions hold wherever an insertion into es calls it. */
  predicate Asserts(es: seq<Entry>, k: string, v: string, maxSize: nat)
    decreases es
  {
    var i := LowerBound(es, Fin(k));
    IsLeaf(es) || (i < |es| && es[i].id == Fin(k)) ||
    (var es0 := FindOrCreateLowerBound(es, k);
     var r := Insert(EntriesOf(es0[i].child), k, v, maxSize);
     && (i < |es| && es[i].child.Node? ==> Asserts(es[i].child.entries, k, v, maxSize))
     && (r.up.Node? ==> CanPlace(es0[i := es0[i].(child := Node(r.self), hash := NoHash)], i, r.up.entries)))
  }

  /** The root after an insertion. */
  function Grown(es: seq<Entry>, k: string, v: string, maxSize: nat): seq<Entry> {
    var r := Insert(es, k, v, maxSize);
    if r.up.Nil? then r.self else r.up.entries
  }

  /** The same over insertions one after the other. */
  predicate AllAssert(es: seq<Entry>, ps: seq<Pair>, maxSize: nat)
    decreases |ps|
  {
    ps == [] ||
    (Asserts(es, ps[0].key, ps[0].value, maxSize) &&
     AllAssert(Grown(es, ps[0].key, ps[0].value, maxSize), ps[1..], maxSize))
  }

  lemma {:induction false} AssertsInOrder(es: seq<Entry>, k: string, v: string, maxSize: nat)
    requires maxSize >= 2 && Loose(es) && Sorted(Flat(es))
    ensures Asserts(es, k, v, maxSize)
    decreases es
  {
    var j := LowerBound(es, Fin(k));
    if IsLeaf(es) || (j < |es| && es[j].id == Fin(k)) {
    } else {
      var es0, i, c := FindWay(es, k);
      if i < |es| && es[i].child.Node? {
        AssertsInOrder(c, k, v, maxSize);
      }
      AssertsOnWay(es, es0, i, c, k, v, maxSize);
    }
  }

  lemma {:induction false} AssertsOnWay(
      es: seq<Entry>, es0: seq<Entry>, i: nat, c: seq<Entry>, k: string, v: string, maxSize: nat)
    requires maxSize >= 2 && WayDown(es, es0, i, c, k)
    requires i < |es| && es[i].child.Node? ==> Asserts(c, k, v, maxSize)
    ensures Asserts(es, k, v, maxSize)
  {
    var r := Insert(c, k, v, maxSize);
    WayStep(es, es0, i, c, r, k, v, maxSize);
    Placed(es0, i, c, r, k, v);
    AssertsHere(es, es0, i, c, r, k, v, maxSize);
  }

  lemma {:induction false} Placed(es0: seq<Entry>, i: nat, c: seq<Entry>, r: Outcome, k: string, v: string)
    requires i < |es0| && c == EntriesOf(es0[i].child) && OnPath(es0, i, r, k, v, k in InnerKeys(c))
    ensures r.up.Node? ==> CanPlace(es0[i := es0[i].(child := Node(r.self), hash := NoHash)], i, r.up.entries)
  {
    PlaceAt(es0, i, c, r, k, v);
    var e := es0[i].(child := Node(r.self), hash := NoHash);
    assert es0[i := es0[i].(child := Node(c))][i := e] == es0[i := e];
  }

  lemma {:induction false} AssertsHere(
      es: seq<Entry>, es0: seq<Entry>, i: nat, c: seq<Entry>, r: Outcome, k: string, v: string, maxSize: nat)
    requires es0 == FindOrCreateLowerBound(es, k) && i == LowerBound(es, Fin(k)) < |es0|
    requires i < |es| ==> es0 == es
    requires c == EntriesOf(es0[i].child) && r == Insert(c, k, v, maxSize)
    requires i < |es| && es[i].child.Node? ==> Asserts(c, k, v, maxSize)
    requires r.up.Node? ==> CanPlace(es0[i := es0[i].(child := Node(r.self), hash := NoHash)], i, r.up.entries)
    ensures Asserts(es, k, v, maxSize)
  {
  }

  /** From the empty tree on, as long as nodes may hold two keys. */
  lemma {:induction false} NeverFails(es: seq<Entry>, ps: seq<Pair>, maxSize: nat)
    requires maxSize >= 2 && (es == [] || BTreeShape(es, Height(es), maxSize))
    ensures AllAssert(es, ps, maxSize)
    decreases |ps|
  {
    if ps == [] {
    } else {
      var k, v := ps[0].key, ps[0].value;
      EmptyTree(maxSize);
      if es != [] {
        ShapeIsLoose(es, Height(es), maxSize);
      }
      AssertsInOrder(es, k, v, maxSize);
      RootInsert(es, k, v, maxSize);
      NeverFails(Grown(es, k, v, maxSize), ps[1..], maxSize);
    }
  }

  // ----- nodes that may hold fewer -----

  function Leaf(k: string): Entry {
    Entry(Fin(k), "", Nil, NoHash)
  }

  /** What a leaf with one key too many becomes if that is its last: there is no right half. */
  function Alone(k: string, left: seq<Entry>): seq<Entry> {
    [Entry(Fin(k), "", Node(left + [INF_ENTRY]), NoHash)]
  }

  lemma {:induction false} LeafOverflows(es: seq<Entry>, k: string, maxSize: nat)
    requires maxSize < 2 && |es| == maxSize && IsLeaf(es)
    requires forall i :: 0 <= i < |es| ==> IdLess(es[i].id, Fin(k))
    ensures Insert(es, k, "", maxSize) == Outcome([], Node(Alone(k, es)), multiset{})
  {
    LowerBoundIs(es, Fin(k), |es|);
    var es1 := es + [Leaf(k)];
    assert MapInsert(es, Leaf(k)) == es1;
    assert Size(es1) == maxSize + 1 && Size(es1) / 2 == maxSize && es1[..maxSize] == es;
    assert Halves(es1) == Alone(k, es);
    assert HashBag(es1[maxSize].hash) == multiset{};
  }

  /** One above the root, with a full leaf on the way of k: the assertion fails. */
  lemma {:induction false} FullLeafFails(es: seq<Entry>, c: seq<Entry>, k: string, maxSize: nat)
    requires maxSize < 2 && |c| == maxSize && IsLeaf(c) && !IsLeaf(es)
    requires forall i :: 0 <= i < |c| ==> IdLess(c[i].id, Fin(k))
    requires var i := LowerBound(es, Fin(k));
             && (i < |es| ==> es[i].id != Fin(k))
             && EntriesOf(FindOrCreateLowerBound(es, k)[i].child) == c
    ensures !Asserts(es, k, "", maxSize)
  {
    LeafOverflows(c, k, maxSize);
  }

  lemma {:induction false} NoKeyFails(a: string, b: string)
    requires Less(a, b)
    ensures !AllAssert([], [Pair(a, ""), Pair(b, "")], 0)
  {
    var es := Alone(a, []);
    LeafOverflows([], a, 0);
    LowerBoundIs(es, Fin(b), 1);
    assert es[0].child.Node?;
    FullLeafFails(es, [], b, 0);
    Unrolled([], Pair(a, ""), [Pair(b, "")], 0);
    Unrolled(es, Pair(b, ""), [], 0);
  }

  lemma {:induction false} Unrolled(es: seq<Entry>, p: Pair, ps: seq<Pair>, maxSize: nat)
    ensures AllAssert(es, [p] + ps, maxSize) <==>
      Asserts(es, p.key, p.value, maxSize) && AllAssert(Grown(es, p.key, p.value, maxSize), ps, maxSize)
  {
    assert ([p] + ps)[1..] == ps;
  }

  /** A key above a root that has no INF entry yet opens a child of its own. */
  lemma {:induction false} OpensChild(b: string, left: seq<Entry>, c: string)
    requires Less(b, c)
    ensures Grown(Alone(b, left), c, "", 1) == Alone(b, left) + [Entry(Inf, "", Node([Leaf(c)]), NoHash)]
  {
    var es := Alone(b, left);
    LowerBoundIs(es, Fin(c), 1);
    assert es[0].child.Node?;
    assert MapInsert([], Leaf(c)) == [Leaf(c)];
    assert Insert([], c, "", 1) == Outcome([Leaf(c)], Nil, multiset{});
    var es0 := es + [INF_ENTRY];
    assert Absorb(es0, 1, Insert([], c, "", 1)) == es + [Entry(Inf, "", Node([Leaf(c)]), NoHash)];
  }

  function Three(a: string, b: string, c: string): seq<Entry> {
    Alone(b, [Leaf(a)]) + [Entry(Inf, "", Node([Leaf(c)]), NoHash)]
  }

  lemma {:induction false} FourthFails(a: string, b: string, c: string, d: string)
    requires Less(b, d) && Less(c, d)
    ensures !Asserts(Three(a, b, c), d, "", 1)
  {
    var es := Three(a, b, c);
    LowerBoundIs(es, Fin(d), 1);
    assert es[0].child.Node?;
    FullLeafFails(es, [Leaf(c)], d, 1);
  }

  lemma {:induction false} OneKeyFails(a: string, b: string, c: string, d: string)
    requires Less(a, b) && Less(b, c) && Less(c, d) && Less(b, d)
    ensures !AllAssert([], [Pair(a, "")] + ([Pair(b, "")] + ([Pair(c, "")] + ([Pair(d, "")] + []))), 1)
  {
    assert MapInsert([], Leaf(a)) == [Leaf(a)];
    LeafOverflows([Leaf(a)], b, 1);
    OpensChild(b, [Leaf(a)], c);
    FourthFails(a, b, c, d);
    Unrolled(Three(a, b, c), Pair(d, ""), [], 1);
    Unrolled(Alone(b, [Leaf(a)]), Pair(c, ""), [Pair(d, "")] + [], 1);
    Unrolled([Leaf(a)], Pair(b, ""), [Pair(c, "")] + ([Pair(d, "")] + []), 1);
    Unrolled([], Pair(a, ""), [Pair(b, "")] + ([Pair(c, "")] + ([Pair(d, "")] + [])), 1);
  }

  lemma {:induction false} FourKeys()
    ensures Less("a", "b") && Less("b", "c") && Less("c", "d") && Less("b", "d")
  {
  }

  lemma {:induction false} SmallFails(maxSize: nat) returns (ps: seq<Pair>)
    requires maxSize < 2
    ensures !AllAssert([], ps, maxSize)
  {
    FourKeys();
    if maxSize == 0 {
      ps := [Pair("a", ""), Pair("b", "")];
      NoKeyFails("a", "b");
    } else {
      ps := [Pair("a", "")] + ([Pair("b", "")] + ([Pair("c", "")] + ([Pair("d", "")] + [])));
      OneKeyFails("a", "b", "c", "d");
    }
  }

  /** insert_node's assertions hold in every run of insertions from the empty tree exactly if nodes may
      hold at least two keys. With one they fail at the fourth of a, b, c, d, with none at the second. */
  lemma {:induction false} AssertionsNeedTwoKeys(maxSize: nat)
    ensures (forall ps :: AllAssert([], ps, maxSize)) <==> maxSize >= 2
  {
    if maxSize >= 2 {
      forall ps
        ensures AllAssert([], ps, maxSize)
      {
        NeverFails([], ps, maxSize);
      }
    } else {
      var ps := SmallFails(maxSize);
    }
  }
}
