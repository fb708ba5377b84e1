/** How much of a stored tree Node::insert has to give up, and how much of it Node::find restores. */
module Economy {
  import opened Keys
  import opened OrderedMap
  import opened Tree
  import opened Insertion
  import opened InOrder
  import opened Codec
  import opened LazyFind
  import opened Database

  /** The hashes of the links on the way down to k. */
  function PathHashes(es: seq<Entry>, k: string): multiset<nat>
    decreases es
  {
    var i := LowerBound(es, Fin(k));
    if IsLeaf(es) || i == |es| || es[i].id == Fin(k) then multiset{}
    else
      match es[i].child
      case Nil => HashBag(es[i].hash)
      case Node(c) => HashBag(es[i].hash) + PathHashes(c, k)
  }

  /** The nodes that an insert leaves, the one it hands up not counted. */
  function NodesLeft(r: Outcome): nat {
    match r.up
    case Nil => NodeCount(r.self)
    case Node(up) => ChildCount(up)
  }

  /** Every hash on the way down is given up, and besides these no more than new nodes are made. */
  ghost predicate Sparing(es: seq<Entry>, path: multiset<nat>, r: Outcome) {
    path <= r.removed && |r.removed| + NodeCount(es) <= |path| + NodesLeft(r)
  }

  // ----- counting nodes -----

  function CountAt(e: Entry): nat {
    match e.child
    case Nil => 0
    case Node(c) => NodeCount(c)
  }

  lemma {:induction false} CountConcat(a: seq<Entry>, b: seq<Entry>)
    ensures ChildCount(a + b) == ChildCount(a) + ChildCount(b)
  {
    if a == [] {
      assert a + b == b;
    } else {
      assert (a + b)[0] == a[0] && (a + b)[1..] == a[1..] + b;
      CountConcat(a[1..], b);
    }
  }

  lemma {:induction false} CountOne(e: Entry)
    ensures ChildCount([e]) == CountAt(e)
  {
    assert [e][1..] == [];
  }

  lemma {:induction false} CountReplace(es: seq<Entry>, i: nat, mid: seq<Entry>)
    requires i < |es|
    ensures ChildCount(es[..i] + mid + es[i + 1..]) + CountAt(es[i]) == ChildCount(es) + ChildCount(mid)
  {
    CountConcat(es[..i] + mid, es[i + 1..]);
    CountConcat(es[..i], mid);
    CountConcat(es[..i] + [es[i]], es[i + 1..]);
    CountConcat(es[..i], [es[i]]);
    CountOne(es[i]);
    assert es == es[..i] + [es[i]] + es[i + 1..];
  }

  lemma {:induction false} LeafCount(es: seq<Entry>)
    requires IsLeaf(es)
    ensures ChildCount(es) == 0
  {
    if es == [] {
    } else {
      LeafCount(es[1..]);
    }
  }

  lemma {:induction false} HalvesCount(es: seq<Entry>)
    requires 2 < Size(es)
    ensures ChildCount(Halves(es)) == ChildCount(es) + 2
  {
    var m := Size(es) / 2;
    var inf := Entry(Inf, "", es[m].child, NoHash);
    var h := Halves(es);
    CountReplace(es, m, [inf]);
    CountOne(inf);
    CountConcat(es[..m] + [inf], es[m + 1..]);
    assert h == [h[0]] + [h[1]];
    CountConcat([h[0]], [h[1]]);
    CountOne(h[0]);
    CountOne(h[1]);
  }

  // ----- one insertion -----

  lemma {:induction false} SplitIsSparing(es: seq<Entry>, gone: multiset<nat>, maxSize: nat)
    requires maxSize >= 2
    ensures var r := Split(es, gone, maxSize);
            gone <= r.removed && |r.removed| + NodeCount(es) <= |gone| + NodesLeft(r)
  {
    if Size(es) > maxSize {
      HalvesCount(es);
    }
  }

  lemma {:induction false} LeafIsSparing(es: seq<Entry>, k: string, v: string, maxSize: nat)
    requires maxSize >= 2 && IsLeaf(es)
    ensures Sparing(es, multiset{}, InsertIntoLeaf(es, k, v, maxSize))
  {
    var es1 := MapInsert(es, Entry(Fin(k), v, Nil, NoHash));
    LeafCount(es);
    LeafCount(es1);
    SplitIsSparing(es1, multiset{}, maxSize);
  }

  lemma {:induction false} ReplacementCount(e: Entry, r: Outcome)
    requires r.up.Node? ==> |r.up.entries| == 2
    ensures ChildCount(Replacement(e, r)) == NodesLeft(r)
  {
    var mid := Replacement(e, r);
    match r.up
    case Nil => CountOne(mid[0]);
    case Node(up) =>
      assert mid == [mid[0]] + [mid[1]] && up == [up[0]] + [up[1]];
      CountConcat([mid[0]], [mid[1]]);
      CountConcat([up[0]], [up[1]]);
      CountOne(mid[1]);
      CountOne(up[1]);
  }

  lemma {:induction false} StepIsSparing(
      es: seq<Entry>, i: nat, c: seq<Entry>, r: Outcome, path: multiset<nat>, maxSize: nat)
    requires maxSize >= 2 && i < |es| && c == EntriesOf(es[i].child) && Sparing(c, path, r)
    requires r.up.Node? ==> |r.up.entries| == 2
    ensures Sparing(es, HashBag(es[i].hash) + path,
                    Split(es[..i] + Replacement(es[i], r) + es[i + 1..], r.removed + HashBag(es[i].hash), maxSize))
  {
    ReplacementCount(es[i], r);
    CountReplace(es, i, Replacement(es[i], r));
    SplitIsSparing(es[..i] + Replacement(es[i], r) + es[i + 1..], r.removed + HashBag(es[i].hash), maxSize);
  }

  lemma {:induction false} OverwriteCount(es: seq<Entry>, i: nat, v: string)
    requires i < |es|
    ensures ChildCount(es[i := es[i].(value := v)]) == ChildCount(es)
  {
    var e := es[i].(value := v);
    assert es[i := e] == es[..i] + [e] + es[i + 1..];
    CountReplace(es, i, [e]);
    CountOne(e);
  }

  /** Node::insert gives up the hashes on the way down to k, whatever becomes of k there, and at most
      one more for each node it makes: every other stored node stays as it is. */
  lemma {:induction false} InsertIsSparing(es: seq<Entry>, k: string, v: string, maxSize: nat)
    requires maxSize >= 2 && Loose(es) && Sorted(Flat(es))
    ensures Sparing(es, PathHashes(es, k), Insert(es, k, v, maxSize))
    decreases es
  {
    var i := LowerBound(es, Fin(k));
    if IsLeaf(es) {
      LeafIsSparing(es, k, v, maxSize);
    } else if i < |es| && es[i].id == Fin(k) {
      OverwriteCount(es, i, v);
    } else {
      var es0, j, c := FindWay(es, k);
      if es0[j].child.Node? {
        InsertIsSparing(c, k, v, maxSize);
      } else {
        LeafIsSparing([], k, v, maxSize);
      }
      DescentIsSparing(es, es0, j, c, k, v, maxSize);
    }
  }

  lemma {:induction false} DescentIsSparing(
      es: seq<Entry>, es0: seq<Entry>, i: nat, c: seq<Entry>, k: string, v: string, maxSize: nat)
    requires maxSize >= 2 && WayDown(es, es0, i, c, k) && Sparing(c, PathHashes(c, k), Insert(c, k, v, maxSize))
    ensures Sparing(es, PathHashes(es, k), Insert(es, k, v, maxSize))
  {
    var r := Insert(c, k, v, maxSize);
    WayStep(es, es0, i, c, r, k, v, maxSize);
    StepIsSparing(es0, i, c, r, PathHashes(c, k), maxSize);
    SameCount(es, es0, i, k);
    SamePath(es, es0, i, c, k);
  }

  lemma {:induction false} SameCount(es: seq<Entry>, es0: seq<Entry>, i: nat, k: string)
    requires i == LowerBound(es, Fin(k)) < |es0| && es0 == FindOrCreateLowerBound(es, k)
    ensures ChildCount(es0) == ChildCount(es)
  {
    if i == |es| {
      CountConcat(es, [INF_ENTRY]);
      CountOne(INF_ENTRY);
    }
  }

  lemma {:induction false} SamePath(es: seq<Entry>, es0: seq<Entry>, i: nat, c: seq<Entry>, k: string)
    requires WayDown(es, es0, i, c, k)
    ensures PathHashes(es, k) == HashBag(es0[i].hash) + PathHashes(c, k)
  {
    assert PathHashes([], k) == multiset{};
  }

  // ----- what find brings in -----

  lemma {:induction false} PutInPlace(es: seq<Entry>, i: nat, c: seq<Entry>)
    requires i < |es|
    ensures NodeCount(es[i := es[i].(child := Node(c))]) + CountAt(es[i]) == NodeCount(es) + NodeCount(c)
  {
    var e := es[i].(child := Node(c));
    assert es[i := e] == es[..i] + [e] + es[i + 1..];
    CountReplace(es, i, [e]);
    CountOne(e);
  }

  lemma {:induction false} CatsRestore(b: map<nat, Blob>, h: nat, k: string)
    ensures NodeCount(FindHash(b, h, k).es) == FindHash(b, h, k).cats
    decreases h
  {
    if h in b {
      var es := Decode(b[h]);
      var i := LowerBound(es, Fin(k));
      DecodeIsBare(b[h]);
      LeafCount(es);
      if i < |es| && es[i].id != Fin(k) && es[i].hash.Id? && es[i].hash.n < h {
        var r := FindHash(b, es[i].hash.n, k);
        CatsRestore(b, es[i].hash.n, k);
        PutInPlace(es, i, r.es);
      }
    }
  }

  /** Each cat of a find, one that fails included, is for a node that was not resident and is now. */
  lemma {:induction false} OneCatPerNode(es: seq<Entry>, k: string, b: map<nat, Blob>)
    ensures NodeCount(Find(es, k, b).es) == NodeCount(es) + Find(es, k, b).cats
    decreases es
  {
    var i := LowerBound(es, Fin(k));
    if i < |es| && es[i].id != Fin(k) && (es[i].child.Node? || es[i].hash.Id?) {
      if es[i].child.Node? {
        OneCatPerNode(es[i].child.entries, k, b);
      } else {
        CatsRestore(b, es[i].hash.n, k);
      }
      PutInPlace(es, i, Find(es, k, b).es[i].child.entries);
    }
  }
}
