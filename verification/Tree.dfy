/** The value of a B-tree node: its entries in the order of their ids. A child link holds a
    resident node, a storage hash, both or neither (src/btree.cpp, struct Entry). */
module Tree {
  import opened Keys
  import opened OrderedMap

  /** NoHash is the empty string; Id(n) the n-th id handed out by the storage. */
  datatype Hash = NoHash | Id(n: nat)

  /** std::unique_ptr<Node>: Nil is the null pointer. */
  datatype Tree = Nil | Node(entries: seq<Entry>)

  datatype Entry = Entry(id: NodeId, value: string, child: Tree, hash: Hash)

  const INF_ENTRY := Entry(Inf, "", Nil, NoHash)

  /** Node::size: the INF entry is not counted. */
  function Size(es: seq<Entry>): nat {
    if es != [] && es[|es| - 1].id.Inf? then |es| - 1 else |es|
  }

  /** The entries of a child; a missing one is treated like an empty node. */
  function EntriesOf(t: Tree): seq<Entry> {
    match t
    case Nil => []
    case Node(es) => es
  }

  function Min(a: nat, b: nat): nat { if a < b then a else b }
  function Max(a: nat, b: nat): nat { if a < b then b else a }

  predicate IsLeaf(es: seq<Entry>) {
    forall i :: 0 <= i < |es| ==> es[i].child.Nil?
  }

  /** std::map::lower_bound: the first entry whose id is not below the given one. */
  function LowerBound(es: seq<Entry>, id: NodeId): (i: nat)
    ensures i <= |es|
    ensures forall j :: 0 <= j < i ==> IdLess(es[j].id, id)
    ensures i < |es| ==> !IdLess(es[i].id, id)
  {
    if es == [] || !IdLess(es[0].id, id) then 0 else 1 + LowerBound(es[1..], id)
  }

  lemma {:induction false} LowerBoundIs(es: seq<Entry>, id: NodeId, i: nat)
    requires i <= |es|
    requires i < |es| ==> !IdLess(es[i].id, id)
    requires forall j :: 0 <= j < i ==> IdLess(es[j].id, id)
    ensures LowerBound(es, id) == i
  {
  }

  /** std::map::insert: an entry that is already there stays. */
  function MapInsert(es: seq<Entry>, e: Entry): seq<Entry> {
    var i := LowerBound(es, e.id);
    if i < |es| && es[i].id == e.id then es else es[..i] + [e] + es[i..]
  }

  /** Only the last entry may be INF, and INF carries no value. */
  ghost predicate Proper(es: seq<Entry>) {
    forall i :: 0 <= i < |es| && es[i].id.Inf? ==> i == |es| - 1 && es[i].value == ""
  }

  // ----- the map that a resident tree stands for: its pairs in order -----

  function Own(e: Entry): seq<Pair> {
    if e.id.Fin? then [Pair(e.id.key, e.value)] else []
  }

  function Under(e: Entry): seq<Pair>
    decreases e
  {
    match e.child
    case Nil => []
    case Node(es) => Flat(es)
  }

  /** In-order traversal: what hangs below an entry comes before the entry itself. */
  function Flat(es: seq<Entry>): seq<Pair>
    decreases es
  {
    if es == [] then [] else Under(es[0]) + Own(es[0]) + Flat(es[1..])
  }

  lemma {:induction false} FlatConcat(a: seq<Entry>, b: seq<Entry>)
    ensures Flat(a + b) == Flat(a) + Flat(b)
  {
    if a == [] {
      assert a + b == b;
    } else {
      assert (a + b)[0] == a[0] && (a + b)[1..] == a[1..] + b;
      FlatConcat(a[1..], b);
    }
  }

  lemma {:induction false} FlatOne(e: Entry)
    ensures Flat([e]) == Under(e) + Own(e)
  {
    assert [e][1..] == [];
  }

  /** The traversal with the entries at position i replaced by mid. */
  lemma {:induction false} FlatReplace(es: seq<Entry>, i: nat, mid: seq<Entry>)
    requires i < |es|
    ensures Flat(es[..i] + mid + es[i + 1..]) == Flat(es[..i]) + Flat(mid) + Flat(es[i + 1..])
  {
    FlatConcat(es[..i] + mid, es[i + 1..]);
    FlatConcat(es[..i], mid);
  }

  lemma {:induction false} FlatAt(es: seq<Entry>, i: nat)
    requires i < |es|
    ensures Flat(es) == Flat(es[..i]) + (Under(es[i]) + Own(es[i])) + Flat(es[i + 1..])
  {
    assert es == es[..i] + [es[i]] + es[i + 1..];
    FlatReplace(es, i, [es[i]]);
    FlatOne(es[i]);
  }

  /** In a tree with a sorted traversal, entry i separates: everything before it, its own
      subtree included, is below its key, and everything after it is above. */
  lemma {:induction false} SortedAt(es: seq<Entry>, i: nat)
    requires i < |es| && Sorted(Flat(es))
    ensures Sorted(Flat(es[..i])) && Sorted(Under(es[i])) && Sorted(Flat(es[i + 1..]))
    ensures es[i].id.Fin? ==> AllBelow(Flat(es[..i]), es[i].id.key) && AllBelow(Under(es[i]), es[i].id.key)
    ensures PairsBelow(Flat(es[..i]), Under(es[i]))
    ensures PairsBelow(Under(es[i]), Flat(es[i + 1..]))
    ensures PairsBelow(Own(es[i]), Flat(es[i + 1..]))
  {
    FlatAt(es, i);
    SortedFour(Flat(es[..i]), Under(es[i]), Own(es[i]), Flat(es[i + 1..]));
    if es[i].id.Fin? {
      assert Own(es[i])[0].key == es[i].id.key;
    }
  }

  /** The separators of a node are part of its traversal. */
  lemma {:induction false} OwnInFlat(es: seq<Entry>, i: nat)
    requires i < |es| && es[i].id.Fin?
    ensures Pair(es[i].id.key, es[i].value) in Flat(es)
  {
    FlatAt(es, i);
    assert Pair(es[i].id.key, es[i].value) in Own(es[i]);
  }

  /** The keys below the lower bound of k, with their subtrees, are all below k. */
  lemma {:induction false} FlatBeforeLowerBound(es: seq<Entry>, k: string, i: nat)
    requires Proper(es) && Sorted(Flat(es))
    requires i <= |es| && forall j :: 0 <= j < i ==> IdLess(es[j].id, Fin(k))
    ensures AllBelow(Flat(es[..i]), k)
  {
    if i > 0 {
      var p := es[..i];
      assert p[..i - 1] + [p[i - 1]] + p[i..] == p;
      FlatAt(p, i - 1);
      assert p[i..] == [];
      FlatConcat(p, es[i..]);
      assert p + es[i..] == es;
      SortedParts(Flat(p), Flat(es[i..]));
      assert IdLess(es[i - 1].id, Fin(k));
      SortedAllBelow(Flat(p), k);
    }
  }

  /** From the lower bound of k on, the entry's own key and what follows start above k. */
  lemma {:induction false} FlatFromLowerBound(es: seq<Entry>, k: string)
    requires Proper(es) && Sorted(Flat(es))
    requires LowerBound(es, Fin(k)) < |es|
    ensures var i := LowerBound(es, Fin(k));
            es[i].id != Fin(k) ==>
              var b := Own(es[i]) + Flat(es[i + 1..]);
              b != [] ==> Less(k, b[0].key)
  {
    var i := LowerBound(es, Fin(k));
    if es[i].id.Fin? {
      LessTrichotomy(es[i].id.key, k);
    } else {
      assert es[i + 1..] == [];
    }
  }

  /** The order std::map keeps the entries of a node in. */
  ghost predicate Ordered(es: seq<Entry>) {
    && Proper(es)
    && forall i, j :: 0 <= i < j < |es| ==> IdLess(es[i].id, es[j].id)
  }

  lemma {:induction false} SortedIsOrdered(es: seq<Entry>)
    requires Proper(es) && Sorted(Flat(es))
    ensures Ordered(es)
  {
    forall i, j | 0 <= i < j < |es|
      ensures IdLess(es[i].id, es[j].id)
    {
      if es[j].id.Fin? {
        SortedAt(es, j);
        assert es[..j][i] == es[i];
        OwnInFlat(es[..j], i);
      }
    }
  }
}
