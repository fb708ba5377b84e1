/** Node::check_invariants and Node::min_max_depth, and how tall a tree can get. */
module Invariants {
  import opened Keys
  import opened OrderedMap
  import opened Tree
  import opened Insertion
  import opened InOrder
  import opened Shape

  datatype Depths = NoChild | Depths(min: nat, max: nat)

  /** The depths below the entries that have a resident child. */
  function DepthsBelow(es: seq<Entry>): Depths
    decreases es, 0
  {
    if es == [] then NoChild else
    var rest := DepthsBelow(es[1..]);
    match es[0].child
    case Nil => rest
    case Node(c) => Joined(Depths(MinMaxDepth(c).0 + 1, MinMaxDepth(c).1 + 1), rest)
  }

  function Joined(a: Depths, b: Depths): Depths {
    match (a, b)
    case (NoChild, _) => b
    case (_, NoChild) => a
    case (Depths(x, y), Depths(z, w)) => Depths(Min(x, z), Max(y, w))
  }

  /** Node::min_max_depth. */
  function MinMaxDepth(es: seq<Entry>): (nat, nat)
    decreases es, 1
  {
    match DepthsBelow(es)
    case NoChild => (1, 1)
    case Depths(a, b) => (a, b)
  }

  /** What has been seen of the depths, after one more entry. */
  lemma {:induction false} JoinNext(seen: Depths, seen': Depths, es: seq<Entry>, i: nat)
    requires i < |es|
    requires es[i].child.Nil? ==> seen' == seen
    requires es[i].child.Node? ==>
      var d := MinMaxDepth(es[i].child.entries);
      seen' == Joined(seen, Depths(d.0 + 1, d.1 + 1))
    ensures Joined(seen', DepthsBelow(es[i + 1..])) == Joined(seen, DepthsBelow(es[i..]))
  {
    assert es[i..][0] == es[i] && es[i..][1..] == es[i + 1..];
  }

  /** Node::check_invariants: it compares a child's keys with the separator above them only. */
  predicate CheckInvariants(es: seq<Entry>, maxSize: nat)
    decreases es
  {
    && Size(es) <= maxSize
    && MinMaxDepth(es).0 == MinMaxDepth(es).1
    && forall i :: 0 <= i < |es| && es[i].child.Node? ==>
         && (forall j :: 0 <= j < |es[i].child.entries| && es[i].child.entries[j].id.Fin? ==>
               IdLess(es[i].child.entries[j].id, es[i].id))
         && CheckInvariants(es[i].child.entries, maxSize)
  }

  lemma {:induction false} DepthIsHeight(es: seq<Entry>, h: nat, maxSize: nat)
    requires Kids(es, h, maxSize)
    ensures MinMaxDepth(es) == (h, h)
    decreases h, 1, 0
  {
    if h == 1 {
      NoChildNoDepth(es);
    } else {
      assert forall i :: 0 <= i < |es| ==> es[i].child.Node? && Half(es[i].child.entries, h - 1, maxSize);
      DepthsBelowAre(es, h, maxSize);
    }
  }

  lemma {:induction false} NoChildNoDepth(es: seq<Entry>)
    requires IsLeaf(es)
    ensures DepthsBelow(es) == NoChild
  {
    if es == [] {
    } else {
      NoChildNoDepth(es[1..]);
    }
  }

  lemma {:induction false} DepthsBelowAre(es: seq<Entry>, h: nat, maxSize: nat)
    requires h >= 2
    requires forall i :: 0 <= i < |es| ==> es[i].child.Node? && Half(es[i].child.entries, h - 1, maxSize)
    ensures DepthsBelow(es) == if es == [] then NoChild else Depths(h, h)
    decreases h, 0, |es|
  {
    if es == [] {
    } else {
      DepthIsHeight(es[0].child.entries, h - 1, maxSize);
      DepthsBelowAre(es[1..], h, maxSize);
    }
  }

  /** The assertion after every raw_insert holds of every tree in shape. */
  lemma {:induction false} ShapeIsChecked(es: seq<Entry>, h: nat, maxSize: nat)
    requires Kids(es, h, maxSize) && Size(es) <= maxSize && Sorted(Flat(es))
    ensures CheckInvariants(es, maxSize)
    decreases h
  {
    DepthIsHeight(es, h, maxSize);
    forall i | 0 <= i < |es| && es[i].child.Node?
      ensures CheckInvariants(es[i].child.entries, maxSize)
      ensures forall j :: 0 <= j < |es[i].child.entries| && es[i].child.entries[j].id.Fin? ==>
        IdLess(es[i].child.entries[j].id, es[i].id)
    {
      assert h > 1 && Half(es[i].child.entries, h - 1, maxSize);
      SortedAt(es, i);
      ShapeIsChecked(es[i].child.entries, h - 1, maxSize);
      ChildKeysBelow(es, i);
    }
  }

  lemma {:induction false} ChildKeysBelow(es: seq<Entry>, i: nat)
    requires i < |es| && es[i].child.Node? && Sorted(Flat(es))
    ensures forall j :: 0 <= j < |es[i].child.entries| && es[i].child.entries[j].id.Fin? ==>
      IdLess(es[i].child.entries[j].id, es[i].id)
  {
    var c := es[i].child.entries;
    SortedAt(es, i);
    forall j | 0 <= j < |c| && c[j].id.Fin?
      ensures IdLess(c[j].id, es[i].id)
    {
      OwnInFlat(c, j);
      var x :| 0 <= x < |Flat(c)| && Flat(c)[x] == Pair(c[j].id.key, c[j].value);
    }
  }

  // ----- height against number of keys -----

  function Pow(b: nat, e: nat): (p: nat)
    ensures b >= 1 ==> p >= 1
  {
    if e == 0 then 1 else b * Pow(b, e - 1)
  }

  /** The keys below and in a run of entries, bounded entry by entry. */
  lemma {:induction false} CountEntries(es: seq<Entry>, low: nat, high: nat)
    requires forall i :: 0 <= i < |es| ==> low <= |Under(es[i])| <= high
    ensures |es| * low + |FinOnly(es)| <= |Flat(es)| <= |es| * high + |FinOnly(es)|
  {
    if es == [] {
    } else {
      var n := |es[1..]|;
      CountEntries(es[1..], low, high);
      assert (n + 1) * low == n * low + low;
      assert (n + 1) * high == n * high + high;
    }
  }

  function FinOnly(es: seq<Entry>): seq<Entry> {
    if es == [] then [] else (if es[0].id.Fin? then [es[0]] else []) + FinOnly(es[1..])
  }

  lemma {:induction false} FinOnlySize(es: seq<Entry>)
    requires Proper(es)
    ensures |FinOnly(es)| == Size(es)
  {
    if es == [] {
    } else {
      assert forall i :: 0 <= i < |es[1..]| ==> es[1..][i] == es[i + 1];
      FinOnlySize(es[1..]);
    }
  }

  /** A node of height h with s keys: (s+1)(t+1)^(h-1) - 1 <= n <= (s+1)(max+1)^(h-1) - 1,
      where t is half of max. */
  lemma {:induction false} CountKeys(es: seq<Entry>, h: nat, maxSize: nat)
    requires Kids(es, h, maxSize)
    ensures (Size(es) + 1) * Pow(maxSize / 2 + 1, h - 1) - 1 <= |Flat(es)|
    ensures |Flat(es)| <= (Size(es) + 1) * Pow(maxSize + 1, h - 1) - 1
    decreases h, 2
  {
    if h == 1 {
      FinOnlySize(es);
      CountEntries(es, 0, 0);
    } else {
      CountInner(es, h, maxSize);
    }
  }

  lemma {:induction false} CountInner(es: seq<Entry>, h: nat, maxSize: nat)
    requires h >= 2 && Kids(es, h, maxSize)
    ensures (Size(es) + 1) * Pow(maxSize / 2 + 1, h - 1) - 1 <= |Flat(es)|
    ensures |Flat(es)| <= (Size(es) + 1) * Pow(maxSize + 1, h - 1) - 1
    decreases h, 1
  {
    var p, q := Pow(maxSize / 2 + 1, h - 1), Pow(maxSize + 1, h - 1);
    forall i | 0 <= i < |es|
      ensures p - 1 <= |Under(es[i])| <= q - 1
    {
      assert es[i].child.Node? && Half(es[i].child.entries, h - 1, maxSize);
      CountChild(es[i].child.entries, h, maxSize);
    }
    FinOnlySize(es);
    CountEntries(es, p - 1, q - 1);
    CountUp(|es|, p, Size(es));
    CountUp(|es|, q, Size(es));
  }

  lemma {:induction false} CountUp(n: nat, p: nat, s: nat)
    requires n == s + 1 && p >= 1
    ensures n * (p - 1) + s == (s + 1) * p - 1
  {
  }

  lemma {:induction false} CountChild(c: seq<Entry>, h: nat, maxSize: nat)
    requires h >= 2 && Half(c, h - 1, maxSize)
    ensures Pow(maxSize / 2 + 1, h - 1) - 1 <= |Flat(c)| <= Pow(maxSize + 1, h - 1) - 1
    decreases h, 0
  {
    CountKeys(c, h - 1, maxSize);
    MulMonotone(maxSize / 2 + 1, Size(c) + 1, Pow(maxSize / 2 + 1, h - 2));
    MulMonotone(Size(c) + 1, maxSize + 1, Pow(maxSize + 1, h - 2));
  }

  lemma {:induction false} MulMonotone(a: nat, b: nat, c: nat)
    requires a <= b
    ensures a * c <= b * c
  {
  }

  /** A tree of height h holds between 2(t+1)^(h-1) - 1 and (max+1)^h - 1 keys: its height, and
      with it the number of nodes a find visits, is logarithmic in the number of keys. */
  lemma {:induction false} HeightIsLogarithmic(es: seq<Entry>, h: nat, maxSize: nat)
    requires BTreeShape(es, h, maxSize)
    ensures 2 * Pow(maxSize / 2 + 1, h - 1) - 1 <= |Flat(es)| <= Pow(maxSize + 1, h) - 1
  {
    CountKeys(es, h, maxSize);
    MulMonotone(2, Size(es) + 1, Pow(maxSize / 2 + 1, h - 1));
    MulMonotone(Size(es) + 1, maxSize + 1, Pow(maxSize + 1, h - 1));
  }

  // ----- the limits of the code's own checks -----

  /** Node::insert_node asserts that a split gives two halves. Every overfull leaf does so exactly
      if nodes may hold at least two keys. */
  lemma {:induction false} SplitNeedsTwoKeys(maxSize: nat)
    ensures (forall es :: Kids(es, 1, maxSize) && Size(es) == maxSize + 1 ==> |Halves(es)| == 2) <==> maxSize >= 2
  {
    if maxSize >= 2 {
      forall es | Kids(es, 1, maxSize) && Size(es) == maxSize + 1
        ensures |Halves(es)| == 2
      {
        HalvesInOrder(es);
      }
    } else {
      var a, b := Entry(Fin("a"), "", Nil, NoHash), Entry(Fin("b"), "", Nil, NoHash);
      var es := if maxSize == 0 then [a] else [a, b];
      assert Kids(es, 1, maxSize) && Size(es) == maxSize + 1;
      assert |Halves(es)| == 1;
    }
  }
}
