/** What Node::check_invariants does not tell: it compares a child's keys with the separator right
    above them, and with no other. */
module Disorder {
  import opened Keys
  import opened OrderedMap
  import opened Tree
  import opened Shape
  import opened Invariants

  /** Every node is a std::map. */
  ghost predicate AllOrdered(es: seq<Entry>)
    decreases es
  {
    && Ordered(es)
    && forall i :: 0 <= i < |es| && es[i].child.Node? ==> AllOrdered(es[i].child.entries)
  }

  /** A tree in shape but for the order across nodes. */
  ghost predicate Shaped(es: seq<Entry>, h: nat, maxSize: nat) {
    Kids(es, h, maxSize) && 1 <= Size(es) <= maxSize && AllOrdered(es)
  }

  lemma {:induction false} SortedIsAllOrdered(es: seq<Entry>, h: nat, maxSize: nat)
    requires Kids(es, h, maxSize) && Sorted(Flat(es))
    ensures AllOrdered(es)
    decreases h
  {
    SortedIsOrdered(es);
    forall i | 0 <= i < |es| && es[i].child.Node?
      ensures AllOrdered(es[i].child.entries)
    {
      assert h > 1 && Half(es[i].child.entries, h - 1, maxSize);
      SortedAt(es, i);
      SortedIsAllOrdered(es[i].child.entries, h - 1, maxSize);
    }
  }

  lemma {:induction false} LeafFlat(es: seq<Entry>)
    requires IsLeaf(es) && forall i :: 0 <= i < |es| ==> es[i].id.Fin?
    ensures |Flat(es)| == |es|
    ensures forall i :: 0 <= i < |es| ==> Flat(es)[i] == Pair(es[i].id.key, es[i].value)
  {
    if es == [] {
    } else {
      LeafFlat(es[1..]);
      assert Flat(es) == [Pair(es[0].id.key, es[0].value)] + Flat(es[1..]);
    }
  }

  /** In a leaf the order of the entries is the order of the keys. */
  lemma {:induction false} OrderedLeaf(es: seq<Entry>)
    requires Ordered(es) && IsLeaf(es)
    ensures Sorted(Flat(es))
  {
    if es != [] && es[|es| - 1].id.Inf? {
      var t := es[..|es| - 1];
      assert es == t + [es[|es| - 1]];
      FlatConcat(t, [es[|es| - 1]]);
      FlatOne(es[|es| - 1]);
      LeafFlat(t);
      forall i, j | 0 <= i < j < |t|
        ensures Less(t[i].id.key, t[j].id.key)
      {
        assert IdLess(es[i].id, es[j].id);
      }
    } else {
      LeafFlat(es);
      forall i, j | 0 <= i < j < |es|
        ensures Less(es[i].id.key, es[j].id.key)
      {
        assert IdLess(es[i].id, es[j].id);
      }
    }
  }

  // ----- trees of every height, with keys numbered in order -----

  function Key(n: nat): string {
    seq(n + 1, i => 'a')
  }

  lemma {:induction false} KeyLess(a: nat, b: nat, i: nat)
    requires a < b && i <= a + 1
    ensures LessFrom(Key(a), Key(b), i)
    decreases a + 1 - i
  {
    if i == a + 1 {
    } else {
      KeyLess(a, b, i + 1);
    }
  }

  function Numbered(lo: nat, n: nat): seq<Pair> {
    seq(n, i requires 0 <= i < n => Pair(Key(lo + i), ""))
  }

  lemma {:induction false} NumberedSorted(lo: nat, n: nat)
    ensures Sorted(Numbered(lo, n))
  {
    forall i, j | 0 <= i < j < n
      ensures Less(Numbered(lo, n)[i].key, Numbered(lo, n)[j].key)
    {
      KeyLess(lo + i, lo + j, 0);
    }
  }

  /** The number of keys of a tree of height h with t keys in every node, and of one whose root has
      j instead. */
  function Width(h: nat, t: nat): nat
    decreases h, t + 1
  {
    if h == 0 then 0 else RowWidth(h, t, t)
  }

  function RowWidth(h: nat, t: nat, j: nat): nat
    requires h >= 1 && j <= t
    decreases h, j
  {
    if j == 0 then Width(h - 1, t) else Width(h - 1, t) + 1 + RowWidth(h, t, j - 1)
  }

  lemma {:induction false} NumberedSplit(lo: nat, w: nat, r: nat)
    ensures Numbered(lo, w) + [Pair(Key(lo + w), "")] + Numbered(lo + w + 1, r) == Numbered(lo, w + 1 + r)
  {
  }

  /** An entry that may stand in front of the others in a node of height h. */
  ghost predicate MayLead(e: Entry, h: nat, maxSize: nat) {
    && e.id.Fin? && h >= 1
    && if h == 1 then e.child.Nil? && e.hash.NoHash? else e.child.Node? && Half(e.child.entries, h - 1, maxSize)
  }

  lemma {:induction false} ConsKids(e: Entry, rest: seq<Entry>, h: nat, maxSize: nat)
    requires Kids(rest, h, maxSize) && MayLead(e, h, maxSize)
    ensures Kids([e] + rest, h, maxSize) && Size([e] + rest) == Size(rest) + 1
  {
    var es := [e] + rest;
    forall i | 0 <= i < |es|
      ensures es[i].id.Inf? ==> i == |es| - 1 && es[i].value == ""
      ensures if h == 1 then es[i].child.Nil? && es[i].hash.NoHash?
              else es[i].child.Node? && Half(es[i].child.entries, h - 1, maxSize)
    {
      assert es[i] == if i == 0 then e else rest[i - 1];
    }
    assert h > 1 ==> es[|es| - 1] == rest[|rest| - 1];
    assert rest != [] ==> es[|es| - 1] == rest[|rest| - 1];
  }

  lemma {:induction false} ConsFlat(e: Entry, rest: seq<Entry>, lo: nat, w: nat, r: nat)
    requires e.id == Fin(Key(lo + w)) && e.value == "" && Under(e) == Numbered(lo, w)
    requires Flat(rest) == Numbered(lo + w + 1, r)
    ensures Flat([e] + rest) == Numbered(lo, w + 1 + r)
  {
    NumberedSplit(lo, w, r);
    assert ([e] + rest)[1..] == rest;
  }

  lemma {:induction false} OnlyInf(child: Tree, h: nat, maxSize: nat, lo: nat, w: nat) returns (row: seq<Entry>)
    requires if h == 1 then child == Nil && w == 0
             else h > 1 && child.Node? && Half(child.entries, h - 1, maxSize) && Flat(child.entries) == Numbered(lo, w)
    ensures Kids(row, h, maxSize) && Size(row) == 0 && Flat(row) == Numbered(lo, w)
  {
    if h == 1 {
      row := [];
    } else {
      row := [Entry(Inf, "", child, NoHash)];
      FlatOne(row[0]);
    }
  }

  /** Such a tree, its keys numbered from lo on. */
  lemma {:induction false} Build(h: nat, maxSize: nat, j: nat, lo: nat) returns (row: seq<Entry>)
    requires h >= 1 && j <= maxSize / 2
    ensures Kids(row, h, maxSize) && Size(row) == j && Flat(row) == Numbered(lo, RowWidth(h, maxSize / 2, j))
    decreases h, j
  {
    var w := Width(h - 1, maxSize / 2);
    var child := Nil;
    if h > 1 {
      var c := Build(h - 1, maxSize, maxSize / 2, lo);
      child := Node(c);
    }
    if j == 0 {
      row := OnlyInf(child, h, maxSize, lo, w);
    } else {
      var rest := Build(h, maxSize, j - 1, lo + w + 1);
      var e := Entry(Fin(Key(lo + w)), "", child, NoHash);
      ConsKids(e, rest, h, maxSize);
      ConsFlat(e, rest, lo, w, RowWidth(h, maxSize / 2, j - 1));
      row := [e] + rest;
    }
  }

  /** A legal non-root node that gives no cause for complaint. */
  ghost predicate Fine(es: seq<Entry>, h: nat, maxSize: nat) {
    Half(es, h, maxSize) && AllOrdered(es) && CheckInvariants(es, maxSize)
  }

  lemma {:induction false} FineRow(h: nat, maxSize: nat, lo: nat) returns (row: seq<Entry>)
    requires h >= 1 && maxSize >= 2
    ensures Fine(row, h, maxSize) && Flat(row) == Numbered(lo, Width(h, maxSize / 2))
  {
    var t := maxSize / 2;
    row := Build(h, maxSize, t, lo);
    NumberedSorted(lo, Width(h, t));
    SortedIsAllOrdered(row, h, maxSize);
    ShapeIsChecked(row, h, maxSize);
  }

  lemma {:induction false} NumberedBelow(es: seq<Entry>, lo: nat, n: nat)
    requires Flat(es) == Numbered(lo, n)
    ensures forall i :: 0 <= i < |es| && es[i].id.Fin? ==> IdLess(es[i].id, Fin(Key(lo + n)))
  {
    forall i | 0 <= i < |es| && es[i].id.Fin?
      ensures IdLess(es[i].id, Fin(Key(lo + n)))
    {
      OwnInFlat(es, i);
      var x :| 0 <= x < |Flat(es)| && Flat(es)[x] == Pair(es[i].id.key, es[i].value);
      KeyLess(lo + x, lo + n, 0);
    }
  }

  function Over(k: string, l: seq<Entry>, r: seq<Entry>): seq<Entry> {
    [Entry(Fin(k), "", Node(l), NoHash), Entry(Inf, "", Node(r), NoHash)]
  }

  lemma {:induction false} OverFlat(k: string, l: seq<Entry>, r: seq<Entry>)
    ensures Flat(Over(k, l, r)) == Flat(l) + [Pair(k, "")] + Flat(r)
  {
    var es := Over(k, l, r);
    assert es == [es[0]] + [es[1]];
    FlatConcat([es[0]], [es[1]]);
    FlatOne(es[0]);
    FlatOne(es[1]);
  }

  /** A root with one separator over two fine children passes if the left one's keys are below it. */
  lemma {:induction false} OverPasses(k: string, l: seq<Entry>, r: seq<Entry>, h: nat, maxSize: nat)
    requires h >= 2 && maxSize >= 2 && Fine(l, h - 1, maxSize) && Fine(r, h - 1, maxSize)
    requires forall i :: 0 <= i < |l| && l[i].id.Fin? ==> IdLess(l[i].id, Fin(k))
    ensures Shaped(Over(k, l, r), h, maxSize) && CheckInvariants(Over(k, l, r), maxSize)
  {
    assert Kids(Over(k, l, r), h, maxSize);
    DepthIsHeight(Over(k, l, r), h, maxSize);
  }

  /** One separator, and behind it a child all of whose keys come before everything else. */
  lemma {:induction false} Misplaced(h: nat, maxSize: nat) returns (es: seq<Entry>)
    requires h >= 2 && maxSize >= 2
    ensures Shaped(es, h, maxSize) && CheckInvariants(es, maxSize) && !Sorted(Flat(es))
  {
    var w := Width(h - 1, maxSize / 2);
    var k := Key(w + w);
    var l := FineRow(h - 1, maxSize, w);
    var r := FineRow(h - 1, maxSize, 0);
    es := Over(k, l, r);
    NumberedBelow(l, w, w);
    OverPasses(k, l, r, h, maxSize);
    OverFlat(k, l, r);
    assert w >= 1;
    Unsorted(Flat(es), w);
  }

  lemma {:induction false} Unsorted(s: seq<Pair>, w: nat)
    requires w >= 1 && s == Numbered(w, w) + [Pair(Key(w + w), "")] + Numbered(0, w)
    ensures !Sorted(s)
  {
    KeyLess(0, w, 0);
    LessTrichotomy(Key(0), Key(w));
    assert s[0].key == Key(w) && s[w + 1].key == Key(0);
  }

  /** check_invariants tells whether the keys are in order in trees of a single node, and in no
      others: for every greater height there is a tree, right in every other respect, that it
      accepts with the keys of one child out of order, right below the root. */
  lemma {:induction false} CheckDecidesOrderOfLeavesOnly(h: nat, maxSize: nat)
    requires h >= 1 && maxSize >= 2
    ensures (forall es :: Shaped(es, h, maxSize) && CheckInvariants(es, maxSize) ==> Sorted(Flat(es))) <==> h == 1
  {
    if h == 1 {
      forall es | Shaped(es, h, maxSize)
        ensures Sorted(Flat(es))
      {
        OrderedLeaf(es);
      }
    } else {
      var es := Misplaced(h, maxSize);
    }
  }

  /** The smallest case: what hangs behind the separator m lies before what hangs in front of it. */
  lemma {:induction false} CheckMissesDisorder()
    ensures var es := Over("m", [Entry(Fin("c"), "", Nil, NoHash)], [Entry(Fin("a"), "", Nil, NoHash)]);
            Shaped(es, 2, 2) && CheckInvariants(es, 2) && !Sorted(Flat(es))
  {
    var c, a := [Entry(Fin("c"), "", Nil, NoHash)], [Entry(Fin("a"), "", Nil, NoHash)];
    FlatOne(a[0]);
    FlatOne(c[0]);
    ShapeIsChecked(a, 1, 2);
    ShapeIsChecked(c, 1, 2);
    assert Less("c", "m");
    OverPasses("m", c, a, 2, 2);
    OverFlat("m", c, a);
    var es := Over("m", c, a);
    assert Flat(es) == [Pair("c", ""), Pair("m", ""), Pair("a", "")];
    assert Less("a", "c");
    LessTrichotomy("a", "c");
    assert !Less(Flat(es)[0].key, Flat(es)[2].key);
  }
}
