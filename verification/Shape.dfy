/** The B-tree shape, and that Node::insert keeps it. */
module Shape {
  import opened Keys
  import opened OrderedMap
  import opened Tree
  import opened Insertion
  import opened InOrder

  /** A resident tree of height h below a node: every non-root node holds between half of maxSize
      and maxSize keys, all leaves are at the same depth, an inner node ends in INF and has a
      child under every entry, and leaf links hold nothing. The node's own size is left open. */
  ghost predicate Kids(es: seq<Entry>, h: nat, maxSize: nat)
    decreases h, 0
  {
    && Proper(es)
    && h >= 1
    && if h == 1 then
         forall i :: 0 <= i < |es| ==> es[i].child.Nil? && es[i].hash.NoHash?
       else
         && es != [] && es[|es| - 1].id.Inf?
         && forall i :: 0 <= i < |es| ==> es[i].child.Node? && Half(es[i].child.entries, h - 1, maxSize)
  }

  /** A non-root node. */
  ghost predicate Half(es: seq<Entry>, h: nat, maxSize: nat)
    decreases h, 1
  {
    Kids(es, h, maxSize) && maxSize / 2 <= Size(es) <= maxSize
  }

  /** A whole tree: the root may hold as little as one key; keys increase along the traversal,
      so every descendant's keys lie strictly inside its separator interval. */
  ghost predicate BTreeShape(es: seq<Entry>, h: nat, maxSize: nat) {
    Kids(es, h, maxSize) && 1 <= Size(es) <= maxSize && Sorted(Flat(es))
  }

  // ----- one insertion -----

  /** What one Node::insert on a node of height h must have done to the shape. */
  ghost predicate InsertedInShape(es: seq<Entry>, r: Outcome, h: nat, maxSize: nat) {
    match r.up
    case Nil =>
      && Kids(r.self, h, maxSize)
      && Size(es) <= Size(r.self) <= maxSize
      && (h == 1 ==> 1 <= Size(r.self))
    case Node(up) =>
      && r.self == []
      && Kids(up, h + 1, maxSize) && |up| == 2 && up[0].id.Fin? && up[1].id.Inf?
      && up[0].child.Node? && up[1].child.Node?
  }

  /** A node with one key too many splits into two legal halves. */
  lemma {:induction false} SplitKeepsShape(es: seq<Entry>, h: nat, maxSize: nat)
    requires maxSize >= 2 && Kids(es, h, maxSize) && Size(es) == maxSize + 1
    ensures Kids(Halves(es), h + 1, maxSize)
  {
    HalvesInOrder(es);
    var m := Size(es) / 2;
    PrefixKids(es, h, maxSize, m);
    SuffixKids(es, h, maxSize, m + 1);
    TwoKids(Halves(es), h, maxSize);
  }

  lemma {:induction false} TwoKids(es: seq<Entry>, h: nat, maxSize: nat)
    requires |es| == 2 && es[0].id.Fin? && es[1].id.Inf? && es[1].value == ""
    requires es[0].child.Node? && Half(es[0].child.entries, h, maxSize)
    requires es[1].child.Node? && Half(es[1].child.entries, h, maxSize)
    ensures Kids(es, h + 1, maxSize)
  {
    assert h >= 1;
  }

  /** The left half: a prefix of the entries closed off by an INF entry. */
  lemma {:induction false} PrefixKids(es: seq<Entry>, h: nat, maxSize: nat, m: nat)
    requires Kids(es, h, maxSize) && m < |es|
    ensures Kids(es[..m] + [Entry(Inf, "", es[m].child, NoHash)], h, maxSize)
  {
    var left := es[..m] + [Entry(Inf, "", es[m].child, NoHash)];
    forall i | 0 <= i < |left|
      ensures left[i].child == es[i].child && (i < m ==> left[i] == es[i])
    {
    }
    assert Proper(left);
  }

  lemma {:induction false} SuffixKids(es: seq<Entry>, h: nat, maxSize: nat, m: nat)
    requires Kids(es, h, maxSize) && m < |es|
    ensures Kids(es[m..], h, maxSize)
  {
    var right := es[m..];
    forall i | 0 <= i < |right|
      ensures right[i] == es[m + i]
    {
    }
    assert Proper(right);
  }

  lemma {:induction false} MapInsertKids(es: seq<Entry>, maxSize: nat, k: string, v: string)
    requires Kids(es, 1, maxSize)
    ensures var es1 := MapInsert(es, Entry(Fin(k), v, Nil, NoHash));
            && Kids(es1, 1, maxSize)
            && Size(es) <= Size(es1) <= Size(es) + 1 && 1 <= Size(es1)
  {
    var e := Entry(Fin(k), v, Nil, NoHash);
    var i := LowerBound(es, Fin(k));
    if i == |es| || es[i].id != e.id {
      GrowLeaf(es, i, e, maxSize);
    }
  }

  lemma {:induction false} GrowLeaf(es: seq<Entry>, i: nat, e: Entry, maxSize: nat)
    requires Kids(es, 1, maxSize) && i <= |es| && e.id.Fin? && e.child.Nil? && e.hash.NoHash?
    requires forall j :: 0 <= j < i ==> es[j].id.Fin?
    ensures var es1 := es[..i] + [e] + es[i..];
            Kids(es1, 1, maxSize) && Size(es1) == Size(es) + 1
  {
    var es1 := es[..i] + [e] + es[i..];
    forall j | 0 <= j < |es1|
      ensures es1[j] == if j < i then es[j] else if j == i then e else es[j - 1]
    {
    }
  }

  lemma {:induction false} SpliceKids(es: seq<Entry>, i: nat, mid: seq<Entry>, h: nat, maxSize: nat)
    requires h >= 2 && Kids(es, h, maxSize) && i < |es| && mid != []
    requires forall j :: 0 <= j < |mid| ==> mid[j].child.Node? && Half(mid[j].child.entries, h - 1, maxSize)
    requires forall j :: 0 <= j < |mid| - 1 ==> mid[j].id.Fin?
    requires mid[|mid| - 1].id == es[i].id && mid[|mid| - 1].value == es[i].value
    ensures Kids(es[..i] + mid + es[i + 1..], h, maxSize)
    ensures Size(es[..i] + mid + es[i + 1..]) == Size(es) + |mid| - 1
  {
    var es2 := es[..i] + mid + es[i + 1..];
    forall j | 0 <= j < |es2|
      ensures es2[j] == if j < i then es[j] else if j < i + |mid| then mid[j - i] else es[j - |mid| + 1]
    {
    }
    assert Proper(es2);
  }

  lemma {:induction false} ReplaceKids(es: seq<Entry>, i: nat, r: Outcome, h: nat, maxSize: nat)
    requires h >= 2 && Kids(es, h, maxSize) && i < |es|
    requires InsertedInShape(es[i].child.entries, r, h - 1, maxSize)
    ensures var es2 := es[..i] + Replacement(es[i], r) + es[i + 1..];
            && Kids(es2, h, maxSize)
            && Size(es2) == Size(es) + (if r.up.Node? then 1 else 0)
  {
    var mid := Replacement(es[i], r);
    assert Half(es[i].child.entries, h - 1, maxSize);
    forall j | 0 <= j < |mid|
      ensures mid[j].child.Node? && Half(mid[j].child.entries, h - 1, maxSize)
    {
      if r.up.Node? {
        assert r.up.entries[j].child.Node? && mid[j].child == r.up.entries[j].child;
      }
    }
    SpliceKids(es, i, mid, h, maxSize);
  }

  lemma {:induction false} OverwriteKids(es: seq<Entry>, i: nat, h: nat, maxSize: nat, v: string)
    requires Kids(es, h, maxSize) && i < |es| && es[i].id.Fin?
    ensures var es1 := es[i := es[i].(value := v)];
            Kids(es1, h, maxSize) && Size(es1) == Size(es)
  {
    var es1 := es[i := es[i].(value := v)];
    assert forall j :: 0 <= j < |es1| ==> es1[j].child == es[j].child && es1[j].id == es[j].id;
  }

  lemma {:induction false} ShapeIsLoose(es: seq<Entry>, h: nat, maxSize: nat)
    requires Kids(es, h, maxSize)
    ensures Loose(es)
    decreases h
  {
    forall i | 0 <= i < |es|
      ensures LooseLink(es[i])
    {
      if es[i].child.Node? {
        assert Half(es[i].child.entries, h - 1, maxSize);
        ShapeIsLoose(es[i].child.entries, h - 1, maxSize);
      }
    }
  }

  lemma {:induction false} SplitInShape(es: seq<Entry>, es2: seq<Entry>, removed: multiset<nat>, h: nat, maxSize: nat)
    requires maxSize >= 2 && Kids(es2, h, maxSize)
    requires Size(es) <= Size(es2) <= maxSize + 1 && 1 <= Size(es2) + h - 1
    ensures InsertedInShape(es, Split(es2, removed, maxSize), h, maxSize)
  {
    if Size(es2) > maxSize {
      SplitKeepsShape(es2, h, maxSize);
      HalvesInOrder(es2);
    }
  }

  /** The child that Node::insert descends into at an inner node. */
  lemma {:induction false} PathChild(es: seq<Entry>, i: nat, h: nat, k: string, maxSize: nat)
    requires h >= 2 && Kids(es, h, maxSize) && Sorted(Flat(es))
    requires i == LowerBound(es, Fin(k))
    ensures i < |es| && !IsLeaf(es) && es[i].child.Node? && FindOrCreateLowerBound(es, k) == es
    ensures Half(es[i].child.entries, h - 1, maxSize) && Sorted(Flat(es[i].child.entries))
  {
    assert es[|es| - 1].child.Node?;
    SortedAt(es, i);
  }

  /** The way of a key that is not in the node, down into its child c at i. */
  ghost predicate ShapeWay(es: seq<Entry>, i: nat, h: nat, c: seq<Entry>, k: string, maxSize: nat) {
    && maxSize >= 2 && h >= 2 && Kids(es, h, maxSize) && Size(es) <= maxSize && Sorted(Flat(es))
    && WayDown(es, es, i, c, k) && es[i].child == Node(c) && Half(c, h - 1, maxSize)
  }

  lemma {:induction false} FindShapeWay(es: seq<Entry>, h: nat, k: string, maxSize: nat) returns (i: nat, c: seq<Entry>)
    requires maxSize >= 2 && h >= 2 && Kids(es, h, maxSize) && Size(es) <= maxSize && Sorted(Flat(es))
    requires var i := LowerBound(es, Fin(k)); i < |es| ==> es[i].id != Fin(k)
    ensures ShapeWay(es, i, h, c, k, maxSize)
  {
    PathChild(es, LowerBound(es, Fin(k)), h, k, maxSize);
    ShapeIsLoose(es, h, maxSize);
    var es0;
    es0, i, c := FindWay(es, k);
  }

  /** The step at an inner node of a tree in shape. */
  lemma {:induction false} ShapeStep(
      es: seq<Entry>, i: nat, h: nat, c: seq<Entry>, r: Outcome, k: string, v: string, maxSize: nat)
    requires ShapeWay(es, i, h, c, k, maxSize) && r == Insert(c, k, v, maxSize)
    ensures Insert(es, k, v, maxSize) ==
            Split(es[..i] + Replacement(es[i], r) + es[i + 1..], r.removed + HashBag(es[i].hash), maxSize)
  {
    WayStep(es, es, i, c, r, k, v, maxSize);
  }

  lemma {:induction false} StepInShape(es: seq<Entry>, i: nat, h: nat, r: Outcome, r': Outcome, maxSize: nat)
    requires maxSize >= 2 && h >= 2 && Kids(es, h, maxSize) && Size(es) <= maxSize && i < |es|
    requires InsertedInShape(es[i].child.entries, r, h - 1, maxSize)
    requires r' == Split(es[..i] + Replacement(es[i], r) + es[i + 1..], r.removed + HashBag(es[i].hash), maxSize)
    ensures InsertedInShape(es, r', h, maxSize)
  {
    ReplaceKids(es, i, r, h, maxSize);
    SplitInShape(es, es[..i] + Replacement(es[i], r) + es[i + 1..], r.removed + HashBag(es[i].hash), h, maxSize);
  }

  lemma {:induction false} LeafInShape(es: seq<Entry>, k: string, v: string, maxSize: nat)
    requires maxSize >= 2 && Kids(es, 1, maxSize) && Size(es) <= maxSize
    ensures InsertedInShape(es, Insert(es, k, v, maxSize), 1, maxSize)
  {
    MapInsertKids(es, maxSize, k, v);
    SplitInShape(es, MapInsert(es, Entry(Fin(k), v, Nil, NoHash)), multiset{}, 1, maxSize);
  }

  lemma {:induction false} OverwriteInShape(es: seq<Entry>, h: nat, k: string, v: string, maxSize: nat)
    requires h >= 2 && Kids(es, h, maxSize) && Size(es) <= maxSize && Sorted(Flat(es))
    requires var i := LowerBound(es, Fin(k)); i < |es| && es[i].id == Fin(k)
    ensures InsertedInShape(es, Insert(es, k, v, maxSize), h, maxSize)
  {
    var i := LowerBound(es, Fin(k));
    PathChild(es, i, h, k, maxSize);
    OverwriteKids(es, i, h, maxSize, v);
  }

  lemma {:induction false} BelowInShape(
      es: seq<Entry>, i: nat, h: nat, c: seq<Entry>, r: Outcome, k: string, v: string, maxSize: nat)
    requires ShapeWay(es, i, h, c, k, maxSize) && r == Insert(c, k, v, maxSize)
    requires InsertedInShape(c, r, h - 1, maxSize)
    ensures InsertedInShape(es, Insert(es, k, v, maxSize), h, maxSize)
  {
    ShapeStep(es, i, h, c, r, k, v, maxSize);
    StepInShape(es, i, h, r, Insert(es, k, v, maxSize), maxSize);
  }

  /** Node::insert on a node of height h of a tree in shape keeps the shape: the node stays within
      its bounds, or hands up one key over two legal halves. */
  lemma {:induction false} InsertInShape(es: seq<Entry>, h: nat, k: string, v: string, maxSize: nat)
    requires maxSize >= 2 && Kids(es, h, maxSize) && Size(es) <= maxSize && Sorted(Flat(es))
    ensures InsertedInShape(es, Insert(es, k, v, maxSize), h, maxSize)
    decreases h
  {
    if h == 1 {
      LeafInShape(es, k, v, maxSize);
    } else {
      var i := LowerBound(es, Fin(k));
      if i < |es| && es[i].id == Fin(k) {
        OverwriteInShape(es, h, k, v, maxSize);
      } else {
        var j, c := FindShapeWay(es, h, k, maxSize);
        InsertInShape(c, h - 1, k, v, maxSize);
        BelowInShape(es, j, h, c, Insert(c, k, v, maxSize), k, v, maxSize);
      }
    }
  }
}
