/** Node::insert read along the in-order traversal: on every tree whose keys are in order, of any
    shape and resident in whole or in part, it is the update of a map. */
module InOrder {
  import opened Keys
  import opened OrderedMap
  import opened Tree
  import opened Insertion

  // ----- which keys sit above the leaves -----

  /** The keys held by nodes that are not leaves. */
  function InnerKeys(es: seq<Entry>): set<string>
    decreases es, 1
  {
    if IsLeaf(es) then {} else EntryKeys(es)
  }

  function EntryKeys(es: seq<Entry>): set<string>
    decreases es, 0
  {
    if es == [] then {} else KeysAt(es[0]) + EntryKeys(es[1..])
  }

  function KeysAt(e: Entry): set<string>
    decreases e
  {
    (if e.id.Fin? then {e.id.key} else {}) +
    (match e.child
     case Nil => {}
     case Node(es) => InnerKeys(es))
  }

  lemma {:induction false} EntryKeysConcat(a: seq<Entry>, b: seq<Entry>)
    ensures EntryKeys(a + b) == EntryKeys(a) + EntryKeys(b)
  {
    if a == [] {
      assert a + b == b;
    } else {
      assert (a + b)[0] == a[0] && (a + b)[1..] == a[1..] + b;
      EntryKeysConcat(a[1..], b);
    }
  }

  lemma {:induction false} EntryKeysAt(es: seq<Entry>, i: nat)
    requires i < |es|
    ensures EntryKeys(es) == EntryKeys(es[..i]) + KeysAt(es[i]) + EntryKeys(es[i + 1..])
  {
    assert es == es[..i] + ([es[i]] + es[i + 1..]);
    EntryKeysConcat(es[..i], [es[i]] + es[i + 1..]);
    assert ([es[i]] + es[i + 1..])[1..] == es[i + 1..];
  }

  lemma {:induction false} EntryKeysInFlat(es: seq<Entry>, k: string)
    requires k in EntryKeys(es)
    ensures HasKey(Flat(es), k)
    decreases es
  {
    var e := es[0];
    if k in EntryKeys(es[1..]) {
      EntryKeysInFlat(es[1..], k);
      var i :| 0 <= i < |Flat(es[1..])| && Flat(es[1..])[i].key == k;
      assert Flat(es)[|Under(e)| + |Own(e)| + i].key == k;
    } else if e.id == Fin(k) {
      assert Flat(es)[|Under(e)|] == Own(e)[0];
    } else {
      assert k in InnerKeys(e.child.entries);
      EntryKeysInFlat(e.child.entries, k);
      var i :| 0 <= i < |Under(e)| && Under(e)[i].key == k;
      assert Flat(es)[i].key == k;
    }
  }

  /** Along the search path: unless the key is one of this node's separators, it sits above the
      leaves exactly if it does so in the subtree that the lower bound leads to. */
  lemma {:induction false} InnerKeysDescend(es: seq<Entry>, k: string)
    requires Proper(es) && Sorted(Flat(es)) && !IsLeaf(es)
    requires LowerBound(es, Fin(k)) < |es|
    ensures var i := LowerBound(es, Fin(k));
            k in InnerKeys(es) <==> es[i].id == Fin(k) || k in InnerKeys(EntriesOf(es[i].child))
  {
    var i := LowerBound(es, Fin(k));
    EntryKeysAt(es, i);
    assert KeysAt(es[i]) == (if es[i].id.Fin? then {es[i].id.key} else {}) + InnerKeys(EntriesOf(es[i].child));
    FlatBeforeLowerBound(es, k, i);
    if k in EntryKeys(es[..i]) {
      EntryKeysInFlat(es[..i], k);
      AbsentWhenBelow(Flat(es[..i]), k);
      ToMapKeys(Flat(es[..i]), k);
    }
    if es[i].id != Fin(k) && k in EntryKeys(es[i + 1..]) {
      FlatFromLowerBound(es, k);
      EntryKeysInFlat(es[i + 1..], k);
      SortedTail(es, i);
      var b := Own(es[i]) + Flat(es[i + 1..]);
      AbsentWhenAbove(b, k);
      ToMapConcat(Own(es[i]), Flat(es[i + 1..]));
      ToMapKeys(Flat(es[i + 1..]), k);
    }
  }

  lemma {:induction false} SortedTail(es: seq<Entry>, i: nat)
    requires i < |es| && Sorted(Flat(es))
    ensures Sorted(Own(es[i]) + Flat(es[i + 1..]))
  {
    FlatAt(es, i);
    SortedSuffix(Flat(es[..i]), Under(es[i]), Own(es[i]), Flat(es[i + 1..]));
  }

  lemma {:induction false} SortedSuffix(a: seq<Pair>, u: seq<Pair>, o: seq<Pair>, b: seq<Pair>)
    requires Sorted(a + (u + o) + b)
    ensures Sorted(o + b)
  {
    assert a + (u + o) + b == (a + u) + (o + b);
    SortedParts(a + u, o + b);
  }

  // ----- one insertion -----

  /** What one Node::insert must have done to the traversal. */
  ghost predicate InsertedInOrder(es: seq<Entry>, r: Outcome, k: string, v: string, overwrite: bool) {
    match r.up
    case Nil => Flat(r.self) == Put(Flat(es), k, v, overwrite)
    case Node(up) =>
      && |up| == 2 && up[0].id.Fin? && up[1].id.Inf? && up[0].child.Node? && up[1].child.Node?
      && Flat(up) == Put(Flat(es), k, v, overwrite)
  }

  /** Node::split: left half, median and right half, read in order, are the overfull node; the
      halves have floor(s/2) and s-1-floor(s/2) keys. Of the hashes only the median's is given up. */
  lemma {:induction false} HalvesInOrder(es: seq<Entry>)
    requires 2 < Size(es) && Proper(es)
    ensures |Halves(es)| == 2
    ensures Halves(es)[0].child.Node? && Halves(es)[1].child.Node?
    ensures var left, right := Halves(es)[0].child.entries, Halves(es)[1].child.entries;
            var m := Size(es) / 2;
            && Size(left) == m && Size(right) == Size(es) - 1 - m
            && left[..m] == es[..m] && left[m] == Entry(Inf, "", es[m].child, NoHash) && right == es[m + 1..]
            && Halves(es)[0] == Entry(es[m].id, es[m].value, Node(left), NoHash)
            && Halves(es)[1] == Entry(Inf, "", Node(right), NoHash)
            && Flat(left) + Own(es[m]) + Flat(right) == Flat(es)
            && Flat(Halves(es)) == Flat(es)
  {
    var m := Size(es) / 2;
    HalvesFlat(es, m);
    assert |Halves(es)| == 2;
    FlatTwo(Halves(es));
  }

  lemma {:induction false} HalvesFlat(es: seq<Entry>, m: nat)
    requires m < |es|
    ensures var left := es[..m] + [Entry(Inf, "", es[m].child, NoHash)];
            Flat(left) + Own(es[m]) + Flat(es[m + 1..]) == Flat(es)
  {
    var inf := Entry(Inf, "", es[m].child, NoHash);
    FlatConcat(es[..m], [inf]);
    FlatOne(inf);
    assert Under(inf) == Under(es[m]) && Own(inf) == [];
    FlatAt(es, m);
  }

  lemma {:induction false} FlatTwo(h: seq<Entry>)
    requires |h| == 2
    ensures Flat(h) == Under(h[0]) + Own(h[0]) + (Under(h[1]) + Own(h[1]))
  {
    assert h == [h[0]] + [h[1]];
    FlatConcat([h[0]], [h[1]]);
    FlatOne(h[0]);
    FlatOne(h[1]);
  }

  /** A leaf seen from the lower bound of k: what is below k, and what starts at or above it. */
  lemma {:induction false} LeafCut(es: seq<Entry>, k: string)
    requires Proper(es) && IsLeaf(es) && Sorted(Flat(es))
    ensures var i := LowerBound(es, Fin(k));
            var b := Flat(es[i..]);
            && Flat(es) == Flat(es[..i]) + b
            && AllBelow(Flat(es[..i]), k)
            && (b != [] ==> i < |es| && if es[i].id == Fin(k) then b[0].key == k else Less(k, b[0].key))
            && (i < |es| && es[i].id == Fin(k) ==> b != [])
  {
    var i := LowerBound(es, Fin(k));
    assert es == es[..i] + es[i..];
    FlatConcat(es[..i], es[i..]);
    FlatBeforeLowerBound(es, k, i);
    if i < |es| {
      assert es[i..][1..] == es[i + 1..];
      assert Flat(es[i..]) == Own(es[i]) + Flat(es[i + 1..]);
      FlatFromLowerBound(es, k);
    }
  }

  lemma {:induction false} MapInsertFlat(es: seq<Entry>, k: string, v: string)
    requires Proper(es) && IsLeaf(es) && Sorted(Flat(es))
    ensures Flat(MapInsert(es, Entry(Fin(k), v, Nil, NoHash))) == Put(Flat(es), k, v, false)
  {
    var e := Entry(Fin(k), v, Nil, NoHash);
    var i := LowerBound(es, Fin(k));
    var a, b := Flat(es[..i]), Flat(es[i..]);
    LeafCut(es, k);
    PutPastPrefix(a, b, k, v, false);
    if i == |es| || es[i].id != Fin(k) {
      PutBeforeSuffix([], b, k, v, false);
      assert [] + b == b;
      LeafGains(es, i, e);
    }
  }

  lemma {:induction false} LeafGains(es: seq<Entry>, i: nat, e: Entry)
    requires i <= |es| && e.child.Nil?
    ensures Flat(es[..i] + [e] + es[i..]) == Flat(es[..i]) + (Own(e) + Flat(es[i..]))
  {
    FlatConcat(es[..i] + [e], es[i..]);
    FlatConcat(es[..i], [e]);
    FlatOne(e);
    assert Flat([e]) == Own(e);
    Associate(Flat(es[..i]), Own(e), Flat(es[i..]));
  }

  lemma {:induction false} Associate(a: seq<Pair>, b: seq<Pair>, c: seq<Pair>)
    ensures (a + b) + c == a + (b + c)
  {
  }

  /** The key handed up by a split child belongs right in front of the entry whose child was
      split: every separator to the left is below it, that entry is above it. */
  lemma {:induction false} MedianPlace(es: seq<Entry>, k: string, v: string, overwrite: bool, k1: string)
    requires Proper(es) && Sorted(Flat(es))
    requires LowerBound(es, Fin(k)) < |es|
    requires HasKey(Put(Under(es[LowerBound(es, Fin(k))]), k, v, overwrite), k1)
    ensures var i := LowerBound(es, Fin(k));
            && (forall j :: 0 <= j < i ==> IdLess(es[j].id, Fin(k1)))
            && (es[i].id != Fin(k) ==> !IdLess(es[i].id, Fin(k1)) && es[i].id != Fin(k1))
  {
    var i := LowerBound(es, Fin(k));
    SortedAt(es, i);
    PutSorted(Under(es[i]), k, v, overwrite);
    if k1 != k {
      var x :| 0 <= x < |Under(es[i])| && Under(es[i])[x].key == k1;
      if es[i].id.Fin? {
        LessTrichotomy(k1, es[i].id.key);
      }
      forall j | 0 <= j < i
        ensures IdLess(es[j].id, Fin(k1))
      {
        assert es[..i][j] == es[j];
        OwnInFlat(es[..i], j);
        var y :| 0 <= y < |Flat(es[..i])| && Flat(es[..i])[y] == Pair(es[j].id.key, es[j].value);
      }
    }
  }

  /** The entries that take the place of entry e once its child has been inserted into. */
  function Replacement(e: Entry, r: Outcome): seq<Entry> {
    match r.up
    case Nil => [e.(child := Node(r.self), hash := NoHash)]
    case Node(up) => if |up| == 2 then [up[0], e.(child := up[1].child, hash := NoHash)] else []
  }

  lemma {:induction false} ReplacementFlat(e: Entry, r: Outcome, k: string, v: string, overwrite: bool)
    requires InsertedInOrder(EntriesOf(e.child), r, k, v, overwrite)
    ensures Flat(Replacement(e, r)) == Put(Under(e), k, v, overwrite) + Own(e)
  {
    match r.up
    case Nil =>
      FlatOne(e.(child := Node(r.self), hash := NoHash));
    case Node(up) =>
      var e2 := e.(child := up[1].child, hash := NoHash);
      assert up == [up[0]] + [up[1]];
      FlatConcat([up[0]], [up[1]]);
      FlatConcat([up[0]], [e2]);
      FlatOne(up[0]);
      FlatOne(up[1]);
      FlatOne(e2);
      assert Under(e2) == Under(up[1]) && Own(up[1]) == [];
  }

  /** The node on the search path of k, and what came back from its child there. */
  ghost predicate OnPath(es: seq<Entry>, i: nat, r: Outcome, k: string, v: string, overwrite: bool) {
    && Proper(es) && Sorted(Flat(es))
    && i == LowerBound(es, Fin(k)) < |es|
    && es[i].id != Fin(k)
    && InsertedInOrder(EntriesOf(es[i].child), r, k, v, overwrite)
  }

  /** insert_node's assertions hold, and it puts the halves where the split child was. */
  lemma {:induction false} AbsorbPlace(es: seq<Entry>, i: nat, r: Outcome, k: string, v: string, overwrite: bool)
    requires OnPath(es, i, r, k, v, overwrite)
    ensures Absorb(es, i, r) == es[..i] + Replacement(es[i], r) + es[i + 1..]
    ensures r.up.Node? ==>
      && LowerBound(es[i := es[i].(child := Node(r.self), hash := NoHash)], r.up.entries[0].id) == i
      && es[i].id != r.up.entries[0].id
  {
    var es1 := es[i := es[i].(child := Node(r.self), hash := NoHash)];
    match r.up
    case Nil =>
    case Node(up) =>
      OwnInFlat(up, 0);
      var x :| 0 <= x < |Flat(up)| && Flat(up)[x] == Pair(up[0].id.key, up[0].value);
      MedianPlace(es, k, v, overwrite, up[0].id.key);
      LowerBoundIs(es1, up[0].id, i);
  }

  lemma {:induction false} AbsorbFlat(es: seq<Entry>, i: nat, r: Outcome, k: string, v: string, overwrite: bool)
    requires OnPath(es, i, r, k, v, overwrite)
    ensures Flat(Absorb(es, i, r)) == Put(Flat(es), k, v, overwrite)
  {
    AbsorbPlace(es, i, r, k, v, overwrite);
    FlatReplace(es, i, Replacement(es[i], r));
    ReplacementFlat(es[i], r, k, v, overwrite);
    FlatAt(es, i);
    FlatBeforeLowerBound(es, k, i);
    FlatFromLowerBound(es, k);
    PutAround(Flat(es[..i]), Under(es[i]), Own(es[i]), Flat(es[i + 1..]), k, v, overwrite);
  }

  lemma {:induction false} PutAround(
      a: seq<Pair>, u: seq<Pair>, o: seq<Pair>, b: seq<Pair>, k: string, v: string, overwrite: bool)
    requires AllBelow(a, k)
    requires o + b != [] ==> Less(k, (o + b)[0].key)
    ensures Put(a + (u + o) + b, k, v, overwrite) == a + (Put(u, k, v, overwrite) + o) + b
  {
    PutMiddle(a, u, o + b, k, v, overwrite);
    assert a + (u + o) + b == a + u + (o + b);
    assert a + (Put(u, k, v, overwrite) + o) + b == a + Put(u, k, v, overwrite) + (o + b);
  }

  /** A key overwritten at a node that is not a leaf. */
  lemma {:induction false} OverwriteIsPut(es: seq<Entry>, k: string, v: string)
    requires Sorted(Flat(es))
    requires var i := LowerBound(es, Fin(k)); i < |es| && es[i].id == Fin(k)
    ensures var i := LowerBound(es, Fin(k));
            Flat(es[i := es[i].(value := v)]) == Put(Flat(es), k, v, true)
  {
    var i := LowerBound(es, Fin(k));
    var e := es[i].(value := v);
    var es1 := es[i := e];
    assert es1 == es[..i] + [e] + es[i + 1..];
    FlatReplace(es, i, [e]);
    FlatOne(e);
    FlatAt(es, i);
    SortedAt(es, i);
    assert Under(e) == Under(es[i]);
    PutHere(Flat(es[..i]), Under(es[i]), es[i].value, Flat(es[i + 1..]), k, v);
  }

  lemma {:induction false} PutHere(a: seq<Pair>, u: seq<Pair>, w: string, b: seq<Pair>, k: string, v: string)
    requires AllBelow(a, k) && AllBelow(u, k)
    ensures Put(a + (u + [Pair(k, w)]) + b, k, v, true) == a + (u + [Pair(k, v)]) + b
  {
    var o := [Pair(k, w)];
    assert a + (u + o) + b == a + (u + (o + b));
    PutPastPrefix(a, u + (o + b), k, v, true);
    PutPastPrefix(u, o + b, k, v, true);
    assert (o + b)[1..] == b;
  }

  // ----- Node::insert on any tree in order -----

  /** Every resident node has INF, if at all, at its end. */
  ghost predicate Loose(es: seq<Entry>)
    decreases es
  {
    Proper(es) && forall i :: 0 <= i < |es| ==> LooseLink(es[i])
  }

  ghost predicate LooseLink(e: Entry)
    decreases e
  {
    match e.child
    case Nil => true
    case Node(es) => Loose(es)
  }

  ghost predicate LooseOutcome(r: Outcome) {
    && Loose(r.self)
    && (r.up.Node? ==> Loose(r.up.entries))
  }

  lemma {:induction false} HalvesLoose(es: seq<Entry>)
    requires 2 < Size(es) && Loose(es)
    ensures Loose(Halves(es))
  {
    var m := Size(es) / 2;
    var inf := Entry(Inf, "", es[m].child, NoHash);
    var left, right := es[..m] + [inf], es[m + 1..];
    assert LooseLink(es[m]);
    forall i | 0 <= i < |left|
      ensures LooseLink(left[i]) && (left[i].id.Inf? ==> i == m)
    {
      assert left[i] == if i < m then es[i] else inf;
    }
    forall i | 0 <= i < |right|
      ensures LooseLink(right[i]) && (right[i].id.Inf? ==> i == |right| - 1 && right[i].value == "")
    {
      assert right[i] == es[m + 1 + i];
    }
    assert Loose(left) && Loose(right);
    var h := Halves(es);
    assert LooseLink(h[0]) && LooseLink(h[1]);
  }

  lemma {:induction false} SpliceLoose(es: seq<Entry>, i: nat, mid: seq<Entry>)
    requires Loose(es) && i < |es| && mid != []
    requires forall j :: 0 <= j < |mid| ==> LooseLink(mid[j])
    requires forall j :: 0 <= j < |mid| - 1 ==> mid[j].id.Fin?
    requires mid[|mid| - 1].id == es[i].id && (es[i].id.Inf? ==> mid[|mid| - 1].value == es[i].value)
    ensures Loose(es[..i] + mid + es[i + 1..])
  {
    var es2 := es[..i] + mid + es[i + 1..];
    forall j | 0 <= j < |es2|
      ensures LooseLink(es2[j]) && (es2[j].id.Inf? ==> j == |es2| - 1 && es2[j].value == "")
    {
      assert es2[j] == if j < i then es[j] else if j < i + |mid| then mid[j - i] else es[j - |mid| + 1];
    }
  }

  lemma {:induction false} ReplacementLoose(es: seq<Entry>, i: nat, r: Outcome)
    requires Loose(es) && i < |es| && LooseOutcome(r)
    requires r.up.Node? ==> |r.up.entries| == 2 && r.up.entries[0].id.Fin?
    ensures Loose(es[..i] + Replacement(es[i], r) + es[i + 1..])
  {
    var mid := Replacement(es[i], r);
    forall j | 0 <= j < |mid|
      ensures LooseLink(mid[j])
    {
      if r.up.Node? {
        assert LooseLink(r.up.entries[j]);
      }
    }
    SpliceLoose(es, i, mid);
  }

  /** The last step of Node::insert. */
  lemma {:induction false} SplitInOrder(es: seq<Entry>, removed: multiset<nat>, maxSize: nat)
    requires maxSize >= 2 && Loose(es)
    ensures var r := Split(es, removed, maxSize);
            && LooseOutcome(r)
            && (r.up.Nil? ==> r.self == es)
            && (r.up.Node? ==>
                  && |r.up.entries| == 2 && r.up.entries[0].id.Fin? && r.up.entries[1].id.Inf?
                  && r.up.entries[0].child.Node? && r.up.entries[1].child.Node?
                  && Flat(r.up.entries) == Flat(es))
  {
    if Size(es) > maxSize {
      HalvesInOrder(es);
      HalvesLoose(es);
    }
  }

  lemma {:induction false} LeafInOrder(es: seq<Entry>, k: string, v: string, maxSize: nat)
    requires maxSize >= 2 && Loose(es) && IsLeaf(es) && Sorted(Flat(es))
    ensures InsertedInOrder(es, InsertIntoLeaf(es, k, v, maxSize), k, v, false)
    ensures LooseOutcome(InsertIntoLeaf(es, k, v, maxSize))
  {
    var e := Entry(Fin(k), v, Nil, NoHash);
    var i := LowerBound(es, Fin(k));
    var es1 := MapInsert(es, e);
    MapInsertFlat(es, k, v);
    forall j | 0 <= j < |es1|
      ensures LooseLink(es1[j]) && (es1[j].id.Inf? ==> j == |es1| - 1 && es1[j].value == "")
    {
      if es1 != es {
        assert es1[j] == if j < i then es[j] else if j == i then e else es[j - 1];
        assert j < i ==> IdLess(es[j].id, Fin(k));
      }
    }
    SplitInOrder(es1, multiset{}, maxSize);
  }

  /** find_or_create_lower_bound only ever adds an empty INF entry. */
  lemma {:induction false} FindOrCreateInOrder(es: seq<Entry>, k: string)
    requires Loose(es)
    ensures var es0 := FindOrCreateLowerBound(es, k);
            var i := LowerBound(es, Fin(k));
            && Loose(es0) && Flat(es0) == Flat(es)
            && i == LowerBound(es0, Fin(k)) < |es0|
            && InnerKeys(es0) == InnerKeys(es) && IsLeaf(es0) == IsLeaf(es)
            && (i < |es| ==> es0 == es)
            && (i == |es| ==> es0[i] == INF_ENTRY)
  {
    var i := LowerBound(es, Fin(k));
    if i == |es| {
      var es0 := es + [INF_ENTRY];
      FlatConcat(es, [INF_ENTRY]);
      FlatOne(INF_ENTRY);
      EntryKeysConcat(es, [INF_ENTRY]);
      assert [INF_ENTRY][1..] == [];
      assert EntryKeys([INF_ENTRY]) == {};
      forall j | 0 <= j < |es0|
        ensures LooseLink(es0[j]) && (es0[j].id.Inf? ==> j == |es0| - 1 && es0[j].value == "")
        ensures es0[j].child.Nil? || j < |es|
      {
        if j < |es| {
          assert es0[j] == es[j] && IdLess(es[j].id, Fin(k));
        }
      }
      if !IsLeaf(es) {
        var j :| 0 <= j < |es| && es[j].child.Node?;
        assert es0[j].child.Node?;
      }
      LowerBoundIs(es0, Fin(k), i);
    }
  }

  /** The way of k through an inner node: es0 is es with an INF entry made if k is above all ids, i is
      where k goes, and c is what is resident there. */
  ghost predicate WayDown(es: seq<Entry>, es0: seq<Entry>, i: nat, c: seq<Entry>, k: string) {
    && !IsLeaf(es) && !IsLeaf(es0) && es0 == FindOrCreateLowerBound(es, k)
    && i == LowerBound(es, Fin(k)) == LowerBound(es0, Fin(k)) < |es0| && es0[i].id != Fin(k)
    && (i < |es| ==> es0 == es) && (i == |es| ==> es0[i] == INF_ENTRY)
    && Loose(es0) && Sorted(Flat(es0)) && Flat(es0) == Flat(es) && InnerKeys(es0) == InnerKeys(es)
    && c == EntriesOf(es0[i].child) && Loose(c) && Sorted(Flat(c))
  }

  lemma {:induction false} FindWay(es: seq<Entry>, k: string) returns (es0: seq<Entry>, i: nat, c: seq<Entry>)
    requires Loose(es) && Sorted(Flat(es)) && !IsLeaf(es)
    requires var i := LowerBound(es, Fin(k)); i < |es| ==> es[i].id != Fin(k)
    ensures WayDown(es, es0, i, c, k)
  {
    es0, i := FindOrCreateLowerBound(es, k), LowerBound(es, Fin(k));
    FindOrCreateInOrder(es, k);
    SortedAt(es0, i);
    assert LooseLink(es0[i]);
    c := EntriesOf(es0[i].child);
  }

  /** The step of Node::insert at an inner node, spelt out: the node before its own split is the
      old one with the child's replacement spliced in. */
  lemma {:induction false} InsertStep(
      es: seq<Entry>, es0: seq<Entry>, i: nat, c: seq<Entry>, r: Outcome, k: string, v: string, maxSize: nat)
    requires WayDown(es, es0, i, c, k) && r == Insert(c, k, v, maxSize)
    requires InsertedInOrder(c, r, k, v, k in InnerKeys(c))
    ensures OnPath(es0, i, r, k, v, k in InnerKeys(c))
    ensures Insert(es, k, v, maxSize) ==
            Split(es0[..i] + Replacement(es0[i], r) + es0[i + 1..], r.removed + HashBag(es0[i].hash), maxSize)
  {
    AbsorbPlace(es0, i, r, k, v, k in InnerKeys(c));
    InsertDescends(es, es0, i, c, k, v, maxSize);
  }

  /** A child that is missing is inserted into like an empty node. */
  lemma {:induction false} InsertDescends(
      es: seq<Entry>, es0: seq<Entry>, i: nat, c: seq<Entry>, k: string, v: string, maxSize: nat)
    requires WayDown(es, es0, i, c, k)
    ensures var r := Insert(c, k, v, maxSize);
            Insert(es, k, v, maxSize) == Split(Absorb(es0, i, r), r.removed + HashBag(es0[i].hash), maxSize)
  {
    assert IsLeaf([]);
  }

  lemma {:induction false} StepInOrder(
      es: seq<Entry>, i: nat, r: Outcome, k: string, v: string, maxSize: nat, overwrite: bool,
      gone: multiset<nat>)
    requires maxSize >= 2 && Loose(es) && LooseOutcome(r) && OnPath(es, i, r, k, v, overwrite)
    ensures var r' := Split(es[..i] + Replacement(es[i], r) + es[i + 1..], gone, maxSize);
            InsertedInOrder(es, r', k, v, overwrite) && LooseOutcome(r')
  {
    AbsorbPlace(es, i, r, k, v, overwrite);
    AbsorbFlat(es, i, r, k, v, overwrite);
    ReplacementLoose(es, i, r);
    SplitInOrder(es[..i] + Replacement(es[i], r) + es[i + 1..], gone, maxSize);
  }

  /** Node::insert puts k into the traversal and touches nothing else; a value that is there
      already is replaced exactly if its key sits above the leaves. */
  lemma {:induction false} InsertInOrder(es: seq<Entry>, k: string, v: string, maxSize: nat)
    requires maxSize >= 2 && Loose(es) && Sorted(Flat(es))
    ensures InsertedInOrder(es, Insert(es, k, v, maxSize), k, v, k in InnerKeys(es))
    ensures LooseOutcome(Insert(es, k, v, maxSize))
    decreases es
  {
    var i := LowerBound(es, Fin(k));
    if IsLeaf(es) {
      LeafInOrder(es, k, v, maxSize);
    } else if i < |es| && es[i].id == Fin(k) {
      OverwriteInOrder(es, i, k, v, maxSize);
    } else {
      var es0, j, c := FindWay(es, k);
      if es0[j].child.Node? {
        InsertInOrder(c, k, v, maxSize);
      } else {
        LeafInOrder([], k, v, maxSize);
      }
      DescendInOrder(es, es0, j, c, Insert(c, k, v, maxSize), k, v, maxSize);
    }
  }

  lemma {:induction false} OverwriteInOrder(es: seq<Entry>, i: nat, k: string, v: string, maxSize: nat)
    requires Loose(es) && Sorted(Flat(es)) && !IsLeaf(es)
    requires i == LowerBound(es, Fin(k)) < |es| && es[i].id == Fin(k)
    ensures InsertedInOrder(es, Insert(es, k, v, maxSize), k, v, k in InnerKeys(es))
    ensures LooseOutcome(Insert(es, k, v, maxSize))
  {
    InnerKeysDescend(es, k);
    OverwriteIsPut(es, k, v);
    assert es[i := es[i].(value := v)] == es[..i] + [es[i].(value := v)] + es[i + 1..];
    assert LooseLink(es[i]);
    SpliceLoose(es, i, [es[i].(value := v)]);
  }

  lemma {:induction false} DescendInOrder(
      es: seq<Entry>, es0: seq<Entry>, i: nat, c: seq<Entry>, r: Outcome, k: string, v: string, maxSize: nat)
    requires maxSize >= 2 && WayDown(es, es0, i, c, k) && r == Insert(c, k, v, maxSize)
    requires InsertedInOrder(c, r, k, v, k in InnerKeys(c)) && LooseOutcome(r)
    ensures InsertedInOrder(es, Insert(es, k, v, maxSize), k, v, k in InnerKeys(es))
    ensures LooseOutcome(Insert(es, k, v, maxSize))
  {
    InnerKeysDescend(es0, k);
    InsertStep(es, es0, i, c, r, k, v, maxSize);
    StepInOrder(es0, i, r, k, v, maxSize, k in InnerKeys(es), r.removed + HashBag(es0[i].hash));
    SameOrder(es0, es, Insert(es, k, v, maxSize), k, v, k in InnerKeys(es));
  }

  lemma {:induction false} SameOrder(es0: seq<Entry>, es: seq<Entry>, r: Outcome, k: string, v: string, overwrite: bool)
    requires InsertedInOrder(es0, r, k, v, overwrite) && Flat(es0) == Flat(es)
    ensures InsertedInOrder(es, r, k, v, overwrite)
  {
  }

  /** The step at an inner node of any tree in order. */
  lemma {:induction false} WayStep(
      es: seq<Entry>, es0: seq<Entry>, i: nat, c: seq<Entry>, r: Outcome, k: string, v: string, maxSize: nat)
    requires maxSize >= 2 && WayDown(es, es0, i, c, k) && r == Insert(c, k, v, maxSize)
    ensures OnPath(es0, i, r, k, v, k in InnerKeys(c))
    ensures Insert(es, k, v, maxSize) ==
            Split(es0[..i] + Replacement(es0[i], r) + es0[i + 1..], r.removed + HashBag(es0[i].hash), maxSize)
  {
    InsertInOrder(c, k, v, maxSize);
    InsertStep(es, es0, i, c, r, k, v, maxSize);
  }

  /** What the object-level insert needs to know at an inner node: where it descends, what it has
      to do afterwards, and that insert_node's assertions will hold. */
  lemma {:induction false} InnerStep(es: seq<Entry>, k: string, v: string, maxSize: nat)
    requires maxSize >= 2 && Loose(es) && Sorted(Flat(es)) && !IsLeaf(es)
    requires var i := LowerBound(es, Fin(k)); i < |es| ==> es[i].id != Fin(k)
    ensures var i := LowerBound(es, Fin(k));
            var es0 := FindOrCreateLowerBound(es, k);
            i < |es0| && es0[i].id != Fin(k)
              && Descends(es, es0[i := es0[i].(child := Node(EntriesOf(es0[i].child)))], i, k, v, maxSize)
  {
    var es0, i, c := FindWay(es, k);
    var r := Insert(c, k, v, maxSize);
    WayStep(es, es0, i, c, r, k, v, maxSize);
    DescendsInto(es, es0, i, k, v, maxSize, c, r);
  }

  lemma {:induction false} DescendsInto(
      es: seq<Entry>, es0: seq<Entry>, i: nat, k: string, v: string, maxSize: nat, c: seq<Entry>, r: Outcome)
    requires i < |es0| && c == EntriesOf(es0[i].child) && Loose(c) && Sorted(Flat(c)) && r == Insert(c, k, v, maxSize)
    requires OnPath(es0, i, r, k, v, k in InnerKeys(c))
    requires Insert(es, k, v, maxSize) ==
        Split(es0[..i] + Replacement(es0[i], r) + es0[i + 1..], r.removed + HashBag(es0[i].hash), maxSize)
    ensures Descends(es, es0[i := es0[i].(child := Node(c))], i, k, v, maxSize)
  {
    PlaceAt(es0, i, c, r, k, v);
  }

  lemma {:induction false} PlaceAt(es0: seq<Entry>, i: nat, c: seq<Entry>, r: Outcome, k: string, v: string)
    requires i < |es0| && c == EntriesOf(es0[i].child) && OnPath(es0, i, r, k, v, k in InnerKeys(c))
    ensures var es1 := es0[i := es0[i].(child := Node(c))];
            && Absorb(es1, i, r) == es0[..i] + Replacement(es0[i], r) + es0[i + 1..]
            && (r.up.Node? ==> CanPlace(es1[i := es1[i].(child := Node(r.self), hash := NoHash)], i, r.up.entries))
  {
    AbsorbPlace(es0, i, r, k, v, k in InnerKeys(c));
    var es1 := es0[i := es0[i].(child := Node(c))];
    var e := es0[i].(child := Node(r.self), hash := NoHash);
    assert es1[i := e] == es0[i := e];
  }

  /** Inserting into es goes through the child at i of es1, which is es with a child made there. */
  ghost predicate Descends(es: seq<Entry>, es1: seq<Entry>, i: nat, k: string, v: string, maxSize: nat) {
    && i < |es1| && es1[i].child.Node?
    && Loose(es1[i].child.entries) && Sorted(Flat(es1[i].child.entries))
    && var r := Insert(es1[i].child.entries, k, v, maxSize);
       && Insert(es, k, v, maxSize) == Split(Absorb(es1, i, r), r.removed + HashBag(es1[i].hash), maxSize)
       && (r.up.Node? ==> CanPlace(es1[i := es1[i].(child := Node(r.self), hash := NoHash)], i, r.up.entries))
  }

  /** insert_node can put the two-entry node up at position i. */
  predicate CanPlace(es: seq<Entry>, i: nat, up: seq<Entry>) {
    && |up| == 2 && up[0].child.Node? && up[1].child.Node?
    && i < |es| && LowerBound(es, up[0].id) == i && es[i].id != up[0].id && es[i].child.Node?
  }
}
