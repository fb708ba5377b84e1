/** What Node::min_max_depth, check_invariants and every_node_has_hash decide, node by node. */
module Checked {
  import opened Keys
  import opened Tree
  import opened Invariants
  import opened Storage

  /** The resident node reached by these entries' children, one after the other, or Nil. */
  function NodeAt(es: seq<Entry>, path: seq<nat>): Tree
    decreases |path|
  {
    if path == [] then Node(es)
    else if path[0] < |es| && es[path[0]].child.Node? then NodeAt(es[path[0]].child.entries, path[1..])
    else Nil
  }

  predicate LeafAt(es: seq<Entry>, path: seq<nat>) {
    NodeAt(es, path).Node? && IsLeaf(NodeAt(es, path).entries)
  }

  lemma {:induction false} DownOne(es: seq<Entry>, i: nat, path: seq<nat>)
    requires i < |es| && es[i].child.Node?
    ensures NodeAt(es, [i] + path) == NodeAt(es[i].child.entries, path)
  {
    assert ([i] + path)[0] == i && ([i] + path)[1..] == path;
  }

  // ----- depths -----

  lemma {:induction false} DepthCovers(es: seq<Entry>, i: nat)
    requires i < |es| && es[i].child.Node?
    ensures var d := DepthsBelow(es);
            var (min, max) := MinMaxDepth(es[i].child.entries);
            d.Depths? && d.min <= min + 1 && max + 1 <= d.max
  {
    if i > 0 {
      DepthCovers(es[1..], i - 1);
    }
  }

  lemma {:induction false} DepthReached(es: seq<Entry>) returns (i: nat, j: nat)
    requires DepthsBelow(es).Depths?
    ensures i < |es| && es[i].child.Node? && MinMaxDepth(es[i].child.entries).0 + 1 == DepthsBelow(es).min
    ensures j < |es| && es[j].child.Node? && MinMaxDepth(es[j].child.entries).1 + 1 == DepthsBelow(es).max
  {
    i, j := 0, 0;
    if DepthsBelow(es[1..]).Depths? {
      var i1, j1 := DepthReached(es[1..]);
      if es[0].child.Nil? || DepthsBelow(es[1..]).min == DepthsBelow(es).min {
        i := i1 + 1;
      }
      if es[0].child.Nil? || DepthsBelow(es[1..]).max == DepthsBelow(es).max {
        j := j1 + 1;
      }
    }
  }

  lemma {:induction false} LeafWithin(es: seq<Entry>, path: seq<nat>)
    requires LeafAt(es, path)
    ensures MinMaxDepth(es).0 <= |path| + 1 <= MinMaxDepth(es).1
    decreases |path|
  {
    if path == [] {
      NoChildNoDepth(es);
    } else {
      LeafWithin(es[path[0]].child.entries, path[1..]);
      DepthCovers(es, path[0]);
    }
  }

  lemma {:induction false} DepthIsALeafs(es: seq<Entry>) returns (p: seq<nat>, q: seq<nat>)
    ensures LeafAt(es, p) && |p| + 1 == MinMaxDepth(es).0
    ensures LeafAt(es, q) && |q| + 1 == MinMaxDepth(es).1
    decreases es
  {
    if DepthsBelow(es).Depths? {
      var i, j := DepthReached(es);
      var p1, _ := DepthIsALeafs(es[i].child.entries);
      var _, q1 := DepthIsALeafs(es[j].child.entries);
      DownOne(es, i, p1);
      DownOne(es, j, q1);
      p, q := [i] + p1, [j] + q1;
    } else {
      NoChildren(es);
      p, q := [], [];
    }
  }

  lemma {:induction false} NoChildren(es: seq<Entry>)
    requires DepthsBelow(es).NoChild?
    ensures IsLeaf(es)
  {
    forall i | 0 <= i < |es|
      ensures es[i].child.Nil?
    {
      if es[i].child.Node? {
        DepthCovers(es, i);
      }
    }
  }

  /** min_max_depth gives the depth of the highest and of the lowest node without a resident child. */
  lemma {:induction false} DepthsOfLeaves(es: seq<Entry>)
    ensures forall path :: LeafAt(es, path) ==> MinMaxDepth(es).0 <= |path| + 1 <= MinMaxDepth(es).1
    ensures exists path :: LeafAt(es, path) && |path| + 1 == MinMaxDepth(es).0
    ensures exists path :: LeafAt(es, path) && |path| + 1 == MinMaxDepth(es).1
  {
    forall path | LeafAt(es, path)
      ensures MinMaxDepth(es).0 <= |path| + 1 <= MinMaxDepth(es).1
    {
      LeafWithin(es, path);
    }
    var p, q := DepthIsALeafs(es);
  }

  // ----- check_invariants -----

  /** What is asked of a single node: its size, and that every separator is above the keys of the node
      right below it. */
  predicate NodeOk(es: seq<Entry>, maxSize: nat) {
    && Size(es) <= maxSize
    && forall i :: 0 <= i < |es| && es[i].child.Node? ==> KeysBelow(es[i].child.entries, es[i].id)
  }

  predicate KeysBelow(es: seq<Entry>, id: NodeId) {
    forall j :: 0 <= j < |es| && es[j].id.Fin? ==> IdLess(es[j].id, id)
  }

  ghost predicate LeavesLevel(es: seq<Entry>) {
    forall p, q :: LeafAt(es, p) && LeafAt(es, q) ==> |p| == |q|
  }

  ghost predicate NodesOk(es: seq<Entry>, maxSize: nat) {
    forall path :: NodeAt(es, path).Node? ==> NodeOk(NodeAt(es, path).entries, maxSize)
  }

  lemma {:induction false} CheckedNode(es: seq<Entry>, maxSize: nat, path: seq<nat>)
    requires CheckInvariants(es, maxSize) && NodeAt(es, path).Node?
    ensures NodeOk(NodeAt(es, path).entries, maxSize)
    decreases |path|
  {
    if path == [] {
    } else {
      CheckedNode(es[path[0]].child.entries, maxSize, path[1..]);
    }
  }

  lemma {:induction false} CheckedChild(es: seq<Entry>, maxSize: nat, i: nat)
    requires NodesOk(es, maxSize) && LeavesLevel(es) && i < |es| && es[i].child.Node?
    ensures NodesOk(es[i].child.entries, maxSize) && LeavesLevel(es[i].child.entries)
  {
    var c := es[i].child.entries;
    forall path | NodeAt(c, path).Node?
      ensures NodeOk(NodeAt(c, path).entries, maxSize)
    {
      DownOne(es, i, path);
      assert NodeAt(es, [i] + path).Node?;
    }
    forall p, q | LeafAt(c, p) && LeafAt(c, q)
      ensures |p| == |q|
    {
      DownOne(es, i, p);
      DownOne(es, i, q);
      assert LeafAt(es, [i] + p) && LeafAt(es, [i] + q);
      assert |[i] + p| == |[i] + q|;
    }
  }

  lemma {:induction false} NodesAreChecked(es: seq<Entry>, maxSize: nat)
    requires NodesOk(es, maxSize) && LeavesLevel(es)
    ensures CheckInvariants(es, maxSize)
    decreases es
  {
    assert NodeAt(es, []).Node?;
    DepthsOfLeaves(es);
    forall i | 0 <= i < |es| && es[i].child.Node?
      ensures CheckInvariants(es[i].child.entries, maxSize)
      ensures KeysBelow(es[i].child.entries, es[i].id)
    {
      CheckedChild(es, maxSize, i);
      NodesAreChecked(es[i].child.entries, maxSize);
    }
  }

  /** check_invariants accepts a tree exactly if no node is too big, every separator is above the keys
      of the node right below it, and all nodes without a resident child are at the same depth. */
  lemma {:induction false} CheckIsNodeByNode(es: seq<Entry>, maxSize: nat)
    ensures CheckInvariants(es, maxSize) <==> NodesOk(es, maxSize) && LeavesLevel(es)
  {
    if CheckInvariants(es, maxSize) {
      forall path | NodeAt(es, path).Node?
        ensures NodeOk(NodeAt(es, path).entries, maxSize)
      {
        CheckedNode(es, maxSize, path);
      }
      DepthsOfLeaves(es);
    }
    if NodesOk(es, maxSize) && LeavesLevel(es) {
      NodesAreChecked(es, maxSize);
    }
  }

  // ----- every_node_has_hash -----

  predicate LinksHashed(es: seq<Entry>) {
    forall i :: 0 <= i < |es| && es[i].child.Node? ==> es[i].hash.Id?
  }

  ghost predicate EveryLinkHashed(es: seq<Entry>) {
    forall path :: NodeAt(es, path).Node? ==> LinksHashed(NodeAt(es, path).entries)
  }

  lemma {:induction false} HashedNode(es: seq<Entry>, path: seq<nat>)
    requires AllHashed(es) && NodeAt(es, path).Node?
    ensures LinksHashed(NodeAt(es, path).entries)
    decreases |path|
  {
    if path == [] {
    } else {
      HashedNode(es[path[0]].child.entries, path[1..]);
    }
  }

  lemma {:induction false} NodesAreHashed(es: seq<Entry>)
    requires EveryLinkHashed(es)
    ensures AllHashed(es)
    decreases es
  {
    assert NodeAt(es, []).Node?;
    forall i | 0 <= i < |es| && es[i].child.Node?
      ensures AllHashed(es[i].child.entries)
    {
      var c := es[i].child.entries;
      forall path | NodeAt(c, path).Node?
        ensures LinksHashed(NodeAt(c, path).entries)
      {
        DownOne(es, i, path);
        assert NodeAt(es, [i] + path).Node?;
      }
      NodesAreHashed(c);
    }
  }

  /** every_node_has_hash tells whether at every resident node all links to resident nodes have one. */
  lemma {:induction false} HashedIsNodeByNode(es: seq<Entry>)
    ensures AllHashed(es) <==> EveryLinkHashed(es)
  {
    if AllHashed(es) {
      forall path | NodeAt(es, path).Node?
        ensures LinksHashed(NodeAt(es, path).entries)
      {
        HashedNode(es, path);
      }
    }
    if EveryLinkHashed(es) {
      NodesAreHashed(es);
    }
  }
}
