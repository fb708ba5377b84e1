/** Node::insert, Node::split and Node::insert_node on node values, and what they do to the
    map that a tree stands for. */
module Insertion {
  import opened Keys
  import opened Tree

  /** What Node::insert leaves behind: the entries that stay in the node, the two-entry node it
      hands up (Nil is boost::none), and the hashes passed to try_remove. */
  datatype Outcome = Outcome(self: seq<Entry>, up: Tree, removed: multiset<nat>)

  function HashBag(h: Hash): multiset<nat> {
    match h
    case NoHash => multiset{}
    case Id(n) => multiset{n}
  }

  /** The node that Node::split returns: the median over the left half, INF over the right half.
      The median's old child becomes the left half's INF child; its link has no hash. */
  function Halves(es: seq<Entry>): seq<Entry>
    requires 0 < Size(es)
  {
    var m := Size(es) / 2;
    var left := es[..m] + [Entry(Inf, "", es[m].child, NoHash)];
    var median := Entry(es[m].id, es[m].value, Node(left), NoHash);
    if m + 1 < |es| then [median, Entry(Inf, "", Node(es[m + 1..]), NoHash)] else [median]
  }

  function Split(es: seq<Entry>, removed: multiset<nat>, maxSize: nat): Outcome {
    if Size(es) <= maxSize then Outcome(es, Nil, removed)
    else Outcome([], Node(Halves(es)), removed + HashBag(es[Size(es) / 2].hash))
  }

  /** Node::insert_node: the median entry of n goes in front of the entry whose child was split,
      and that child gets the right half. */
  function InsertNode(es: seq<Entry>, n: seq<Entry>): seq<Entry> {
    if n == [] then es else
    var j := LowerBound(es, n[0].id);
    if |n| == 2 && j < |es| then es[..j] + [n[0], es[j].(child := n[1].child)] + es[j + 1..] else es
  }

  /** Node::find_or_create_lower_bound. */
  function FindOrCreateLowerBound(es: seq<Entry>, k: string): seq<Entry> {
    if LowerBound(es, Fin(k)) == |es| then es + [INF_ENTRY] else es
  }

  /** The node after its child at position i has been inserted into, before its own split. */
  function Absorb(es: seq<Entry>, i: nat, r: Outcome): seq<Entry>
    requires i < |es|
  {
    var es1 := es[i := es[i].(child := Node(r.self), hash := NoHash)];
    if r.up.Nil? then es1 else InsertNode(es1, r.up.entries)
  }

  function InsertIntoLeaf(es: seq<Entry>, k: string, v: string, maxSize: nat): Outcome {
    Split(MapInsert(es, Entry(Fin(k), v, Nil, NoHash)), multiset{}, maxSize)
  }

  /** Node::insert. */
  function Insert(es: seq<Entry>, k: string, v: string, maxSize: nat): Outcome
    decreases es
  {
    if IsLeaf(es) then
      InsertIntoLeaf(es, k, v, maxSize)
    else
      var i := LowerBound(es, Fin(k));
      if i < |es| && es[i].id == Fin(k) then
        Outcome(es[i := es[i].(value := v)], Nil, multiset{})
      else
        var r := if i < |es| && es[i].child.Node? then Insert(es[i].child.entries, k, v, maxSize)
                 else InsertIntoLeaf([], k, v, maxSize);
        var es0 := FindOrCreateLowerBound(es, k);
        Split(Absorb(es0, i, r), r.removed + HashBag(es0[i].hash), maxSize)
  }
}
