/** What the recursions and loops over node objects rely on: how far Node::insert can descend, and
    how far the loop of Node::store has come. */
module Progress {
  import opened Keys
  import opened Tree
  import opened Insertion
  import opened Codec
  import opened Storage

  /** The number of node levels, resident ones only: what bounds the recursion of insert. */
  function Tall(es: seq<Entry>): (n: nat)
    ensures n >= 1
    decreases es
  {
    if es == [] then 1 else Max(1 + TallLink(es[0]), Tall(es[1..]))
  }

  function TallLink(e: Entry): nat
    decreases e
  {
    match e.child
    case Nil => 0
    case Node(es) => Tall(es)
  }

  lemma {:induction false} TallAt(es: seq<Entry>, i: nat)
    requires i < |es|
    ensures TallLink(es[i]) < Tall(es)
  {
    if i == 0 {
    } else {
      TallAt(es[1..], i - 1);
    }
  }

  lemma {:induction false} TallBound(es: seq<Entry>, n: nat)
    requires n >= 1 && forall i :: 0 <= i < |es| ==> TallLink(es[i]) < n
    ensures Tall(es) <= n
  {
    if es == [] {
    } else {
      assert forall i :: 0 <= i < |es[1..]| ==> es[1..][i] == es[i + 1];
      TallBound(es[1..], n);
    }
  }

  /** Making room on the search path does not add levels to a node that is not a leaf. */
  lemma {:induction false} TallPath(es: seq<Entry>, k: string)
    requires !IsLeaf(es)
    ensures var es0 := FindOrCreateLowerBound(es, k);
            var i := LowerBound(es, Fin(k));
            i < |es0| && Tall(es0[i := es0[i].(child := Node(EntriesOf(es0[i].child)))]) <= Tall(es)
  {
    var es0 := FindOrCreateLowerBound(es, k);
    var i := LowerBound(es, Fin(k));
    var es1 := es0[i := es0[i].(child := Node(EntriesOf(es0[i].child)))];
    var x :| 0 <= x < |es| && es[x].child.Node?;
    TallAt(es, x);
    assert Tall([]) == 1;
    forall j | 0 <= j < |es1|
      ensures TallLink(es1[j]) < Tall(es)
    {
      if j < |es| {
        TallAt(es, j);
      }
    }
    TallBound(es1, Tall(es));
  }

  // ----- the loop of Node::store on values -----

  /** After i rounds of storing es from s0: the entries so far, the storage and the JSON object. */
  ghost predicate Storing(es: seq<Entry>, s0: Store, m: seq<Entry>, i: nat, s: Store, json: Blob) {
    && i <= |m| == |es| && m[i..] == es[i..]
    && json == Encode(m[..i])
    && var rest := StoreEntries(es[i..], s);
       StoreEntries(es, s0) == StoredEntries(m[..i] + rest.es, rest.store, rest.ok)
  }

  lemma {:induction false} StoringStarts(es: seq<Entry>, s0: Store)
    ensures Storing(es, s0, es, 0, s0, [])
  {
    assert es[0..] == es && es[..0] == [];
    var rest := StoreEntries(es, s0);
    assert [] + rest.es == rest.es;
  }

  lemma {:induction false} StoringStep(es: seq<Entry>, s0: Store, m: seq<Entry>, i: nat, s: Store, json: Blob)
    requires Storing(es, s0, m, i, s, json) && i < |m|
    ensures m[i] == es[i]
    ensures var r := StoreLink(m[i], s);
            && |r.es| == 1
            && (r.ok ==> Storing(es, s0, m[i := r.es[0]], i + 1, r.store, EncodeEntry(json, r.es[0])))
            && (!r.ok ==> StoreNode(es, s0) == StoredNode(m[i := r.es[0]], r.store, NoHash))
  {
    assert m[i] == m[i..][0] && es[i] == es[i..][0];
    var r := StoreLink(m[i], s);
    StoreLinkKeeps(m[i], s);
    var m' := m[i := r.es[0]];
    assert es[i..][1..] == es[i + 1..] && m[i..][1..] == m[i + 1..];
    if r.ok {
      var rest := StoreEntries(es[i + 1..], r.store);
      assert m'[..i + 1] == m[..i] + r.es;
      assert m[..i] + (r.es + rest.es) == m'[..i + 1] + rest.es;
      assert m'[..i + 1][..i] == m[..i];
    } else {
      assert m[..i] + (r.es + es[i + 1..]) == m';
    }
  }

  lemma {:induction false} StoringAt(es: seq<Entry>, s0: Store, m: seq<Entry>, i: nat, s: Store, json: Blob)
    requires Storing(es, s0, m, i, s, json) && i < |m|
    ensures |m| == |es| && m[i] == es[i] && TallLink(m[i]) < Tall(es)
  {
    assert m[i] == m[i..][0] && es[i] == es[i..][0];
    TallAt(es, i);
  }

  lemma {:induction false} StoringEnds(es: seq<Entry>, s0: Store, m: seq<Entry>, s: Store, json: Blob)
    requires Storing(es, s0, m, |m|, s, json)
    ensures var (s', h) := Add(s, json);
            StoreNode(es, s0) == StoredNode(m, s', h)
  {
    assert es[|m|..] == [] && m[..|m|] == m && m + [] == m;
  }
}
