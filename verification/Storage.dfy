/** The add/cat/remove storage, how a tree's links refer to it, and Node::store. */
module Storage {
  import opened Tree
  import opened Insertion
  import opened Shape
  import opened Codec

  /** The storage with fresh ids: its blobs, the next id, and how many more add operations it
      accepts before one fails. */
  datatype Store = Store(blobs: map<nat, Blob>, next: nat, credit: nat)

  function Add(s: Store, b: Blob): (Store, Hash) {
    if s.credit == 0 then (s, NoHash)
    else (Store(s.blobs[s.next := b], s.next + 1, s.credit - 1), Id(s.next))
  }

  // ----- the links of a tree -----

  function LinkBag(e: Entry): multiset<nat>
    decreases e
  {
    HashBag(e.hash) +
    match e.child
    case Nil => multiset{}
    case Node(es) => Bag(es)
  }

  /** All hashes held in the links of a tree, with multiplicity. */
  function Bag(es: seq<Entry>): multiset<nat>
    decreases es
  {
    if es == [] then multiset{} else LinkBag(es[0]) + Bag(es[1..])
  }

  /** Node::every_node_has_hash. */
  predicate AllHashed(es: seq<Entry>)
    decreases es
  {
    && (forall i :: 0 <= i < |es| && es[i].child.Node? ==> es[i].hash.Id?)
    && (forall i :: 0 <= i < |es| && es[i].child.Node? ==> AllHashed(es[i].child.entries))
  }

  /** Agreement between a resident tree and the blobs: a link with a hash has a resident child
      whose encoding, as it is now, is the blob under that hash, and below it every link is
      hashed too. */
  ghost predicate Agree(es: seq<Entry>, blobs: map<nat, Blob>)
    decreases es
  {
    forall i :: 0 <= i < |es| ==> AgreeLink(es[i], blobs)
  }

  ghost predicate AgreeLink(e: Entry, blobs: map<nat, Blob>)
    decreases e
  {
    match e.child
    case Nil => e.hash.NoHash?
    case Node(es) => Agree(es, blobs) && (e.hash.Id? ==> HashAgrees(e.hash, es, blobs))
  }

  ghost predicate HashAgrees(h: Hash, es: seq<Entry>, blobs: map<nat, Blob>)
    requires h.Id?
  {
    h.n in blobs && blobs[h.n] == Encode(es) && AllHashed(es)
  }

  lemma {:induction false} BagConcat(a: seq<Entry>, b: seq<Entry>)
    ensures Bag(a + b) == Bag(a) + Bag(b)
  {
    if a == [] {
      assert a + b == b;
    } else {
      assert (a + b)[0] == a[0] && (a + b)[1..] == a[1..] + b;
      BagConcat(a[1..], b);
    }
  }

  lemma {:induction false} BagOne(e: Entry)
    ensures Bag([e]) == LinkBag(e)
  {
    assert [e][1..] == [];
  }

  lemma {:induction false} BagReplace(es: seq<Entry>, i: nat, mid: seq<Entry>)
    requires i < |es|
    ensures Bag(es[..i] + mid + es[i + 1..]) == Bag(es[..i]) + Bag(mid) + Bag(es[i + 1..])
  {
    BagConcat(es[..i] + mid, es[i + 1..]);
    BagConcat(es[..i], mid);
  }

  lemma {:induction false} BagAt(es: seq<Entry>, i: nat)
    requires i < |es|
    ensures Bag(es) == Bag(es[..i]) + LinkBag(es[i]) + Bag(es[i + 1..])
  {
    var tail := es[i..];
    assert es == es[..i] + tail && tail[1..] == es[i + 1..];
    BagConcat(es[..i], tail);
    assert Bag(tail) == LinkBag(es[i]) + Bag(es[i + 1..]);
  }

  /** Agreement depends only on the blobs that the tree's own links name. */
  lemma {:induction false} AgreeFrame(es: seq<Entry>, b: map<nat, Blob>, b': map<nat, Blob>)
    requires Agree(es, b)
    requires forall h :: h in Bag(es) ==> h in b' && (h in b ==> b'[h] == b[h])
    ensures Agree(es, b')
    decreases es
  {
    forall i | 0 <= i < |es|
      ensures AgreeLink(es[i], b')
    {
      BagAt(es, i);
      var e := es[i];
      assert AgreeLink(e, b);
      match e.child
      case Nil =>
      case Node(c) =>
        assert forall h :: h in Bag(c) ==> h in Bag(es);
        AgreeFrame(c, b, b');
        if e.hash.Id? {
          assert e.hash.n in HashBag(e.hash) && e.hash.n in Bag(es);
        }
    }
  }

  /** Every child hash in the blob of a node is the hash of one of its links. */
  lemma {:induction false} EncodedLinks(es: seq<Entry>)
    ensures forall i :: 0 <= i < |Encode(es)| && Encode(es)[i].child.Id? ==>
      exists j :: 0 <= j < |es| && es[j].hash == Encode(es)[i].child
  {
    if es == [] {
    } else {
      var rest, e := es[..|es| - 1], es[|es| - 1];
      EncodedLinks(rest);
      var b := Encode(rest);
      forall i | 0 <= i < |b| && b[i].child.Id?
        ensures exists j :: 0 <= j < |es| && es[j].hash == b[i].child
      {
        var j :| 0 <= j < |rest| && rest[j].hash == b[i].child;
        assert es[j].hash == b[i].child;
      }
      assert e.hash == es[|es| - 1].hash;
      EntryLinks(b, e);
    }
  }

  lemma {:induction false} EntryLinks(b: Blob, e: Entry)
    ensures forall i :: 0 <= i < |EncodeEntry(b, e)| && EncodeEntry(b, e)[i].child.Id? ==>
      EncodeEntry(b, e)[i].child == e.hash || exists j :: 0 <= j < |b| && b[j].child == EncodeEntry(b, e)[i].child
  {
    var k := if e.id.Fin? then CStr(e.id.key) else "";
    SetLinks(b, k, Str(e.value), NoHash);
    SetLinks(if e.id.Fin? then JsonSet(b, k, Str(e.value), NoHash) else b, k, Absent, e.hash);
  }

  lemma {:induction false} SetLinks(b: Blob, k: string, value: Field, child: Hash)
    ensures var b1 := JsonSet(b, k, value, child);
            forall i :: 0 <= i < |b1| && b1[i].child.Id? ==>
              b1[i].child == child || exists j :: 0 <= j < |b| && b[j].child == b1[i].child
  {
  }

  /** A hash held in a link of an agreeing tree names the blob of an agreeing node. */
  lemma {:induction false} LinkedNode(es: seq<Entry>, b: map<nat, Blob>, h: nat) returns (n: seq<Entry>)
    requires Agree(es, b) && h in Bag(es)
    ensures h in b && b[h] == Encode(n) && AllHashed(n) && Agree(n, b)
    decreases es
  {
    assert AgreeLink(es[0], b);
    assert Agree(es[1..], b);
    if h in Bag(es[1..]) {
      n := LinkedNode(es[1..], b, h);
    } else {
      var e := es[0];
      assert h in LinkBag(e);
      if e.hash == Id(h) {
        n := e.child.entries;
      } else {
        n := LinkedNode(e.child.entries, b, h);
      }
    }
  }

  lemma {:induction false} AgreeIsLive(es: seq<Entry>, b: map<nat, Blob>, h: nat)
    requires Agree(es, b) && h in Bag(es)
    ensures h in b
  {
    var n := LinkedNode(es, b, h);
  }

  ghost predicate ChildrenLive(blob: Blob, b: map<nat, Blob>) {
    forall i :: 0 <= i < |blob| && blob[i].child.Id? ==> blob[i].child.n in b
  }

  /** The children named in the blob of an agreeing node are stored. */
  lemma {:induction false} ChildrenAreLive(n: seq<Entry>, b: map<nat, Blob>)
    requires Agree(n, b)
    ensures ChildrenLive(Encode(n), b)
  {
    EncodedLinks(n);
    forall i | 0 <= i < |Encode(n)| && Encode(n)[i].child.Id?
      ensures Encode(n)[i].child.n in b
    {
      var j :| 0 <= j < |n| && n[j].hash == Encode(n)[i].child;
      assert AgreeLink(n[j], b);
    }
  }

  // ----- Node::store -----

  datatype StoredEntries = StoredEntries(es: seq<Entry>, store: Store, ok: bool)
  datatype StoredNode = StoredNode(es: seq<Entry>, store: Store, hash: Hash)

  /** The loop of Node::store: it stops at the first child that fails. */
  function StoreEntries(es: seq<Entry>, s: Store): StoredEntries
    decreases es, 0
  {
    if es == [] then StoredEntries([], s, true) else
    var first := StoreLink(es[0], s);
    if first.ok then
      var rest := StoreEntries(es[1..], first.store);
      StoredEntries(first.es + rest.es, rest.store, rest.ok)
    else StoredEntries(first.es + es[1..], first.store, false)
  }

  function StoreLink(e: Entry, s: Store): StoredEntries
    decreases e
  {
    if e.hash.Id? || e.child.Nil? then StoredEntries([e], s, true) else
    var r := StoreNode(e.child.entries, s);
    StoredEntries([e.(child := Node(r.es), hash := r.hash)], r.store, r.hash.Id?)
  }

  /** Node::store: NoHash if an add operation failed. */
  function StoreNode(es: seq<Entry>, s: Store): StoredNode
    decreases es, 1
  {
    var r := StoreEntries(es, s);
    if !r.ok then StoredNode(r.es, r.store, NoHash) else
    var (s1, h) := Add(r.store, Encode(r.es));
    StoredNode(r.es, s1, h)
  }

  /** The links that store has to write: resident children without a hash, not looking below
      links that have one. */
  function Unhashed(es: seq<Entry>): nat
    decreases es
  {
    if es == [] then 0 else UnhashedAt(es[0]) + Unhashed(es[1..])
  }

  function UnhashedAt(e: Entry): nat
    decreases e
  {
    if e.hash.Id? then 0 else
    match e.child
    case Nil => 0
    case Node(es) => 1 + Unhashed(es)
  }

  /** Ids are handed out in order and a blob only names blobs stored before it. */
  ghost predicate StoreOk(s: Store) {
    && (forall h :: h in s.blobs ==> h < s.next)
    && Acyclic(s.blobs)
  }

  ghost predicate Acyclic(blobs: map<nat, Blob>) {
    forall h, i :: h in blobs && 0 <= i < |blobs[h]| && blobs[h][i].child.Id? ==> blobs[h][i].child.n < h
  }

  ghost predicate Extends(b: map<nat, Blob>, b': map<nat, Blob>) {
    forall h :: h in b ==> h in b' && b'[h] == b[h]
  }

  /** What a store, complete or cut short, has done to the entries and the storage: nothing but
      put hashes on links and add the blobs they name. */
  ghost predicate Progress(es: seq<Entry>, s: Store, es': seq<Entry>, s': Store) {
    && StoreOk(s')
    && Extends(s.blobs, s'.blobs)
    && Agree(es', s'.blobs)
    && multiset(s'.blobs.Keys) + Bag(es) == multiset(s.blobs.Keys) + Bag(es')
    && Flat(es') == Flat(es)
    && s.next <= s'.next
  }

  lemma {:induction false} EncodeChildren(es: seq<Entry>, limit: nat)
    requires forall i :: 0 <= i < |es| && es[i].hash.Id? ==> es[i].hash.n < limit
    ensures forall i :: 0 <= i < |Encode(es)| && Encode(es)[i].child.Id? ==> Encode(es)[i].child.n < limit
  {
    if es == [] {
    } else {
      var b, e := Encode(es[..|es| - 1]), es[|es| - 1];
      EncodeChildren(es[..|es| - 1], limit);
      var k := if e.id.Fin? then CStr(e.id.key) else "";
      if e.id.Fin? {
        JsonSetChildren(b, k, Str(e.value), NoHash, limit);
      }
      JsonSetChildren(if e.id.Fin? then JsonSet(b, k, Str(e.value), NoHash) else b, k, Absent, e.hash, limit);
    }
  }

  lemma {:induction false} JsonSetChildren(b: Blob, k: string, value: Field, child: Hash, limit: nat)
    requires forall i :: 0 <= i < |b| && b[i].child.Id? ==> b[i].child.n < limit
    requires child.Id? ==> child.n < limit
    ensures var b1 := JsonSet(b, k, value, child);
            forall i :: 0 <= i < |b1| && b1[i].child.Id? ==> b1[i].child.n < limit
  {
  }

  /** One add operation for a node whose links are all hashed. */
  lemma {:induction false} AddCorrect(es: seq<Entry>, s: Store)
    requires StoreOk(s) && Agree(es, s.blobs) && AllHashed(es)
    ensures var (s', h) := Add(s, Encode(es));
            && StoreOk(s') && Extends(s.blobs, s'.blobs) && Agree(es, s'.blobs)
            && (h.Id? <==> s.credit > 0)
            && (h.Id? ==> h.n !in s.blobs && HashAgrees(h, es, s'.blobs) && s'.credit == s.credit - 1)
            && multiset(s'.blobs.Keys) == multiset(s.blobs.Keys) + HashBag(h)
  {
    if s.credit > 0 {
      forall i | 0 <= i < |es| && es[i].hash.Id?
        ensures es[i].hash.n < s.next
      {
        assert AgreeLink(es[i], s.blobs);
      }
      EncodeChildren(es, s.next);
      var b' := s.blobs[s.next := Encode(es)];
      assert b'.Keys == s.blobs.Keys + {s.next};
      forall h | h in Bag(es)
        ensures h in s.blobs
      {
        AgreeIsLive(es, s.blobs, h);
      }
      AgreeFrame(es, s.blobs, b');
    }
  }

  /** Node::store, complete or cut short, from any state in which links and blobs agree. It
      succeeds exactly if the storage accepts one blob for every unhashed link and one for the
      node itself, and it adds exactly those. */
  lemma {:induction false} StoreNodeCorrect(es: seq<Entry>, s: Store)
    requires StoreOk(s) && Agree(es, s.blobs)
    ensures var r := StoreNode(es, s);
            && StoreOk(r.store) && Extends(s.blobs, r.store.blobs) && Agree(r.es, r.store.blobs)
            && multiset(r.store.blobs.Keys) + Bag(es) == multiset(s.blobs.Keys) + Bag(r.es) + HashBag(r.hash)
            && Flat(r.es) == Flat(es)
            && s.next <= r.store.next
            && (r.hash.Id? <==> Unhashed(es) + 1 <= s.credit)
            && (r.hash.Id? ==> HashAgrees(r.hash, r.es, r.store.blobs) && r.store.credit == s.credit - Unhashed(es) - 1)
    decreases es, 2
  {
    var r := StoreEntries(es, s);
    StoreEntriesCorrect(es, s);
    if r.ok {
      AddCorrect(r.es, r.store);
    }
  }

  lemma {:induction false} StoreEntriesCorrect(es: seq<Entry>, s: Store)
    requires StoreOk(s) && Agree(es, s.blobs)
    ensures var r := StoreEntries(es, s);
            && Progress(es, s, r.es, r.store)
            && (r.ok <==> Unhashed(es) <= s.credit)
            && (r.ok ==> AllHashed(r.es) && r.store.credit == s.credit - Unhashed(es))
    decreases es, 1
  {
    if es == [] {
    } else {
      var e, tail := es[0], es[1..];
      assert AgreeLink(e, s.blobs);
      assert Agree(tail, s.blobs);
      StoreLinkCorrect(e, s);
      var first := StoreLink(e, s);
      AgreeExtends(tail, s.blobs, first.store.blobs);
      if first.ok {
        StoreEntriesCorrect(tail, first.store);
        var rest := StoreEntries(tail, first.store);
        AgreeExtends(first.es, first.store.blobs, rest.store.blobs);
        JoinProgress(e, tail, first.es[0], rest.es, s, first.store, rest.store);
        AllHashedJoin(first.es[0], rest.es);
      } else {
        JoinProgress(e, tail, first.es[0], tail, s, first.store, first.store);
      }
    }
  }

  lemma {:induction false} StoreLinkCorrect(e: Entry, s: Store)
    requires StoreOk(s) && AgreeLink(e, s.blobs)
    ensures var r := StoreLink(e, s);
            && |r.es| == 1
            && Progress([e], s, r.es, r.store)
            && (r.ok <==> UnhashedAt(e) <= s.credit)
            && (r.ok ==> AllHashed(r.es) && r.store.credit == s.credit - UnhashedAt(e))
    decreases e
  {
    if e.hash.NoHash? && e.child.Node? {
      var c := e.child.entries;
      StoreNodeCorrect(c, s);
      var r := StoreNode(c, s);
      var e1 := e.(child := Node(r.es), hash := r.hash);
      BagOne(e);
      BagOne(e1);
      assert LinkBag(e) == Bag(c) && LinkBag(e1) == HashBag(r.hash) + Bag(r.es);
      FlatOne(e);
      FlatOne(e1);
    }
  }

  lemma {:induction false} AgreeExtends(es: seq<Entry>, b: map<nat, Blob>, b': map<nat, Blob>)
    requires Agree(es, b) && Extends(b, b')
    ensures Agree(es, b')
  {
    forall h | h in Bag(es)
      ensures h in b'
    {
      AgreeIsLive(es, b, h);
    }
    AgreeFrame(es, b, b');
  }

  lemma {:induction false} AllHashedJoin(e: Entry, tail: seq<Entry>)
    ensures AllHashed([e]) && AllHashed(tail) ==> AllHashed([e] + tail)
  {
    var es := [e] + tail;
    assert forall i :: 0 < i < |es| ==> es[i] == tail[i - 1];
    assert es[0] == [e][0];
  }

  lemma {:induction false} BalanceChain(k0: multiset<nat>, k1: multiset<nat>, k2: multiset<nat>,
                                        x: multiset<nat>, x': multiset<nat>, y: multiset<nat>, y': multiset<nat>)
    requires k1 + x == k0 + x' && k2 + y == k1 + y'
    ensures k2 + (x + y) == k0 + (x' + y')
  {
    forall h
      ensures (k2 + (x + y))[h] == (k0 + (x' + y'))[h]
    {
      assert (k1 + x)[h] == (k0 + x')[h] && (k2 + y)[h] == (k1 + y')[h];
    }
  }

  lemma {:induction false} JoinProgress(
      e: Entry, tail: seq<Entry>, e': Entry, tail': seq<Entry>, s: Store, s1: Store, s2: Store)
    requires Progress([e], s, [e'], s1)
    requires Progress(tail, s1, tail', s2)
    requires Agree([e'], s2.blobs)
    ensures Progress([e] + tail, s, [e'] + tail', s2)
  {
    BagConcat([e], tail);
    BagConcat([e'], tail');
    FlatConcat([e], tail);
    FlatConcat([e'], tail');
    BalanceChain(multiset(s.blobs.Keys), multiset(s1.blobs.Keys), multiset(s2.blobs.Keys),
                 Bag([e]), Bag([e']), Bag(tail), Bag(tail'));
    var es := [e'] + tail';
    forall i | 0 <= i < |es|
      ensures AgreeLink(es[i], s2.blobs)
    {
      assert es[i] == if i == 0 then [e'][0] else tail'[i - 1];
    }
  }

  // ----- store changes nothing but hashes -----

  ghost predicate SameButHashes(es: seq<Entry>, es': seq<Entry>)
    decreases es
  {
    |es'| == |es| && forall i :: 0 <= i < |es| ==> SameLinkButHash(es[i], es'[i])
  }

  ghost predicate SameLinkButHash(e: Entry, e': Entry)
    decreases e
  {
    && e'.id == e.id && e'.value == e.value
    && match e.child
       case Nil => e' == e
       case Node(c) => e'.child.Node? && SameButHashes(c, e'.child.entries)
  }

  lemma {:induction false} SameButHashesReflexive(es: seq<Entry>)
    ensures SameButHashes(es, es)
    decreases es
  {
    forall i | 0 <= i < |es|
      ensures SameLinkButHash(es[i], es[i])
    {
      if es[i].child.Node? {
        SameButHashesReflexive(es[i].child.entries);
      }
    }
  }

  lemma {:induction false} StoreEntriesKeeps(es: seq<Entry>, s: Store)
    ensures SameButHashes(es, StoreEntries(es, s).es)
    decreases es, 0
  {
    if es == [] {
    } else {
      var first := StoreLink(es[0], s);
      SameButHashesReflexive(es);
      StoreLinkKeeps(es[0], s);
      if first.ok {
        var rest := StoreEntries(es[1..], first.store);
        StoreEntriesKeeps(es[1..], first.store);
        assert forall i :: 0 < i < |es| ==> es[i] == es[1..][i - 1] && (first.es + rest.es)[i] == rest.es[i - 1];
      }
    }
  }

  lemma {:induction false} StoreLinkKeeps(e: Entry, s: Store)
    ensures var r := StoreLink(e, s); |r.es| == 1 && SameLinkButHash(e, r.es[0])
    decreases e
  {
    SameButHashesReflexive([e]);
    assert SameLinkButHash([e][0], [e][0]);
    if e.hash.NoHash? && e.child.Node? {
      StoreEntriesKeeps(e.child.entries, s);
    }
  }

  lemma {:induction false} SameKids(es: seq<Entry>, es': seq<Entry>, h: nat, maxSize: nat)
    requires SameButHashes(es, es') && Kids(es, h, maxSize)
    ensures Kids(es', h, maxSize) && Size(es') == Size(es)
    decreases h
  {
    assert forall i :: 0 <= i < |es| ==> SameLinkButHash(es[i], es'[i]);
    if h == 1 {
    } else {
      forall i | 0 <= i < |es|
        ensures es'[i].child.Node? && Half(es'[i].child.entries, h - 1, maxSize)
      {
        assert es[i].child.Node? && Half(es[i].child.entries, h - 1, maxSize);
        SameKids(es[i].child.entries, es'[i].child.entries, h - 1, maxSize);
      }
    }
  }

  /** Storing a tree, whether it succeeds or not, keeps its shape. */
  lemma {:induction false} StoreKeepsShape(es: seq<Entry>, s: Store, h: nat, maxSize: nat)
    requires Kids(es, h, maxSize)
    ensures Kids(StoreNode(es, s).es, h, maxSize) && Size(StoreNode(es, s).es) == Size(es)
  {
    StoreEntriesKeeps(es, s);
    SameKids(es, StoreEntries(es, s).es, h, maxSize);
  }

  // ----- the ids that a store takes -----

  /** What is in s' and not in s has an id that s had not given out. */
  ghost predicate OnlyNew(s: Store, s': Store) {
    s.next <= s'.next && forall h :: h in s'.blobs ==> h in s.blobs || h >= s.next
  }

  lemma {:induction false} StoreEntriesNew(es: seq<Entry>, s: Store)
    ensures OnlyNew(s, StoreEntries(es, s).store)
    decreases es, 1
  {
    if es == [] {
    } else {
      StoreLinkNew(es[0], s);
      var first := StoreLink(es[0], s);
      if first.ok {
        StoreEntriesNew(es[1..], first.store);
      }
    }
  }

  lemma {:induction false} StoreLinkNew(e: Entry, s: Store)
    ensures OnlyNew(s, StoreLink(e, s).store)
    decreases e
  {
    if e.hash.NoHash? && e.child.Node? {
      StoreNodeNew(e.child.entries, s);
    }
  }

  lemma {:induction false} StoreNodeNew(es: seq<Entry>, s: Store)
    ensures OnlyNew(s, StoreNode(es, s).store)
    decreases es, 2
  {
    StoreEntriesNew(es, s);
  }

  // ----- what a store asks of the storage -----

  /** Every add that is accepted takes one off what the storage accepts and gives out one id; a store
      that fails has come to where nothing more is accepted. */
  ghost predicate Spent(s: Store, s': Store, ok: bool) {
    && s'.credit <= s.credit && s.credit - s'.credit == s'.next - s.next
    && (!ok ==> s'.credit == 0)
  }

  lemma {:induction false} StoreNodeSpends(es: seq<Entry>, s: Store)
    ensures Spent(s, StoreNode(es, s).store, StoreNode(es, s).hash.Id?)
    decreases es, 2
  {
    StoreEntriesSpends(es, s);
  }

  lemma {:induction false} StoreEntriesSpends(es: seq<Entry>, s: Store)
    ensures Spent(s, StoreEntries(es, s).store, StoreEntries(es, s).ok)
    decreases es, 1
  {
    if es == [] {
    } else {
      StoreLinkSpends(es[0], s);
      StoreEntriesSpends(es[1..], StoreLink(es[0], s).store);
    }
  }

  lemma {:induction false} StoreLinkSpends(e: Entry, s: Store)
    ensures Spent(s, StoreLink(e, s).store, StoreLink(e, s).ok)
    decreases e
  {
    if e.hash.NoHash? && e.child.Node? {
      StoreNodeSpends(e.child.entries, s);
    }
  }

  /** A node whose store is cut short has one child where it was: the links before it are hashed, it has
      no hash, and the entries behind it are as they were. */
  ghost predicate StoppedAt(es: seq<Entry>, es': seq<Entry>, i: nat) {
    && |es'| == |es| && i < |es|
    && es'[i].hash.NoHash? && es'[i].child.Node?
    && (forall j :: 0 <= j < i && es'[j].child.Node? ==> es'[j].hash.Id?)
    && es'[i + 1..] == es[i + 1..]
  }

  lemma {:induction false} StoreStopsThere(es: seq<Entry>, s: Store) returns (i: nat)
    requires !StoreEntries(es, s).ok
    ensures StoppedAt(es, StoreEntries(es, s).es, i)
  {
    var first := StoreLink(es[0], s);
    if first.ok {
      var rest := StoreEntries(es[1..], first.store);
      var i1 := StoreStopsThere(es[1..], first.store);
      i := i1 + 1;
      assert (first.es + rest.es)[i + 1..] == rest.es[i1 + 1..];
    } else {
      i := 0;
      assert (first.es + es[1..])[1..] == es[1..];
    }
  }
}
