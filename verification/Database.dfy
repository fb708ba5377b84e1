/** BTree::raw_insert and one round of BTree::insert on the whole database: the tree, the root
    hash and the storage. */
module Database {
  import opened OrderedMap
  import opened Tree
  import opened Insertion
  import opened InOrder
  import opened Shape
  import opened Invariants
  import opened Codec
  import opened Storage
  import opened Ledger
  import opened LazyFind

  /** The node size, and whether the tree was given add and remove operations. */
  datatype Config = Config(maxSize: nat, canAdd: bool, canRemove: bool)

  datatype Db = Db(root: Tree, hash: Hash, store: Store)

  /** BTree::try_remove for the hashes that links have given up. */
  function TryRemove(c: Config, s: Store, gone: multiset<nat>): Store {
    if c.canRemove then s.(blobs := s.blobs - set h | h in gone) else s
  }

  /** BTree::raw_insert. */
  function RawInsert(c: Config, db: Db, k: string, v: string): Db {
    var r := Insert(EntriesOf(db.root), k, v, c.maxSize);
    Db(Node(if r.up.Nil? then r.self else r.up.entries), db.hash, TryRemove(c, db.store, r.removed))
  }

  /** The end of a round: the old root blob is removed and the tree is stored. The storage accepts
      credit blobs before an add fails. On failure the tree is left without a root hash. */
  function EndRound(c: Config, db: Db, credit: nat): Db {
    var s := TryRemove(c, db.store, HashBag(db.hash));
    if c.canAdd && db.root.Node? then
      var r := StoreNode(db.root.entries, s.(credit := credit));
      Db(Node(r.es), r.hash, r.store)
    else Db(db.root, NoHash, s)
  }

  function Linked(db: Db): multiset<nat> {
    HashBag(db.hash) + Bag(EntriesOf(db.root))
  }

  function Pairs(db: Db): seq<Pair> {
    Flat(EntriesOf(db.root))
  }

  function Height(es: seq<Entry>): nat
    decreases es
  {
    if es == [] || es[0].child.Nil? then 1 else 1 + Height(es[0].child.entries)
  }

  /** Node::local_node_count. */
  function NodeCount(es: seq<Entry>): nat
    decreases es, 1
  {
    ChildCount(es) + 1
  }

  function ChildCount(es: seq<Entry>): nat
    decreases es, 0
  {
    if es == [] then 0 else
    (match es[0].child
     case Nil => 0
     case Node(c) => NodeCount(c)) + ChildCount(es[1..])
  }

  /** The tree in shape, links and blobs in agreement, and every blob accounted for: with a
      remove operation the blobs are exactly the linked ones and those of others. */
  ghost predicate DbOk(c: Config, db: Db, others: multiset<nat>) {
    && StoreOk(db.store)
    && TreeOk(c, db)
    && Accounted(c, db.store, Linked(db), others)
  }

  /** The root hash, if there is one, names the tree as it is now, and every link is hashed. In
      the middle of a round the root hash still names the tree before the round. */
  ghost predicate Settled(db: Db) {
    db.hash.Id? ==> db.root.Node? && HashAgrees(db.hash, db.root.entries, db.store.blobs)
  }

  ghost predicate TreeOk(c: Config, db: Db) {
    match db.root
    case Nil => true
    case Node(es) => BTreeShape(es, Height(es), c.maxSize) && Agree(es, db.store.blobs)
  }

  ghost predicate Accounted(c: Config, s: Store, linked: multiset<nat>, others: multiset<nat>) {
    && linked + others <= multiset(s.blobs.Keys)
    && (c.canRemove ==> multiset(s.blobs.Keys) == linked + others)
  }

  // ----- removal -----

  lemma {:induction false} KeysAfterRemoval(b: map<nat, Blob>, gone: multiset<nat>)
    requires gone <= multiset(b.Keys)
    ensures multiset((b - set h | h in gone).Keys) + gone == multiset(b.Keys)
  {
    var b' := b - set h | h in gone;
    forall h
      ensures (multiset(b'.Keys) + gone)[h] == multiset(b.Keys)[h]
    {
    }
  }

  /** Removing what links gave up keeps every blob accounted for. */
  lemma {:induction false} RemovalAccounted(
      c: Config, s: Store, kept: multiset<nat>, gone: multiset<nat>, others: multiset<nat>)
    requires StoreOk(s) && Accounted(c, s, kept + gone, others)
    ensures StoreOk(TryRemove(c, s, gone)) && Accounted(c, TryRemove(c, s, gone), kept, others)
    ensures forall h :: h in kept ==> h in s.blobs && h in TryRemove(c, s, gone).blobs
    ensures forall h :: h in TryRemove(c, s, gone).blobs ==>
        h in s.blobs && TryRemove(c, s, gone).blobs[h] == s.blobs[h]
    ensures TryRemove(c, s, gone).next == s.next && TryRemove(c, s, gone).credit == s.credit
    ensures !c.canRemove ==> TryRemove(c, s, gone) == s
  {
    var s' := TryRemove(c, s, gone);
    assert (kept + gone) + others == (kept + others) + gone;
    assert gone <= multiset(s.blobs.Keys);
    if c.canRemove {
      KeysAfterRemoval(s.blobs, gone);
      Cancel(multiset(s'.blobs.Keys), kept + others, gone);
    }
    forall h | h in kept
      ensures h in s.blobs && h in s'.blobs
    {
      assert (kept + others)[h] > 0;
      assert h in multiset(s'.blobs.Keys);
    }
  }

  lemma {:induction false} Cancel(x: multiset<nat>, y: multiset<nat>, z: multiset<nat>)
    requires x + z == y + z
    ensures x == y
  {
    forall h
      ensures x[h] == y[h]
    {
      assert (x + z)[h] == (y + z)[h];
    }
  }

  // ----- raw_insert -----

  lemma {:induction false} HeightIs(es: seq<Entry>, h: nat, maxSize: nat)
    requires Kids(es, h, maxSize)
    ensures Height(es) == h
    decreases h
  {
    if h == 1 {
    } else {
      assert es[0].child.Node? && Half(es[0].child.entries, h - 1, maxSize);
      HeightIs(es[0].child.entries, h - 1, maxSize);
    }
  }

  lemma {:induction false} EmptyTree(maxSize: nat)
    ensures Kids([], 1, maxSize) && Size([]) == 0 && Flat([]) == [] && Bag([]) == multiset{} && Height([]) == 1
  {
  }

  /** The tree after one insertion: in shape again, and what it holds. */
  lemma {:induction false} RootInsert(es: seq<Entry>, k: string, v: string, maxSize: nat)
    requires maxSize >= 2
    requires es == [] || BTreeShape(es, Height(es), maxSize)
    ensures var r := Insert(es, k, v, maxSize);
            var es' := if r.up.Nil? then r.self else r.up.entries;
            && BTreeShape(es', Height(es'), maxSize)
            && Flat(es') == Put(Flat(es), k, v, k in InnerKeys(es))
            && (r.up.Nil? || r.self == [])
            && CheckInvariants(es', maxSize)
            && Height(es) <= Height(es') <= Height(es) + 1
  {
    EmptyTree(maxSize);
    var h := Height(es);
    ShapeIsLoose(es, h, maxSize);
    InsertInOrder(es, k, v, maxSize);
    InsertInShape(es, h, k, v, maxSize);
    PutSorted(Flat(es), k, v, k in InnerKeys(es));
    var r := Insert(es, k, v, maxSize);
    var es' := if r.up.Nil? then r.self else r.up.entries;
    var h' := if r.up.Nil? then h else h + 1;
    HeightIs(es', h', maxSize);
    ShapeIsChecked(es', h', maxSize);
  }

  /** raw_insert keeps the database in order, and its map is the old one with k put in: a fresh
      key gets v, a key above the leaves is overwritten, a key in a leaf keeps its value. */
  lemma {:induction false} RawInsertOk(c: Config, db: Db, k: string, v: string, others: multiset<nat>)
    requires c.maxSize >= 2 && DbOk(c, db, others)
    ensures DbOk(c, RawInsert(c, db, k, v), others)
    ensures Pairs(RawInsert(c, db, k, v)) == Put(Pairs(db), k, v, k in InnerKeys(EntriesOf(db.root)))
    ensures CheckInvariants(EntriesOf(RawInsert(c, db, k, v).root), c.maxSize)
    ensures RawInsert(c, db, k, v).hash == db.hash
    ensures RawInsert(c, db, k, v).store.next == db.store.next
    ensures !c.canRemove ==> RawInsert(c, db, k, v).store == db.store
  {
    var es := EntriesOf(db.root);
    var r := Insert(es, k, v, c.maxSize);
    var es' := if r.up.Nil? then r.self else r.up.entries;
    var db' := RawInsert(c, db, k, v);
    RootInsert(es, k, v, c.maxSize);
    EmptyTree(c.maxSize);
    InsertConserves(es, Height(es), k, v, c.maxSize, db.store.blobs);
    NothingElse(r, es');
    InsertionBalance(HashBag(db.hash), Bag(es'), r.removed, Bag(es));
    RemovalAccounted(c, db.store, Linked(db'), r.removed, others);
    AgreeFrame(es', db.store.blobs, db'.store.blobs);
  }

  lemma {:induction false} CheckedAfterInsert(c: Config, db: Db, k: string, v: string)
    requires c.maxSize >= 2
    ensures TreeOk(c, db) ==> CheckInvariants(EntriesOf(RawInsert(c, db, k, v).root), c.maxSize)
  {
    if TreeOk(c, db) {
      RootInsert(EntriesOf(db.root), k, v, c.maxSize);
    }
  }

  /** As a map: a fresh key gets v, a key above the leaves gets v, a key in a leaf keeps its value,
      and every other key is as it was. */
  lemma {:induction false} RawInsertRefinesMap(c: Config, db: Db, k: string, v: string, others: multiset<nat>)
    requires c.maxSize >= 2 && DbOk(c, db, others)
    ensures ToMap(Pairs(RawInsert(c, db, k, v))) ==
            if k in ToMap(Pairs(db)) && k !in InnerKeys(EntriesOf(db.root)) then ToMap(Pairs(db))
            else ToMap(Pairs(db))[k := v]
  {
    RawInsertOk(c, db, k, v, others);
    EmptyTree(c.maxSize);
    PutRefinesMap(Pairs(db), k, v, k in InnerKeys(EntriesOf(db.root)));
  }

  lemma {:induction false} NothingElse(r: Outcome, es': seq<Entry>)
    requires r.up.Nil? || r.self == []
    requires es' == if r.up.Nil? then r.self else r.up.entries
    ensures Bag(r.self) + Bag(EntriesOf(r.up)) == Bag(es')
  {
    assert Bag([]) == multiset{};
  }

  lemma {:induction false} InsertionBalance(h: multiset<nat>, x': multiset<nat>, gone: multiset<nat>, x: multiset<nat>)
    requires x' + gone == x
    ensures (h + x') + gone == h + x
  {
  }

  // ----- the end of a round -----

  /** The end of a round keeps the database in order and its map as it is, whether the store goes
      through or fails after any number of blobs. It goes through exactly if the storage accepts a
      blob for every link that has none, and one for the root; then the root hash names the tree. */
  lemma {:induction false} EndRoundOk(c: Config, db: Db, credit: nat, others: multiset<nat>)
    requires DbOk(c, db, others)
    ensures var db' := EndRound(c, db, credit);
            && DbOk(c, db', others) && Settled(db')
            && Pairs(db') == Pairs(db)
            && (db'.hash.Id? <==> c.canAdd && db.root.Node? && Unhashed(EntriesOf(db.root)) + 1 <= credit)
            && (db'.root.Node? <==> db.root.Node?)
    ensures var db' := EndRound(c, db, credit);
            db'.hash.Id? ==> db'.store.credit == credit - (Unhashed(EntriesOf(db.root)) + 1)
  {
    var s := TryRemove(c, db.store, HashBag(db.hash));
    var es := EntriesOf(db.root);
    RootRemoved(c, db, others);
    if c.canAdd && db.root.Node? {
      StoreRootOk(c, es, s.(credit := credit), others);
    }
  }

  lemma {:induction false} RootRemoved(c: Config, db: Db, others: multiset<nat>)
    requires DbOk(c, db, others)
    ensures var s := TryRemove(c, db.store, HashBag(db.hash));
            && StoreOk(s) && Accounted(c, s, Bag(EntriesOf(db.root)), others)
            && Agree(EntriesOf(db.root), s.blobs) && DbOk(c, Db(db.root, NoHash, s), others)
  {
    var s := TryRemove(c, db.store, HashBag(db.hash));
    var es := EntriesOf(db.root);
    assert Linked(db) == Bag(es) + HashBag(db.hash);
    RemovalAccounted(c, db.store, Bag(es), HashBag(db.hash), others);
    AgreeFrame(es, db.store.blobs, s.blobs);
    assert Linked(Db(db.root, NoHash, s)) == Bag(es);
  }

  lemma {:induction false} StoreRootOk(c: Config, es: seq<Entry>, s: Store, others: multiset<nat>)
    requires StoreOk(s) && Agree(es, s.blobs) && BTreeShape(es, Height(es), c.maxSize)
    requires Accounted(c, s, Bag(es), others)
    ensures var r := StoreNode(es, s);
            var db' := Db(Node(r.es), r.hash, r.store);
            && DbOk(c, db', others) && Settled(db')
            && Flat(r.es) == Flat(es)
            && (r.hash.Id? <==> Unhashed(es) + 1 <= s.credit)
            && (r.hash.Id? ==> r.store.credit == s.credit - (Unhashed(es) + 1))
  {
    StoreNodeCorrect(es, s);
    var r := StoreNode(es, s);
    assert BTreeShape(r.es, Height(r.es), c.maxSize) by {
      StoreKeepsShape(es, s, Height(es), c.maxSize);
      HeightIs(r.es, Height(es), c.maxSize);
    }
    StoringBalance(multiset(s.blobs.Keys), multiset(r.store.blobs.Keys), Bag(es), Bag(r.es), HashBag(r.hash), others);
  }

  lemma {:induction false} StoringBalance(
      k: multiset<nat>, k': multiset<nat>, x: multiset<nat>, x': multiset<nat>, h: multiset<nat>,
      others: multiset<nat>)
    requires k' + x == k + x' + h
    requires x + others <= k
    ensures (h + x') + others <= k'
    ensures k == x + others ==> k' == (h + x') + others
  {
    forall n
      ensures ((h + x') + others)[n] <= k'[n]
      ensures k == x + others ==> k'[n] == ((h + x') + others)[n]
    {
      assert (k' + x)[n] == (k + x' + h)[n];
      assert (x + others)[n] <= k[n];
    }
  }

  /** With a remove operation, the root blob there was is gone after the end of a round, whatever the
      store does, and what has come is new. */
  lemma {:induction false} OldRootGone(c: Config, db: Db, credit: nat)
    requires c.canRemove
    ensures var s := EndRound(c, db, credit).store;
            && db.store.next <= s.next
            && forall h :: h in s.blobs ==> (h in db.store.blobs && db.hash != Id(h)) || h >= db.store.next
  {
    var s := TryRemove(c, db.store, HashBag(db.hash));
    if db.root.Node? {
      StoreNodeNew(db.root.entries, s.(credit := credit));
    }
  }

  // ----- what a settled database gives -----

  lemma {:induction false} HashedLinksAreNodes(es: seq<Entry>, b: map<nat, Blob>)
    requires AllHashed(es) && Agree(es, b)
    ensures |Bag(es)| == ChildCount(es)
    decreases es
  {
    if es == [] {
    } else {
      var e := es[0];
      assert AgreeLink(e, b);
      assert forall i :: 0 <= i < |es[1..]| ==> es[1..][i] == es[i + 1];
      HashedLinksAreNodes(es[1..], b);
      if e.child.Node? {
        HashedLinksAreNodes(e.child.entries, b);
      }
    }
  }

  /** After a successful insert with a remove operation there is exactly one blob per resident
      node (besides those of others): nothing is leaked and nothing stored twice. */
  lemma {:induction false} OneBlobPerNode(c: Config, db: Db, others: multiset<nat>)
    requires c.canRemove && DbOk(c, db, others) && Settled(db) && db.hash.Id?
    ensures |db.store.blobs| == NodeCount(db.root.entries) + |others|
  {
    var es := db.root.entries;
    HashedLinksAreNodes(es, db.store.blobs);
    assert |multiset(db.store.blobs.Keys)| == |db.store.blobs.Keys|;
    assert |db.store.blobs.Keys| == |db.store.blobs|;
    assert |Linked(db) + others| == |HashBag(db.hash)| + |Bag(es)| + |others|;
  }

  /** With a remove operation and a storage of its own: the blobs are exactly those that the root and
      the links name, one for each, and nothing that a blob refers to is missing. */
  lemma {:induction false} NothingDangles(c: Config, db: Db)
    requires c.canRemove && DbOk(c, db, multiset{}) && Settled(db)
    ensures multiset(db.store.blobs.Keys) == HashBag(db.hash) + Bag(EntriesOf(db.root))
    ensures forall h :: h in db.store.blobs ==> ChildrenLive(db.store.blobs[h], db.store.blobs)
  {
    var b, es := db.store.blobs, EntriesOf(db.root);
    assert Linked(db) + multiset{} == Linked(db);
    forall h | h in b
      ensures ChildrenLive(b[h], b)
    {
      assert h in multiset(b.Keys);
      var n := es;
      if db.hash != Id(h) {
        assert h in Bag(es);
        n := LinkedNode(es, b, h);
      }
      ChildrenAreLive(n, b);
    }
  }

  /** Loading the root hash of a settled database into a fresh tree, find gives for every key
      exactly what the resident tree holds, with at most one cat per level. */
  lemma {:induction false} FreshTreeFinds(c: Config, db: Db, others: multiset<nat>, k: string)
    requires c.maxSize >= 2 && DbOk(c, db, others) && Settled(db) && db.hash.Id?
    requires AllGood(Pairs(db))
    ensures var r := FindHash(db.store.blobs, db.hash.n, k);
            && r.answer == Lookup(Pairs(db), k)
            && r.cats <= Height(db.root.entries)
    ensures HashOk(db.store.blobs, db.hash.n)
  {
    var es := db.root.entries;
    StoredTreeReads(es, Height(es), c.maxSize, db.store.blobs, db.hash.n);
    FindHashCorrect(db.store.blobs, db.hash.n, k);
  }

  lemma {:induction false} RootCost(es: seq<Entry>, k: string, v: string, maxSize: nat, b: map<nat, Blob>)
    requires maxSize >= 2 && (es == [] || BTreeShape(es, Height(es), maxSize))
    requires Agree(es, b) && AllHashed(es)
    ensures var r := Insert(es, k, v, maxSize);
            Unhashed(if r.up.Nil? then r.self else r.up.entries) + 1 <= 3 * Height(es)
  {
    EmptyTree(maxSize);
    InsertConserves(es, Height(es), k, v, maxSize, b);
  }

  /** An insert into a settled database of height h (the empty tree counts as 1), followed by the
      end of the round, goes through whenever the storage accepts 3h blobs. */
  lemma {:induction false} InsertCostsAtMost3h(
      c: Config, db: Db, k: string, v: string, credit: nat, others: multiset<nat>)
    requires c.maxSize >= 2 && c.canAdd && DbOk(c, db, others) && Settled(db)
    requires db.root.Node? ==> db.hash.Id?
    requires credit >= 3 * Height(EntriesOf(db.root))
    ensures var db' := EndRound(c, RawInsert(c, db, k, v), credit);
            && db'.hash.Id?
            && credit - db'.store.credit <= 3 * Height(EntriesOf(db.root))
  {
    RootCost(EntriesOf(db.root), k, v, c.maxSize, db.store.blobs);
    RawInsertOk(c, db, k, v, others);
    EndRoundOk(c, RawInsert(c, db, k, v), credit, others);
  }

  lemma {:induction false} TreeIsInsertable(c: Config, es: seq<Entry>)
    requires es == [] || BTreeShape(es, Height(es), c.maxSize)
    ensures Loose(es) && Sorted(Flat(es))
  {
    if es != [] {
      ShapeIsLoose(es, Height(es), c.maxSize);
    }
  }
}
