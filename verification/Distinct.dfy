/** No two nodes of a tree are stored under blobs that look the same: what fresh ids rest on. */
module Distinct {
  import opened Keys
  import opened OrderedMap
  import opened Tree
  import opened Shape
  import opened Codec
  import opened Storage
  import opened LazyFind
  import opened Database

  function KeysOf(s: seq<Pair>): set<string> {
    set p | p in s :: p.key
  }

  function OwnKeys(es: seq<Entry>): set<string> {
    set e | e in es && e.id.Fin? :: e.id.key
  }

  /** The keys named in a blob; "" stands for INF. */
  function Names(b: Blob): set<string> {
    set m | m in b && m.key != "" :: m.key
  }

  lemma {:induction false} NamesAreOwnKeys(es: seq<Entry>)
    requires Ordered(es) && GoodKeys(es)
    ensures Names(Encode(es)) == OwnKeys(es)
  {
    EncodeForm(es);
    NamesOfMembers(es);
  }

  lemma {:induction false} NamesOfFins(es: seq<Entry>)
    requires forall i :: 0 <= i < |es| ==> es[i].id.Fin? && es[i].id.key != ""
    ensures Names(FinMembers(es)) == OwnKeys(es)
  {
    FinMembersAre(es);
    var b := FinMembers(es);
    forall k | k in OwnKeys(es)
      ensures k in Names(b)
    {
      var e :| e in es && e.id == Fin(k);
      var i :| 0 <= i < |es| && es[i] == e;
      assert b[i] in b && b[i].key == k;
    }
    forall k | k in Names(b)
      ensures k in OwnKeys(es)
    {
      var m :| m in b && m.key == k;
      var i :| 0 <= i < |es| && b[i] == m;
      assert es[i] in es;
    }
  }

  lemma {:induction false} NamesOfMembers(es: seq<Entry>)
    requires Ordered(es) && GoodKeys(es)
    ensures Names(InfMembers(es) + FinMembers(es)) == OwnKeys(es)
  {
    var n := |es| - 1;
    var fins := if es != [] && es[n].id.Inf? then es[..n] else es;
    forall i | 0 <= i < |fins|
      ensures fins[i].id.Fin? && fins[i].id.key != ""
    {
      assert fins[i] == es[i] && (es[i].id.Fin? ==> GoodKey(es[i].id.key));
    }
    NamesOfFins(fins);
    assert FinMembers(es) == FinMembers(fins);
    assert Names(InfMembers(es) + FinMembers(es)) == Names(FinMembers(es));
    assert OwnKeys(es) == OwnKeys(fins) by {
      assert forall e :: e in es && e.id.Fin? ==> e in fins;
    }
  }

  // ----- where the keys of a tree are -----

  lemma {:induction false} KeysApart(a: seq<Pair>, b: seq<Pair>)
    requires Sorted(a + b)
    ensures KeysOf(a) !! KeysOf(b)
  {
    SortedParts(a, b);
    forall p, q | p in a && q in b
      ensures p.key != q.key
    {
      LessTrichotomy(p.key, q.key);
    }
  }

  /** An entry with its subtree. */
  function Whole(e: Entry): set<string> {
    KeysOf(Under(e) + Own(e))
  }

  lemma {:induction false} WholeInFlat(es: seq<Entry>, i: nat)
    requires i < |es|
    ensures Whole(es[i]) <= KeysOf(Flat(es))
    ensures KeysOf(Under(es[i])) <= Whole(es[i]) && (es[i].id.Fin? ==> es[i].id.key in Whole(es[i]))
  {
    FlatAt(es, i);
    if es[i].id.Fin? {
      assert Own(es[i])[0] in Under(es[i]) + Own(es[i]);
    }
  }

  lemma {:induction false} EntriesApart(es: seq<Entry>, i: nat, j: nat)
    requires Sorted(Flat(es)) && i < j < |es|
    ensures Whole(es[i]) !! Whole(es[j])
  {
    FlatAt(es, i);
    KeysApart(Flat(es[..i]) + (Under(es[i]) + Own(es[i])), Flat(es[i + 1..]));
    WholeInFlat(es[i + 1..], j - i - 1);
    assert es[i + 1..][j - i - 1] == es[j];
    assert Whole(es[i]) <= KeysOf(Flat(es[..i]) + (Under(es[i]) + Own(es[i])));
  }

  lemma {:induction false} OwnApart(es: seq<Entry>, j: nat)
    requires Sorted(Flat(es)) && j < |es|
    ensures OwnKeys(es) !! KeysOf(Under(es[j]))
  {
    forall k | k in OwnKeys(es)
      ensures k !in KeysOf(Under(es[j]))
    {
      var e :| e in es && e.id == Fin(k);
      var i :| 0 <= i < |es| && es[i] == e;
      WholeInFlat(es, i);
      WholeInFlat(es, j);
      if i < j {
        EntriesApart(es, i, j);
      } else if j < i {
        EntriesApart(es, j, i);
      } else {
        SortedAt(es, j);
        forall p | p in Under(es[j])
          ensures p.key != k
        {
          LessTrichotomy(p.key, k);
        }
      }
    }
  }

  lemma {:induction false} OwnKeysInFlat(es: seq<Entry>)
    ensures OwnKeys(es) <= KeysOf(Flat(es))
  {
    forall k | k in OwnKeys(es)
      ensures k in KeysOf(Flat(es))
    {
      var e :| e in es && e.id == Fin(k);
      var i :| 0 <= i < |es| && es[i] == e;
      OwnInFlat(es, i);
    }
  }

  // ----- what the blobs of a tree name -----

  /** A tree in shape with good keys whose links agree with the blobs. */
  ghost predicate Legible(es: seq<Entry>, h: nat, maxSize: nat, b: map<nat, Blob>) {
    maxSize >= 2 && Kids(es, h, maxSize) && Sorted(Flat(es)) && AllGood(Flat(es)) && Agree(es, b)
  }

  lemma {:induction false} LegibleNames(es: seq<Entry>, h: nat, maxSize: nat, b: map<nat, Blob>)
    requires Legible(es, h, maxSize, b)
    ensures Names(Encode(es)) == OwnKeys(es)
  {
    SortedIsOrdered(es);
    forall i | 0 <= i < |es| && es[i].id.Fin?
      ensures GoodKey(es[i].id.key)
    {
      AllGoodAt(es, i);
    }
    NamesAreOwnKeys(es);
  }

  lemma {:induction false} HasOwnKey(es: seq<Entry>)
    requires Proper(es) && Size(es) >= 1
    ensures OwnKeys(es) != {}
  {
    assert es[0].id.Inf? ==> |es| == 1;
    assert es[0] in es && es[0].id.key in OwnKeys(es);
  }

  lemma {:induction false} LegibleChild(es: seq<Entry>, i: nat, h: nat, maxSize: nat, b: map<nat, Blob>)
    requires Legible(es, h, maxSize, b) && i < |es| && LinkBag(es[i]) != multiset{}
    ensures h > 1 && es[i].child.Node? && Legible(es[i].child.entries, h - 1, maxSize, b)
    ensures OwnKeys(es[i].child.entries) != {}
    ensures es[i].hash.Id? ==> es[i].hash.n in b && Names(b[es[i].hash.n]) == OwnKeys(es[i].child.entries)
  {
    assert AgreeLink(es[i], b);
    if h > 1 {
      var c := es[i].child.entries;
      assert Half(c, h - 1, maxSize) && Kids(c, h - 1, maxSize) && Proper(c) && Size(c) >= 1;
      SortedAt(es, i);
      AllGoodAt(es, i);
      HasOwnKey(c);
      LegibleNames(c, h - 1, maxSize, b);
    }
  }

  lemma {:induction false} WhereLinked(es: seq<Entry>, n: nat) returns (i: nat)
    requires n in Bag(es)
    ensures i < |es| && n in LinkBag(es[i])
    decreases es
  {
    if n in LinkBag(es[0]) {
      i := 0;
    } else {
      var j := WhereLinked(es[1..], n);
      i := j + 1;
    }
  }

  /** What the blob of a linked node names lies below the link that leads there. */
  lemma {:induction false} NamesBelow(es: seq<Entry>, h: nat, maxSize: nat, b: map<nat, Blob>, n: nat) returns (i: nat)
    requires Legible(es, h, maxSize, b) && n in Bag(es)
    ensures i < |es| && n in LinkBag(es[i])
    ensures n in b && Names(b[n]) != {} && Names(b[n]) <= KeysOf(Under(es[i]))
    decreases h
  {
    i := WhereLinked(es, n);
    LegibleChild(es, i, h, maxSize, b);
    var c := es[i].child.entries;
    if es[i].hash == Id(n) {
      OwnKeysInFlat(c);
    } else {
      var j := NamesBelow(c, h - 1, maxSize, b, n);
      WholeInFlat(c, j);
    }
  }

  /** The blobs of two linked nodes have no key in common. */
  lemma {:induction false} NamesApart(es: seq<Entry>, h: nat, maxSize: nat, b: map<nat, Blob>, n1: nat, n2: nat)
    requires Legible(es, h, maxSize, b) && n1 in Bag(es) && n2 in Bag(es) && n1 != n2
    ensures n1 in b && n2 in b && Names(b[n1]) !! Names(b[n2])
    decreases h
  {
    var i := NamesBelow(es, h, maxSize, b, n1);
    var j := NamesBelow(es, h, maxSize, b, n2);
    WholeInFlat(es, i);
    WholeInFlat(es, j);
    if i < j {
      EntriesApart(es, i, j);
    } else if j < i {
      EntriesApart(es, j, i);
    } else {
      NamesApartBelow(es, i, h, maxSize, b, n1, n2);
    }
  }

  /** The case of two nodes below the same link. */
  lemma {:induction false} NamesApartBelow(
      es: seq<Entry>, i: nat, h: nat, maxSize: nat, b: map<nat, Blob>, n1: nat, n2: nat)
    requires Legible(es, h, maxSize, b) && i < |es| && n1 in LinkBag(es[i]) && n2 in LinkBag(es[i]) && n1 != n2
    ensures n1 in b && n2 in b && Names(b[n1]) !! Names(b[n2])
    decreases h, 0
  {
    LegibleChild(es, i, h, maxSize, b);
    var c := es[i].child.entries;
    if es[i].hash == Id(n1) {
      var j := NamesBelow(c, h - 1, maxSize, b, n2);
      OwnApart(c, j);
    } else if es[i].hash == Id(n2) {
      var j := NamesBelow(c, h - 1, maxSize, b, n1);
      OwnApart(c, j);
    } else {
      NamesApart(c, h - 1, maxSize, b, n1, n2);
    }
  }

  /** In a storage of its own, with a remove operation and good keys: no two blobs are the same, not
      even but for the ids in them, since they have no key in common. A storage that gave equal
      blobs the same id would hold as many. */
  lemma {:induction false} BlobsShareNoKey(c: Config, db: Db, n1: nat, n2: nat)
    requires c.maxSize >= 2 && c.canRemove && DbOk(c, db, multiset{}) && Settled(db)
    requires AllGood(Pairs(db)) && n1 in db.store.blobs && n2 in db.store.blobs && n1 != n2
    ensures Names(db.store.blobs[n1]) != {} && Names(db.store.blobs[n1]) !! Names(db.store.blobs[n2])
    ensures db.store.blobs[n1] != db.store.blobs[n2]
  {
    NothingDangles(c, db);
    var b, es := db.store.blobs, EntriesOf(db.root);
    assert n1 in multiset(b.Keys) && n2 in multiset(b.Keys);
    var h := Height(es);
    assert Legible(es, h, c.maxSize, b);
    LegibleNames(es, h, c.maxSize, b);
    if db.hash == Id(n1) {
      HasOwnKey(es);
      var j := NamesBelow(es, h, c.maxSize, b, n2);
      OwnApart(es, j);
    } else if db.hash == Id(n2) {
      var j := NamesBelow(es, h, c.maxSize, b, n1);
      OwnApart(es, j);
    } else {
      var j := NamesBelow(es, h, c.maxSize, b, n1);
      NamesApart(es, h, c.maxSize, b, n1, n2);
    }
  }
}
