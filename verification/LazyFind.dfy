/** Node::find and BTree::lazy_find on trees whose nodes are partly resident and partly stored. */
module LazyFind {
  import opened Keys
  import opened OrderedMap
  import opened Tree
  import opened InOrder
  import opened Shape
  import opened Codec
  import opened Storage

  // ----- the map that a tree with stored parts stands for -----

  /** What the blob under h stands for, with all that it refers to. */
  function HashView(b: map<nat, Blob>, h: nat): seq<Pair>
    decreases h, 1, 0
  {
    if h in b then StoredView(b, Decode(b[h]), h) else []
  }

  function StoredView(b: map<nat, Blob>, es: seq<Entry>, h: nat): seq<Pair>
    decreases h, 0, |es|
  {
    if es == [] then [] else
    (if es[0].hash.Id? && es[0].hash.n < h then HashView(b, es[0].hash.n) else [])
    + Own(es[0]) + StoredView(b, es[1..], h)
  }

  function LinkView(e: Entry, b: map<nat, Blob>): seq<Pair>
    decreases e
  {
    match e.child
    case Node(es) => View(es, b)
    case Nil => if e.hash.Id? then HashView(b, e.hash.n) else []
  }

  /** In-order traversal through resident children where there are any, through blobs elsewhere. */
  function View(es: seq<Entry>, b: map<nat, Blob>): seq<Pair>
    decreases es
  {
    if es == [] then [] else LinkView(es[0], b) + Own(es[0]) + View(es[1..], b)
  }

  /** Everything reachable from h is stored. */
  ghost predicate HashOk(b: map<nat, Blob>, h: nat)
    decreases h
  {
    && h in b
    && Proper(Decode(b[h]))
    && forall i :: 0 <= i < |Decode(b[h])| && Decode(b[h])[i].hash.Id? ==>
         Decode(b[h])[i].hash.n < h && HashOk(b, Decode(b[h])[i].hash.n)
  }

  ghost predicate LazyOk(es: seq<Entry>, b: map<nat, Blob>)
    decreases es
  {
    Proper(es) && forall i :: 0 <= i < |es| ==> LinkOk(es[i], b)
  }

  ghost predicate LinkOk(e: Entry, b: map<nat, Blob>)
    decreases e
  {
    match e.child
    case Node(es) => LazyOk(es, b)
    case Nil => e.hash.Id? ==> HashOk(b, e.hash.n)
  }

  /** The number of node levels at and below a link or node. */
  function HashLevels(b: map<nat, Blob>, h: nat): nat
    decreases h, 1, 0
  {
    if h in b then StoredLevels(b, Decode(b[h]), h) else 1
  }

  function StoredLevels(b: map<nat, Blob>, es: seq<Entry>, h: nat): nat
    decreases h, 0, |es|
  {
    if es == [] then 1 else
    var below := if es[0].hash.Id? && es[0].hash.n < h then HashLevels(b, es[0].hash.n) else 0;
    Max(1 + below, StoredLevels(b, es[1..], h))
  }

  function LinkLevels(e: Entry, b: map<nat, Blob>): nat
    decreases e
  {
    match e.child
    case Node(es) => Levels(es, b)
    case Nil => if e.hash.Id? then HashLevels(b, e.hash.n) else 0
  }

  function Levels(es: seq<Entry>, b: map<nat, Blob>): nat
    decreases es
  {
    if es == [] then 1 else Max(1 + LinkLevels(es[0], b), Levels(es[1..], b))
  }

  // ----- find -----

  datatype Answer = Found(value: string) | NotFound | CatFailed

  /** The answer, the node as find leaves it, and the number of cat operations. */
  datatype FindResult = FindResult(answer: Answer, es: seq<Entry>, cats: nat)

  /** BTree::lazy_find on a null child: a new node is restored from h and searched. If cat fails
      the new node stays behind empty. */
  function FindHash(b: map<nat, Blob>, h: nat, k: string): FindResult
    decreases h
  {
    if h !in b then FindResult(CatFailed, [], 1) else
    var es := Decode(b[h]);
    var i := LowerBound(es, Fin(k));
    if i == |es| then FindResult(NotFound, es, 1)
    else if es[i].id == Fin(k) then FindResult(Found(es[i].value), es, 1)
    else if es[i].hash.Id? && es[i].hash.n < h then
      var r := FindHash(b, es[i].hash.n, k);
      FindResult(r.answer, es[i := es[i].(child := Node(r.es))], 1 + r.cats)
    else FindResult(NotFound, es, 1)
  }

  /** Node::find. */
  function Find(es: seq<Entry>, k: string, b: map<nat, Blob>): FindResult
    decreases es
  {
    var i := LowerBound(es, Fin(k));
    if i == |es| then FindResult(NotFound, es, 0)
    else if es[i].id == Fin(k) then FindResult(Found(es[i].value), es, 0)
    else if es[i].child.Nil? && es[i].hash.NoHash? then FindResult(NotFound, es, 0)
    else
      var r := if es[i].child.Node? then Find(es[i].child.entries, k, b) else FindHash(b, es[i].hash.n, k);
      FindResult(r.answer, es[i := es[i].(child := Node(r.es))], r.cats)
  }

  /** BTree::lazy_find on a link: the answer, the node left behind it, and the cat operations. */
  function FindLink(e: Entry, k: string, b: map<nat, Blob>): FindResult {
    if e.child.Node? then Find(e.child.entries, k, b)
    else if e.hash.Id? then FindHash(b, e.hash.n, k)
    else FindResult(NotFound, [], 0)
  }

  function Lookup(s: seq<Pair>, k: string): Answer {
    if k in ToMap(s) then Found(ToMap(s)[k]) else NotFound
  }

  // ----- blobs and freshly restored nodes -----

  lemma {:induction false} DecodeIsBare(blob: Blob)
    ensures forall i :: 0 <= i < |Decode(blob)| ==> Decode(blob)[i].child.Nil?
  {
    if blob == [] {
    } else {
      DecodeIsBare(blob[..|blob| - 1]);
    }
  }

  lemma {:induction false} BareView(es: seq<Entry>, b: map<nat, Blob>, h: nat)
    requires forall i :: 0 <= i < |es| ==> es[i].child.Nil? && (es[i].hash.Id? ==> es[i].hash.n < h)
    ensures View(es, b) == StoredView(b, es, h)
    ensures Levels(es, b) == StoredLevels(b, es, h)
  {
    if es == [] {
    } else {
      BareView(es[1..], b, h);
    }
  }

  /** Restoring a node changes nothing of what its link stands for. */
  lemma {:induction false} RestoreIsTransparent(b: map<nat, Blob>, h: nat)
    requires HashOk(b, h)
    ensures LazyOk(Decode(b[h]), b)
    ensures View(Decode(b[h]), b) == HashView(b, h)
    ensures Levels(Decode(b[h]), b) == HashLevels(b, h)
  {
    DecodeIsBare(b[h]);
    BareView(Decode(b[h]), b, h);
  }

  // ----- reading a view at the lower bound -----

  lemma {:induction false} ViewConcat(x: seq<Entry>, y: seq<Entry>, b: map<nat, Blob>)
    ensures View(x + y, b) == View(x, b) + View(y, b)
  {
    if x == [] {
      assert x + y == y;
    } else {
      assert (x + y)[0] == x[0] && (x + y)[1..] == x[1..] + y;
      ViewConcat(x[1..], y, b);
    }
  }

  lemma {:induction false} ViewAt(es: seq<Entry>, i: nat, b: map<nat, Blob>)
    requires i < |es|
    ensures View(es, b) == View(es[..i], b) + (LinkView(es[i], b) + Own(es[i])) + View(es[i + 1..], b)
  {
    var tail := es[i..];
    assert es == es[..i] + tail && tail[1..] == es[i + 1..];
    ViewConcat(es[..i], tail, b);
  }

  lemma {:induction false} ViewSet(es: seq<Entry>, i: nat, e: Entry, b: map<nat, Blob>)
    requires i < |es| && LinkView(e, b) == LinkView(es[i], b) && Own(e) == Own(es[i])
    ensures View(es[i := e], b) == View(es, b)
  {
    ViewAt(es, i, b);
    ViewAt(es[i := e], i, b);
    assert es[i := e][..i] == es[..i] && es[i := e][i + 1..] == es[i + 1..];
  }

  lemma {:induction false} LevelsAt(es: seq<Entry>, i: nat, b: map<nat, Blob>)
    requires i < |es|
    ensures 1 + LinkLevels(es[i], b) <= Levels(es, b)
  {
    if i == 0 {
    } else {
      LevelsAt(es[1..], i - 1, b);
    }
  }

  /** Below the lower bound everything is too small, at and above it everything is too large:
      the answer is the separator itself or in the link below it. */
  lemma {:induction false} LookupAtLowerBound(es: seq<Entry>, k: string, b: map<nat, Blob>)
    requires Proper(es) && Sorted(View(es, b))
    ensures var i := LowerBound(es, Fin(k));
            && (i == |es| ==> Lookup(View(es, b), k) == NotFound)
            && (i < |es| ==> Sorted(LinkView(es[i], b)))
            && (i < |es| ==> Lookup(View(es, b), k) ==
                             if es[i].id == Fin(k) then Found(es[i].value) else Lookup(LinkView(es[i], b), k))
  {
    var i := LowerBound(es, Fin(k));
    ViewBelow(es, k, i, b);
    if i == |es| {
      assert es[..i] == es;
      AbsentWhenBelow(View(es, b), k);
    } else {
      var a, u, o, t := View(es[..i], b), LinkView(es[i], b), Own(es[i]), View(es[i + 1..], b);
      ViewAt(es, i, b);
      SortedFour(a, u, o, t);
      SortedSuffix(a, u, o, t);
      AbsentWhenBelow(a, k);
      ToMapConcat(a + (u + o), t);
      ToMapConcat(a, u + o);
      ToMapConcat(u, o);
      ToMapConcat(o, t);
      if es[i].id == Fin(k) {
        assert o[0].key == k;
        AbsentWhenBelow(u, k);
        assert ToMap(o)[k] == es[i].value;
      } else {
        if es[i].id.Fin? {
          LessTrichotomy(es[i].id.key, k);
          assert (o + t)[0].key == es[i].id.key;
        } else {
          assert es[i + 1..] == [];
        }
        AbsentWhenAbove(o + t, k);
      }
    }
  }

  lemma {:induction false} ViewBelow(es: seq<Entry>, k: string, i: nat, b: map<nat, Blob>)
    requires Proper(es) && Sorted(View(es, b))
    requires i <= |es| && forall j :: 0 <= j < i ==> IdLess(es[j].id, Fin(k))
    ensures AllBelow(View(es[..i], b), k)
  {
    if i > 0 {
      var p := es[..i];
      ViewAt(p, i - 1, b);
      assert p[i..] == [] && p[i - 1] == es[i - 1];
      ViewConcat(p, es[i..], b);
      assert p + es[i..] == es;
      SortedParts(View(p, b), View(es[i..], b));
      assert IdLess(es[i - 1].id, Fin(k));
      SortedAllBelow(View(p, b), k);
    }
  }

  // ----- correctness of find -----

  /** Searching below a hash gives the lookup in what the hash stands for; the nodes restored on
      the way stand for the same; there is one cat per level at most. */
  lemma {:induction false} FindHashCorrect(b: map<nat, Blob>, h: nat, k: string)
    requires HashOk(b, h) && Sorted(HashView(b, h))
    ensures var r := FindHash(b, h, k);
            && r.answer == Lookup(HashView(b, h), k)
            && LazyOk(r.es, b) && View(r.es, b) == HashView(b, h)
            && r.cats <= HashLevels(b, h)
    decreases h
  {
    var es := Decode(b[h]);
    var i := LowerBound(es, Fin(k));
    RestoreIsTransparent(b, h);
    LookupAtLowerBound(es, k, b);
    if i < |es| {
      DecodeIsBare(b[h]);
      LevelsAt(es, i, b);
      assert LinkOk(es[i], b);
      if es[i].id != Fin(k) && es[i].hash.Id? {
        FindHashCorrect(b, es[i].hash.n, k);
        var e := es[i].(child := Node(FindHash(b, es[i].hash.n, k).es));
        ViewSet(es, i, e, b);
        SetLazyOk(es, i, e, b);
      }
    } else {
      LevelsPositive(es, b);
    }
  }

  lemma {:induction false} LevelsPositive(es: seq<Entry>, b: map<nat, Blob>)
    ensures Levels(es, b) >= 1
  {
  }

  lemma {:induction false} SetLazyOk(es: seq<Entry>, i: nat, e: Entry, b: map<nat, Blob>)
    requires LazyOk(es, b) && i < |es| && LinkOk(e, b) && e.id == es[i].id && e.value == es[i].value
    ensures LazyOk(es[i := e], b)
  {
    var es1 := es[i := e];
    forall j | 0 <= j < |es1|
      ensures LinkOk(es1[j], b)
    {
      assert es1[j] == if j == i then e else es[j];
      assert LinkOk(es[j], b);
    }
  }

  /** Node::find answers with the lookup in the map that resident nodes and blobs stand for, does
      not change that map, and calls cat at most once for each level below the node. */
  lemma {:induction false} FindCorrect(es: seq<Entry>, k: string, b: map<nat, Blob>)
    requires LazyOk(es, b) && Sorted(View(es, b))
    ensures var r := Find(es, k, b);
            && r.answer == Lookup(View(es, b), k)
            && LazyOk(r.es, b) && View(r.es, b) == View(es, b)
            && r.cats < Levels(es, b)
    decreases es
  {
    var i := LowerBound(es, Fin(k));
    LookupAtLowerBound(es, k, b);
    LevelsPositive(es, b);
    if i < |es| && es[i].id != Fin(k) && (es[i].child.Node? || es[i].hash.Id?) {
      assert LinkOk(es[i], b);
      LevelsAt(es, i, b);
      if es[i].child.Node? {
        FindCorrect(es[i].child.entries, k, b);
      } else {
        FindHashCorrect(b, es[i].hash.n, k);
      }
      var r := if es[i].child.Node? then Find(es[i].child.entries, k, b) else FindHash(b, es[i].hash.n, k);
      var e := es[i].(child := Node(r.es));
      ViewSet(es, i, e, b);
      SetLazyOk(es, i, e, b);
    }
  }

  /** find on a link answers from what the link stands for, leaves that as it is, and calls cat at
      most once per level. */
  lemma {:induction false} FindLinkCorrect(e: Entry, k: string, b: map<nat, Blob>)
    requires LinkOk(e, b) && Sorted(LinkView(e, b))
    ensures var r := FindLink(e, k, b);
            && r.answer == Lookup(LinkView(e, b), k)
            && (e.child.Node? || e.hash.Id? ==>
                  LinkOk(e.(child := Node(r.es)), b) && LinkView(e.(child := Node(r.es)), b) == LinkView(e, b))
            && r.cats <= LinkLevels(e, b)
  {
    if e.child.Node? {
      FindCorrect(e.child.entries, k, b);
    } else if e.hash.Id? {
      FindHashCorrect(b, e.hash.n, k);
    }
  }

  lemma {:induction false} LowerBoundKept(es: seq<Entry>, i: nat, e: Entry, k: string)
    requires i < |es| && e.id == es[i].id && i == LowerBound(es, Fin(k))
    ensures LowerBound(es[i := e], Fin(k)) == i
  {
    var es1 := es[i := e];
    forall j | 0 <= j < |es1|
      ensures es1[j].id == es[j].id
    {
    }
    LowerBoundIs(es1, Fin(k), i);
  }

  lemma {:induction false} DecodeBelow(blob: Blob, h: nat)
    requires forall i :: 0 <= i < |blob| && blob[i].child.Id? ==> blob[i].child.n < h
    ensures forall i :: 0 <= i < |Decode(blob)| && Decode(blob)[i].hash.Id? ==> Decode(blob)[i].hash.n < h
  {
    if blob == [] {
    } else {
      DecodeBelow(blob[..|blob| - 1], h);
    }
  }

  /** A null child that is restored first and searched then. */
  lemma {:induction false} FindRestored(b: map<nat, Blob>, h: nat, k: string)
    requires Acyclic(b) && h in b
    ensures var r := Find(Decode(b[h]), k, b);
            FindHash(b, h, k) == FindResult(r.answer, r.es, r.cats + 1)
    ensures Levels(Decode(b[h]), b) == HashLevels(b, h)
  {
    DecodeIsBare(b[h]);
    DecodeBelow(b[h], h);
    BareView(Decode(b[h]), b, h);
  }

  lemma {:induction false} LevelsSet(es: seq<Entry>, i: nat, e: Entry, b: map<nat, Blob>)
    requires i < |es| && LinkLevels(e, b) <= LinkLevels(es[i], b)
    ensures Levels(es[i := e], b) <= Levels(es, b)
  {
    if i > 0 {
      assert es[i := e][1..] == es[1..][i - 1 := e];
      LevelsSet(es[1..], i - 1, e, b);
    } else {
      assert es[i := e][1..] == es[1..];
    }
  }

  /** Restoring a missing child on the way adds no levels. */
  lemma {:induction false} RestoreKeepsLevels(es: seq<Entry>, i: nat, b: map<nat, Blob>)
    requires i < |es| && es[i].child.Nil? && es[i].hash.Id? && Acyclic(b) && es[i].hash.n in b
    ensures Levels(es[i := es[i].(child := Node(Decode(b[es[i].hash.n])))], b) <= Levels(es, b)
  {
    FindRestored(b, es[i].hash.n, "");
    LevelsSet(es, i, es[i].(child := Node(Decode(b[es[i].hash.n]))), b);
  }

  lemma {:induction false} RepeatHash(b: map<nat, Blob>, h: nat, k: string)
    requires Acyclic(b)
    ensures var r := FindHash(b, h, k);
            Find(r.es, k, b) == FindResult(if r.answer.CatFailed? then NotFound else r.answer, r.es, 0)
    decreases h
  {
    if h !in b {
    } else {
      var es := Decode(b[h]);
      var i := LowerBound(es, Fin(k));
      DecodeIsBare(b[h]);
      DecodeBelow(b[h], h);
      if i < |es| && es[i].id != Fin(k) && es[i].hash.Id? {
        RepeatHash(b, es[i].hash.n, k);
        LowerBoundKept(es, i, es[i].(child := Node(FindHash(b, es[i].hash.n, k).es)), k);
      }
    }
  }

  /** A find repeated on what the first one left behind calls cat no more and changes nothing. It
      gives the same answer, except after a failed cat: that one leaves an empty node behind, and
      from then on the key is reported as not found. */
  lemma {:induction false} RepeatFind(es: seq<Entry>, k: string, b: map<nat, Blob>)
    requires Acyclic(b)
    ensures var r := Find(es, k, b);
            Find(r.es, k, b) == FindResult(if r.answer.CatFailed? then NotFound else r.answer, r.es, 0)
    decreases es
  {
    var i := LowerBound(es, Fin(k));
    if i < |es| && es[i].id != Fin(k) && (es[i].child.Node? || es[i].hash.Id?) {
      if es[i].child.Node? {
        RepeatFind(es[i].child.entries, k, b);
      } else {
        RepeatHash(b, es[i].hash.n, k);
      }
      LowerBoundKept(es, i, es[i].(child := Find(es, k, b).es[i].child), k);
    }
  }

  // ----- a failed cat is reported -----

  predicate Extends(b': map<nat, Blob>, b: map<nat, Blob>) {
    forall h :: h in b ==> h in b' && b'[h] == b[h]
  }

  lemma {:induction false} FailedHash(b: map<nat, Blob>, b': map<nat, Blob>, h: nat, k: string)
    requires Extends(b', b)
    ensures FindHash(b, h, k).answer.CatFailed? || FindHash(b, h, k) == FindHash(b', h, k)
    decreases h
  {
    if h in b {
      var es := Decode(b[h]);
      var i := LowerBound(es, Fin(k));
      if i < |es| && es[i].id != Fin(k) && es[i].hash.Id? && es[i].hash.n < h {
        FailedHash(b, b', es[i].hash.n, k);
      }
    }
  }

  /** However far down a cat fails, find reports it: any other answer is the one that is given when
      all the missing blobs are there, and so are the node left behind and the number of cats. */
  lemma {:induction false} FailureIsReported(es: seq<Entry>, b: map<nat, Blob>, b': map<nat, Blob>, k: string)
    requires Extends(b', b)
    ensures Find(es, k, b).answer.CatFailed? || Find(es, k, b) == Find(es, k, b')
    decreases es
  {
    var i := LowerBound(es, Fin(k));
    if i < |es| && es[i].id != Fin(k) && (es[i].child.Node? || es[i].hash.Id?) {
      if es[i].child.Node? {
        FailureIsReported(es[i].child.entries, b, b', k);
      } else {
        FailedHash(b, b', es[i].hash.n, k);
      }
    }
  }

  lemma {:induction false} FailedLinkIsReported(e: Entry, b: map<nat, Blob>, b': map<nat, Blob>, k: string)
    requires Extends(b', b)
    ensures FindLink(e, k, b).answer.CatFailed? || FindLink(e, k, b) == FindLink(e, k, b')
  {
    if e.child.Node? {
      FailureIsReported(e.child.entries, b, b', k);
    } else if e.hash.Id? {
      FailedHash(b, b', e.hash.n, k);
    }
  }

  // ----- what store wrote is what find reads -----

  ghost predicate AllGood(s: seq<Pair>) {
    forall i :: 0 <= i < |s| ==> GoodKey(s[i].key)
  }

  lemma {:induction false} AllGoodAt(es: seq<Entry>, i: nat)
    requires i < |es| && AllGood(Flat(es))
    ensures AllGood(Under(es[i]))
    ensures es[i].id.Fin? ==> GoodKey(es[i].id.key)
  {
    FlatAt(es, i);
    AllGoodParts(Flat(es[..i]), Under(es[i]), Own(es[i]), Flat(es[i + 1..]));
    if es[i].id.Fin? {
      assert Own(es[i])[0].key == es[i].id.key;
    }
  }

  lemma {:induction false} AllGoodParts(a: seq<Pair>, u: seq<Pair>, o: seq<Pair>, b: seq<Pair>)
    requires AllGood(a + (u + o) + b)
    ensures AllGood(u) && AllGood(o)
  {
    assert a + (u + o) + b == a + u + (o + b) && a + (u + o) + b == (a + u) + o + b;
    AllGoodPart(a, u, o + b);
    AllGoodPart(a + u, o, b);
  }

  lemma {:induction false} AllGoodPart(a: seq<Pair>, u: seq<Pair>, b: seq<Pair>)
    requires AllGood(a + u + b)
    ensures AllGood(u)
  {
    forall i | 0 <= i < |u|
      ensures GoodKey(u[i].key)
    {
      assert (a + u + b)[|a| + i] == u[i];
    }
  }

  /** How many entries of a node make it into its blob. */
  function StripCount(es: seq<Entry>): nat {
    if es != [] && es[|es| - 1].id.Inf? && es[|es| - 1].hash.NoHash? then |es| - 1 else |es|
  }

  lemma {:induction false} StripForm(es: seq<Entry>)
    requires Proper(es)
    ensures |Strip(es)| == StripCount(es)
    ensures forall i :: 0 <= i < StripCount(es) ==> Strip(es)[i] == es[i].(child := Nil)
  {
    if es != [] {
      StripAre(es[..|es| - 1]);
    }
  }

  /** The node that comes back from the blob of a node with good keys. */
  lemma {:induction false} DecodedBlob(es: seq<Entry>, b: map<nat, Blob>, h: nat)
    requires Proper(es) && Sorted(Flat(es)) && AllGood(Flat(es))
    requires Acyclic(b) && h in b && b[h] == Encode(es)
    ensures var d := Decode(b[h]);
            && |d| == StripCount(es) && Proper(d)
            && (forall i :: 0 <= i < |d| ==> d[i] == es[i].(child := Nil))
            && (forall i :: 0 <= i < |d| && d[i].hash.Id? ==> d[i].hash.n < h)
  {
    SortedIsOrdered(es);
    forall i | 0 <= i < |es| && es[i].id.Fin?
      ensures GoodKey(es[i].id.key)
    {
      AllGoodAt(es, i);
    }
    RoundTrip(es);
    StripForm(es);
    DecodeBelow(b[h], h);
  }

  /** What a resident, agreeing, fully hashed tree stands for can be read from its blob alone. */
  lemma {:induction false} StoredTreeReads(es: seq<Entry>, ht: nat, maxSize: nat, b: map<nat, Blob>, h: nat)
    requires Kids(es, ht, maxSize) && Sorted(Flat(es)) && AllGood(Flat(es))
    requires Agree(es, b) && Acyclic(b) && HashAgrees(Id(h), es, b)
    ensures HashOk(b, h) && HashView(b, h) == Flat(es) && HashLevels(b, h) == ht
    decreases es, 1
  {
    DecodedBlob(es, b, h);
    var d := Decode(b[h]);
    forall i | 0 <= i < |d|
      ensures LinkReads(es[i], d[i].hash, ht, b, h)
    {
      StoredLinkReads(es, i, ht, maxSize, b, h);
    }
    DroppedIsEmpty(es, ht, maxSize, b);
    EntriesRead(es, d, 0, ht, b, h);
    assert d[0..] == d && es[0..] == es;
  }

  /** Only the INF entry of a leaf is not stored. */
  lemma {:induction false} DroppedIsEmpty(es: seq<Entry>, ht: nat, maxSize: nat, b: map<nat, Blob>)
    requires Kids(es, ht, maxSize) && Agree(es, b) && AllHashed(es)
    ensures forall i :: StripCount(es) <= i < |es| ==> Under(es[i]) == [] && Own(es[i]) == []
    ensures StripCount(es) < |es| || StripCount(es) == 0 ==> ht == 1
  {
    if es != [] {
      assert AgreeLink(es[|es| - 1], b);
    }
  }

  /** The hash of a link leads to what the link's resident child stands for. */
  ghost predicate LinkReads(e: Entry, hash: Hash, ht: nat, b: map<nat, Blob>, h: nat) {
    match hash
    case NoHash => Under(e) == [] && ht == 1
    case Id(n) => n < h && HashOk(b, n) && HashView(b, n) == Under(e) && HashLevels(b, n) + 1 == ht
  }

  lemma {:induction false} StoredLinkReads(es: seq<Entry>, i: nat, ht: nat, maxSize: nat, b: map<nat, Blob>, h: nat)
    requires Kids(es, ht, maxSize) && Sorted(Flat(es)) && AllGood(Flat(es))
    requires Agree(es, b) && Acyclic(b) && AllHashed(es) && i < |es|
    requires es[i].hash.Id? ==> es[i].hash.n < h
    ensures LinkReads(es[i], es[i].hash, ht, b, h)
    decreases es, 0
  {
    assert AgreeLink(es[i], b);
    if ht > 1 {
      var c := es[i].child.entries;
      assert Half(c, ht - 1, maxSize);
      SortedAt(es, i);
      AllGoodAt(es, i);
      StoredTreeReads(c, ht - 1, maxSize, b, es[i].hash.n);
    }
  }

  lemma {:induction false} EntriesRead(es: seq<Entry>, d: seq<Entry>, i: nat, ht: nat, b: map<nat, Blob>, h: nat)
    requires i <= |d| <= |es| && ht >= 1
    requires forall j :: 0 <= j < |d| ==> d[j] == es[j].(child := Nil) && LinkReads(es[j], d[j].hash, ht, b, h)
    requires forall j :: |d| <= j < |es| ==> Under(es[j]) == [] && Own(es[j]) == []
    requires |d| < |es| ==> ht == 1
    ensures StoredView(b, d[i..], h) == Flat(es[i..])
    ensures StoredLevels(b, d[i..], h) == if i == |d| then 1 else ht
    decreases |es| - i
  {
    if i < |d| {
      EntriesRead(es, d, i + 1, ht, b, h);
      assert d[i..][1..] == d[i + 1..] && es[i..][1..] == es[i + 1..];
      assert d[i..][0] == d[i] && es[i..][0] == es[i];
    } else {
      assert forall j :: 0 <= j < |es[i..]| ==> es[i..][j] == es[i + j];
      EmptyTail(es[i..]);
    }
  }

  lemma {:induction false} EmptyTail(es: seq<Entry>)
    requires forall j :: 0 <= j < |es| ==> Under(es[j]) == [] && Own(es[j]) == []
    ensures Flat(es) == []
    decreases |es|
  {
    if es == [] {
    } else {
      EmptyTail(es[1..]);
    }
  }
}
