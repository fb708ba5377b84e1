/** The nodes as the objects they are: each owns its children, and insert, split, insert_node,
    store, restore and find update entries in place. Every method is tied to the function on node
    values that says what it computes. */
module Nodes {
  import opened Keys
  import opened OrderedMap
  import opened Tree
  import opened Insertion
  import opened InOrder
  import opened Codec
  import opened Storage
  import opened LazyFind
  import opened Database
  import opened Blobs
  import opened Progress
  import opened Coalescing

  /** json[k]["value"] and json[k]["child"] for one entry, its hash being known. */
  method AddMember(json: Blob, s: Slot, hash: Hash) returns (json': Blob)
    ensures json' == EncodeEntry(json, Entry(s.id, s.value, Nil, hash))
  {
    json' := json;
    var k := if s.id.Fin? then CStr(s.id.key) else "";
    if s.id.Fin? {
      json' := JsonSet(json', k, Str(s.value), NoHash);
    }
    if hash.Id? {
      json' := JsonSet(json', k, Absent, hash);
    }
  }

  /** struct Entry with its id; child is the unique_ptr. */
  datatype Slot = Slot(id: NodeId, value: string, child: HeapNode?, hash: Hash)

  /** The slot and its value agree; its subtree, if any, is well-formed and made of nodes in r. */
  ghost predicate Holds(s: Slot, r: set<HeapNode>, e: Entry)
    reads r
  {
    && e.id == s.id && e.value == s.value && e.hash == s.hash
    && (s.child == null ==> e.child == Nil)
    && (s.child != null ==> s.child in r && s.child.repr <= r && s.child.Valid() && e.child == Node(s.child.model))
  }

  ghost predicate Apart(s: Slot, t: Slot)
    reads s.child, t.child
  {
    s.child != null && t.child != null ==> s.child.repr !! t.child.repr
  }

  /** The slots hold disjoint, well-formed subtrees made of nodes in r, and stand for m. */
  ghost predicate Owns(ss: seq<Slot>, r: set<HeapNode>, m: seq<Entry>)
    reads r, set i | 0 <= i < |ss| && ss[i].child != null :: ss[i].child
  {
    && |m| == |ss|
    && (forall i :: 0 <= i < |ss| ==> Holds(ss[i], r, m[i]))
    && (forall i, j :: 0 <= i < j < |ss| ==> Apart(ss[i], ss[j]))
  }

  ghost function Reach(ss: seq<Slot>): set<HeapNode>
    reads set i | 0 <= i < |ss| && ss[i].child != null :: ss[i].child
  {
    set i, n | 0 <= i < |ss| && ss[i].child != null && n in ss[i].child.repr :: n
  }

  lemma {:induction false} OwnsSlice(ss: seq<Slot>, r: set<HeapNode>, m: seq<Entry>, a: nat, b: nat)
    requires Owns(ss, r, m) && a <= b <= |ss|
    ensures Owns(ss[a..b], r, m[a..b])
  {
    var tt, mm := ss[a..b], m[a..b];
    forall i | 0 <= i < |tt|
      ensures Holds(tt[i], r, mm[i])
    {
      assert Holds(ss[a + i], r, m[a + i]);
    }
    forall i, j | 0 <= i < j < |tt|
      ensures Apart(tt[i], tt[j])
    {
      assert Apart(ss[a + i], ss[a + j]);
    }
  }

  /** The nodes reached from the slots are enough to own them. */
  lemma {:induction false} OwnsReach(ss: seq<Slot>, r: set<HeapNode>, m: seq<Entry>)
    requires Owns(ss, r, m)
    ensures Owns(ss, Reach(ss), m) && Reach(ss) <= r
  {
    forall i | 0 <= i < |ss|
      ensures Holds(ss[i], Reach(ss), m[i])
      ensures ss[i].child != null ==> ss[i].child.repr <= r
    {
      assert Holds(ss[i], r, m[i]);
    }
  }

  lemma {:induction false} ReachApart(ss: seq<Slot>, r: set<HeapNode>, m: seq<Entry>, a: nat)
    requires Owns(ss, r, m) && a <= |ss|
    ensures Reach(ss[..a]) !! Reach(ss[a..]) && Reach(ss[..a]) <= r && Reach(ss[a..]) <= r
  {
    forall i | 0 <= i < |ss| && ss[i].child != null
      ensures ss[i].child.repr <= r
    {
      assert Holds(ss[i], r, m[i]);
    }
    forall n | n in Reach(ss[..a])
      ensures n !in Reach(ss[a..])
    {
      var i :| 0 <= i < |ss[..a]| && ss[..a][i].child != null && n in ss[..a][i].child.repr;
      forall j | 0 <= j < |ss[a..]| && ss[a..][j].child != null
        ensures n !in ss[a..][j].child.repr
      {
        assert Apart(ss[i], ss[a + j]);
      }
    }
  }

  /** A node's children can be shared out between two new owners. */
  lemma {:induction false} OwnsCut(
      ss: seq<Slot>, r: set<HeapNode>, m: seq<Entry>, a: nat) returns (rl: set<HeapNode>, rr: set<HeapNode>)
    requires Owns(ss, r, m) && a <= |ss|
    ensures rl !! rr && rl <= r && rr <= r
    ensures Owns(ss[..a], rl, m[..a]) && Owns(ss[a..], rr, m[a..])
  {
    ReachApart(ss, r, m, a);
    OwnsSlice(ss, r, m, 0, a);
    OwnsSlice(ss, r, m, a, |ss|);
    assert ss[0..a] == ss[..a] && m[0..a] == m[..a] && ss[a..|ss|] == ss[a..] && m[a..|ss|] == m[a..];
    OwnsReach(ss[..a], r, m[..a]);
    OwnsReach(ss[a..], r, m[a..]);
    rl, rr := Reach(ss[..a]), Reach(ss[a..]);
  }

  lemma {:induction false} OwnsWeaken(ss: seq<Slot>, r: set<HeapNode>, r': set<HeapNode>, m: seq<Entry>)
    requires Owns(ss, r, m) && r <= r'
    ensures Owns(ss, r', m)
  {
    forall i | 0 <= i < |ss|
      ensures Holds(ss[i], r', m[i])
    {
      assert Holds(ss[i], r, m[i]);
    }
  }

  lemma {:induction false} OwnsMerge(
      a: seq<Slot>, ra: set<HeapNode>, ma: seq<Entry>, b: seq<Slot>, rb: set<HeapNode>, mb: seq<Entry>)
    requires Owns(a, ra, ma) && Owns(b, rb, mb) && ra !! rb
    ensures Owns(a + b, ra + rb, ma + mb)
  {
    var ss, r, m := a + b, ra + rb, ma + mb;
    forall i | 0 <= i < |ss|
      ensures Holds(ss[i], r, m[i])
      ensures ss[i].child != null ==> ss[i].child.repr <= if i < |a| then ra else rb
    {
      if i < |a| {
        assert Holds(a[i], ra, ma[i]);
      } else {
        assert Holds(b[i - |a|], rb, mb[i - |a|]);
      }
    }
    forall i, j | 0 <= i < j < |ss|
      ensures Apart(ss[i], ss[j])
    {
      if j < |a| {
        assert Apart(a[i], a[j]);
      } else if |a| <= i {
        assert Apart(b[i - |a|], b[j - |a|]);
      }
    }
  }

  /** The children before, at and after position i, each with nodes of their own. */
  lemma {:induction false} OwnsCutAt(ss: seq<Slot>, r: set<HeapNode>, m: seq<Entry>, i: nat)
    returns (rl: set<HeapNode>, rm: set<HeapNode>, rr: set<HeapNode>)
    requires Owns(ss, r, m) && i < |ss|
    ensures rl !! rm && rl !! rr && rm !! rr && rl <= r && rm <= r && rr <= r
    ensures Owns(ss[..i], rl, m[..i]) && Owns([ss[i]], rm, [m[i]]) && Owns(ss[i + 1..], rr, m[i + 1..])
    ensures ss[i].child != null ==> rm == ss[i].child.repr
  {
    var rest;
    rl, rest := OwnsCut(ss, r, m, i);
    rm, rr := OwnsCut(ss[i..], rest, m[i..], 1);
    assert ss[i..][..1] == [ss[i]] && m[i..][..1] == [m[i]];
    assert ss[i..][1..] == ss[i + 1..] && m[i..][1..] == m[i + 1..];
    if ss[i].child != null {
      assert Holds([ss[i]][0], rm, [m[i]][0]);
      rm := ss[i].child.repr;
      assert Holds([ss[i]][0], rm, [m[i]][0]);
    }
  }

  lemma {:induction false} OwnsOne(s: Slot, e: Entry)
    requires s.child != null && s.child.Valid()
    requires e == Entry(s.id, s.value, Node(s.child.model), s.hash)
    ensures Owns([s], s.child.repr, [e])
  {
    assert Holds(s, s.child.repr, e);
  }

  /** std::map::lower_bound on the entries. */
  function SlotBound(ss: seq<Slot>, id: NodeId): (i: nat)
    ensures i <= |ss|
  {
    if ss == [] || !IdLess(ss[0].id, id) then 0 else 1 + SlotBound(ss[1..], id)
  }

  lemma {:induction false} SlotBoundIs(ss: seq<Slot>, r: set<HeapNode>, m: seq<Entry>, id: NodeId)
    requires Owns(ss, r, m)
    ensures SlotBound(ss, id) == LowerBound(m, id)
    decreases |ss|
  {
    if ss == [] {
    } else {
      assert Holds(ss[0], r, m[0]);
      OwnsSlice(ss, r, m, 1, |ss|);
      assert ss[1..|ss|] == ss[1..] && m[1..|m|] == m[1..];
      SlotBoundIs(ss[1..], r, m[1..], id);
    }
  }

  /** Slot s' and its value have the child of slot s and its value. */
  predicate SameChild(s': Slot, e': Entry, s: Slot, e: Entry) {
    && s'.child == s.child && e'.child == e.child
    && e'.id == s'.id && e'.value == s'.value && e'.hash == s'.hash
  }

  /** Owning is about the children; ids, values and hashes may differ as long as m follows. */
  lemma {:induction false} OwnsSame(ss: seq<Slot>, ss': seq<Slot>, r: set<HeapNode>, m: seq<Entry>, m': seq<Entry>)
    requires Owns(ss, r, m) && |ss'| == |m'| == |ss|
    requires forall i :: 0 <= i < |ss| ==> SameChild(ss'[i], m'[i], ss[i], m[i])
    ensures Owns(ss', r, m')
  {
    forall i | 0 <= i < |ss|
      ensures Holds(ss'[i], r, m'[i])
    {
      assert Holds(ss[i], r, m[i]) && SameChild(ss'[i], m'[i], ss[i], m[i]);
    }
    forall i, j | 0 <= i < j < |ss|
      ensures Apart(ss'[i], ss'[j])
    {
      assert Apart(ss[i], ss[j]);
    }
  }

  /** Before insert_node: the entries left and right of the split child target, the median half
      over the left node, and the right node source, all on nodes of their own. */
  ghost predicate Parts(ss: seq<Slot>, ms: seq<Entry>, j: nat, rl: set<HeapNode>, rr: set<HeapNode>,
                        half: Slot, e: Entry, target: HeapNode, source: HeapNode)
    requires j < |ss| == |ms| && half.child != null
    reads rl, rr, half.child, half.child.repr, source, source.repr
    reads set i | 0 <= i < j && ss[i].child != null :: ss[i].child
    reads set i | j < i < |ss| && ss[i].child != null :: ss[i].child
  {
    && ss[j].child == target && source != target
    && ms[j].id == ss[j].id && ms[j].value == ss[j].value && ms[j].hash == ss[j].hash
    && Owns(ss[..j], rl, ms[..j]) && Owns(ss[j + 1..], rr, ms[j + 1..])
    && half.child.Valid() && e == Entry(half.id, half.value, Node(half.child.model), half.hash)
    && source.Valid()
    && rl !! rr !! half.child.repr !! source.repr !! {target}
  }

  class HeapNode {
    var entries: seq<Slot>
    ghost var model: seq<Entry>
    ghost var repr: set<HeapNode>

    ghost predicate Valid()
      reads this, repr
      decreases repr
    {
      && this in repr
      && |model| == |entries|
      && (forall i :: 0 <= i < |entries| ==>
            && model[i].id == entries[i].id && model[i].value == entries[i].value && model[i].hash == entries[i].hash
            && (entries[i].child == null ==> model[i].child == Nil)
            && (entries[i].child != null ==>
                  && entries[i].child in repr && entries[i].child.repr <= repr - {this}
                  && entries[i].child.Valid() && model[i].child == Node(entries[i].child.model)))
      && (forall i, j :: 0 <= i < j < |entries| && entries[i].child != null && entries[j].child != null ==>
            entries[i].child.repr !! entries[j].child.repr)
    }

    lemma {:induction false} Unfold()
      requires Valid()
      ensures Owns(entries, repr - {this}, model)
    {
    }

    lemma {:induction false} Fold()
      requires this in repr && Owns(entries, repr - {this}, model)
      ensures Valid()
    {
    }

    constructor ()
      ensures Valid() && entries == [] && model == [] && repr == {this}
    {
      entries, model, repr := [], [], {this};
    }

    /** The loop of Node::split: entries are moved out from the front, those below the median to
        the left half, those above it to the right half, the median over the left half. */
    method MoveOut(left: HeapNode, right: HeapNode, ret: HeapNode, store: BlobStore, count: nat)
      requires left != right && left != ret && right != ret && this !in {left, right, ret}
      requires left.entries == right.entries == ret.entries == []
      requires count / 2 < |entries|
      modifies this`entries, left`entries, right`entries, ret`entries, store`blobs
      ensures var es, m := old(entries), count / 2;
              && entries == []
              && left.entries == es[..m] + [Slot(Inf, "", es[m].child, NoHash)]
              && right.entries == es[m + 1..]
              && ret.entries == [Slot(es[m].id, es[m].value, left, NoHash)]
                                + (if m + 1 < |es| then [Slot(Inf, "", right, NoHash)] else [])
              && store.State() == Database.TryRemove(store.config, old(store.State()), HashBag(es[m].hash))
    {
      ghost var es, m, n := entries, count / 2, 0;
      var median := count / 2;
      var fillLeft := true;
      while entries != []
        invariant n <= |es| && entries == es[n..]
        invariant fillLeft ==> n <= m && median == m - n && left.entries == es[..n]
        invariant fillLeft ==> ret.entries == [] && right.entries == []
        invariant fillLeft ==> store.State() == old(store.State())
        invariant !fillLeft ==> n > m && left.entries == es[..m] + [Slot(Inf, "", es[m].child, NoHash)]
        invariant !fillLeft ==> right.entries == es[m + 1..n]
        invariant !fillLeft ==> ret.entries == [Slot(es[m].id, es[m].value, left, NoHash)]
                                               + (if n > m + 1 then [Slot(Inf, "", right, NoHash)] else [])
        invariant !fillLeft ==>
          store.State() == Database.TryRemove(store.config, old(store.State()), HashBag(es[m].hash))
        decreases |entries|
      {
        var e := entries[0];
        if fillLeft && median == 0 {
          left.entries := left.entries + [Slot(Inf, "", e.child, NoHash)];
          store.TryRemove(e.hash);
          ret.entries := ret.entries + [Slot(e.id, e.value, left, NoHash)];
          fillLeft := false;
        } else if fillLeft {
          median := median - 1;
          left.entries := left.entries + [e];
        } else {
          if |ret.entries| == 1 {
            ret.entries := ret.entries + [Slot(Inf, "", right, NoHash)];
          }
          right.entries := right.entries + [e];
        }
        entries := entries[1..];
        n := n + 1;
      }
    }

    /** Node::split. */
    method Split(store: BlobStore, maxSize: nat) returns (up: HeapNode?)
      requires Valid()
      modifies this, store`blobs
      ensures Valid() && repr <= old(repr)
      ensures up == null <==> Size(old(model)) <= maxSize
      ensures up == null ==> model == old(model) && repr == old(repr) && store.State() == old(store.State())
      ensures up != null ==> HandedUp(up, old(model)) && fresh(up) && fresh(up.repr - old(repr))
      ensures up != null ==>
        var gone := HashBag(old(model)[Size(old(model)) / 2].hash);
        store.State() == Database.TryRemove(store.config, old(store.State()), gone)
    {
      var count := Count();
      if count <= maxSize {
        return null;
      }
      up := SplitOverfull(store, count);
    }

    method SplitOverfull(store: BlobStore, count: nat) returns (up: HeapNode)
      requires Valid() && 0 < count == Size(model)
      modifies this, store`blobs
      ensures HandedUp(up, old(model)) && fresh(up) && fresh(up.repr - old(repr))
      ensures var gone := HashBag(old(model)[Size(old(model)) / 2].hash);
              store.State() == Database.TryRemove(store.config, old(store.State()), gone)
    {
      var left: HeapNode := new HeapNode();
      var right: HeapNode := new HeapNode();
      up := new HeapNode();
      SplitInto(left, right, up, store, count);
      assert up.repr - old(repr) <= {left, right, up};
    }

    method SplitInto(left: HeapNode, right: HeapNode, up: HeapNode, store: BlobStore, count: nat)
      requires Valid() && 0 < count == Size(model)
      requires left != right && left != up && right != up && {left, right, up} !! repr
      requires left.entries == right.entries == up.entries == []
      modifies this, left, right, up, store`blobs
      ensures HandedUp(up, old(model)) && up.repr <= old(repr) + {left, right, up}
      ensures var gone := HashBag(old(model)[Size(old(model)) / 2].hash);
              store.State() == Database.TryRemove(store.config, old(store.State()), gone)
    {
      Unfold();
      ghost var es, ms, r := entries, model, repr - {this};
      assert Owns(es, r, ms);
      MoveOut(left, right, up, store, count);
      assert Owns(es, r, ms);
      Rehouse(es, r, ms, left, right, up);
    }

    /** The new owners after a split: this node is left alone. */
    ghost method Rehouse(es: seq<Slot>, r: set<HeapNode>, ms: seq<Entry>, left: HeapNode, right: HeapNode, up: HeapNode)
      requires Owns(es, r, ms) && 0 < Size(ms) && entries == []
      requires {this, left, right, up} !! r && this !in {left, right, up}
      requires left != right && left != up && right != up
      requires var m := Size(ms) / 2;
               && left.entries == es[..m] + [Slot(Inf, "", es[m].child, NoHash)]
               && right.entries == es[m + 1..]
               && up.entries == [Slot(es[m].id, es[m].value, left, NoHash)]
                                + (if m + 1 < |es| then [Slot(Inf, "", right, NoHash)] else [])
      modifies this`model, this`repr, left`model, left`repr, right`model, right`repr, up`model, up`repr
      ensures HandedUp(up, ms) && up.repr <= r + {left, right, up}
    {
      model, repr := [], {this};
      BuildHalves(es, r, ms, Size(ms) / 2, left, right, up);
    }

    /** This node has been emptied and its entries handed up in the node up. */
    ghost predicate HandedUp(up: HeapNode, m: seq<Entry>)
      reads this, up, up.repr
    {
      && entries == [] && model == [] && repr == {this}
      && up.Valid() && this !in up.repr
      && 0 < Size(m) && up.model == Halves(m)
    }

    ghost method BuildHalves(
        es: seq<Slot>, r: set<HeapNode>, ms: seq<Entry>, m: nat, left: HeapNode, right: HeapNode, ret: HeapNode)
      requires Owns(es, r, ms) && m < |es| && left !in r && right !in r && ret !in r
      requires left != right && left != ret && right != ret
      requires 0 < Size(ms) && m == Size(ms) / 2
      requires left.entries == es[..m] + [Slot(Inf, "", es[m].child, NoHash)]
      requires right.entries == es[m + 1..]
      requires ret.entries == [Slot(es[m].id, es[m].value, left, NoHash)]
                              + (if m + 1 < |es| then [Slot(Inf, "", right, NoHash)] else [])
      modifies left`model, left`repr, right`model, right`repr, ret`model, ret`repr
      ensures ret.Valid() && ret.model == Halves(ms) && ret.repr <= r + {left, right, ret}
    {
      assert Holds(es[m], r, ms[m]);
      BuildBoth(es, r, ms, m, left, right);
      BuildTop(ret, left, right, Halves(ms));
    }

    ghost method BuildBoth(es: seq<Slot>, r: set<HeapNode>, ms: seq<Entry>, m: nat, left: HeapNode, right: HeapNode)
      requires Owns(es, r, ms) && m < |es| && left !in r && right !in r && left != right
      requires left.entries == es[..m] + [Slot(Inf, "", es[m].child, NoHash)]
      requires right.entries == es[m + 1..]
      modifies left`model, left`repr, right`model, right`repr
      ensures left.Valid() && left.model == ms[..m] + [Entry(Inf, "", ms[m].child, NoHash)]
      ensures right.Valid() && right.model == ms[m + 1..]
      ensures left.repr !! right.repr && left.repr + right.repr <= r + {left, right}
    {
      var rl, rr := OwnsCut(es, r, ms, m + 1);
      BuildLeft(left, es, rl, ms, m);
      BuildRight(right, es, rr, ms, m);
      assert left.Valid();
    }

    ghost method BuildLeft(left: HeapNode, es: seq<Slot>, rl: set<HeapNode>, ms: seq<Entry>, m: nat)
      requires m < |es| && |ms| == |es| && Owns(es[..m + 1], rl, ms[..m + 1]) && left !in rl
      requires left.entries == es[..m] + [Slot(Inf, "", es[m].child, NoHash)]
      modifies left`model, left`repr
      ensures left.Valid() && left.model == ms[..m] + [Entry(Inf, "", ms[m].child, NoHash)]
      ensures left.repr == {left} + rl
    {
      var esl, msl := es[..m + 1], ms[..m + 1];
      var ml := ms[..m] + [Entry(Inf, "", ms[m].child, NoHash)];
      forall i | 0 <= i < |esl|
        ensures SameChild(left.entries[i], ml[i], esl[i], msl[i])
      {
        assert Holds(esl[i], rl, msl[i]);
      }
      BuildNode(left, esl, rl, msl, ml);
    }

    ghost method BuildRight(right: HeapNode, es: seq<Slot>, rr: set<HeapNode>, ms: seq<Entry>, m: nat)
      requires m < |es| && |ms| == |es| && Owns(es[m + 1..], rr, ms[m + 1..]) && right !in rr
      requires right.entries == es[m + 1..]
      modifies right`model, right`repr
      ensures right.Valid() && right.model == ms[m + 1..]
      ensures right.repr == {right} + rr
    {
      var esr, msr := es[m + 1..], ms[m + 1..];
      forall i | 0 <= i < |esr|
        ensures SameChild(right.entries[i], msr[i], esr[i], msr[i])
      {
        assert Holds(esr[i], rr, msr[i]);
      }
      BuildNode(right, esr, rr, msr, msr);
    }

    /** Makes a fresh node the owner of the children of ss. */
    ghost method BuildNode(n: HeapNode, ss: seq<Slot>, r: set<HeapNode>, m: seq<Entry>, m': seq<Entry>)
      requires Owns(ss, r, m) && n !in r && |n.entries| == |m'| == |ss|
      requires forall i :: 0 <= i < |ss| ==> SameChild(n.entries[i], m'[i], ss[i], m[i])
      modifies n`model, n`repr
      ensures n.Valid() && n.model == m' && n.repr == {n} + r
    {
      OwnsSame(ss, n.entries, r, m, m');
      n.model, n.repr := m', {n} + r;
      assert n.repr - {n} == r;
      assert Owns(n.entries, r, m');
      n.Fold();
    }

    ghost method BuildTop(ret: HeapNode, left: HeapNode, right: HeapNode, m: seq<Entry>)
      requires left.Valid() && right.Valid() && left.repr !! right.repr && ret !in left.repr + right.repr
      requires 1 <= |m| <= 2 && |ret.entries| == |m|
      requires ret.entries[0] == Slot(m[0].id, m[0].value, left, m[0].hash) && m[0].child == Node(left.model)
      requires |m| == 2 ==>
        ret.entries[1] == Slot(m[1].id, m[1].value, right, m[1].hash) && m[1].child == Node(right.model)
      modifies ret`model, ret`repr
      ensures ret.Valid() && ret.model == m && ret.repr <= {ret} + left.repr + right.repr
    {
      ret.model := m;
      ret.repr := {ret} + left.repr + (if |m| == 2 then right.repr else {});
    }

    /** Move assignment of a node: its entries, with the children they own. */
    method Assign(n: HeapNode)
      requires n.Valid() && this !in n.repr
      modifies this
      ensures Valid() && model == old(n.model) && repr == {this} + (old(n.repr) - {n})
    {
      entries := n.entries;
      TakeOver(this, n);
    }

    /** Rewrites this node's entries without touching the children. */
    ghost method Relabel(ss: seq<Slot>, r: set<HeapNode>, ms: seq<Entry>, m: seq<Entry>)
      requires Owns(ss, r, ms) && this !in r && |entries| == |m| == |ss|
      requires forall i :: 0 <= i < |ss| ==> SameChild(entries[i], m[i], ss[i], ms[i])
      modifies this`model, this`repr
      ensures Valid() && model == m && repr == {this} + r
    {
      BuildNode(this, ss, r, ms, m);
    }

    method SetValue(i: nat, value: string)
      requires Valid() && i < |model|
      modifies this
      ensures Valid() && repr == old(repr) && model == old(model)[i := old(model)[i].(value := value)]
    {
      Unfold();
      ghost var ss, ms, r := entries, model, repr - {this};
      assert forall j :: 0 <= j < |ss| ==> Holds(ss[j], r, ms[j]);
      entries := entries[i := entries[i].(value := value)];
      Relabel(ss, r, ms, ms[i := ms[i].(value := value)]);
    }

    method AddEntry(i: nat, id: NodeId, value: string, hash: Hash)
      requires Valid() && i <= |model|
      modifies this
      ensures Valid() && repr == old(repr) && model == old(model)[..i] + [Entry(id, value, Nil, hash)] + old(model)[i..]
    {
      Unfold();
      ghost var ss, ms, r := entries, model, repr - {this};
      var s := Slot(id, value, null, hash);
      ghost var e := Entry(id, value, Nil, hash);
      entries := entries[..i] + [s] + entries[i..];
      assert Owns(ss, r, ms);
      ghost var rl, rr := OwnsCut(ss, r, ms, i);
      assert Owns([s], {}, [e]);
      OwnsMerge(ss[..i], rl, ms[..i], [s], {}, [e]);
      OwnsMerge(ss[..i] + [s], rl + {}, ms[..i] + [e], ss[i..], rr, ms[i..]);
      OwnsWeaken(entries, rl + {} + rr, r, ms[..i] + [e] + ms[i..]);
      ghost var m := ms[..i] + [e] + ms[i..];
      assert forall j :: 0 <= j < |m| ==> Holds(entries[j], r, m[j]);
      Relabel(entries, r, m, m);
    }

    /** Node::find_or_create_lower_bound. */
    method FindOrCreate(key: string) returns (i: nat)
      requires Valid()
      modifies this
      ensures Valid() && repr == old(repr) && model == FindOrCreateLowerBound(old(model), key)
      ensures i == LowerBound(old(model), Fin(key))
    {
      Unfold();
      SlotBoundIs(entries, repr - {this}, model, Fin(key));
      i := SlotBound(entries, Fin(key));
      if i == |entries| {
        AddEntry(i, Inf, "", NoHash);
      }
    }

    /** Node::is_leaf. */
    method CheckLeaf() returns (leaf: bool)
      requires Valid()
      ensures leaf == IsLeaf(model)
    {
      var i := 0;
      while i < |entries|
        invariant i <= |entries|
        invariant forall j :: 0 <= j < i ==> entries[j].child == null
      {
        if entries[i].child != null {
          return false;
        }
        i := i + 1;
      }
      return true;
    }

    /** A missing child is replaced by an empty node before it is inserted into. */
    method EnsureChild(i: nat)
      requires Valid() && i < |model|
      modifies this
      ensures Valid() && fresh(repr - old(repr))
      ensures model == old(model)[i := old(model)[i].(child := Node(EntriesOf(old(model)[i].child)))]
    {
      if entries[i].child == null {
        var c := new HeapNode();
        Unfold();
        ghost var ss, ms, r := entries, model, repr - {this};
        ghost var rl, rm, rr := OwnsCutAt(ss, r, ms, i);
        entries := entries[i := entries[i].(child := c)];
        assert Owns(ss[..i], rl, ms[..i]) && Owns(ss[i + 1..], rr, ms[i + 1..]);
        Reattach(ss, ms, i, rl, rr, ms[i].(child := Node([])));
      } else {
        assert model[i].child == Node(EntriesOf(model[i].child));
      }
    }

    /** The node with only the slot at i replaced, its child on nodes of its own. */
    ghost method Reattach(ss: seq<Slot>, ms: seq<Entry>, i: nat, rl: set<HeapNode>, rr: set<HeapNode>, e: Entry)
      requires i < |ss| == |ms| == |entries| && entries == ss[i := entries[i]]
      requires Owns(ss[..i], rl, ms[..i]) && Owns(ss[i + 1..], rr, ms[i + 1..])
      requires var s := entries[i];
               s.child != null && s.child.Valid() && e == Entry(s.id, s.value, Node(s.child.model), s.hash)
      requires rl !! rr !! entries[i].child.repr && this !in rl + rr + entries[i].child.repr
      modifies this`model, this`repr
      ensures Valid() && model == ms[i := e] && repr == {this} + rl + rr + entries[i].child.repr
    {
      var s := entries[i];
      var cr := s.child.repr;
      OwnsOne(s, e);
      OwnsMerge(ss[..i], rl, ms[..i], [s], cr, [e]);
      OwnsMerge(ss[..i] + [s], rl + cr, ms[..i] + [e], ss[i + 1..], rr, ms[i + 1..]);
      var r, m := rl + cr + rr, ms[i := e];
      assert entries == ss[..i] + [s] + ss[i + 1..] && m == ms[..i] + [e] + ms[i + 1..];
      assert forall j :: 0 <= j < |m| ==> Holds(entries[j], r, m[j]);
      Relabel(entries, r, m, m);
    }

    /** What Node::insert leaves behind, in this node and in the one it hands up. */
    ghost predicate Left(up: HeapNode?, r: Outcome)
      reads this, repr, up, if up == null then {} else up.repr
    {
      && Valid() && model == r.self
      && (up == null <==> r.up.Nil?)
      && (up != null ==> up.Valid() && r.up == Node(up.model) && up.repr !! repr)
    }

    /** The recursive call of Node::insert. */
    method InsertIntoChild(
        c: HeapNode, key: string, value: string, store: BlobStore, maxSize: nat, ghost r: Outcome,
        ghost around: set<HeapNode>)
      returns (n: HeapNode?)
      requires maxSize >= 2 && c.Valid() && c.repr !! around
      requires Loose(c.model) && Sorted(Flat(c.model)) && r == Insertion.Insert(c.model, key, value, maxSize)
      modifies c.repr, store`blobs
      ensures c.Left(n, r) && c.repr !! around && (n != null ==> n.repr !! around)
      ensures store.State() == Database.TryRemove(store.config, old(store.State()), r.removed)
      ensures fresh(c.repr - old(c.repr)) && (n != null ==> fresh(n.repr - old(c.repr)))
      decreases Tall(c.model), 7
    {
      n := c.Insert(key, value, store, maxSize);
    }

    /** Until the link is put right this node is not valid, but it still owns what lies left and right
        of the child. */
    method Descend(i: nat, c: HeapNode, key: string, value: string, store: BlobStore, maxSize: nat,
                   ghost r: Outcome, ghost ms: seq<Entry>, ghost rl: set<HeapNode>, ghost rr: set<HeapNode>)
      returns (n: HeapNode?)
      requires maxSize >= 2 && Around(i, ms, rl, rr) && c == entries[i].child && c.Valid()
      requires c.repr !! {this} + rl + rr
      requires Loose(c.model) && Sorted(Flat(c.model)) && r == Insertion.Insert(c.model, key, value, maxSize)
      modifies c.repr, store`blobs
      ensures entries == old(entries) && Around(i, ms, rl, rr) && c.Left(n, r)
      ensures store.State() == Database.TryRemove(store.config, old(store.State()), r.removed)
      ensures c.repr !! {this} + rl + rr && fresh(c.repr - old(c.repr))
      ensures n != null ==> n.repr !! {this} + rl + rr && fresh(n.repr - old(c.repr))
      decreases Tall(c.model), 8
    {
      n := InsertIntoChild(c, key, value, store, maxSize, r, {this} + rl + rr);
    }

    lemma {:induction false} ChildApart(i: nat) returns (rl: set<HeapNode>, rr: set<HeapNode>)
      requires Valid() && i < |model|
      ensures Around(i, model, rl, rr) && rl + rr <= repr && Holds(entries[i], repr - {this}, model[i])
      ensures entries[i].child != null ==> entries[i].child.repr !! rl + rr + {this}
    {
      Unfold();
      var rm;
      rl, rm, rr := OwnsCutAt(entries, repr - {this}, model, i);
      assert Holds(entries[i], repr - {this}, model[i]);
    }

    /** The part of Node::insert that goes into the child at i. */
    method InsertBelow(i: nat, key: string, value: string, store: BlobStore, maxSize: nat) returns (n: HeapNode?)
      requires maxSize >= 2 && Valid() && i < |model| && model[i].child.Node?
      requires Loose(model[i].child.entries) && Sorted(Flat(model[i].child.entries))
      modifies repr, store`blobs
      ensures var e := old(model)[i];
              var r := Insertion.Insert(e.child.entries, key, value, maxSize);
              && Left(n, Outcome(old(model)[i := e.(child := Node(r.self), hash := NoHash)], r.up, r.removed))
              && store.State() == Database.TryRemove(store.config, old(store.State()), r.removed + HashBag(e.hash))
      ensures fresh(repr - old(repr)) && (n != null ==> fresh(n.repr - old(repr)))
      decreases Tall(model), 1
    {
      TallAt(model, i);
      ghost var rl, rr := ChildApart(i);
      ghost var r := Insertion.Insert(model[i].child.entries, key, value, maxSize);
      n := Descend(i, entries[i].child, key, value, store, maxSize, r, model, rl, rr);
      RemoveTwice(store.config, old(store.State()), r.removed, HashBag(model[i].hash));
      DropHash(i, store, model, rl, rr);
    }

    /** This node with the child at i taken out: it owns what lies left and right of it. */
    ghost predicate Around(i: nat, ms: seq<Entry>, rl: set<HeapNode>, rr: set<HeapNode>)
      reads this, rl, rr
    {
      && i < |entries| == |ms|
      && rl !! rr && this !in rl + rr
      && (forall j :: 0 <= j < |entries| && j != i && entries[j].child != null ==> entries[j].child in rl + rr)
      && Owns(entries[..i], rl, ms[..i]) && Owns(entries[i + 1..], rr, ms[i + 1..])
      && ms[i].id == entries[i].id && ms[i].value == entries[i].value && ms[i].hash == entries[i].hash
    }

    /** try_remove on the link of a child that has just been changed. */
    method DropHash(i: nat, store: BlobStore, ghost ms: seq<Entry>, ghost rl: set<HeapNode>, ghost rr: set<HeapNode>)
      requires Around(i, ms, rl, rr) && entries[i].child != null && entries[i].child.Valid()
      requires rl + rr !! entries[i].child.repr && this !in entries[i].child.repr
      modifies this, store`blobs
      ensures Valid() && model == ms[i := ms[i].(child := Node(old(entries[i].child.model)), hash := NoHash)]
      ensures repr == {this} + rl + rr + old(entries[i].child.repr)
      ensures store.State() == Database.TryRemove(store.config, old(store.State()), HashBag(ms[i].hash))
    {
      ghost var ss := entries;
      store.TryRemove(entries[i].hash);
      entries := entries[i := entries[i].(hash := NoHash)];
      Reattach(ss, ms, i, rl, rr, ms[i].(child := Node(entries[i].child.model), hash := NoHash));
    }

    /** Node::insert. */
    method Insert(key: string, value: string, store: BlobStore, maxSize: nat) returns (up: HeapNode?)
      requires maxSize >= 2 && Valid() && Loose(model) && Sorted(Flat(model))
      modifies repr, store`blobs
      ensures var r := Insertion.Insert(old(model), key, value, maxSize);
              && Left(up, r)
              && store.State() == Database.TryRemove(store.config, old(store.State()), r.removed)
      ensures fresh(repr - old(repr)) && (up != null ==> fresh(up.repr - old(repr)))
      decreases Tall(model), 6
    {
      var leaf := CheckLeaf();
      if leaf {
        up := InsertLeaf(key, value, store, maxSize);
      } else {
        up := InsertInner(key, value, store, maxSize);
      }
    }

    method InsertLeaf(key: string, value: string, store: BlobStore, maxSize: nat) returns (up: HeapNode?)
      requires Valid()
      modifies this, store`blobs
      ensures var r := InsertIntoLeaf(old(model), key, value, maxSize);
              && Left(up, r)
              && store.State() == Database.TryRemove(store.config, old(store.State()), r.removed)
      ensures fresh(repr - old(repr)) && (up != null ==> fresh(up.repr - old(repr)))
    {
      Unfold();
      SlotBoundIs(entries, repr - {this}, model, Fin(key));
      var i := SlotBound(entries, Fin(key));
      if i == |entries| || entries[i].id != Fin(key) {
        AddEntry(i, Fin(key), value, NoHash);
      }
      assert model == MapInsert(old(model), Entry(Fin(key), value, Nil, NoHash));
      up := SplitAfter(store, maxSize, store.State(), multiset{});
    }

    /** Node::split as the last step of an insert that has already removed some hashes. */
    method SplitAfter(
        store: BlobStore, maxSize: nat, ghost before: Store, ghost removed: multiset<nat>) returns (up: HeapNode?)
      requires Valid() && store.State() == Database.TryRemove(store.config, before, removed)
      modifies this, store`blobs
      ensures var r := Insertion.Split(old(model), removed, maxSize);
              && Left(up, r)
              && store.State() == Database.TryRemove(store.config, before, r.removed)
      ensures repr <= old(repr) && (up != null ==> fresh(up.repr - old(repr)))
    {
      if Size(model) > maxSize {
        RemoveTwice(store.config, before, removed, HashBag(model[Size(model) / 2].hash));
      }
      up := Split(store, maxSize);
    }

    method InsertInner(key: string, value: string, store: BlobStore, maxSize: nat) returns (up: HeapNode?)
      requires maxSize >= 2 && Valid() && Loose(model) && Sorted(Flat(model)) && !IsLeaf(model)
      modifies repr, store`blobs
      ensures var r := Insertion.Insert(old(model), key, value, maxSize);
              && Left(up, r)
              && store.State() == Database.TryRemove(store.config, old(store.State()), r.removed)
      ensures fresh(repr - old(repr)) && (up != null ==> fresh(up.repr - old(repr)))
      decreases Tall(model), 5
    {
      ghost var m := model;
      var i := FindOrCreate(key);
      if entries[i].id == Fin(key) {
        SetValue(i, value);
        return null;
      }
      up := InsertOnWay(i, key, value, store, maxSize, m);
    }

    /** The key is not in this node, which is m with room made on the key's way. */
    method InsertOnWay(
        i: nat, key: string, value: string, store: BlobStore, maxSize: nat, ghost m: seq<Entry>)
      returns (up: HeapNode?)
      requires maxSize >= 2 && Valid() && model == FindOrCreateLowerBound(m, key) && i == LowerBound(m, Fin(key))
      requires Loose(m) && Sorted(Flat(m)) && !IsLeaf(m) && (i < |m| ==> m[i].id != Fin(key))
      modifies repr, store`blobs
      ensures var r := Insertion.Insert(m, key, value, maxSize);
              && Left(up, r)
              && store.State() == Database.TryRemove(store.config, old(store.State()), r.removed)
      ensures fresh(repr - old(repr)) && (up != null ==> fresh(up.repr - old(repr)))
      decreases Tall(m), 4
    {
      InnerStep(m, key, value, maxSize);
      TallPath(m, key);
      up := InsertDescending(i, key, value, store, maxSize, m);
    }

    method InsertDescending(
        i: nat, key: string, value: string, store: BlobStore, maxSize: nat, ghost m: seq<Entry>)
      returns (up: HeapNode?)
      requires maxSize >= 2 && Valid() && i < |model|
      requires var m1 := model[i := model[i].(child := Node(EntriesOf(model[i].child)))];
               Descends(m, m1, i, key, value, maxSize) && Tall(m1) <= Tall(m)
      modifies repr, store`blobs
      ensures var r := Insertion.Insert(m, key, value, maxSize);
              && Left(up, r)
              && store.State() == Database.TryRemove(store.config, old(store.State()), r.removed)
      ensures fresh(repr - old(repr)) && (up != null ==> fresh(up.repr - old(repr)))
      decreases Tall(m), 3
    {
      ghost var r0 := repr;
      EnsureChild(i);
      ghost var r1 := repr;
      up := InsertAtChild(i, key, value, store, maxSize, m);
      assert repr - r0 <= (repr - r1) + (r1 - r0);
      assert up != null ==> up.repr - r0 <= (up.repr - r1) + (r1 - r0);
    }

    method InsertAtChild(
        i: nat, key: string, value: string, store: BlobStore, maxSize: nat, ghost m: seq<Entry>)
      returns (up: HeapNode?)
      requires maxSize >= 2 && Valid() && Descends(m, model, i, key, value, maxSize)
      modifies repr, store`blobs
      ensures var r := Insertion.Insert(m, key, value, maxSize);
              && Left(up, r)
              && store.State() == Database.TryRemove(store.config, old(store.State()), r.removed)
      ensures fresh(repr - old(repr)) && (up != null ==> fresh(up.repr - old(repr)))
      decreases Tall(model), 2
    {
      ghost var r := Insertion.Insert(model[i].child.entries, key, value, maxSize);
      ghost var m1, gone, before := model, r.removed + HashBag(model[i].hash), store.State();
      var n := InsertBelow(i, key, value, store, maxSize);
      if n != null {
        InsertNode(n);
      }
      assert model == Absorb(m1, i, r);
      up := SplitAfter(store, maxSize, before, gone);
    }

    // ----- Node::store -----

    /** The recursive call of Node::store. */
    method StoreChild(i: nat, store: BlobStore) returns (h: Hash, ghost rl: set<HeapNode>, ghost rr: set<HeapNode>)
      requires Valid() && i < |model| && model[i].child.Node?
      modifies repr - {this}, store
      ensures i < |entries| == |model| && entries[i].child != null && entries[i].child.Valid()
      ensures var r := StoreNode(model[i].child.entries, old(store.State()));
              h == r.hash && store.State() == r.store && entries[i].child.model == r.es
      ensures Around(i, model, rl, rr)
      ensures rl + rr !! entries[i].child.repr !! {this} && rl + rr + entries[i].child.repr <= repr
      decreases TallLink(model[i]), 2
    {
      rl, rr := ChildApart(i);
      h := entries[i].child.Store(store);
      assert Around(i, model, rl, rr);
    }

    /** Stores the child at i, if its link needs it. */
    method StoreAt(i: nat, store: BlobStore) returns (ok: bool)
      requires Valid() && i < |model|
      modifies repr, store
      ensures Valid() && repr <= old(repr)
      ensures var r := StoreLink(old(model)[i], old(store.State()));
              && |r.es| == 1 && model == old(model)[i := r.es[0]]
              && store.State() == r.store && ok == r.ok
      decreases TallLink(model[i]), 3
    {
      if entries[i].hash.Id? || entries[i].child == null {
        return true;
      }
      var h; ghost var rl, rr;
      ghost var ms := model;
      h, rl, rr := StoreChild(i, store);
      ghost var ss := entries;
      entries := entries[i := entries[i].(hash := h)];
      Reattach(ss, ms, i, rl, rr, ms[i].(child := Node(entries[i].child.model), hash := h));
      ok := h.Id?;
    }

    /** One round of the loop in Node::store. */
    method StoreRound(
        i: nat, store: BlobStore, json: Blob, ghost es: seq<Entry>, ghost s0: Store) returns (ok: bool, json': Blob)
      requires Valid() && i < |model| && Storing(es, s0, model, i, store.State(), json)
      modifies repr, store
      ensures Valid() && repr <= old(repr)
      ensures ok ==> Storing(es, s0, model, i + 1, store.State(), json')
      ensures !ok ==> StoreNode(es, s0) == StoredNode(model, store.State(), NoHash)
      decreases TallLink(model[i]), 4
    {
      StoringStep(es, s0, model, i, store.State(), json);
      var e := entries[i];
      ok := StoreAt(i, store);
      json' := json;
      if ok {
        json' := AddMember(json, e, entries[i].hash);
      }
    }

    /** The loop of Node::store. */
    method StoreLoop(store: BlobStore, ghost es: seq<Entry>, ghost s0: Store) returns (ok: bool, json: Blob)
      requires Valid() && es == model && s0 == store.State()
      modifies repr, store
      ensures Valid() && repr <= old(repr)
      ensures ok ==> Storing(es, s0, model, |model|, store.State(), json)
      ensures !ok ==> StoreNode(es, s0) == StoredNode(model, store.State(), NoHash)
      decreases Tall(model), 0
    {
      json := [];
      ok := true;
      var i := 0;
      StoringStarts(es, s0);
      while i < |entries|
        invariant Valid() && repr <= old(repr) && i <= |model|
        invariant Storing(es, s0, model, i, store.State(), json)
        decreases |es| - i
      {
        StoringAt(es, s0, model, i, store.State(), json);
        ok, json := StoreRound(i, store, json, es, s0);
        if !ok {
          return;
        }
        i := i + 1;
      }
    }

    /** Node::store. */
    method Store(store: BlobStore) returns (h: Hash)
      requires Valid()
      modifies repr, store
      ensures Valid() && repr <= old(repr)
      ensures var r := StoreNode(old(model), old(store.State()));
              h == r.hash && store.State() == r.store && model == r.es
      decreases Tall(model), 1
    {
      ghost var es, s0 := model, store.State();
      var ok, json := StoreLoop(store, es, s0);
      if !ok {
        return NoHash;
      }
      StoringEnds(es, s0, model, store.State(), json);
      h := AddThis(json, store);
    }

    method AddThis(json: Blob, store: BlobStore) returns (h: Hash)
      requires Valid()
      modifies store
      ensures Valid() && (store.State(), h) == Add(old(store.State()), json)
    {
      h := store.AddOp(json);
    }

    // ----- Node::restore and Node::find -----

    /** One round of the loop in Node::restore. */
    method AddDecoded(m: Member)
      requires Valid()
      modifies this
      ensures Valid() && repr == old(repr) && model == DecodeMember(old(model), m)
    {
      var id := if m.key == "" then Inf else Fin(m.key);
      Unfold();
      SlotBoundIs(entries, repr - {this}, model, id);
      var j := SlotBound(entries, id);
      if j == |entries| || entries[j].id != id {
        AddEntry(j, id, if m.value.Str? then m.value.s else "", m.child);
      }
    }

    /** The loop of Node::restore. */
    method Fill(blob: Blob)
      requires Valid()
      modifies this
      ensures Valid() && repr == {this} && model == Decode(blob)
    {
      entries, model, repr := [], [], {this};
      var i := 0;
      assert blob[..0] == [];
      while i < |blob|
        invariant i <= |blob| && Valid() && repr == {this} && model == Decode(blob[..i])
      {
        FillNext(blob, i);
        i := i + 1;
      }
      assert blob[..|blob|] == blob;
    }

    method FillNext(blob: Blob, i: nat)
      requires Valid() && repr == {this} && i < |blob| && model == Decode(blob[..i])
      modifies this
      ensures Valid() && repr == {this} && model == Decode(blob[..i + 1])
    {
      assert blob[..i + 1] == blob[..i] + [blob[i]];
      DecodeSnoc(blob[..i], blob[i]);
      AddDecoded(blob[i]);
    }

    /** Node::restore. A coroutine that waits for cat lets others run. */
    method Restore(hash: nat, tree: BTree) returns (ok: bool)
      requires Valid() && tree.KeepsBlobs()
      modifies this, tree`root, tree`insertBuffer, tree`schedule, tree.RootSet()`hash, tree.store`blobs, tree.store`cats
      ensures tree.Waited(old(tree.root)) && tree.store.cats == old(tree.store.cats) + 1
      ensures tree.store.blobs == old(tree.store.blobs)
      ensures ok <==> hash in tree.store.blobs
      ensures Valid() && repr <= old(repr)
      ensures model == if ok then Decode(tree.store.blobs[hash]) else old(model)
    {
      var blob;
      ok, blob := tree.store.CatOp(hash);
      tree.Suspend();
      if ok {
        Fill(blob);
      }
    }

    /** lazy_find's first half: the missing child at i is created and restored. */
    method LoadChild(i: nat, tree: BTree) returns (ok: bool)
      requires Valid() && i < |model| && model[i].child.Nil? && model[i].hash.Id? && tree.KeepsBlobs()
      modifies repr, tree`root, tree`insertBuffer, tree`schedule, tree.RootSet()`hash, tree.store`blobs, tree.store`cats
      ensures tree.Waited(old(tree.root)) && tree.store.cats == old(tree.store.cats) + 1
      ensures tree.store.blobs == old(tree.store.blobs)
      ensures ok <==> old(model)[i].hash.n in tree.store.blobs
      ensures Valid() && fresh(repr - old(repr))
      ensures var e := old(model)[i];
              model == old(model)[i := e.(child := Node(if ok then Decode(tree.store.blobs[e.hash.n]) else []))]
    {
      EnsureChild(i);
      ghost var r1 := repr;
      ok := RestoreChild(i, tree);
      assert repr - old(repr) <= (repr - r1) + (r1 - old(repr));
    }

    method RestoreChild(i: nat, tree: BTree) returns (ok: bool)
      requires Valid() && i < |model| && model[i].child == Node([]) && model[i].hash.Id? && tree.KeepsBlobs()
      modifies repr, tree`root, tree`insertBuffer, tree`schedule, tree.RootSet()`hash, tree.store`blobs, tree.store`cats
      ensures tree.Waited(old(tree.root)) && tree.store.cats == old(tree.store.cats) + 1
      ensures tree.store.blobs == old(tree.store.blobs)
      ensures ok <==> old(model)[i].hash.n in tree.store.blobs
      ensures Valid() && repr <= old(repr)
      ensures var e := old(model)[i];
              model == old(model)[i := e.(child := Node(if ok then Decode(tree.store.blobs[e.hash.n]) else []))]
    {
      ghost var rl, rr := ChildApart(i);
      ghost var ss, ms := entries, model;
      ok := entries[i].child.Restore(entries[i].hash.n, tree);
      assert Owns(ss[..i], rl, ms[..i]) && Owns(ss[i + 1..], rr, ms[i + 1..]);
      Reattach(ss, ms, i, rl, rr, ms[i].(child := Node(entries[i].child.model)));
    }

    /** The recursive call of Node::find. */
    method DescendFind(
        i: nat, key: string, tree: BTree) returns (a: Answer, ghost rl: set<HeapNode>, ghost rr: set<HeapNode>)
      requires Valid() && i < |model| && model[i].child.Node?
      requires tree.KeepsBlobs() && Acyclic(tree.store.blobs)
      modifies repr - {this}, tree`root, tree`insertBuffer, tree`schedule
      modifies tree.RootSet()`hash, tree.store`blobs, tree.store`cats
      ensures tree.Waited(old(tree.root)) && tree.store.blobs == old(tree.store.blobs)
      ensures i < |entries| == |model| && entries[i].child != null && entries[i].child.Valid()
      ensures var r := LazyFind.Find(model[i].child.entries, key, tree.store.blobs);
              a == r.answer && entries[i].child.model == r.es && tree.store.cats == old(tree.store.cats) + r.cats
      ensures Around(i, model, rl, rr)
      ensures rl + rr !! entries[i].child.repr !! {this} && rl + rr <= repr
      ensures fresh(entries[i].child.repr - repr)
      decreases Levels(model, tree.store.blobs), 0
    {
      LevelsAt(model, i, tree.store.blobs);
      rl, rr := ChildApart(i);
      a := entries[i].child.Find(key, tree);
      assert Around(i, model, rl, rr);
    }

    method FindBelow(i: nat, key: string, tree: BTree) returns (a: Answer)
      requires Valid() && i < |model| && model[i].child.Node?
      requires tree.KeepsBlobs() && Acyclic(tree.store.blobs)
      modifies repr, tree`root, tree`insertBuffer, tree`schedule, tree.RootSet()`hash, tree.store`blobs, tree.store`cats
      ensures tree.Waited(old(tree.root)) && tree.store.blobs == old(tree.store.blobs)
      ensures Valid() && fresh(repr - old(repr))
      ensures var e := old(model)[i];
              var r := LazyFind.Find(e.child.entries, key, tree.store.blobs);
              && a == r.answer && model == old(model)[i := e.(child := Node(r.es))]
              && tree.store.cats == old(tree.store.cats) + r.cats
      decreases Levels(model, tree.store.blobs), 1
    {
      ghost var rl, rr;
      a, rl, rr := DescendFind(i, key, tree);
      Reattach(entries, model, i, rl, rr, model[i].(child := Node(entries[i].child.model)));
    }

    /** Node::find, through lazy_find where a child is not resident. */
    method Find(key: string, tree: BTree) returns (a: Answer)
      requires Valid() && tree.KeepsBlobs() && Acyclic(tree.store.blobs)
      modifies repr, tree`root, tree`insertBuffer, tree`schedule, tree.RootSet()`hash, tree.store`blobs, tree.store`cats
      ensures tree.Waited(old(tree.root)) && tree.store.blobs == old(tree.store.blobs)
      ensures Valid() && fresh(repr - old(repr))
      ensures var r := LazyFind.Find(old(model), key, tree.store.blobs);
              a == r.answer && model == r.es && tree.store.cats == old(tree.store.cats) + r.cats
      decreases Levels(model, tree.store.blobs), 5
    {
      Unfold();
      SlotBoundIs(entries, repr - {this}, model, Fin(key));
      var i := SlotBound(entries, Fin(key));
      if i == |entries| {
        return NotFound;
      }
      if entries[i].id == Fin(key) {
        return Found(entries[i].value);
      }
      if entries[i].child == null && entries[i].hash.NoHash? {
        return NotFound;
      }
      a := FindAt(i, key, tree);
    }

    /** The restoring half of lazy_find on a link without a resident node. */
    method LoadForFind(i: nat, key: string, tree: BTree, ghost m: seq<Entry>) returns (ok: bool)
      requires Valid() && m == model && i < |m| && m[i].child.Nil? && m[i].hash.Id?
      requires tree.KeepsBlobs() && Acyclic(tree.store.blobs)
      modifies repr, tree`root, tree`insertBuffer, tree`schedule, tree.RootSet()`hash, tree.store`blobs, tree.store`cats
      ensures tree.Waited(old(tree.root)) && tree.store.blobs == old(tree.store.blobs)
      ensures Valid() && fresh(repr - old(repr)) && tree.store.cats == old(tree.store.cats) + 1
      ensures !ok ==> FindHash(tree.store.blobs, m[i].hash.n, key) == FindResult(CatFailed, [], 1)
      ensures !ok ==> model == m[i := m[i].(child := Node([]))]
      ensures ok ==> m[i].hash.n in tree.store.blobs && Levels(model, tree.store.blobs) <= Levels(m, tree.store.blobs)
      ensures ok ==> model == m[i := m[i].(child := Node(Decode(tree.store.blobs[m[i].hash.n])))]
    {
      ok := LoadChild(i, tree);
      if ok {
        RestoreKeepsLevels(m, i, tree.store.blobs);
      }
    }

    /** lazy_find on a link without a resident node. */
    method FindMissing(i: nat, key: string, tree: BTree) returns (a: Answer)
      requires Valid() && i < |model| && model[i].child.Nil? && model[i].hash.Id?
      requires tree.KeepsBlobs() && Acyclic(tree.store.blobs)
      modifies repr, tree`root, tree`insertBuffer, tree`schedule, tree.RootSet()`hash, tree.store`blobs, tree.store`cats
      ensures tree.Waited(old(tree.root)) && tree.store.blobs == old(tree.store.blobs)
      ensures Valid() && fresh(repr - old(repr))
      ensures var e := old(model)[i];
              var r := FindHash(tree.store.blobs, e.hash.n, key);
              && a == r.answer && model == old(model)[i := e.(child := Node(r.es))]
              && tree.store.cats == old(tree.store.cats) + r.cats
      decreases Levels(model, tree.store.blobs), 3
    {
      ghost var m, r0 := model, repr;
      var ok := LoadForFind(i, key, tree, m);
      a := CatFailed;
      if ok {
        a := FindLoaded(i, key, tree, r0, m);
      }
    }

    /** The node has been restored from the hash of m's link i; now it is searched. */
    method FindLoaded(
        i: nat, key: string, tree: BTree, ghost r0: set<HeapNode>, ghost m: seq<Entry>) returns (a: Answer)
      requires Valid() && tree.KeepsBlobs() && Acyclic(tree.store.blobs)
      requires i < |m| && m[i].child.Nil? && m[i].hash.Id? && m[i].hash.n in tree.store.blobs
      requires model == m[i := m[i].(child := Node(Decode(tree.store.blobs[m[i].hash.n])))]
      modifies repr, tree`root, tree`insertBuffer, tree`schedule, tree.RootSet()`hash, tree.store`blobs, tree.store`cats
      ensures tree.Waited(old(tree.root)) && tree.store.blobs == old(tree.store.blobs)
      ensures Valid() && repr - r0 <= (repr - old(repr)) + (old(repr) - r0) && fresh(repr - old(repr))
      ensures var r := FindHash(tree.store.blobs, m[i].hash.n, key);
              && a == r.answer && model == m[i := m[i].(child := Node(r.es))]
              && tree.store.cats + 1 == old(tree.store.cats) + r.cats
      decreases Levels(model, tree.store.blobs), 2
    {
      FindRestored(tree.store.blobs, m[i].hash.n, key);
      a := FindBelow(i, key, tree);
    }

    method FindAt(i: nat, key: string, tree: BTree) returns (a: Answer)
      requires Valid() && i < |model| && (model[i].child.Node? || model[i].hash.Id?)
      requires tree.KeepsBlobs() && Acyclic(tree.store.blobs)
      modifies repr, tree`root, tree`insertBuffer, tree`schedule, tree.RootSet()`hash, tree.store`blobs, tree.store`cats
      ensures tree.Waited(old(tree.root)) && tree.store.blobs == old(tree.store.blobs)
      ensures Valid() && fresh(repr - old(repr))
      ensures var e := old(model)[i];
              var b := tree.store.blobs;
              var r := if e.child.Node? then LazyFind.Find(e.child.entries, key, b) else FindHash(b, e.hash.n, key);
              && a == r.answer && model == old(model)[i := e.(child := Node(r.es))]
              && tree.store.cats == old(tree.store.cats) + r.cats
      decreases Levels(model, tree.store.blobs), 4
    {
      if entries[i].child == null {
        a := FindMissing(i, key, tree);
      } else {
        a := FindBelow(i, key, tree);
      }
    }

    /** Node::size. */
    method Count() returns (n: nat)
      requires Valid()
      ensures n == Size(model)
    {
      n := if entries != [] && entries[|entries| - 1].id.Inf? then |entries| - 1 else |entries|;
    }

    /** Node::local_node_count. */
    method LocalNodeCount() returns (n: nat)
      requires Valid()
      ensures n == NodeCount(model)
      decreases Tall(model)
    {
      n := 0;
      var i := 0;
      assert model[0..] == model;
      while i < |entries|
        invariant i <= |entries| && n + ChildCount(model[i..]) == ChildCount(model)
      {
        assert model[i..][0] == model[i] && model[i..][1..] == model[i + 1..];
        if entries[i].child != null {
          TallAt(model, i);
          var c := entries[i].child.LocalNodeCount();
          n := n + c;
        }
        i := i + 1;
      }
      n := n + 1;
    }

    /** Node::every_node_has_hash. */
    method EveryNodeHasHash() returns (ok: bool)
      requires Valid()
      ensures ok <==> AllHashed(model)
      decreases Tall(model)
    {
      for i := 0 to |entries|
        invariant forall j :: 0 <= j < i && model[j].child.Node? ==> model[j].hash.Id?
      {
        if entries[i].child != null && entries[i].hash.NoHash? {
          assert model[i].child.Node?;
          return false;
        }
      }
      for i := 0 to |entries|
        invariant forall j :: 0 <= j < i && model[j].child.Node? ==> AllHashed(model[j].child.entries)
      {
        if entries[i].child != null {
          TallAt(model, i);
          var below := entries[i].child.EveryNodeHasHash();
          if !below {
            assert model[i].child.Node?;
            return false;
          }
        }
      }
      return true;
    }

    /** Node::min_max_depth. */
    method MinMaxDepth() returns (min: nat, max: nat)
      requires Valid()
      ensures (min, max) == Invariants.MinMaxDepth(model)
      decreases Tall(model)
    {
      min, max := 1, 1;
      var first := true;
      ghost var seen := Invariants.NoChild;
      var i := 0;
      assert model[0..] == model;
      while i < |entries|
        invariant i <= |entries|
        invariant Invariants.Joined(seen, Invariants.DepthsBelow(model[i..])) == Invariants.DepthsBelow(model)
        invariant if first then seen.NoChild? && min == max == 1 else seen == Invariants.Depths(min, max)
      {
        ghost var before := seen;
        if entries[i].child != null {
          TallAt(model, i);
          var a, b := entries[i].child.MinMaxDepth();
          min := if first then a + 1 else Min(min, a + 1);
          max := if first then b + 1 else Max(max, b + 1);
          first := false;
          seen := Invariants.Depths(min, max);
        }
        Invariants.JoinNext(before, seen, model, i);
        i := i + 1;
      }
    }

    /** The inner loop of Node::check_invariants. */
    method KeysBelow(id: NodeId) returns (ok: bool)
      requires Valid()
      ensures ok <==> forall j :: 0 <= j < |model| && model[j].id.Fin? ==> IdLess(model[j].id, id)
    {
      for j := 0 to |entries|
        invariant forall x :: 0 <= x < j && model[x].id.Fin? ==> IdLess(model[x].id, id)
      {
        if entries[j].id.Fin? && !IdLess(entries[j].id, id) {
          assert model[j].id.Fin?;
          return false;
        }
      }
      return true;
    }

    /** Node::check_invariants. */
    method CheckInvariants(maxSize: nat) returns (ok: bool)
      requires Valid()
      ensures ok <==> Invariants.CheckInvariants(model, maxSize)
      decreases Tall(model), 2
    {
      var size := Count();
      if size > maxSize {
        return false;
      }
      var min, max := MinMaxDepth();
      if min != max {
        return false;
      }
      ok := CheckChildren(maxSize);
    }

    method CheckChildren(maxSize: nat) returns (ok: bool)
      requires Valid()
      ensures ok <==> forall x :: 0 <= x < |model| && model[x].child.Node? ==> Checked(model[x], maxSize)
      decreases Tall(model), 1
    {
      for i := 0 to |entries|
        invariant forall x :: 0 <= x < i && model[x].child.Node? ==> Checked(model[x], maxSize)
      {
        if entries[i].child != null {
          var checked := CheckChild(i, maxSize);
          if !checked {
            assert model[i].child.Node?;
            return false;
          }
        }
      }
      return true;
    }

    method CheckChild(i: nat, maxSize: nat) returns (ok: bool)
      requires Valid() && i < |entries| && model[i].child.Node?
      ensures ok <==> Checked(model[i], maxSize)
      decreases Tall(model), 0
    {
      TallAt(model, i);
      ok := entries[i].child.KeysBelow(entries[i].id);
      if ok {
        ok := entries[i].child.CheckInvariants(maxSize);
      }
    }

    /** What check_invariants asks of an entry with a child. */
    ghost predicate Checked(e: Entry, maxSize: nat)
      requires e.child.Node?
    {
      && (forall j :: 0 <= j < |e.child.entries| && e.child.entries[j].id.Fin? ==> IdLess(e.child.entries[j].id, e.id))
      && Invariants.CheckInvariants(e.child.entries, maxSize)
    }

    /** The loop at the end of Node::insert_node: the child is cleared and filled again. */
    method RefillFrom(source: HeapNode)
      requires source != this
      modifies this`entries
      ensures entries == source.entries
    {
      entries := [];
      var k := 0;
      while k < |source.entries|
        invariant k <= |source.entries| && entries == source.entries[..k]
      {
        entries := entries + [source.entries[k]];
        k := k + 1;
      }
    }

    /** Node::insert_node. */
    method InsertNode(n: HeapNode)
      requires Valid() && n.Valid() && n.repr !! repr
      requires |n.model| == 2 && CanPlace(model, LowerBound(model, n.model[0].id), n.model)
      modifies repr
      ensures Valid() && repr <= old(repr) + old(n.repr)
      ensures model == Insertion.InsertNode(old(model), old(n.model))
    {
      assert |n.entries| == 2;
      InsertNodeAt(n, SlotBound(entries, n.entries[0].id));
    }

    method InsertNodeAt(n: HeapNode, j: nat)
      requires Valid() && n.Valid() && n.repr !! repr
      requires |n.model| == 2 && CanPlace(model, LowerBound(model, n.model[0].id), n.model)
      requires j == SlotBound(entries, n.entries[0].id)
      modifies repr
      ensures Valid() && repr <= old(repr) + old(n.repr)
      ensures var m, up := old(model), old(n.model);
              j < |m| && model == m[..j] + [up[0], m[j].(child := up[1].child)] + m[j + 1..]
      ensures j == LowerBound(old(model), old(n.model)[0].id)
    {
      ghost var rl, rr := InsertNodeParts(n, j);
      PlaceHalves(j, rl, rr, n.entries[0], n.model[0], entries[j].child, n.entries[1].child, repr + n.repr);
    }

    method PlaceHalves(j: nat, ghost rl: set<HeapNode>, ghost rr: set<HeapNode>, half: Slot, ghost e: Entry,
                       target: HeapNode, source: HeapNode, ghost total: set<HeapNode>)
      requires j < |entries| == |model| && half.child != null
      requires Parts(entries, model, j, rl, rr, half, e, target, source)
      requires this !in rl + rr + half.child.repr + source.repr + {target}
      requires rl + rr + half.child.repr + source.repr + {target, this} <= total
      modifies this, target
      ensures Valid() && repr <= total
      ensures model == old(model[..j] + [e, model[j].(child := Node(source.model))] + model[j + 1..])
    {
      ghost var ss, ms := entries, model;
      PutSlots(j, half, target, source);
      Adopt(ss, ms, j, rl, rr, half, e, target, source, total);
    }

    /** insert_node's second assertion, and who owns what before it moves anything. */
    method PutSlots(j: nat, half: Slot, target: HeapNode, source: HeapNode)
      requires j < |entries| && target != this && source != target && source != this
      modifies this`entries, target`entries
      ensures entries == old(entries[..j] + [half] + entries[j..]) && target.entries == source.entries
    {
      entries := entries[..j] + [half] + entries[j..];
      target.RefillFrom(source);
    }

    lemma {:induction false} InsertNodeParts(n: HeapNode, j: nat) returns (rl: set<HeapNode>, rr: set<HeapNode>)
      requires Valid() && n.Valid() && n.repr !! repr
      requires |n.model| == |n.entries| == 2 && n.model[0].child.Node? && n.model[1].child.Node?
      requires j == SlotBound(entries, n.entries[0].id)
      requires var b := LowerBound(model, n.model[0].id);
               b < |model| && model[b].id != n.model[0].id && model[b].child.Node?
      ensures j == LowerBound(model, n.model[0].id) && j < |entries| == |model|
      ensures entries[j].child != null && n.entries[0].child != null && n.entries[1].child != null
      ensures entries[j].child in repr && n.model[1].child == Node(n.entries[1].child.model)
      ensures Parts(entries, model, j, rl, rr, n.entries[0], n.model[0], entries[j].child, n.entries[1].child)
      ensures this !in rl + rr && rl + rr <= repr
      ensures n.entries[0].child.repr <= n.repr && n.entries[1].child.repr <= n.repr
    {
      Unfold();
      n.Unfold();
      SlotBoundIs(entries, repr - {this}, model, n.entries[0].id);
      var nr := n.repr - {n};
      assert Holds(n.entries[0], nr, n.model[0]) && Holds(n.entries[1], nr, n.model[1]);
      assert Apart(n.entries[0], n.entries[1]);
      var rt;
      rl, rt, rr := OwnsCutAt(entries, repr - {this}, model, j);
      assert Holds(entries[j], repr - {this}, model[j]);
    }

    ghost method Adopt(ss: seq<Slot>, ms: seq<Entry>, j: nat, rl: set<HeapNode>, rr: set<HeapNode>,
                       half: Slot, e: Entry, target: HeapNode, source: HeapNode, total: set<HeapNode>)
      requires j < |ss| == |ms| && half.child != null
      requires Parts(ss, ms, j, rl, rr, half, e, target, source)
      requires this !in rl + rr + half.child.repr + source.repr + {target}
      requires rl + rr + half.child.repr + source.repr + {target, this} <= total
      requires entries == ss[..j] + [half] + ss[j..] && target.entries == source.entries
      modifies this`model, this`repr, target`model, target`repr
      ensures Valid() && repr <= total
      ensures model == ms[..j] + [e, ms[j].(child := Node(old(source.model)))] + ms[j + 1..]
    {
      TakeOver(target, source);
      var e' := ms[j].(child := Node(source.model));
      MergeFour(ss, ms, j, rl, rr, half, e, e');
      var r := rl + half.child.repr + target.repr + rr;
      var m := ms[..j] + [e, e'] + ms[j + 1..];
      forall i | 0 <= i < |entries|
        ensures SameChild(entries[i], m[i], entries[i], m[i])
      {
        assert Holds(entries[i], r, m[i]);
      }
      BuildNode(this, entries, r, m, m);
    }

    /** The node that has been given the entries of source owns source's children. */
    ghost method TakeOver(target: HeapNode, source: HeapNode)
      requires source.Valid() && target !in source.repr && target.entries == source.entries
      modifies target`model, target`repr
      ensures target.Valid() && target.model == source.model && target.repr == {target} + (source.repr - {source})
    {
      source.Unfold();
      var sr := source.repr - {source};
      forall i | 0 <= i < |source.entries|
        ensures SameChild(target.entries[i], source.model[i], source.entries[i], source.model[i])
      {
        assert Holds(source.entries[i], sr, source.model[i]);
      }
      BuildNode(target, source.entries, sr, source.model, source.model);
    }
  }

  /** BTree::Root: the root node, its hash, or both. */
  class Root {
    var node: HeapNode?
    var hash: Hash

    constructor (hash: Hash)
      ensures node == null && this.hash == hash
    {
      node, this.hash := null, hash;
    }
  }

  class BTree {
    const store: BlobStore
    var root: Root?
    var insertBuffer: seq<Pair>
    var isInserting: bool
    /** What other callers do at the coming suspension points: the roots they load while a find
        waits, and the pairs they insert while an insert waits. */
    var schedule: seq<seq<Hash>>
    var arrivals: seq<seq<Pair>>
    /** The root hashes that callers found when their inserts returned. */
    var rootsRead: seq<Hash>

    constructor (store: BlobStore)
      ensures this.store == store
      ensures root == null && insertBuffer == [] && !isInserting && schedule == [] && arrivals == []
    {
      this.store := store;
      root, insertBuffer, isInserting, schedule, arrivals, rootsRead := null, [], false, [], [], [];
    }

    ghost function NodeSet(): set<HeapNode>
      reads this`root, RootSet()
    {
      if root == null || root.node == null then {} else {root.node}
    }

    ghost function Repr(): set<HeapNode>
      reads this`root, RootSet(), NodeSet()
    {
      if root == null || root.node == null then {} else root.node.repr
    }

    ghost predicate Valid()
      reads this`root, RootSet(), NodeSet(), Repr()
    {
      root != null && root.node != null ==> root.node.Valid()
    }

    /** The root read as a link: a node, a hash, both or neither. */
    ghost function RootLink(): Entry
      reads this`root, RootSet(), NodeSet()
    {
      if root == null then INF_ENTRY
      else Entry(Inf, "", if root.node == null then Nil else Node(root.node.model), root.hash)
    }

    ghost function DbState(): Db
      reads this`root, RootSet(), NodeSet(), store
    {
      Db(RootLink().child, RootLink().hash, store.State())
    }

    ghost function RootSet(): set<Root>
      reads this`root
    {
      if root == null then {} else {root}
    }

    /** BTree::root_hash. */
    function RootHash(): Hash
      reads this`root, RootSet()`hash
    {
      if root == null then NoHash else root.hash
    }

    /** Loads do not take blobs away: there is no remove operation, or there are no loads. */
    predicate KeepsBlobs()
      reads this
    {
      store.config.canRemove ==> schedule == []
    }

    /** What running others has done: the root object may have been replaced, the old one is as it
        was except that its hash may have been cleared. */
    twostate predicate Waited(was: Root?)
      reads this, was, RootSet()
    {
      && (root == was || (root != null && fresh(root) && root.node == null))
      && (was != null ==> was.node == old(was.node) && (was.hash == old(was.hash) || was.hash == NoHash))
      && (old(KeepsBlobs()) ==> KeepsBlobs())
      && (insertBuffer == old(insertBuffer) || insertBuffer == [])
    }

    /** BTree::load. */
    method Load(hash: Hash)
      modifies this`root, this`insertBuffer, RootSet()`hash, store`blobs
      ensures Waited(old(root))
      ensures root != null && root.hash == hash
      ensures if old(root) != null && old(RootHash()) == hash
              then root == old(root) && insertBuffer == old(insertBuffer) && store.blobs == old(store.blobs)
              else fresh(root) && root.node == null && insertBuffer == [] &&
                   (old(root) != null ==> old(root).hash == NoHash) &&
                   store.State() == Database.TryRemove(store.config, old(store.State()), HashBag(old(RootHash())))
    {
      if root != null && root.hash == hash {
        return;
      }
      insertBuffer := [];
      var oldRoot := root;
      root := null;
      if oldRoot != null {
        var h := oldRoot.hash;
        oldRoot.hash := NoHash;
        store.TryRemove(h);
      } else {
        assert (set x | x in HashBag(NoHash)) == {};
      }
      root := new Root(hash);
    }

    /** A suspension point in a find: the loads that are due run. */
    method Suspend()
      requires KeepsBlobs()
      modifies this`root, this`insertBuffer, this`schedule, RootSet()`hash, store`blobs
      ensures Waited(old(root)) && store.blobs == old(store.blobs)
    {
      if schedule == [] {
        return;
      }
      var due := schedule[0];
      schedule := schedule[1..];
      var i := 0;
      while i < |due|
        invariant Waited(old(root)) && store.blobs == old(store.blobs)
      {
        Load(due[i]);
        i := i + 1;
      }
    }

    /** What the tree stands for is all there, and in order. */
    ghost predicate Readable()
      reads this`root, RootSet(), NodeSet(), store
    {
      LinkOk(RootLink(), store.blobs) && Sorted(LinkView(RootLink(), store.blobs))
    }

    /** BTree::find. Whatever is loaded while it waits for cat, it answers from the database whose
        root was current when it began: it looks the key up in what that root stood for. */
    method Find(key: string) returns (a: Answer)
      requires Valid() && KeepsBlobs() && Acyclic(store.blobs)
      modifies this`root, this`insertBuffer, this`schedule, RootSet(), Repr(), store`blobs, store`cats
      ensures root == old(root) || (root != null && fresh(root) && root.node == null)
      ensures root == old(root) ==> RootHash() == old(RootHash()) || RootHash().NoHash?
      ensures key !in ToMap(old(insertBuffer)) && root == old(root) && RootHash().Id? ==> root.node != null
      ensures store.blobs == old(store.blobs)
      ensures key !in ToMap(old(insertBuffer)) && old(root) != null && old(root).node != null ==>
        && old(root).node.Valid()
        && old(root).node.model == FindLink(old(RootLink()), key, store.blobs).es
      ensures a == if key in ToMap(old(insertBuffer)) then Found(ToMap(old(insertBuffer))[key])
                   else FindLink(old(RootLink()), key, store.blobs).answer
      ensures key !in ToMap(old(insertBuffer)) ==>
        store.cats == old(store.cats) + FindLink(old(RootLink()), key, store.blobs).cats
      ensures Valid() && (insertBuffer == old(insertBuffer) || insertBuffer == [])
      ensures key !in ToMap(old(insertBuffer)) && old(Readable()) ==>
        && a == Lookup(LinkView(old(RootLink()), old(store.blobs)), key)
        && (root == old(root) && root != null && root.node != null ==>
              Readable() && LinkView(RootLink(), store.blobs) == LinkView(old(RootLink()), old(store.blobs)))
    {
      ghost var link, b := RootLink(), store.blobs;
      a := FindFromRoot(key);
      if LinkOk(link, b) && Sorted(LinkView(link, b)) {
        FindLinkCorrect(link, key, b);
      }
    }

    method FindFromRoot(key: string) returns (a: Answer)
      requires Valid() && KeepsBlobs() && Acyclic(store.blobs)
      modifies this`root, this`insertBuffer, this`schedule, RootSet(), Repr(), store`blobs, store`cats
      ensures root == old(root) || (root != null && fresh(root) && root.node == null)
      ensures root == old(root) ==> RootHash() == old(RootHash()) || RootHash().NoHash?
      ensures key !in ToMap(old(insertBuffer)) && root == old(root) && RootHash().Id? ==> root.node != null
      ensures store.blobs == old(store.blobs)
      ensures key !in ToMap(old(insertBuffer)) && old(root) != null && old(root).node != null ==>
        && old(root).node.Valid()
        && old(root).node.model == FindLink(old(RootLink()), key, store.blobs).es
      ensures a == if key in ToMap(old(insertBuffer)) then Found(ToMap(old(insertBuffer))[key])
                   else FindLink(old(RootLink()), key, store.blobs).answer
      ensures key !in ToMap(old(insertBuffer)) ==>
        store.cats == old(store.cats) + FindLink(old(RootLink()), key, store.blobs).cats
      ensures Valid() && (insertBuffer == old(insertBuffer) || insertBuffer == [])
    {
      if key in ToMap(insertBuffer) {
        return Found(ToMap(insertBuffer)[key]);
      }
      if root == null {
        return NotFound;
      }
      var r := root;
      if r.node == null {
        if r.hash.NoHash? {
          return NotFound;
        }
        ghost var h := r.hash.n;
        r.node := new HeapNode();
        var ok := r.node.Restore(r.hash.n, this);
        if !ok {
          return CatFailed;
        }
        FindRestored(store.blobs, h, key);
      }
      a := r.node.Find(key, this);
    }

    /** BTree::raw_insert, on any tree in order. The assertion at its end holds if the tree was in shape;
        what is only partly resident may fail it. */
    method RawInsert(key: string, value: string)
      requires Valid() && store.config.maxSize >= 2
      requires Loose(EntriesOf(DbState().root)) && Sorted(Flat(EntriesOf(DbState().root)))
      modifies this`root, RootSet()`node, Repr(), store`blobs
      ensures Valid() && fresh(RootSet() - old(RootSet())) && fresh(Repr() - old(Repr()))
      ensures DbState() == Database.RawInsert(store.config, old(DbState()), key, value)
      ensures TreeOk(store.config, old(DbState())) ==>
          Invariants.CheckInvariants(EntriesOf(DbState().root), store.config.maxSize)
    {
      ghost var db := DbState();
      InsertRaw(key, value);
      CheckedAfterInsert(store.config, db, key, value);
    }

    method InsertRaw(key: string, value: string)
      requires Valid() && store.config.maxSize >= 2
      requires Loose(EntriesOf(DbState().root)) && Sorted(Flat(EntriesOf(DbState().root)))
      modifies this`root, RootSet()`node, Repr(), store`blobs
      ensures Valid() && fresh(RootSet() - old(RootSet())) && fresh(Repr() - old(Repr()))
      ensures DbState() == Database.RawInsert(store.config, old(DbState()), key, value)
    {
      MakeRoot();
      InsertAtRoot(key, value);
    }

    method InsertAtRoot(key: string, value: string)
      requires root != null && root.node != null && root.node.Valid() && store.config.maxSize >= 2
      requires Loose(root.node.model) && Sorted(Flat(root.node.model))
      modifies root.node.repr, store`blobs
      ensures root.node.Valid() && fresh(root.node.repr - old(root.node.repr))
      ensures var r := Insertion.Insert(old(root.node.model), key, value, store.config.maxSize);
              && root.node.model == (if r.up.Nil? then r.self else r.up.entries)
              && store.State() == Database.TryRemove(store.config, old(store.State()), r.removed)
    {
      var n := root.node.Insert(key, value, store, store.config.maxSize);
      if n != null {
        root.node.Assign(n);
      }
    }

    method MakeRoot()
      requires Valid()
      modifies this`root, RootSet()`node
      ensures Valid() && root != null && root.node != null
      ensures fresh(RootSet() - old(RootSet())) && fresh(Repr() - old(Repr()))
      ensures root.node.model == EntriesOf(old(DbState()).root) && root.hash == old(DbState()).hash
    {
      if root == null {
        root := new Root(NoHash);
      }
      if root.node == null {
        root.node := new HeapNode();
      }
    }

    /** The end of a round: the root's old blob is removed, the tree is stored, the root gets its
        new hash. On a failed store the root is left without a hash. */
    method EndRound() returns (ok: bool)
      requires Valid()
      modifies RootSet()`hash, Repr(), store
      ensures Valid() && fresh(Repr() - old(Repr()))
      ensures DbState() == Database.EndRound(store.config, old(DbState()), old(store.credit))
      ensures ok <==> !(store.config.canAdd && old(DbState()).root.Node? && DbState().hash.NoHash?)
    {
      ok := true;
      if root != null {
        var h := root.hash;
        root.hash := NoHash;
        store.TryRemove(h);
      } else {
        assert (set x | x in HashBag(NoHash)) == {};
      }
      if root != null && root.node != null && store.config.canAdd {
        var h := root.node.Store(store);
        root.hash := h;
        ok := h.Id?;
      }
    }

    /** The database, the buffer and one caller with buf left to apply. */
    ghost function Draining(buf: seq<Pair>): Machine
      reads this`root, this`insertBuffer, this`rootsRead, RootSet(), NodeSet(), store
    {
      Machine(DbState(), true, insertBuffer, [buf], rootsRead)
    }

    ghost function Idle(): Machine
      reads this`root, this`insertBuffer, this`rootsRead, RootSet(), NodeSet(), store
    {
      Machine(DbState(), false, insertBuffer, [], rootsRead)
    }

    /** A suspension point in an insert: the calls that are due find somebody inserting and leave
        their pairs in the buffer. */
    method Arrive(
        ghost m0: Machine, ghost es: seq<Event>, ghost buf: seq<Pair>, ghost others: multiset<nat>)
      returns (ghost es': seq<Event>)
      requires isInserting && At(m0, es, Draining(buf), others)
      modifies this`insertBuffer, this`arrivals, this`rootsRead
      ensures At(m0, es', Draining(buf), others)
      ensures |arrivals| == if old(arrivals) == [] then 0 else |old(arrivals)| - 1
      ensures old(arrivals) == [] ==> insertBuffer == old(insertBuffer)
      ensures es <= es'
    {
      es' := es;
      if arrivals == [] {
        return;
      }
      var due := arrivals[0];
      arrivals := arrivals[1..];
      var i := 0;
      while i < |due|
        invariant At(m0, es', Draining(buf), others)
        invariant arrivals == old(arrivals)[1..]
        invariant es <= es'
      {
        insertBuffer := Put(insertBuffer, due[i].key, due[i].value, false);
        rootsRead := rootsRead + [RootHash()];
        RunSnoc(store.config, m0, es', Call(due[i].key, due[i].value));
        es' := es' + [Call(due[i].key, due[i].value)];
        i := i + 1;
      }
    }

    /** A run of the step machine has led from m0 to where one caller has buf left to apply. */
    ghost predicate At(m0: Machine, es: seq<Event>, m: Machine, others: multiset<nat>) {
      var c := store.config;
      && c.maxSize >= 2 && MachineOk(c, m0, others)
      && ValidRun(c, m0, es) && Run(c, m0, es) == m
    }

    /** The inner loop of BTree::insert: what was taken from the buffer goes into the tree. */
    method Drain(
        items: seq<Pair>, ghost m0: Machine, ghost es: seq<Event>, ghost others: multiset<nat>)
      returns (ghost es': seq<Event>)
      requires Valid() && isInserting && items != [] && At(m0, es, Draining(items), others)
      modifies this`root, this`insertBuffer, this`arrivals, this`rootsRead, RootSet()`node, Repr(), store`blobs
      ensures Valid() && fresh(RootSet() - old(RootSet())) && fresh(Repr() - old(Repr()))
      ensures At(m0, es', Draining([]), others) && root != null && root.node != null
      ensures |arrivals| <= |old(arrivals)|
      ensures |arrivals| == |old(arrivals)| ==> arrivals == [] && insertBuffer == old(insertBuffer)
      ensures es <= es'
    {
      es' := es;
      var buf := items;
      while buf != []
        invariant Valid() && fresh(RootSet() - old(RootSet())) && fresh(Repr() - old(Repr()))
        invariant At(m0, es', Draining(buf), others) && (buf != items ==> root != null && root.node != null)
        invariant |arrivals| <= |old(arrivals)|
        invariant buf != items && |arrivals| == |old(arrivals)| ==> arrivals == [] && insertBuffer == old(insertBuffer)
        invariant buf == items ==> arrivals == old(arrivals) && insertBuffer == old(insertBuffer)
        invariant |buf| <= |items|
        invariant es <= es'
        decreases |buf|
      {
        es' := ApplyFirst(buf, m0, es', others);
        buf := buf[1..];
      }
    }

    method ApplyFirst(
        buf: seq<Pair>, ghost m0: Machine, ghost es: seq<Event>, ghost others: multiset<nat>)
      returns (ghost es': seq<Event>)
      requires Valid() && isInserting && buf != [] && At(m0, es, Draining(buf), others)
      modifies this`root, this`insertBuffer, this`arrivals, this`rootsRead, RootSet()`node, Repr(), store`blobs
      ensures Valid() && fresh(RootSet() - old(RootSet())) && fresh(Repr() - old(Repr()))
      ensures At(m0, es', Draining(buf[1..]), others) && root != null && root.node != null
      ensures |arrivals| == if old(arrivals) == [] then 0 else |old(arrivals)| - 1
      ensures old(arrivals) == [] ==> insertBuffer == old(insertBuffer)
      ensures es <= es'
    {
      PutFirst(buf, m0, es, others);
      es' := Arrive(m0, es + [Apply(0)], buf[1..], others);
    }

    method PutFirst(buf: seq<Pair>, ghost m0: Machine, ghost es: seq<Event>, ghost others: multiset<nat>)
      requires Valid() && buf != [] && At(m0, es, Draining(buf), others)
      modifies this`root, RootSet()`node, Repr(), store`blobs
      ensures Valid() && fresh(RootSet() - old(RootSet())) && fresh(Repr() - old(Repr()))
      ensures At(m0, es + [Apply(0)], Draining(buf[1..]), others) && root != null && root.node != null
    {
      AppliedIs(store.config, m0, es, DbState(), insertBuffer, rootsRead, buf, others);
      RawInsert(buf[0].key, buf[0].value);
    }

    /** One turn of the outer loop: what was taken from the buffer goes into the tree, the tree is
        stored; then the insert is over, or it takes the buffer again. */
    method Round(
        items: seq<Pair>, ghost m0: Machine, ghost es: seq<Event>, ghost others: multiset<nat>)
      returns (ok: bool, ghost es': seq<Event>)
      requires Valid() && isInserting && items != [] && insertBuffer == [] && At(m0, es, Draining(items), others)
      modifies this`root, this`insertBuffer, this`arrivals, this`rootsRead, RootSet(), Repr(), store
      ensures Valid() && fresh(RootSet() - old(RootSet())) && fresh(Repr() - old(Repr()))
      ensures At(m0, es', Between(ok), others)
      ensures ok <==> (store.config.canAdd ==> DbState().hash.Id?)
      ensures |arrivals| <= |old(arrivals)| && (insertBuffer == [] || |arrivals| < |old(arrivals)|)
      ensures es <= es' && |es'| > |es|
    {
      es' := Drain(items, m0, es, others);
      ok, es' := FinishRound(m0, es', others);
    }

    /** The end of a round, and of the insert unless the buffer has filled up again. */
    method FinishRound(
        ghost m0: Machine, ghost es: seq<Event>, ghost others: multiset<nat>)
      returns (ok: bool, ghost es': seq<Event>)
      requires Valid() && isInserting && root != null && root.node != null && At(m0, es, Draining([]), others)
      modifies this`rootsRead, RootSet()`hash, Repr(), store
      ensures Valid() && fresh(Repr() - old(Repr())) && At(m0, es', Between(ok), others)
      ensures ok <==> (store.config.canAdd ==> DbState().hash.Id?)
      ensures es <= es' && |es'| > |es|
    {
      ghost var db, credit := DbState(), store.credit;
      ok := EndRound();
      FinishedIs(store.config, m0, es, db, insertBuffer, rootsRead, credit, others);
      es' := es + [Finish(0, credit)];
      if !ok || insertBuffer == [] {
        rootsRead := rootsRead + [RootHash()];
      }
    }

    method Turn(
        ghost m0: Machine, ghost es: seq<Event>, ghost others: multiset<nat>)
      returns (ok: bool, ghost es': seq<Event>)
      requires Valid() && isInserting && insertBuffer != [] && At(m0, es, Between(true), others)
      modifies this`root, this`insertBuffer, this`arrivals, this`rootsRead, RootSet(), Repr(), store
      ensures Valid() && fresh(RootSet() - old(RootSet())) && fresh(Repr() - old(Repr()))
      ensures At(m0, es', Between(ok), others)
      ensures ok <==> (store.config.canAdd ==> DbState().hash.Id?)
      ensures |arrivals| <= |old(arrivals)| && (insertBuffer == [] || |arrivals| < |old(arrivals)|)
      ensures es <= es' && |es'| > |es|
    {
      var buf := insertBuffer;
      insertBuffer := [];
      ok, es' := Round(buf, m0, es, others);
    }

    /** Between two turns: nobody drains any more, or the whole buffer is about to be taken. */
    ghost function Between(ok: bool): Machine
      reads this`root, this`insertBuffer, this`rootsRead, RootSet(), NodeSet(), store
    {
      if ok && insertBuffer != [] then Machine(DbState(), true, [], [insertBuffer], rootsRead) else Idle()
    }

    method Begin(key: string, value: string, ghost others: multiset<nat>) returns (ghost es: seq<Event>)
      requires Valid() && store.config.maxSize >= 2 && !isInserting && MachineOk(store.config, Idle(), others)
      modifies this`insertBuffer, this`isInserting
      ensures Valid() && isInserting && insertBuffer != []
      ensures es == [Call(key, value)] && At(old(Idle()), es, Between(true), others)
    {
      isInserting := true;
      insertBuffer := Put(insertBuffer, key, value, false);
      CalledIs(store.config, old(Idle()), key, value);
      es := [Call(key, value)];
    }

    /** The outer loop of BTree::insert. */
    method Turns(
        ghost m0: Machine, ghost es: seq<Event>, ghost others: multiset<nat>)
      returns (ok: bool, ghost es': seq<Event>)
      requires Valid() && isInserting && insertBuffer != [] && At(m0, es, Between(true), others)
      modifies this`root, this`insertBuffer, this`arrivals, this`rootsRead, RootSet(), Repr(), store
      ensures Valid() && At(m0, es', Idle(), others)
      ensures ok ==> insertBuffer == []
      ensures ok <==> (store.config.canAdd ==> DbState().hash.Id?)
      ensures es <= es'
    {
      ok, es' := true, es;
      while insertBuffer != [] && ok
        invariant Valid() && fresh(RootSet() - old(RootSet())) && fresh(Repr() - old(Repr()))
        invariant At(m0, es', Between(ok), others) && es <= es'
        invariant es' != es ==> (ok <==> (store.config.canAdd ==> DbState().hash.Id?))
        invariant es' == es ==> ok && insertBuffer != []
        decreases |arrivals| + (if insertBuffer == [] then 0 else 1)
      {
        ok, es' := Turn(m0, es', others);
      }
    }

    /** BTree::insert. While somebody is inserting the pair is left in the buffer. Otherwise the
        call is a run of the step machine that begins with this pair and ends idle, with the pairs
        arriving meanwhile in between. If it is successful nothing is left in the buffer. */
    method Insert(key: string, value: string, ghost others: multiset<nat>) returns (ok: bool, ghost es: seq<Event>)
      requires Valid() && store.config.maxSize >= 2
      requires !isInserting ==> MachineOk(store.config, Idle(), others)
      modifies this`root, this`insertBuffer, this`isInserting, this`arrivals, this`rootsRead, RootSet(), Repr(), store
      ensures isInserting == old(isInserting)
      ensures Valid()
      ensures old(isInserting) ==>
        && ok && es == [] && (forall buf :: Draining(buf) == StepCall(old(Draining(buf)), key, value))
        && (old(Sorted(insertBuffer)) ==>
              ToMap(insertBuffer) == if key in ToMap(old(insertBuffer)) then ToMap(old(insertBuffer))
                                     else ToMap(old(insertBuffer))[key := value])
      ensures !old(isInserting) ==>
        && [Call(key, value)] <= es && At(old(Idle()), es, Idle(), others)
        && MachineOk(store.config, Idle(), others)
        && (ok ==> insertBuffer == [])
        && (store.config.canAdd ==> (ok <==> DbState().hash.Id?))
    {
      if isInserting {
        insertBuffer := Put(insertBuffer, key, value, false);
        rootsRead := rootsRead + [RootHash()];
        if Sorted(old(insertBuffer)) {
          PutRefinesMap(old(insertBuffer), key, value, false);
        }
        return true, [];
      }
      ghost var m0 := Idle();
      ok, es := InsertAlone(key, value, others);
      RunOk(store.config, m0, es, others);
    }

    method InsertAlone(key: string, value: string, ghost others: multiset<nat>) returns (ok: bool, ghost es: seq<Event>)
      requires Valid() && store.config.maxSize >= 2 && !isInserting && MachineOk(store.config, Idle(), others)
      modifies this`root, this`insertBuffer, this`isInserting, this`arrivals, this`rootsRead, RootSet(), Repr(), store
      ensures Valid() && !isInserting
      ensures [Call(key, value)] <= es && At(old(Idle()), es, Idle(), others)
      ensures ok ==> insertBuffer == []
      ensures ok <==> (store.config.canAdd ==> DbState().hash.Id?)
    {
      ghost var m0 := Idle();
      es := Begin(key, value, others);
      ok, es := Conclude(m0, es, others);
    }

    method Conclude(
        ghost m0: Machine, ghost es: seq<Event>, ghost others: multiset<nat>)
      returns (ok: bool, ghost es': seq<Event>)
      requires Valid() && isInserting && insertBuffer != [] && At(m0, es, Between(true), others)
      modifies this`root, this`insertBuffer, this`isInserting, this`arrivals, this`rootsRead, RootSet(), Repr(), store
      ensures Valid() && !isInserting && At(m0, es', Idle(), others) && es <= es'
      ensures ok ==> insertBuffer == []
      ensures ok <==> (store.config.canAdd ==> DbState().hash.Id?)
    {
      ok, es' := Turns(m0, es, others);
      isInserting := false;
    }
  }

  lemma {:induction false} MergeFour(
      ss: seq<Slot>, ms: seq<Entry>, j: nat, rl: set<HeapNode>, rr: set<HeapNode>, half: Slot, e: Entry,
      e': Entry)
    requires j < |ss| == |ms| && half.child != null && ss[j].child != null
    requires Owns(ss[..j], rl, ms[..j]) && Owns(ss[j + 1..], rr, ms[j + 1..])
    requires half.child.Valid() && e == Entry(half.id, half.value, Node(half.child.model), half.hash)
    requires ss[j].child.Valid() && e' == Entry(ss[j].id, ss[j].value, Node(ss[j].child.model), ss[j].hash)
    requires rl !! rr !! half.child.repr !! ss[j].child.repr
    ensures Owns(ss[..j] + [half] + ss[j..], rl + half.child.repr + ss[j].child.repr + rr, ms[..j] + [e, e']
        + ms[j + 1..])
  {
    var hr, tr := half.child.repr, ss[j].child.repr;
    OwnsOne(half, e);
    OwnsOne(ss[j], e');
    OwnsMerge(ss[..j], rl, ms[..j], [half], hr, [e]);
    OwnsMerge(ss[..j] + [half], rl + hr, ms[..j] + [e], [ss[j]], tr, [e']);
    OwnsMerge(ss[..j] + [half] + [ss[j]], rl + hr + tr, ms[..j] + [e] + [e'], ss[j + 1..], rr, ms[j + 1..]);
    assert ss[..j] + [half] + ss[j..] == ss[..j] + [half] + [ss[j]] + ss[j + 1..];
    assert ms[..j] + [e, e'] + ms[j + 1..] == ms[..j] + [e] + [e'] + ms[j + 1..];
  }
}
