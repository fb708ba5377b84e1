/** std::map<Key, Value> as the sequence of its pairs in iteration order. */
module OrderedMap {
  import opened Keys

  datatype Pair = Pair(key: string, value: string)

  ghost predicate Sorted(s: seq<Pair>) {
    forall i, j :: 0 <= i < j < |s| ==> Less(s[i].key, s[j].key)
  }

  ghost predicate AllBelow(s: seq<Pair>, k: string) {
    forall i :: 0 <= i < |s| ==> Less(s[i].key, k)
  }

  /** Insert k at its place. With overwrite false this is std::map::insert, which keeps the
      value of a key that is already there; with overwrite true it is operator[]. */
  function Put(s: seq<Pair>, k: string, v: string, overwrite: bool): seq<Pair> {
    if s == [] then [Pair(k, v)]
    else if s[0].key == k then (if overwrite then [Pair(k, v)] + s[1..] else s)
    else if Less(k, s[0].key) then [Pair(k, v)] + s
    else [s[0]] + Put(s[1..], k, v, overwrite)
  }

  /** The map that the pairs stand for. */
  function ToMap(s: seq<Pair>): map<string, string> {
    if s == [] then map[] else ToMap(s[1..])[s[0].key := s[0].value]
  }

  ghost predicate HasKey(s: seq<Pair>, k: string) {
    exists i :: 0 <= i < |s| && s[i].key == k
  }

  lemma {:induction false} ToMapKeys(s: seq<Pair>, k: string)
    ensures k in ToMap(s) <==> HasKey(s, k)
  {
    if s == [] {
    } else {
      ToMapKeys(s[1..], k);
      if HasKey(s[1..], k) {
        var i :| 0 <= i < |s[1..]| && s[1..][i].key == k;
        assert s[i + 1].key == k;
      }
      if HasKey(s, k) && s[0].key != k {
        var i :| 0 <= i < |s| && s[i].key == k;
        assert s[1..][i - 1].key == k;
      }
    }
  }

  lemma {:induction false} ToMapConcat(a: seq<Pair>, b: seq<Pair>)
    ensures ToMap(a + b) == ToMap(b) + ToMap(a)
  {
    if a == [] {
      assert a + b == b;
    } else {
      assert (a + b)[1..] == a[1..] + b;
      ToMapConcat(a[1..], b);
    }
  }

  lemma {:induction false} SortedParts(a: seq<Pair>, b: seq<Pair>)
    requires Sorted(a + b)
    ensures Sorted(a) && Sorted(b)
    ensures forall i, j :: 0 <= i < |a| && 0 <= j < |b| ==> Less(a[i].key, b[j].key)
  {
    forall i, j | 0 <= i < |a| && 0 <= j < |b|
      ensures Less(a[i].key, b[j].key)
    {
      assert (a + b)[i] == a[i] && (a + b)[|a| + j] == b[j];
    }
    forall i, j | 0 <= i < j < |a|
      ensures Less(a[i].key, a[j].key)
    {
      assert (a + b)[i] == a[i] && (a + b)[j] == a[j];
    }
    forall i, j | 0 <= i < j < |b|
      ensures Less(b[i].key, b[j].key)
    {
      assert (a + b)[|a| + i] == b[i] && (a + b)[|a| + j] == b[j];
    }
  }

  ghost predicate PairsBelow(a: seq<Pair>, b: seq<Pair>) {
    forall i, j :: 0 <= i < |a| && 0 <= j < |b| ==> Less(a[i].key, b[j].key)
  }

  lemma {:induction false} SortedFour(a: seq<Pair>, u: seq<Pair>, o: seq<Pair>, b: seq<Pair>)
    requires Sorted(a + (u + o) + b)
    ensures Sorted(a) && Sorted(u) && Sorted(b)
    ensures PairsBelow(a, u) && PairsBelow(a, o) && PairsBelow(u, o) && PairsBelow(u, b) && PairsBelow(o, b)
  {
    assert a + (u + o) + b == a + (u + (o + b));
    SortedParts(a, u + (o + b));
    SortedParts(u, o + b);
    SortedParts(o, b);
    forall i, j | 0 <= i < |a| && 0 <= j < |u|
      ensures Less(a[i].key, u[j].key)
    {
      assert (u + (o + b))[j] == u[j];
    }
    forall i, j | 0 <= i < |a| && 0 <= j < |o|
      ensures Less(a[i].key, o[j].key)
    {
      assert (u + (o + b))[|u| + j] == o[j];
    }
    forall i, j | 0 <= i < |u| && 0 <= j < |o|
      ensures Less(u[i].key, o[j].key)
    {
      assert (o + b)[j] == o[j];
    }
    forall i, j | 0 <= i < |u| && 0 <= j < |b|
      ensures Less(u[i].key, b[j].key)
    {
      assert (o + b)[|o| + j] == b[j];
    }
  }

  /** If the last key of a sorted sequence is below k, all its keys are. */
  lemma {:induction false} SortedAllBelow(s: seq<Pair>, k: string)
    requires Sorted(s)
    requires s != [] ==> Less(s[|s| - 1].key, k)
    ensures AllBelow(s, k)
  {
    forall i | 0 <= i < |s|
      ensures Less(s[i].key, k)
    {
      if i < |s| - 1 {
        LessTransitive(s[i].key, s[|s| - 1].key, k);
      }
    }
  }

  lemma {:induction false} AbsentWhenBelow(s: seq<Pair>, k: string)
    requires AllBelow(s, k)
    ensures k !in ToMap(s)
  {
    ToMapKeys(s, k);
    forall i | 0 <= i < |s|
      ensures s[i].key != k
    {
      LessTrichotomy(s[i].key, k);
    }
  }

  lemma {:induction false} AbsentWhenAbove(s: seq<Pair>, k: string)
    requires Sorted(s)
    requires s != [] ==> Less(k, s[0].key)
    ensures k !in ToMap(s)
  {
    ToMapKeys(s, k);
    forall i | 0 <= i < |s|
      ensures s[i].key != k
    {
      if i > 0 {
        LessTransitive(k, s[0].key, s[i].key);
      }
      LessTrichotomy(k, s[i].key);
    }
  }

  lemma {:induction false} PutPastPrefix(a: seq<Pair>, s: seq<Pair>, k: string, v: string, overwrite: bool)
    requires AllBelow(a, k)
    ensures Put(a + s, k, v, overwrite) == a + Put(s, k, v, overwrite)
  {
    if a == [] {
      assert a + s == s;
    } else {
      assert (a + s)[1..] == a[1..] + s;
      LessTrichotomy(a[0].key, k);
      PutPastPrefix(a[1..], s, k, v, overwrite);
      assert [a[0]] + (a[1..] + Put(s, k, v, overwrite)) == a + Put(s, k, v, overwrite);
    }
  }

  lemma {:induction false} PutBeforeSuffix(u: seq<Pair>, b: seq<Pair>, k: string, v: string, overwrite: bool)
    requires b != [] ==> Less(k, b[0].key)
    ensures Put(u + b, k, v, overwrite) == Put(u, k, v, overwrite) + b
  {
    if u == [] {
      assert u + b == b;
      if b != [] {
        LessTrichotomy(k, b[0].key);
      }
    } else {
      assert (u + b)[0] == u[0] && (u + b)[1..] == u[1..] + b;
      PutBeforeSuffix(u[1..], b, k, v, overwrite);
      assert [u[0]] + (Put(u[1..], k, v, overwrite) + b) == ([u[0]] + Put(u[1..], k, v, overwrite)) + b;
    }
  }

  /** Putting k into a + u + b only touches u when a lies below k and b above it. */
  lemma {:induction false} PutMiddle(a: seq<Pair>, u: seq<Pair>, b: seq<Pair>, k: string, v: string, overwrite: bool)
    requires AllBelow(a, k)
    requires b != [] ==> Less(k, b[0].key)
    ensures Put(a + u + b, k, v, overwrite) == a + Put(u, k, v, overwrite) + b
  {
    PutPastPrefix(a, u + b, k, v, overwrite);
    PutBeforeSuffix(u, b, k, v, overwrite);
    assert a + u + b == a + (u + b);
  }

  lemma {:induction false} PutSorted(s: seq<Pair>, k: string, v: string, overwrite: bool)
    requires Sorted(s)
    ensures Sorted(Put(s, k, v, overwrite))
    ensures forall i :: 0 <= i < |Put(s, k, v, overwrite)| ==>
      Put(s, k, v, overwrite)[i].key == k || HasKey(s, Put(s, k, v, overwrite)[i].key)
  {
    if s == [] {
    } else {
      LessTrichotomy(s[0].key, k);
      SortedParts([s[0]], s[1..]);
      assert [s[0]] + s[1..] == s;
      var r := Put(s, k, v, overwrite);
      if s[0].key != k && Less(k, s[0].key) {
        forall i | 0 <= i < |s|
          ensures Less(k, s[i].key)
        {
          if i > 0 { LessTransitive(k, s[0].key, s[i].key); }
        }
        assert forall i :: 0 < i < |r| ==> r[i] == s[i - 1];
      } else if s[0].key != k {
        PutSorted(s[1..], k, v, overwrite);
        var t := Put(s[1..], k, v, overwrite);
        forall i | 0 <= i < |t|
          ensures Less(s[0].key, t[i].key)
          ensures t[i].key == k || HasKey(s, t[i].key)
        {
          if t[i].key != k {
            assert HasKey(s[1..], t[i].key);
            var j :| 0 <= j < |s[1..]| && s[1..][j].key == t[i].key;
            assert s[j + 1].key == t[i].key;
          }
        }
        assert r == [s[0]] + t;
      } else {
        assert forall i :: 0 < i < |r| ==> r[i] == s[i];
      }
    }
  }

  /** Put refines the update of a map: a fresh key gets v, an existing one only with overwrite. */
  lemma {:induction false} PutRefinesMap(s: seq<Pair>, k: string, v: string, overwrite: bool)
    requires Sorted(s)
    ensures ToMap(Put(s, k, v, overwrite)) ==
            if k in ToMap(s) && !overwrite then ToMap(s) else ToMap(s)[k := v]
  {
    if s == [] {
    } else {
      LessTrichotomy(s[0].key, k);
      assert [s[0]] + s[1..] == s;
      SortedParts([s[0]], s[1..]);
      if s[0].key == k {
        assert ([Pair(k, v)] + s[1..])[1..] == s[1..];
      } else if Less(k, s[0].key) {
        AbsentWhenAbove(s, k);
        assert ([Pair(k, v)] + s)[1..] == s;
      } else {
        PutRefinesMap(s[1..], k, v, overwrite);
        var t := Put(s[1..], k, v, overwrite);
        assert ([s[0]] + t)[1..] == t;
      }
    }
  }

  /** The keys after an insertion are the old ones and the new one. */
  lemma {:induction false} PutKeys(s: seq<Pair>, k: string, v: string, overwrite: bool, x: string)
    requires Sorted(s)
    ensures HasKey(Put(s, k, v, overwrite), x) <==> HasKey(s, x) || x == k
  {
    PutRefinesMap(s, k, v, overwrite);
    ToMapKeys(s, x);
    ToMapKeys(Put(s, k, v, overwrite), x);
  }

  /** The map of a sequence of pairs gives every key its first value. */
  lemma {:induction false} ToMapIsFirst(s: seq<Pair>, k: string) returns (i: nat)
    requires k in ToMap(s)
    ensures i < |s| && s[i] == Pair(k, ToMap(s)[k]) && forall j :: 0 <= j < i ==> s[j].key != k
  {
    if s[0].key == k {
      i := 0;
    } else {
      var j := ToMapIsFirst(s[1..], k);
      i := j + 1;
    }
  }

  /** Inserting without overwriting is handing in one more pair. */
  lemma {:induction false} PutIsOneMore(s: seq<Pair>, handed: seq<Pair>, k: string, v: string)
    requires Sorted(s) && ToMap(s) == ToMap(handed)
    ensures ToMap(Put(s, k, v, false)) == ToMap(handed + [Pair(k, v)])
  {
    PutRefinesMap(s, k, v, false);
    ToMapConcat(handed, [Pair(k, v)]);
    assert [Pair(k, v)][1..] == [];
  }
}
