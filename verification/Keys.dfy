/** Keys and the order that a node's entries are kept in: strings compared byte by byte
    (std::string), with the extra id Inf above every key. */
module Keys {

  /** boost::optional<Key>: Inf is boost::none, the id of the rightmost entry. */
  datatype NodeId = Fin(key: string) | Inf

  /** Lexicographic comparison of the parts of a and b from position i on. */
  predicate LessFrom(a: string, b: string, i: nat)
    requires i <= |a| && i <= |b|
    decreases |a| - i
  {
    if i == |b| then false
    else if i == |a| then true
    else a[i] < b[i] || (a[i] == b[i] && LessFrom(a, b, i + 1))
  }

  predicate Less(a: string, b: string) {
    LessFrom(a, b, 0)
  }

  /** NodeIdCompare: Inf is below nothing and above every key. */
  predicate IdLess(a: NodeId, b: NodeId) {
    if a.Inf? then false
    else if b.Inf? then true
    else Less(a.key, b.key)
  }

  lemma {:induction false} LessFromTransitive(a: string, b: string, c: string, i: nat)
    requires i <= |a| && i <= |b| && i <= |c|
    requires LessFrom(a, b, i) && LessFrom(b, c, i)
    ensures LessFrom(a, c, i)
    decreases |a| - i
  {
    if i < |a| && a[i] == b[i] == c[i] {
      LessFromTransitive(a, b, c, i + 1);
    }
  }

  lemma {:induction false} LessFromTrichotomy(a: string, b: string, i: nat)
    requires i <= |a| && i <= |b|
    requires a[..i] == b[..i]
    ensures LessFrom(a, b, i) ==> !LessFrom(b, a, i) && a != b
    ensures a == b || LessFrom(a, b, i) || LessFrom(b, a, i)
    decreases |a| - i
  {
    if i < |a| && i < |b| && a[i] == b[i] {
      assert a[..i + 1] == a[..i] + [a[i]] && b[..i + 1] == b[..i] + [b[i]];
      LessFromTrichotomy(a, b, i + 1);
    } else if i == |a| == |b| {
      assert a == a[..i] && b == b[..i];
    }
  }

  lemma {:induction false} LessTransitive(a: string, b: string, c: string)
    requires Less(a, b) && Less(b, c)
    ensures Less(a, c)
  {
    LessFromTransitive(a, b, c, 0);
  }

  /** Exactly one of "a below b", "b below a" and "a is b" holds. */
  lemma {:induction false} LessTrichotomy(a: string, b: string)
    ensures Less(a, b) ==> !Less(b, a) && a != b
    ensures a == b || Less(a, b) || Less(b, a)
  {
    LessFromTrichotomy(a, b, 0);
  }

  /** NodeIdCompare is a strict total order with Inf on top: what std::map asks of it. */
  lemma {:induction false} IdLessIsStrictTotalOrder(a: NodeId, b: NodeId, c: NodeId)
    ensures IdLess(a, b) && IdLess(b, c) ==> IdLess(a, c)
    ensures IdLess(a, b) ==> !IdLess(b, a) && a != b
    ensures a == b || IdLess(a, b) || IdLess(b, a)
    ensures a != Inf ==> IdLess(a, Inf)
  {
    if a.Fin? && b.Fin? {
      LessTrichotomy(a.key, b.key);
      if c.Fin? && Less(a.key, b.key) && Less(b.key, c.key) {
        LessTransitive(a.key, b.key, c.key);
      }
    }
  }

  /** Where two strings differ first, from i on; b may go on where a ends. */
  ghost predicate BelowAt(a: string, b: string, i: nat) {
    i < |a| && i < |b| && a[..i] == b[..i] && a[i] < b[i]
  }

  lemma {:induction false} LessFromIsLexicographic(a: string, b: string, i: nat)
    requires i <= |a| && i <= |b| && a[..i] == b[..i]
    ensures LessFrom(a, b, i) <==> (a <= b && a != b) || exists j :: i <= j && BelowAt(a, b, j)
    decreases |a| - i
  {
    if i == |b| {
      assert a <= b ==> a == b;
    } else if i == |a| {
      assert a == a[..i] && a <= b && a != b;
    } else if a[i] == b[i] {
      assert a[..i + 1] == a[..i] + [a[i]] && b[..i + 1] == b[..i] + [b[i]];
      LessFromIsLexicographic(a, b, i + 1);
      assert !BelowAt(a, b, i);
    } else {
      assert !(a <= b);
      if a[i] < b[i] {
        assert BelowAt(a, b, i);
      } else {
        forall j | i <= j
          ensures !BelowAt(a, b, j)
        {
          assert j > i && j < |a| && j < |b| ==> a[..j][i] != b[..j][i];
        }
      }
    }
  }

  /** Less is the order of std::string: a is a proper prefix of b, or smaller where they differ first. */
  lemma {:induction false} LessIsLexicographic(a: string, b: string)
    ensures Less(a, b) <==>
      (a <= b && a != b) || exists i :: 0 <= i < |a| && i < |b| && a[..i] == b[..i] && a[i] < b[i]
  {
    assert a[..0] == b[..0];
    LessFromIsLexicographic(a, b, 0);
    if exists j: nat :: BelowAt(a, b, j) {
      var j: nat :| BelowAt(a, b, j);
      assert 0 <= j < |a| && j < |b| && a[..j] == b[..j] && a[j] < b[j];
    }
    forall i | 0 <= i < |a| && i < |b| && a[..i] == b[..i] && a[i] < b[i]
      ensures BelowAt(a, b, i)
    {
    }
  }
}
