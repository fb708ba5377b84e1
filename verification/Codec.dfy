/** How a node becomes a JSON object (Node::store) and comes back (Node::restore). Text syntax is
    left to the JSON library: a blob is the parsed object, its members in the library's order. */
module Codec {
  import opened Keys
  import opened Tree

  datatype Field = Absent | Str(s: string)

  /** One member of the object: key: {"value": value, "child": child}. */
  datatype Member = Member(key: string, value: Field, child: Hash)

  type Blob = seq<Member>

  /** std::string::c_str() read back as a C string: cut at the first NUL. */
  function CStr(s: string): (r: string)
    ensures '\0' !in r
    ensures '\0' !in s ==> r == s
  {
    if s == [] || s[0] == '\0' then [] else [s[0]] + CStr(s[1..])
  }

  function MemberBound(b: Blob, k: string): (i: nat)
    ensures i <= |b|
    ensures forall j :: 0 <= j < i ==> Less(b[j].key, k)
    ensures i < |b| ==> !Less(b[i].key, k)
  {
    if b == [] || !Less(b[0].key, k) then 0 else 1 + MemberBound(b[1..], k)
  }

  /** json[k]["value"] = value and json[k]["child"] = child, for those that are given. */
  function JsonSet(b: Blob, k: string, value: Field, child: Hash): Blob {
    var i := MemberBound(b, k);
    if i < |b| && b[i].key == k then
      b[i := Member(k, if value.Str? then value else b[i].value, if child.Id? then child else b[i].child)]
    else b[..i] + [Member(k, value, child)] + b[i..]
  }

  /** One round of the loop in Node::store, the entry's hash being known. */
  function EncodeEntry(b: Blob, e: Entry): Blob {
    var k := if e.id.Fin? then CStr(e.id.key) else "";
    var b1 := if e.id.Fin? then JsonSet(b, k, Str(e.value), NoHash) else b;
    if e.hash.Id? then JsonSet(b1, k, Absent, e.hash) else b1
  }

  function Encode(es: seq<Entry>): Blob {
    if es == [] then [] else EncodeEntry(Encode(es[..|es| - 1]), es[|es| - 1])
  }

  /** One round of the loop in Node::restore. */
  function DecodeMember(es: seq<Entry>, m: Member): seq<Entry> {
    var id := if m.key == "" then Inf else Fin(m.key);
    MapInsert(es, Entry(id, if m.value.Str? then m.value.s else "", Nil, m.child))
  }

  function Decode(b: Blob): seq<Entry> {
    if b == [] then [] else DecodeMember(Decode(b[..|b| - 1]), b[|b| - 1])
  }

  // ----- round trip -----

  predicate GoodKey(k: string) {
    k != "" && '\0' !in k
  }

  ghost predicate GoodKeys(es: seq<Entry>) {
    forall i :: 0 <= i < |es| && es[i].id.Fin? ==> GoodKey(es[i].id.key)
  }

  /** What storing a node keeps of it: children only by hash, and no INF entry without a hash. */
  function Strip(es: seq<Entry>): seq<Entry> {
    if es == [] then [] else
    Strip(es[..|es| - 1]) +
    (var e := es[|es| - 1]; if e.id.Inf? && e.hash.NoHash? then [] else [e.(child := Nil)])
  }

  function FinMembers(es: seq<Entry>): Blob {
    if es == [] then [] else
    FinMembers(es[..|es| - 1]) +
    (var e := es[|es| - 1]; if e.id.Fin? then [Member(e.id.key, Str(e.value), e.hash)] else [])
  }

  function InfMembers(es: seq<Entry>): Blob {
    if es != [] && es[|es| - 1].id.Inf? && es[|es| - 1].hash.Id? then [Member("", Absent, es[|es| - 1].hash)] else []
  }

  lemma {:induction false} OrderedPrefix(es: seq<Entry>)
    requires es != [] && Ordered(es)
    ensures Ordered(es[..|es| - 1])
    ensures forall i :: 0 <= i < |es| - 1 ==> es[i].id.Fin?
    ensures GoodKeys(es) ==> GoodKeys(es[..|es| - 1])
  {
  }

  lemma {:induction false} FinMembersAre(es: seq<Entry>)
    requires forall i :: 0 <= i < |es| ==> es[i].id.Fin?
    ensures |FinMembers(es)| == |es|
    ensures forall i :: 0 <= i < |es| ==> FinMembers(es)[i] == Member(es[i].id.key, Str(es[i].value), es[i].hash)
  {
    if es == [] {
    } else {
      FinMembersAre(es[..|es| - 1]);
    }
  }

  lemma {:induction false} StripAre(es: seq<Entry>)
    requires forall i :: 0 <= i < |es| ==> es[i].id.Fin?
    ensures |Strip(es)| == |es|
    ensures forall i :: 0 <= i < |es| ==> Strip(es)[i] == es[i].(child := Nil)
  {
    if es == [] {
    } else {
      StripAre(es[..|es| - 1]);
    }
  }

  lemma {:induction false} JsonAppend(b: Blob, k: string, value: Field, child: Hash)
    requires forall i :: 0 <= i < |b| ==> Less(b[i].key, k)
    ensures JsonSet(b, k, value, NoHash) == b + [Member(k, value, NoHash)]
    ensures JsonSet(b + [Member(k, value, NoHash)], k, Absent, child) == b + [Member(k, value, child)]
  {
    var b1 := b + [Member(k, value, NoHash)];
    LessTrichotomy(k, k);
    assert MemberBound(b, k) == |b|;
    assert forall i :: 0 <= i < |b| ==> b1[i] == b[i];
    assert !Less(b1[|b|].key, k);
    assert MemberBound(b1, k) == |b|;
  }

  lemma {:induction false} JsonPrepend(b: Blob, child: Hash)
    requires forall i :: 0 <= i < |b| ==> b[i].key != ""
    ensures JsonSet(b, "", Absent, child) == [Member("", Absent, child)] + b
  {
    if b != [] {
      assert !Less(b[0].key, "");
    }
    assert MemberBound(b, "") == 0;
  }

  lemma {:induction false} EncodeFins(es: seq<Entry>)
    requires Ordered(es) && GoodKeys(es)
    requires forall i :: 0 <= i < |es| ==> es[i].id.Fin?
    ensures Encode(es) == FinMembers(es)
  {
    if es == [] {
    } else {
      var n := |es| - 1;
      var e := es[n];
      OrderedPrefix(es);
      EncodeFins(es[..n]);
      FinMembersAre(es[..n]);
      var b := FinMembers(es[..n]);
      forall i | 0 <= i < |b|
        ensures Less(b[i].key, e.id.key)
      {
        assert IdLess(es[i].id, es[n].id);
      }
      assert GoodKey(e.id.key);
      JsonAppend(b, e.id.key, Str(e.value), e.hash);
    }
  }

  lemma {:induction false} EncodeInf(es: seq<Entry>)
    requires es != [] && es[|es| - 1].id.Inf?
    requires forall i :: 0 <= i < |es| - 1 ==> es[i].id.Fin? && es[i].id.key != ""
    ensures EncodeEntry(FinMembers(es[..|es| - 1]), es[|es| - 1]) == InfMembers(es) + FinMembers(es[..|es| - 1])
  {
    var n := |es| - 1;
    FinMembersAre(es[..n]);
    var b := FinMembers(es[..n]);
    forall i | 0 <= i < |b|
      ensures b[i].key != ""
    {
      assert es[..n][i] == es[i];
    }
    JsonPrepend(b, es[n].hash);
  }

  /** The object that a node is stored as: INF under the key "", which sorts first. */
  lemma {:induction false} EncodeForm(es: seq<Entry>)
    requires Ordered(es) && GoodKeys(es)
    ensures Encode(es) == InfMembers(es) + FinMembers(es)
  {
    if es != [] && es[|es| - 1].id.Inf? {
      OrderedPrefix(es);
      EncodeFins(es[..|es| - 1]);
      EncodeInf(es);
    } else {
      assert forall i :: 0 <= i < |es| ==> es[i].id.Fin?;
      EncodeFins(es);
    }
  }

  /** The restoring loop after the first members: the entries so far, INF at the end. */
  function Restored(es: seq<Entry>, inf: Blob): seq<Entry> {
    Strip(es) + (if inf == [] then [] else [Entry(Inf, "", Nil, inf[0].child)])
  }

  lemma {:induction false} DecodeStep(es: seq<Entry>, inf: Blob)
    requires es != [] && Ordered(es) && GoodKeys(es)
    requires forall i :: 0 <= i < |es| ==> es[i].id.Fin?
    ensures var e := es[|es| - 1];
            DecodeMember(Restored(es[..|es| - 1], inf), Member(e.id.key, Str(e.value), e.hash)) == Restored(es, inf)
  {
    var n := |es| - 1;
    var e := es[n];
    OrderedPrefix(es);
    StripAre(es[..n]);
    var d := Restored(es[..n], inf);
    assert GoodKey(e.id.key);
    forall i | 0 <= i < n
      ensures IdLess(d[i].id, e.id)
    {
      assert d[i] == es[..n][i].(child := Nil) && IdLess(es[i].id, es[n].id);
    }
    LowerBoundIs(d, e.id, n);
    assert d[..n] == Strip(es[..n]);
  }

  lemma {:induction false} DecodeSnoc(b: Blob, m: Member)
    ensures Decode(b + [m]) == DecodeMember(Decode(b), m)
  {
    assert (b + [m])[..|b + [m]| - 1] == b;
  }

  lemma {:induction false} DecodeInf(inf: Blob)
    requires |inf| <= 1 && forall i :: 0 <= i < |inf| ==> inf[i].key == "" && inf[i].value.Absent?
    ensures Decode(inf) == Restored([], inf)
  {
    if inf != [] {
      assert inf == [] + [inf[0]];
      DecodeSnoc([], inf[0]);
    }
  }

  lemma {:induction false} DecodeFins(es: seq<Entry>, inf: Blob)
    requires Ordered(es) && GoodKeys(es)
    requires forall i :: 0 <= i < |es| ==> es[i].id.Fin?
    requires |inf| <= 1 && forall i :: 0 <= i < |inf| ==> inf[i].key == "" && inf[i].value.Absent?
    ensures Decode(inf + FinMembers(es)) == Restored(es, inf)
  {
    if es == [] {
      assert inf + FinMembers(es) == inf;
      DecodeInf(inf);
    } else {
      var e, rest := es[|es| - 1], es[..|es| - 1];
      var m := Member(e.id.key, Str(e.value), e.hash);
      assert FinMembers(es) == FinMembers(rest) + [m];
      assert inf + (FinMembers(rest) + [m]) == (inf + FinMembers(rest)) + [m];
      OrderedPrefix(es);
      DecodeFins(rest, inf);
      DecodeStep(es, inf);
      DecodeSnoc(inf + FinMembers(rest), m);
    }
  }

  /** Restoring what was stored gives back ids, values and child hashes. */
  lemma {:induction false} RoundTrip(es: seq<Entry>)
    requires Ordered(es) && GoodKeys(es)
    ensures Decode(Encode(es)) == Strip(es)
  {
    EncodeForm(es);
    if es != [] && es[|es| - 1].id.Inf? {
      OrderedPrefix(es);
      DecodeFins(es[..|es| - 1], InfMembers(es));
      assert FinMembers(es) == FinMembers(es[..|es| - 1]);
    } else {
      forall i | 0 <= i < |es|
        ensures es[i].id.Fin?
      {
      }
      DecodeFins(es, []);
      assert [] + FinMembers(es) == FinMembers(es);
    }
  }

  lemma {:induction false} EncodeKeysAreCStrings(es: seq<Entry>)
    ensures forall i :: 0 <= i < |Encode(es)| ==> '\0' !in Encode(es)[i].key
  {
    if es == [] {
    } else {
      var b, e := Encode(es[..|es| - 1]), es[|es| - 1];
      EncodeKeysAreCStrings(es[..|es| - 1]);
      var k := if e.id.Fin? then CStr(e.id.key) else "";
      if e.id.Fin? {
        JsonSetKeys(b, k, Str(e.value), NoHash);
      }
      JsonSetKeys(if e.id.Fin? then JsonSet(b, k, Str(e.value), NoHash) else b, k, Absent, e.hash);
    }
  }

  lemma {:induction false} JsonSetKeys(b: Blob, k: string, value: Field, child: Hash)
    requires '\0' !in k && forall i :: 0 <= i < |b| ==> '\0' !in b[i].key
    ensures forall i :: 0 <= i < |JsonSet(b, k, value, child)| ==> '\0' !in JsonSet(b, k, value, child)[i].key
  {
  }

  lemma {:induction false} DecodeKeysAreGood(b: Blob)
    requires forall i :: 0 <= i < |b| ==> '\0' !in b[i].key
    ensures GoodKeys(Decode(b))
  {
    if b == [] {
    } else {
      DecodeKeysAreGood(b[..|b| - 1]);
    }
  }

  lemma {:induction false} StripKeepsKeys(es: seq<Entry>, i: nat)
    requires i < |es| && es[i].id.Fin?
    ensures es[i].(child := Nil) in Strip(es)
  {
    if i == |es| - 1 {
    } else {
      StripKeepsKeys(es[..|es| - 1], i);
    }
  }

  /** A node survives storing exactly if its keys are non-empty and free of NUL: "" is the name
      of INF, and keys are cut at a NUL. */
  lemma {:induction false} RoundTripIffGoodKeys(es: seq<Entry>)
    requires Ordered(es)
    ensures Decode(Encode(es)) == Strip(es) <==> GoodKeys(es)
  {
    if GoodKeys(es) {
      RoundTrip(es);
    } else {
      EncodeKeysAreCStrings(es);
      DecodeKeysAreGood(Encode(es));
      var i :| 0 <= i < |es| && es[i].id.Fin? && !GoodKey(es[i].id.key);
      StripKeepsKeys(es, i);
      GoodKeysMember(Decode(Encode(es)), es[i].(child := Nil));
    }
  }

  lemma {:induction false} GoodKeysMember(es: seq<Entry>, e: Entry)
    requires GoodKeys(es) && e.id.Fin? && !GoodKey(e.id.key)
    ensures e !in es
  {
  }

  // ----- what is restored from any object -----

  /** The entry for a member: "" names INF, and a value or child that is not given is empty. */
  function EntryOf(m: Member): Entry {
    Entry(if m.key == "" then Inf else Fin(m.key), if m.value.Str? then m.value.s else "", Nil, m.child)
  }

  function EntriesIn(b: Blob): (es: seq<Entry>)
    ensures |es| == |b| && forall i :: 0 <= i < |b| ==> es[i] == EntryOf(b[i])
  {
    if b == [] then [] else EntriesIn(b[..|b| - 1]) + [EntryOf(b[|b| - 1])]
  }

  /** Members in the order of the library, no name twice. */
  ghost predicate InNameOrder(b: Blob) {
    forall i, j :: 0 <= i < j < |b| ==> Less(b[i].key, b[j].key)
  }

  /** The entries for all members, INF last. */
  function InfLast(b: Blob): seq<Entry> {
    if b != [] && b[0].key == "" then EntriesIn(b[1..]) + [EntryOf(b[0])] else EntriesIn(b)
  }

  lemma {:induction false} EntriesSnoc(b: Blob, m: Member)
    ensures EntriesIn(b + [m]) == EntriesIn(b) + [EntryOf(m)]
  {
    assert (b + [m])[..|b|] == b;
  }

  lemma {:induction false} MemberAppended(d: seq<Entry>, m: Member)
    requires forall j :: 0 <= j < |d| ==> IdLess(d[j].id, EntryOf(m).id)
    ensures DecodeMember(d, m) == d + [EntryOf(m)]
  {
    LowerBoundIs(d, EntryOf(m).id, |d|);
    assert d[..|d|] == d && d[|d|..] == [];
  }

  lemma {:induction false} MemberBeforeInf(d: seq<Entry>, inf: Entry, m: Member)
    requires inf.id.Inf? && m.key != ""
    requires forall j :: 0 <= j < |d| ==> IdLess(d[j].id, EntryOf(m).id)
    ensures DecodeMember(d + [inf], m) == d + [EntryOf(m)] + [inf]
  {
    LowerBoundIs(d + [inf], EntryOf(m).id, |d|);
    assert (d + [inf])[..|d|] == d && (d + [inf])[|d|..] == [inf];
  }

  lemma {:induction false} NextAfterInf(b: Blob, m: Member)
    requires InNameOrder(b + [m]) && b != [] && b[0].key == ""
    ensures DecodeMember(EntriesIn(b[1..]) + [EntryOf(b[0])], m) == EntriesIn(b[1..]) + [EntryOf(m)] + [EntryOf(b[0])]
  {
    assert forall i :: 0 <= i < |b| ==> (b + [m])[i] == b[i];
    assert (b + [m])[|b|] == m;
    MemberBeforeInf(EntriesIn(b[1..]), EntryOf(b[0]), m);
  }

  lemma {:induction false} NextNamed(b: Blob, m: Member)
    requires InNameOrder(b + [m]) && (b != [] ==> b[0].key != "")
    ensures DecodeMember(EntriesIn(b), m) == EntriesIn(b) + [EntryOf(m)]
  {
    assert forall i :: 0 <= i < |b| ==> (b + [m])[i] == b[i];
    assert (b + [m])[|b|] == m;
    MemberAppended(EntriesIn(b), m);
  }

  lemma {:induction false} NextMember(b: Blob, m: Member)
    requires InNameOrder(b + [m])
    ensures DecodeMember(InfLast(b), m) == InfLast(b + [m])
  {
    if b != [] && b[0].key == "" {
      assert (b + [m])[1..] == b[1..] + [m];
      EntriesSnoc(b[1..], m);
      NextAfterInf(b, m);
    } else {
      EntriesSnoc(b, m);
      NextNamed(b, m);
      assert b == [] ==> (b + [m])[1..] == [];
    }
  }

  /** Any object, written by store or not, is restored member by member, INF last. */
  lemma {:induction false} DecodeForm(b: Blob)
    requires InNameOrder(b)
    ensures Decode(b) == InfLast(b)
  {
    if b == [] {
    } else {
      var n := |b| - 1;
      assert b == b[..n] + [b[n]];
      DecodeForm(b[..n]);
      NextMember(b[..n], b[n]);
    }
  }

  // ----- what is stored of any node -----

  /** The member of that name; what is not there is not given. */
  function MemberAt(b: Blob, k: string): Member {
    var i := MemberBound(b, k);
    if i < |b| && b[i].key == k then b[i] else Member(k, Absent, NoHash)
  }

  lemma {:induction false} MemberIs(b: Blob, i: nat)
    requires InNameOrder(b) && i < |b|
    ensures MemberAt(b, b[i].key) == b[i]
  {
    var j := MemberBound(b, b[i].key);
    LessTrichotomy(b[i].key, b[i].key);
    assert forall x :: 0 <= x < i ==> Less(b[x].key, b[i].key);
  }

  lemma {:induction false} NoMember(b: Blob, k: string)
    requires forall i :: 0 <= i < |b| ==> b[i].key != k
    ensures MemberAt(b, k) == Member(k, Absent, NoHash)
  {
  }

  /** Where the name is and what is around it. */
  lemma {:induction false} NameCut(b: Blob, k: string)
    requires InNameOrder(b)
    ensures var i := MemberBound(b, k);
            && (forall j :: 0 <= j < i ==> Less(b[j].key, k))
            && (i < |b| && b[i].key != k ==> forall j :: i <= j < |b| ==> Less(k, b[j].key))
            && (i < |b| && b[i].key == k ==> forall j :: i < j < |b| ==> Less(k, b[j].key))
  {
    var i := MemberBound(b, k);
    if i < |b| {
      LessTrichotomy(b[i].key, k);
      forall j | i < j < |b|
        ensures Less(k, b[j].key)
      {
        assert Less(b[i].key, b[j].key);
        if b[i].key != k {
          LessTransitive(k, b[i].key, b[j].key);
        }
      }
    }
  }

  lemma {:induction false} JsonSetOrder(b: Blob, k: string, value: Field, child: Hash)
    requires InNameOrder(b)
    ensures InNameOrder(JsonSet(b, k, value, child))
  {
    NameCut(b, k);
  }

  lemma {:induction false} OthersKept(b: Blob, k: string, value: Field, child: Hash, m: Member)
    requires m.key != k
    ensures m in b <==> m in JsonSet(b, k, value, child)
  {
    var b1, i := JsonSet(b, k, value, child), MemberBound(b, k);
    if j :| 0 <= j < |b| && b[j] == m {
      assert b1[if j < i || |b1| == |b| then j else j + 1] == m;
    }
    if j :| 0 <= j < |b1| && b1[j] == m {
      assert j < i || |b1| == |b| || b[j - 1] == m;
    }
  }

  lemma {:induction false} JsonSetMeans(b: Blob, k: string, value: Field, child: Hash, q: string)
    requires InNameOrder(b)
    ensures var m := MemberAt(b, q);
            MemberAt(JsonSet(b, k, value, child), q) ==
            if q != k then m
            else Member(k, if value.Str? then value else m.value, if child.Id? then child else m.child)
  {
    var b1, i := JsonSet(b, k, value, child), MemberBound(b, k);
    JsonSetOrder(b, k, value, child);
    if q == k {
      LessTrichotomy(k, k);
      assert b1[i].key == k;
      MemberIs(b1, i);
    } else {
      forall m: Member | m.key != k
        ensures m in b <==> m in b1
      {
        OthersKept(b, k, value, child, m);
      }
      OtherMember(b, b1, k, q);
    }
  }

  lemma {:induction false} OtherMember(b: Blob, b1: Blob, k: string, q: string)
    requires InNameOrder(b) && InNameOrder(b1) && q != k
    requires forall m: Member :: m.key != k ==> (m in b <==> m in b1)
    ensures MemberAt(b1, q) == MemberAt(b, q)
  {
    if i :| 0 <= i < |b| && b[i].key == q {
      assert b[i] in b1;
      var j :| 0 <= j < |b1| && b1[j] == b[i];
      MemberIs(b, i);
      MemberIs(b1, j);
    } else {
      forall j | 0 <= j < |b1|
        ensures b1[j].key != q
      {
        assert b1[j] in b1;
      }
      NoMember(b, q);
      NoMember(b1, q);
    }
  }

  /** A C string ends in front of the first NUL. */
  lemma {:induction false} CStrCuts(s: string)
    ensures CStr(s) <= s && (CStr(s) == s || s[|CStr(s)|] == '\0')
  {
    if s == [] || s[0] == '\0' {
    } else {
      CStrCuts(s[1..]);
    }
  }

  /** The name that an entry is stored under: cut at a NUL, and "" for INF. */
  function NameOf(e: Entry): string {
    if e.id.Fin? then CStr(e.id.key) else ""
  }

  function LastValue(es: seq<Entry>, k: string): Field {
    if es == [] then Absent
    else
      var e := es[|es| - 1];
      if e.id.Fin? && NameOf(e) == k then Str(e.value) else LastValue(es[..|es| - 1], k)
  }

  function LastChild(es: seq<Entry>, k: string): Hash {
    if es == [] then NoHash
    else
      var e := es[|es| - 1];
      if e.hash.Id? && NameOf(e) == k then e.hash else LastChild(es[..|es| - 1], k)
  }

  /** Any node, whatever its keys: under each name the object has the value of the last entry of that
      name, and the child of the last one that has a hash. */
  lemma {:induction false} EncodeMeans(es: seq<Entry>, k: string)
    ensures InNameOrder(Encode(es))
    ensures MemberAt(Encode(es), k) == Member(k, LastValue(es, k), LastChild(es, k))
  {
    if es == [] {
    } else {
      var b, e := Encode(es[..|es| - 1]), es[|es| - 1];
      EncodeMeans(es[..|es| - 1], k);
      var b1 := if e.id.Fin? then JsonSet(b, NameOf(e), Str(e.value), NoHash) else b;
      JsonSetOrder(b, NameOf(e), Str(e.value), NoHash);
      JsonSetMeans(b, NameOf(e), Str(e.value), NoHash, k);
      JsonSetOrder(b1, NameOf(e), Absent, e.hash);
      JsonSetMeans(b1, NameOf(e), Absent, e.hash, k);
    }
  }
}
