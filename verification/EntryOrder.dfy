/** Sorting and deduplicating entries: what the order of additions means for the result. */
module EntryOrder {
  import opened Keys
  import opened Values
  import opened TrieBuild

  /** Ascending by key, equal keys allowed: what a sort leaves behind. */
  ghost predicate Ordered(s: seq<Entry>) {
    forall i, j :: 0 <= i < j < |s| ==> !Less(s[j].key, s[i].key)
  }

  /** The map a list of additions stands for: the last one of a key wins. */
  function AsMap(s: seq<Entry>): map<Key, Value> {
    if s == [] then map[] else AsMap(s[..|s| - 1])[s[|s| - 1].key := s[|s| - 1].val]
  }

  /** The values added under one key, in order. */
  function Only(s: seq<Entry>, k: Key): seq<Value> {
    if s == [] then [] else Only(s[..|s| - 1], k) + (if s[|s| - 1].key == k then [s[|s| - 1].val] else [])
  }

  /** Rearranged without changing the order among entries of equal keys. */
  ghost predicate Stable(a: seq<Entry>, b: seq<Entry>) {
    forall k: Key :: Only(a, k) == Only(b, k)
  }

  ghost predicate NotAfterwards(s: seq<Entry>, i: nat, k: Key) {
    forall j :: i < j < |s| ==> s[j].key != k
  }

  /** A key is in the map if it was added, with the value of its last addition. */
  lemma {:induction false} LastAdditionWins(s: seq<Entry>, k: Key)
    ensures k in AsMap(s) <==> exists i :: 0 <= i < |s| && s[i].key == k
    ensures k in AsMap(s) ==>
              exists i :: 0 <= i < |s| && s[i] == Entry(k, AsMap(s)[k]) && NotAfterwards(s, i, k)
  {
    if s != [] {
      var front, last := s[..|s| - 1], s[|s| - 1];
      LastAdditionWins(front, k);
      if last.key == k {
        assert NotAfterwards(s, |s| - 1, k);
      } else if k in AsMap(front) {
        var i :| 0 <= i < |front| && front[i] == Entry(k, AsMap(front)[k]) && NotAfterwards(front, i, k);
        assert s[i] == front[i] && NotAfterwards(s, i, k);
      }
    }
  }

  lemma {:induction false} MapIsLast(s: seq<Entry>, k: Key)
    ensures k in AsMap(s) <==> Only(s, k) != []
    ensures k in AsMap(s) ==> AsMap(s)[k] == Only(s, k)[|Only(s, k)| - 1]
  {
    if s != [] {
      MapIsLast(s[..|s| - 1], k);
    }
  }

  lemma StableSameMap(a: seq<Entry>, b: seq<Entry>)
    requires Stable(a, b)
    ensures AsMap(a) == AsMap(b)
  {
    forall k: Key
      ensures (k in AsMap(a) <==> k in AsMap(b)) && (k in AsMap(a) ==> AsMap(a)[k] == AsMap(b)[k])
    {
      MapIsLast(a, k);
      MapIsLast(b, k);
    }
  }

  lemma {:induction false} OnlyIn(s: seq<Entry>, k: Key, v: Value)
    ensures v in Only(s, k) <==> Entry(k, v) in s
  {
    if s != [] {
      var front, last := s[..|s| - 1], s[|s| - 1];
      OnlyIn(front, k, v);
      assert s == front + [last];
    }
  }

  /** Without stability a sort still keeps the keys, and every value is one added under its key. */
  lemma PermutationKeys(a: seq<Entry>, b: seq<Entry>, k: Key)
    requires multiset(a) == multiset(b)
    ensures k in AsMap(a) <==> k in AsMap(b)
    ensures k in AsMap(b) ==> Entry(k, AsMap(b)[k]) in a
  {
    MapIsLast(a, k);
    MapIsLast(b, k);
    if k in AsMap(a) {
      OnlyIn(a, k, AsMap(a)[k]);
      SameMembers(a, b, Entry(k, AsMap(a)[k]));
      OnlyIn(b, k, AsMap(a)[k]);
    }
    if k in AsMap(b) {
      OnlyIn(b, k, AsMap(b)[k]);
      SameMembers(a, b, Entry(k, AsMap(b)[k]));
      OnlyIn(a, k, AsMap(b)[k]);
    }
  }

  lemma SameMembers(a: seq<Entry>, b: seq<Entry>, e: Entry)
    requires multiset(a) == multiset(b)
    ensures e in a <==> e in b
  {
    assert e in a <==> e in multiset(a);
    assert e in b <==> e in multiset(b);
  }

  /** A stable sort exists for every list: insert each entry behind its equals. */
  function Insert(s: seq<Entry>, e: Entry): (r: seq<Entry>)
    ensures multiset(r) == multiset(s + [e]) && |r| == |s| + 1
  {
    if s == [] || !Less(e.key, s[|s| - 1].key) then s + [e]
    else
      assert s == s[..|s| - 1] + [s[|s| - 1]];
      Insert(s[..|s| - 1], e) + [s[|s| - 1]]
  }

  function InsertionSorted(s: seq<Entry>): (r: seq<Entry>)
    ensures multiset(r) == multiset(s)
  {
    if s == [] then [] else
      assert s == s[..|s| - 1] + [s[|s| - 1]];
      Insert(InsertionSorted(s[..|s| - 1]), s[|s| - 1])
  }

  lemma {:induction false} InsertOrdered(s: seq<Entry>, e: Entry)
    requires Ordered(s)
    ensures Ordered(Insert(s, e))
    ensures forall f: Entry :: f in Insert(s, e) <==> f in s || f == e
  {
    if s == [] || !Less(e.key, s[|s| - 1].key) {
      forall i | 0 <= i < |s| ensures !Less(e.key, s[i].key) {
        NotLessBack(e.key, s[|s| - 1].key, s[i].key);
      }
    } else {
      var front, last := s[..|s| - 1], s[|s| - 1];
      InsertOrdered(front, e);
      assert s == front + [last];
      LessAsymmetric(e.key, last.key);
      forall f | f in Insert(front, e) ensures !Less(last.key, f.key) {
      }
    }
  }

  lemma NotLessBack(a: Key, b: Key, c: Key)
    requires !Less(a, b) && (c == b || !Less(b, c))
    ensures !Less(a, c)
  {
    if Less(a, c) {
      LessTotal(b, c);
      if b != c {
        LessTransitive(a, c, b);
      }
    }
  }

  lemma OnlyAppend(s: seq<Entry>, e: Entry, k: Key)
    ensures Only(s + [e], k) == Only(s, k) + (if e.key == k then [e.val] else [])
  {
    assert (s + [e])[..|s|] == s;
  }

  lemma {:induction false} InsertOnly(s: seq<Entry>, e: Entry, k: Key)
    ensures Only(Insert(s, e), k) == Only(s, k) + (if e.key == k then [e.val] else [])
  {
    hide Only, Less;
    if s == [] || !Less(e.key, s[|s| - 1].key) {
      OnlyAppend(s, e, k);
    } else {
      var front, last := s[..|s| - 1], s[|s| - 1];
      assert s == front + [last];
      InsertOnly(front, e, k);
      OnlyAppend(front, last, k);
      OnlyAppend(Insert(front, e), last, k);
      LessIrreflexive(e.key);
    }
  }

  lemma {:induction false} InsertionSortStable(s: seq<Entry>)
    ensures Ordered(InsertionSorted(s)) && Stable(s, InsertionSorted(s))
  {
    if s != [] {
      var front, last := s[..|s| - 1], s[|s| - 1];
      InsertionSortStable(front);
      InsertOrdered(InsertionSorted(front), last);
      forall k: Key ensures Only(s, k) == Only(InsertionSorted(s), k) {
        InsertOnly(InsertionSorted(front), last, k);
      }
    }
  }

  /** Of every run of equal keys only the last entry stays. */
  function KeepLast(s: seq<Entry>): seq<Entry> {
    if |s| <= 1 then s
    else if s[0].key == s[1].key then KeepLast(s[1..])
    else [s[0]] + KeepLast(s[1..])
  }

  lemma {:induction false} KeepLastBounds(s: seq<Entry>, low: Key)
    requires forall i :: 0 <= i < |s| ==> Less(low, s[i].key)
    ensures |KeepLast(s)| <= |s| && (s != [] ==> KeepLast(s) != [])
    ensures forall i :: 0 <= i < |KeepLast(s)| ==> Less(low, KeepLast(s)[i].key)
  {
    if |s| > 1 {
      KeepLastBounds(s[1..], low);
    }
  }

  /** What is left of a sorted list is strictly sorted. */
  lemma {:induction false} KeepLastSorted(s: seq<Entry>)
    requires Ordered(s)
    ensures Sorted(KeepLast(s)) && |KeepLast(s)| <= |s|
  {
    if |s| > 1 {
      KeepLastSorted(s[1..]);
      if s[0].key != s[1].key {
        forall i | 0 <= i < |s[1..]| ensures Less(s[0].key, s[1..][i].key) {
          LessTotal(s[0].key, s[1].key);
          NotLessForward(s[0].key, s[1].key, s[i + 1].key);
        }
        KeepLastBounds(s[1..], s[0].key);
      }
    }
  }

  lemma NotLessForward(a: Key, b: Key, c: Key)
    requires Less(a, b) && (c == b || !Less(c, b))
    ensures Less(a, c)
  {
    LessTotal(b, c);
    if b != c {
      LessTransitive(a, b, c);
    }
  }

  /** The map of a list read from the front: a later entry of the same key still wins. */
  lemma {:induction false} AsMapFront(e: Entry, s: seq<Entry>)
    ensures AsMap([e] + s) == map[e.key := e.val] + AsMap(s)
  {
    if s == [] {
      assert [e] + s == [e] && [e][..0] == [];
    } else {
      AsMapFront(e, s[..|s| - 1]);
      assert ([e] + s)[..|s|] == [e] + s[..|s| - 1];
    }
  }

  /** Dropping the earlier of two equal neighbours does not change the map. */
  lemma {:induction false} KeepLastMap(s: seq<Entry>)
    ensures AsMap(KeepLast(s)) == AsMap(s)
  {
    hide AsMap;
    if |s| > 1 {
      KeepLastMap(s[1..]);
      assert s == [s[0]] + s[1..];
      AsMapFront(s[0], s[1..]);
      AsMapFront(s[0], KeepLast(s[1..]));
      if s[0].key == s[1].key {
        FirstKeyIn(s[1..]);
        Overwritten(AsMap(s[1..]), s[0].key, s[0].val);
      }
    }
  }

  lemma FirstKeyIn(s: seq<Entry>)
    requires s != []
    ensures s[0].key in AsMap(s)
  {
    hide AsMap;
    assert s == [s[0]] + s[1..];
    AsMapFront(s[0], s[1..]);
  }

  lemma Overwritten(m: map<Key, Value>, k: Key, v: Value)
    requires k in m
    ensures map[k := v] + m == m
  {
  }

  lemma {:induction false} SortedMap(es: seq<Entry>, k: Key)
    requires Sorted(es)
    ensures k in AsMap(es) <==> exists i :: 0 <= i < |es| && es[i].key == k
    ensures forall i :: 0 <= i < |es| ==> es[i].key in AsMap(es) && AsMap(es)[es[i].key] == es[i].val
  {
    if es != [] {
      var front, last := es[..|es| - 1], es[|es| - 1];
      SortedMap(front, k);
      forall i | 0 <= i < |front| ensures es[i].key != last.key {
        LessIrreflexive(last.key);
      }
      assert forall i :: 0 <= i < |front| ==> es[i] == front[i];
    }
  }

  lemma LastKeyLeast(a: seq<Entry>, b: seq<Entry>)
    requires Sorted(a) && Sorted(b) && a != [] && b != []
    requires forall k: Key :: k in AsMap(a) ==> k in AsMap(b)
    ensures a[|a| - 1].key == b[|b| - 1].key || Less(a[|a| - 1].key, b[|b| - 1].key)
  {
    SortedMap(a, []);
    SortedMap(b, a[|a| - 1].key);
    var i :| 0 <= i < |b| && b[i].key == a[|a| - 1].key;
  }

  /** A strictly sorted list is determined by its map. */
  lemma {:induction false} SortedUnique(a: seq<Entry>, b: seq<Entry>)
    requires Sorted(a) && Sorted(b) && AsMap(a) == AsMap(b)
    ensures a == b
  {
    SortedMap(a, []);
    SortedMap(b, []);
    FirstInMap(a);
    FirstInMap(b);
    if a != [] {
      LastKeyLeast(a, b);
      LastKeyLeast(b, a);
      LessAsymmetric(a[|a| - 1].key, b[|b| - 1].key);
      assert a[|a| - 1] == b[|b| - 1];
      FrontMap(a);
      FrontMap(b);
      SortedUnique(a[..|a| - 1], b[..|b| - 1]);
      assert a == a[..|a| - 1] + [a[|a| - 1]] && b == b[..|b| - 1] + [b[|b| - 1]];
    }
  }

  lemma FirstInMap(a: seq<Entry>)
    requires Sorted(a)
    ensures a != [] ==> a[0].key in AsMap(a)
    ensures a == [] ==> AsMap(a) == map[]
  {
    SortedMap(a, []);
  }

  lemma FrontMap(a: seq<Entry>)
    requires Sorted(a) && a != []
    ensures AsMap(a[..|a| - 1]) == AsMap(a) - {a[|a| - 1].key}
  {
    var front, last := a[..|a| - 1], a[|a| - 1];
    SortedMap(front, last.key);
    if last.key in AsMap(front) {
      var i :| 0 <= i < |front| && front[i].key == last.key;
      LessIrreflexive(last.key);
    }
    RemoveAdded(AsMap(front), last.key, last.val);
  }

  lemma RemoveAdded(m: map<Key, Value>, k: Key, v: Value)
    requires k !in m
    ensures m[k := v] - {k} == m
  {
  }

  /** The comparison the sort uses: bytes up to the shorter length, then the lengths. */
  method EntryCmp(a: Key, b: Key) returns (cmp: int)
    ensures cmp < 0 <==> Less(a, b)
    ensures cmp == 0 <==> a == b
    ensures cmp > 0 <==> Less(b, a)
  {
    var minLen := if |a| < |b| then |a| else |b|;
    var i := 0;
    while i < minLen && a[i] == b[i]
      invariant 0 <= i <= minLen && a[..i] == b[..i]
    {
      i := i + 1;
    }
    LessAt(a, b, i);
    LessAt(b, a, i);
    if i < minLen {
      return a[i] as int - b[i] as int;
    }
    if |a| < |b| {
      return -1;
    }
    if |a| > |b| {
      return 1;
    }
    LessIrreflexive(a);
    assert a[..i] == a && b[..i] == b;
    return 0;
  }
}
