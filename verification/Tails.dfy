/** The tail pool: distinct edge tails stored once, a tail that ends another one stored inside it. */
module Tails {
  import opened Bits
  import opened Buffers
  import opened Keys
  import opened KeySets

  /** A key read from its last byte. */
  function Rev(t: Key): (r: Key)
    ensures |r| == |t|
  {
    if t == [] then [] else Rev(t[1..]) + [t[0]]
  }

  lemma {:induction false} RevAt(t: Key, i: nat)
    requires i < |t|
    ensures Rev(t)[i] == t[|t| - 1 - i]
  {
    if i < |t| - 1 {
      RevAt(t[1..], i);
    }
  }

  lemma {:induction false} RevRev(t: Key)
    ensures Rev(Rev(t)) == t
  {
    forall i | 0 <= i < |t| ensures Rev(Rev(t))[i] == t[i] {
      RevAt(Rev(t), i);
      RevAt(t, |t| - 1 - i);
    }
  }

  predicate IsProperSuffix(s: Key, big: Key) {
    |s| < |big| && big[|big| - |s|..] == s
  }

  /** Ending another tail is starting it, read backwards. */
  lemma SuffixReversed(s: Key, big: Key)
    ensures IsProperSuffix(s, big) <==> Rev(s) < Rev(big)
  {
    if IsProperSuffix(s, big) {
      forall i | 0 <= i < |s| ensures Rev(s)[i] == Rev(big)[i] {
        RevAt(s, i);
        RevAt(big, i);
      }
    }
    if Rev(s) < Rev(big) {
      forall i | 0 <= i < |s| ensures big[|big| - |s| + i] == s[i] {
        RevAt(s, |s| - 1 - i);
        RevAt(big, |s| - 1 - i);
      }
    }
  }

  /** Last byte first. */
  predicate RevLess(a: Key, b: Key) {
    Less(Rev(a), Rev(b))
  }

  ghost predicate RevAscend(ts: seq<Key>) {
    forall i, j :: 0 <= i < j < |ts| ==> RevLess(ts[i], ts[j])
  }

  /** Comparing from the last byte. */
  method CmpReversed(a: Key, b: Key) returns (cmp: int)
    ensures cmp < 0 <==> RevLess(a, b)
    ensures cmp == 0 <==> a == b
    ensures cmp > 0 <==> RevLess(b, a)
  {
    hide Less;
    ghost var ra, rb := Rev(a), Rev(b);
    var i := 0;
    while i < |a| && i < |b| && a[|a| - 1 - i] == b[|b| - 1 - i]
      invariant 0 <= i <= |a| && i <= |b| && ra[..i] == rb[..i]
    {
      RevAt(a, i);
      RevAt(b, i);
      i := i + 1;
    }
    LessAt(ra, rb, i);
    LessAt(rb, ra, i);
    if i < |a| && i < |b| {
      RevAt(a, i);
      RevAt(b, i);
      return if a[|a| - 1 - i] < b[|b| - 1 - i] then -1 else 1;
    }
    if |a| != |b| {
      return if |a| < |b| then -1 else 1;
    }
    assert ra[..i] == ra && rb[..i] == rb;
    RevRev(a);
    RevRev(b);
    LessIrreflexive(ra);
    return 0;
  }

  /** What lies between a key and one of its extensions is an extension too. */
  lemma {:induction false} BetweenExtends(a: Key, b: Key, c: Key)
    requires a < c && Less(a, b) && (b == c || Less(b, c))
    ensures a < b
  {
    if a != [] {
      assert a[0] == c[0] && a[1..] < c[1..];
      if b[0] == a[0] {
        BetweenExtends(a[1..], b[1..], c[1..]);
        assert a == [a[0]] + a[1..] && b == [b[0]] + b[1..];
      }
    }
  }

  /** Tail i of the list does not end another tail of the list. */
  ghost predicate IsMaximal(d: seq<Key>, i: nat)
    requires i < |d|
  {
    forall m :: 0 <= m < |d| ==> !IsProperSuffix(d[i], d[m])
  }

  /** The maximal tails from i on, last one first. */
  ghost function PoolFrom(d: seq<Key>, i: nat): Key
    requires i <= |d|
    decreases |d| - i
  {
    if i == |d| then [] else PoolFrom(d, i + 1) + (if IsMaximal(d, i) then d[i] else [])
  }

  /** The first maximal tail from i on. */
  ghost function NextMaximal(d: seq<Key>, i: nat): (p: nat)
    requires i <= |d|
    ensures i <= p <= |d| && (p < |d| ==> IsMaximal(d, p))
    ensures forall j :: i <= j < p ==> !IsMaximal(d, j)
    decreases |d| - i
  {
    if i == |d| || IsMaximal(d, i) then i else NextMaximal(d, i + 1)
  }

  /** A tail that ends another tail ends one that sorts after it. */
  lemma LongerComesLater(d: seq<Key>, i: nat, m: nat)
    requires RevAscend(d) && i < |d| && m < |d| && IsProperSuffix(d[i], d[m])
    ensures i < m
  {
    SuffixReversed(d[i], d[m]);
    ProperPrefixLess(Rev(d[i]), Rev(d[m]));
    LessAsymmetric(Rev(d[i]), Rev(d[m]));
    LessIrreflexive(Rev(d[i]));
  }

  lemma ProperPrefixLess(a: Key, b: Key)
    requires a < b
    ensures Less(a, b)
  {
    assert a[..|a|] == b[..|a|];
    LessAt(a, b, |a|);
  }

  /** So it ends its neighbour, and the next maximal tail. */
  lemma {:induction false} EndsNextMaximal(d: seq<Key>, i: nat)
    requires RevAscend(d) && i < |d|
    ensures NextMaximal(d, i) < |d|
    ensures d[i] == d[NextMaximal(d, i)] || IsProperSuffix(d[i], d[NextMaximal(d, i)])
    decreases |d| - i
  {
    hide IsProperSuffix, Less;
    if !IsMaximal(d, i) {
      var m :| 0 <= m < |d| && IsProperSuffix(d[i], d[m]);
      LongerComesLater(d, i, m);
      SuffixReversed(d[i], d[m]);
      assert RevLess(d[i], d[i + 1]) && (i + 1 == m || RevLess(d[i + 1], d[m]));
      BetweenExtends(Rev(d[i]), Rev(d[i + 1]), Rev(d[m]));
      EndsNextMaximal(d, i + 1);
      var p := NextMaximal(d, i + 1);
      SuffixReversed(d[i + 1], d[p]);
      SuffixReversed(d[i], d[p]);
    }
  }

  /** Comparing with the most recently emitted tail alone decides whether any tail contains this one. */
  lemma OneComparison(d: seq<Key>, i: nat)
    requires RevAscend(d) && i < |d|
    ensures var p := NextMaximal(d, i + 1);
            (p < |d| && IsProperSuffix(d[i], d[p])) <==> !IsMaximal(d, i)
  {
    if !IsMaximal(d, i) {
      EndsNextMaximal(d, i);
      assert NextMaximal(d, i) == NextMaximal(d, i + 1);
      assert IsMaximal(d, NextMaximal(d, i));
    }
  }

  /** A tail's place in the pool. */
  datatype TailRef = TailRef(offset: nat, length: nat)

  ghost predicate Slices(pool: Key, r: TailRef, t: Key) {
    r.length == |t| && r.offset + r.length <= |pool| && pool[r.offset..r.offset + r.length] == t
  }

  /** Bytes of the tails from i on. */
  function TotalFrom(d: seq<Key>, i: nat): nat
    requires i <= |d|
    decreases |d| - i
  {
    if i == |d| then 0 else |d[i]| + TotalFrom(d, i + 1)
  }

  method Capacity(d: seq<Key>) returns (cap: nat)
    ensures cap == TotalFrom(d, 0)
  {
    cap := 0;
    var i := 0;
    while i < |d|
      invariant 0 <= i <= |d| && cap + TotalFrom(d, i) == TotalFrom(d, 0)
    {
      cap := cap + |d[i]|;
      i := i + 1;
    }
  }

  /** Walks the distinct tails from last to first: a tail that ends the most recently emitted one
      costs no bytes. */
  method EmitPool(d: seq<Key>) returns (pool: Key, refs: seq<TailRef>)
    requires RevAscend(d)
    ensures pool == PoolFrom(d, 0)
    ensures |refs| == |d| && forall i :: 0 <= i < |d| ==> Slices(pool, refs[i], d[i])
  {
    hide IsProperSuffix, PoolFrom, NextMaximal, RevAscend, IsMaximal, TotalFrom, Slices;
    var cap := Capacity(d);
    var buf: array<byte>, len: nat := new byte[cap], 0;
    refs := seq(|d|, _ => TailRef(0, 0));
    var prev, i := |d|, |d|;
    NothingPooled(d);
    while i > 0
      invariant 0 <= i <= |d| && |refs| == |d|
      invariant len <= TotalFrom(d, i) <= cap == buf.Length
      invariant buf[..len] == PoolFrom(d, i) && prev == NextMaximal(d, i)
      invariant forall j :: i <= j < |d| ==> Slices(buf[..len], refs[j], d[j])
    {
      i := i - 1;
      OneComparison(d, i);
      PoolStep(d, i);
      TotalStep(d, i);
      if prev < |d| && IsProperSuffix(d[i], d[prev]) {
        SliceRoom(buf[..len], refs[prev], d[prev]);
        InsideSlice(buf[..len], refs[prev], d[prev], d[i]);
        refs := refs[i := TailRef(refs[prev].offset + refs[prev].length - |d[i]|, |d[i]|)];
      } else {
        ghost var before := buf[..len];
        CopyInto(buf, len, d[i]);
        SlicesKept(before, d, i, refs);
        refs := refs[i := TailRef(len, |d[i]|)];
        len := len + |d[i]|;
        prev := i;
      }
    }
    pool := buf[..len];
  }

  lemma TotalStep(d: seq<Key>, i: nat)
    requires i < |d|
    ensures TotalFrom(d, i) == |d[i]| + TotalFrom(d, i + 1)
    ensures TotalFrom(d, i) <= TotalFrom(d, 0)
  {
    TotalMonotone(d, 0, i);
  }

  lemma {:induction false} TotalMonotone(d: seq<Key>, i: nat, j: nat)
    requires i <= j <= |d|
    ensures TotalFrom(d, j) <= TotalFrom(d, i)
    decreases j - i
  {
    if i < j {
      TotalMonotone(d, i + 1, j);
    }
  }

  lemma SliceRoom(pool: Key, r: TailRef, t: Key)
    requires Slices(pool, r, t)
    ensures r.length == |t| && r.offset + |t| <= |pool|
  {
  }

  /** Emitting tail i keeps the earlier slices and adds its own. */
  lemma SlicesKept(pool: Key, d: seq<Key>, i: nat, refs: seq<TailRef>)
    requires i < |d| == |refs| && forall j :: i < j < |d| ==> Slices(pool, refs[j], d[j])
    ensures forall j :: i < j < |d| ==> Slices(pool + d[i], refs[j], d[j])
    ensures Slices(pool + d[i], TailRef(|pool|, |d[i]|), d[i])
  {
    forall j | i < j < |d| ensures Slices(pool + d[i], refs[j], d[j]) {
      assert (pool + d[i])[refs[j].offset..refs[j].offset + refs[j].length] == pool[refs[j].offset..refs[j].offset + refs[j].length];
    }
  }

  lemma NothingPooled(d: seq<Key>)
    ensures PoolFrom(d, |d|) == [] && NextMaximal(d, |d|) == |d| && TotalFrom(d, |d|) == 0
  {
  }

  lemma PoolStep(d: seq<Key>, i: nat)
    requires i < |d|
    ensures PoolFrom(d, i) == if IsMaximal(d, i) then PoolFrom(d, i + 1) + d[i] else PoolFrom(d, i + 1)
    ensures NextMaximal(d, i) == if IsMaximal(d, i) then i else NextMaximal(d, i + 1)
  {
  }

  lemma InsideSlice(pool: Key, r: TailRef, t: Key, s: Key)
    requires Slices(pool, r, t) && IsProperSuffix(s, t)
    ensures r.offset + r.length >= |s| && Slices(pool, TailRef(r.offset + r.length - |s|, |s|), s)
  {
    assert t[|t| - |s|..] == pool[r.offset + r.length - |s|..r.offset + r.length];
  }

  /** The distinct tails of a set, ascending from the last byte. */
  ghost function RevSorted(ts: set<Key>): (d: seq<Key>)
    ensures RevAscend(d) && forall t :: t in d <==> t in ts
  {
    var ks := SortedKeys(set t | t in ts :: Rev(t));
    var d := seq(|ks|, i requires 0 <= i < |ks| => Rev(ks[i]));
    RevSortedHolds(ts, ks, d);
    d
  }

  lemma RevSortedHolds(ts: set<Key>, ks: seq<Key>, d: seq<Key>)
    requires KeysAscend(ks) && (forall k :: k in ks <==> k in set t | t in ts :: Rev(t))
    requires |d| == |ks| && forall i :: 0 <= i < |d| ==> d[i] == Rev(ks[i])
    ensures RevAscend(d) && forall t :: t in d <==> t in ts
  {
    hide Less, Rev;
    forall i | 0 <= i < |d| ensures Rev(d[i]) == ks[i] {
      RevRev(ks[i]);
    }
    forall t: Key ensures t in d <==> t in ts {
      RevRev(t);
      if t in ts {
        assert Rev(t) in ks;
        var i :| 0 <= i < |ks| && ks[i] == Rev(t);
        assert d[i] == t;
      }
      if t in d {
        var i :| 0 <= i < |d| && d[i] == t;
        assert ks[i] in ks;
        var u :| u in ts && Rev(u) == ks[i];
        RevRev(u);
      }
    }
  }

  lemma RevAscendUnique(d: seq<Key>, ts: set<Key>)
    requires RevAscend(d) && forall t :: t in d <==> t in ts
    ensures d == RevSorted(ts)
  {
    hide Less, Rev;
    var e := RevSorted(ts);
    var rd, re := seq(|d|, i requires 0 <= i < |d| => Rev(d[i])), seq(|e|, i requires 0 <= i < |e| => Rev(e[i]));
    forall k: Key ensures k in rd <==> k in re {
      if k in rd {
        var i :| 0 <= i < |rd| && rd[i] == k;
        assert d[i] in e;
        var j :| 0 <= j < |e| && e[j] == d[i];
        assert re[j] == k;
      }
      if k in re {
        var i :| 0 <= i < |re| && re[i] == k;
        assert e[i] in d;
        var j :| 0 <= j < |d| && d[j] == e[i];
        assert rd[j] == k;
      }
    }
    AscendingUnique(rd, re);
    forall i | 0 <= i < |d| ensures d[i] == e[i] {
      assert rd[i] == re[i];
      RevRev(d[i]);
      RevRev(e[i]);
    }
  }

  /** The pool of a set of tails: its maximal tails, in descending order from the last byte. */
  ghost function PoolOf(ts: set<Key>): Key {
    PoolFrom(RevSorted(ts), 0)
  }

  /** Entry x of the caller's array sorts before entry y; equal tails by position. */
  ghost predicate SortsBefore(tails: seq<Key>, x: nat, y: nat)
    requires x < |tails| && y < |tails|
  {
    RevLess(tails[x], tails[y]) || (tails[x] == tails[y] && x < y)
  }

  /** The order a sort puts the entries in: the comparison is total, so there is only one. */
  ghost predicate SortOrder(tails: seq<Key>, order: seq<nat>) {
    && |order| == |tails| && (forall i :: 0 <= i < |order| ==> order[i] < |tails|)
    && (forall x :: 0 <= x < |tails| ==> x in order)
    && (forall i, j :: 0 <= i < j < |order| ==> SortsBefore(tails, order[i], order[j]))
  }

  /** The comparison the sort uses: equal tails by input position. */
  method CmpEntry(tails: seq<Key>, x: nat, y: nat) returns (cmp: int)
    requires x < |tails| && y < |tails|
    ensures cmp < 0 <==> SortsBefore(tails, x, y)
    ensures cmp == 0 <==> x == y
    ensures cmp > 0 <==> SortsBefore(tails, y, x)
  {
    hide Less, Rev;
    LessIrreflexive(Rev(tails[x]));
    cmp := CmpReversed(tails[x], tails[y]);
    if cmp == 0 {
      cmp := if x < y then -1 else if x > y then 1 else 0;
    }
  }

  lemma SortsOneWay(tails: seq<Key>, x: nat, y: nat)
    requires x < |tails| && y < |tails|
    ensures !(SortsBefore(tails, x, y) && SortsBefore(tails, y, x))
  {
    hide Less, Rev;
    LessIrreflexive(Rev(tails[x]));
    LessAsymmetric(Rev(tails[x]), Rev(tails[y]));
  }

  lemma {:induction false} SameOrder(tails: seq<Key>, a: seq<nat>, b: seq<nat>, k: nat)
    requires SortOrder(tails, a) && SortOrder(tails, b) && k <= |tails|
    ensures forall j :: 0 <= j < k ==> a[j] == b[j]
  {
    hide SortsBefore;
    if k > 0 {
      SameOrder(tails, a, b, k - 1);
      var x, y := a[k - 1], b[k - 1];
      assert y in a && x in b;
      var i :| 0 <= i < |a| && a[i] == y;
      var j :| 0 <= j < |b| && b[j] == x;
      SortsOneWay(tails, x, y);
      SortsOneWay(tails, x, x);
      SortsOneWay(tails, y, y);
    }
  }

  /** There is one sorted order only, so nothing depends on whether the sort is stable. */
  lemma OneOrder(tails: seq<Key>, a: seq<nat>, b: seq<nat>)
    requires SortOrder(tails, a) && SortOrder(tails, b)
    ensures a == b
  {
    hide SortsBefore;
    SameOrder(tails, a, b, |tails|);
  }

  /** Equal tails are neighbours in sorted order: one pass finds the distinct ones, and which of
      them each entry is. */
  method Distinct(tails: seq<Key>, order: seq<nat>) returns (d: seq<Key>, distinctOf: seq<nat>)
    requires SortOrder(tails, order)
    ensures RevAscend(d) && forall t :: t in d <==> t in tails
    ensures |distinctOf| == |tails|
    ensures forall i :: 0 <= i < |tails| ==> distinctOf[i] < |d| && d[distinctOf[i]] == tails[order[i]]
  {
    hide RevLess;
    d, distinctOf := [], [];
    var i := 0;
    while i < |tails|
      invariant 0 <= i <= |tails| == |order| && |distinctOf| == i && RevAscend(d) && (i == 0 ==> d == [])
      invariant i > 0 ==> d != [] && d[|d| - 1] == tails[order[i - 1]]
      invariant forall t :: t in d ==> exists j :: 0 <= j < i && tails[order[j]] == t
      invariant forall j :: 0 <= j < i ==> distinctOf[j] < |d| && d[distinctOf[j]] == tails[order[j]]
    {
      var t := tails[order[i]];
      if i > 0 && t == tails[order[i - 1]] {
        distinctOf := distinctOf + [|d| - 1];
      } else {
        AboveAll(tails, order, d, i);
        d := d + [t];
        distinctOf := distinctOf + [|d| - 1];
      }
      i := i + 1;
    }
    AllFound(tails, order, d, distinctOf);
  }

  lemma AboveAll(tails: seq<Key>, order: seq<nat>, d: seq<Key>, i: nat)
    requires SortOrder(tails, order) && i < |order| && RevAscend(d)
    requires i > 0 ==> d != [] && d[|d| - 1] == tails[order[i - 1]] && tails[order[i]] != tails[order[i - 1]]
    requires i == 0 ==> d == []
    ensures RevAscend(d + [tails[order[i]]])
  {
    hide Less;
    var t := tails[order[i]];
    if i > 0 {
      assert SortsBefore(tails, order[i - 1], order[i]);
      forall k | 0 <= k < |d| ensures RevLess(d[k], t) {
        if k < |d| - 1 {
          LessTransitive(Rev(d[k]), Rev(d[|d| - 1]), Rev(t));
        }
      }
    }
  }

  lemma AllFound(tails: seq<Key>, order: seq<nat>, d: seq<Key>, distinctOf: seq<nat>)
    requires SortOrder(tails, order) && |distinctOf| == |tails|
    requires forall t :: t in d ==> exists j :: 0 <= j < |tails| && tails[order[j]] == t
    requires forall i :: 0 <= i < |tails| ==> distinctOf[i] < |d| && d[distinctOf[i]] == tails[order[i]]
    ensures forall t :: t in d <==> t in tails
  {
    forall t: Key ensures t in d <==> t in tails {
      if t in tails {
        var x :| 0 <= x < |tails| && tails[x] == t;
        assert x in order;
        var i :| 0 <= i < |order| && order[i] == x;
        assert d[distinctOf[i]] == t;
      }
      if t in d {
        var j :| 0 <= j < |tails| && tails[order[j]] == t;
      }
    }
  }

  /** The whole build: the pool depends on the set of tails only, and every tail is found at its
      own reference. */
  method BuildTailPool(tails: seq<Key>, order: seq<nat>) returns (pool: Key, refs: seq<TailRef>, distinct: nat)
    requires SortOrder(tails, order)
    ensures pool == PoolOf(set t | t in tails) && distinct == |RevSorted(set t | t in tails)|
    ensures |refs| == |tails| && forall x :: 0 <= x < |tails| ==> Slices(pool, refs[x], tails[x])
  {
    hide RevLess, RevAscend, PoolFrom, Slices;
    var d, distinctOf := Distinct(tails, order);
    RevAscendUnique(d, set t | t in tails);
    var placed;
    pool, placed := EmitPool(d);
    distinct := |d|;
    refs := seq(|tails|, _ => TailRef(0, 0));
    var i := 0;
    while i < |tails|
      invariant 0 <= i <= |tails| == |order| && |refs| == |tails|
      invariant forall j :: 0 <= j < i ==> Slices(pool, refs[order[j]], tails[order[j]])
    {
      refs := refs[order[i] := placed[distinctOf[i]]];
      i := i + 1;
    }
    forall x | 0 <= x < |tails| ensures Slices(pool, refs[x], tails[x]) {
      assert x in order;
    }
  }
}
