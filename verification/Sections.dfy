/** The sections a numbered trie is written to: degree bits, key bits, tail bits, labels, tails
    and values. */
module Sections {
  import opened Bits
  import opened BitStream
  import opened Keys
  import opened Louds
  import opened RadixTrie
  import opened BreadthOrder
  import opened RankedBits
  import opened Tails
  import opened Leb128
  import opened ValueStore

  /** Which nodes hold a key. */
  ghost function KeyFlags(nodes: seq<Node>, order: seq<nat>): (s: seq<bool>)
    requires InRange(nodes, order)
    ensures |s| == |order|
  {
    seq(|order|, v requires 0 <= v < |order| => nodes[order[v]].terminal)
  }

  /** Which nodes but the root have more than one byte on their edge. */
  ghost function TailFlags(nodes: seq<Node>, order: seq<nat>): (s: seq<bool>)
    requires InRange(nodes, order) && order != []
    ensures |s| == |order| - 1
  {
    seq(|order| - 1, v requires 0 <= v < |order| - 1 => nodes[order[v + 1]].tail != [])
  }

  ghost function Labels(nodes: seq<Node>, order: seq<nat>): (s: seq<byte>)
    requires InRange(nodes, order) && order != []
    ensures |s| == |order| - 1
  {
    seq(|order| - 1, v requires 0 <= v < |order| - 1 => nodes[order[v + 1]].edge)
  }

  /** The values of the nodes that hold a key, in the order of the numbers. */
  ghost function ValuesOf(nodes: seq<Node>, order: seq<nat>, j: nat): (vs: seq<word>)
    requires InRange(nodes, order) && j <= |order|
    ensures |vs| == RankOf(KeyFlags(nodes, order), j, true)
  {
    if j == 0 then [] else
      var x := nodes[order[j - 1]];
      ValuesOf(nodes, order, j - 1) + (if x.terminal then [x.value] else [])
  }

  lemma {:induction false} ValuesGrow(nodes: seq<Node>, order: seq<nat>, i: nat, j: nat)
    requires InRange(nodes, order) && i <= j <= |order|
    ensures ValuesOf(nodes, order, i) <= ValuesOf(nodes, order, j)
  {
    if i < j {
      ValuesGrow(nodes, order, i, j - 1);
    }
  }

  /** A node's rank among the key bits is the place of its value. */
  lemma ValueByRank(nodes: seq<Node>, order: seq<nat>, v: nat)
    requires InRange(nodes, order) && v < |order| && nodes[order[v]].terminal
    ensures var k, vs := RankOf(KeyFlags(nodes, order), v, true), ValuesOf(nodes, order, |order|);
            k < |vs| && vs[k] == nodes[order[v]].value
  {
    ValuesGrow(nodes, order, v + 1, |order|);
    var next := ValuesOf(nodes, order, v + 1);
    assert next == ValuesOf(nodes, order, v) + [nodes[order[v]].value];
  }

  datatype Sections = Sections(louds: seq<bool>, terminals: seq<bool>, values: seq<byte>, offsets: seq<nat>,
                               labels: seq<byte>, tailFlags: seq<bool>, tails: seq<Key>)

  /** What the first j nodes have written about themselves. */
  ghost predicate NodesWritten(nodes: seq<Node>, order: seq<nat>, j: nat, s: Sections) {
    && InRange(nodes, order) && j <= |order|
    && s.louds == LoudsBits(Degs(nodes, order)[..j])
    && s.terminals == KeyFlags(nodes, order)[..j]
    && s.values == Encoded(ValuesOf(nodes, order, j))
    && |s.offsets| == |ValuesOf(nodes, order, j)|
    && forall k :: 0 <= k < |s.offsets| ==> s.offsets[k] == Offset(ValuesOf(nodes, order, j), k)
  }

  /** What they have written about the edges into them; the root has none. */
  ghost predicate EdgesWritten(nodes: seq<Node>, order: seq<nat>, j: nat, s: Sections) {
    && InRange(nodes, order) && order != [] && j <= |order|
    && s.labels == Labels(nodes, order)[..if j == 0 then 0 else j - 1]
    && s.tailFlags == TailFlags(nodes, order)[..if j == 0 then 0 else j - 1]
    && forall v :: 0 < v < j && nodes[order[v]].tail != [] ==> nodes[order[v]].tail in s.tails
  }

  method WriteNode(nodes: seq<Node>, order: seq<nat>, j: nat, s: Sections) returns (s': Sections)
    requires NodesWritten(nodes, order, j, s) && j < |order|
    ensures NodesWritten(nodes, order, j + 1, s')
    ensures s'.labels == s.labels && s'.tailFlags == s.tailFlags && s'.tails == s.tails
  {
    hide LoudsBits, Encoded, Offset;
    var x := nodes[order[j]];
    var louds, k := s.louds, 0;
    while k < |x.kids|
      invariant 0 <= k <= |x.kids| && louds == s.louds + Ones(k)
    {
      louds := louds + [true];
      k := k + 1;
    }
    louds := louds + [false];
    LastStretch(Degs(nodes, order), j);
    s' := s.(louds := louds, terminals := s.terminals + [x.terminal]);
    assert KeyFlags(nodes, order)[..j + 1] == KeyFlags(nodes, order)[..j] + [x.terminal];
    NextValue(nodes, order, j);
    if x.terminal {
      var values := LebWrite(s.values, x.value);
      ValueAdded(ValuesOf(nodes, order, j), x.value);
      s' := s'.(offsets := s.offsets + [|s.values|], values := values);
    }
  }

  lemma NextValue(nodes: seq<Node>, order: seq<nat>, j: nat)
    requires InRange(nodes, order) && j < |order|
    ensures var x, vs := nodes[order[j]], ValuesOf(nodes, order, j);
            ValuesOf(nodes, order, j + 1) == if x.terminal then vs + [x.value] else vs
  {
  }

  lemma ValueAdded(vs: seq<word>, v: word)
    ensures Encoded(vs + [v]) == Encoded(vs) + Leb(v)
    ensures Offset(vs + [v], |vs|) == |Encoded(vs)|
    ensures forall k :: 0 <= k < |vs| ==> Offset(vs + [v], k) == Offset(vs, k)
  {
    assert (vs + [v])[..|vs|] == vs;
    forall k | 0 <= k < |vs| ensures Offset(vs + [v], k) == Offset(vs, k) {
      assert (vs + [v])[..k] == vs[..k];
    }
  }

  method WriteEdge(nodes: seq<Node>, order: seq<nat>, j: nat, s: Sections) returns (s': Sections)
    requires EdgesWritten(nodes, order, j, s) && j < |order|
    ensures EdgesWritten(nodes, order, j + 1, s')
    ensures s' == s.(labels := s'.labels, tailFlags := s'.tailFlags, tails := s'.tails)
  {
    s' := s;
    if j > 0 {
      var x := nodes[order[j]];
      s' := s'.(labels := s.labels + [x.edge], tailFlags := s.tailFlags + [x.tail != []]);
      if x.tail != [] {
        s' := s'.(tails := s.tails + [x.tail]);
      }
    }
  }

  /** One pass over the numbered nodes writes every section. */
  method WriteSections(nodes: seq<Node>, order: seq<nat>) returns (s: Sections)
    requires InRange(nodes, order) && order != []
    ensures NodesWritten(nodes, order, |order|, s) && EdgesWritten(nodes, order, |order|, s)
  {
    hide NodesWritten, EdgesWritten;
    s := Sections([], [], [], [], [], [], []);
    NothingWritten(nodes, order, s);
    var i := 0;
    while i < |order|
      invariant 0 <= i <= |order| && NodesWritten(nodes, order, i, s) && EdgesWritten(nodes, order, i, s)
    {
      var written := WriteNode(nodes, order, i, s);
      EdgesSame(nodes, order, i, s, written);
      s := WriteEdge(nodes, order, i, written);
      NodesSame(nodes, order, i + 1, written, s);
      i := i + 1;
    }
  }

  lemma NothingWritten(nodes: seq<Node>, order: seq<nat>, s: Sections)
    requires InRange(nodes, order) && order != [] && s == Sections([], [], [], [], [], [], [])
    ensures NodesWritten(nodes, order, 0, s) && EdgesWritten(nodes, order, 0, s)
  {
  }

  lemma EdgesSame(nodes: seq<Node>, order: seq<nat>, j: nat, s: Sections, s': Sections)
    requires EdgesWritten(nodes, order, j, s)
    requires s'.labels == s.labels && s'.tailFlags == s.tailFlags && s'.tails == s.tails
    ensures EdgesWritten(nodes, order, j, s')
  {
  }

  lemma NodesSame(nodes: seq<Node>, order: seq<nat>, j: nat, s: Sections, s': Sections)
    requires NodesWritten(nodes, order, j, s)
    requires s' == s.(labels := s'.labels, tailFlags := s'.tailFlags, tails := s'.tails)
    ensures NodesWritten(nodes, order, j, s')
  {
  }

  /** Pushes the bits one by one into a growing buffer, then builds the rank index. */
  method Freeze(bits: seq<bool>) returns (bv: RankedBits)
    ensures bv.Valid() && bv.Contents() == bits && fresh(bv) && fresh(bv.super) && fresh(bv.block)
  {
    hide Unpack;
    var w := new BitWriter(512, 0);
    var i := 0;
    while i < |bits|
      invariant 0 <= i <= |bits| && fresh(w) && fresh(w.buf) && w.Valid() && w.Contents() == bits[..i]
    {
      w.EnsureCapacity(1);
      w.PutBit(bits[i]);
      i := i + 1;
    }
    bv := new RankedBits(w.buf[..], w.pos);
  }

  predicate NotAfter(a: Key, b: Key) {
    a == b || RevLess(a, b)
  }

  /** Not descending from the last byte. */
  ghost predicate RevSorts(ts: seq<Key>) {
    forall i, j :: 0 <= i < j < |ts| ==> NotAfter(ts[i], ts[j])
  }

  ghost predicate RevSortedCopy(tails: seq<Key>, sorted: seq<Key>) {
    multiset(sorted) == multiset(tails) && RevSorts(sorted)
  }

  /** A stand-in for the library's sort: all that is used of it is that it returns a sorted permutation. */
  method SortTails(tails: seq<Key>) returns (sorted: seq<Key>)
    ensures RevSortedCopy(tails, sorted)
  {
    hide NotAfter;
    sorted := [];
    var i := 0;
    while i < |tails|
      invariant 0 <= i <= |tails| && RevSortedCopy(tails[..i], sorted)
    {
      assert tails[..i + 1] == tails[..i] + [tails[i]];
      sorted := InsertTail(sorted, tails[i]);
      i := i + 1;
    }
    assert tails[..i] == tails;
  }

  method InsertTail(sorted: seq<Key>, t: Key) returns (r: seq<Key>)
    requires RevSorts(sorted)
    ensures RevSortedCopy(sorted + [t], r)
  {
    hide RevLess, RevSorts, RevSortedCopy;
    var k := |sorted|;
    while k > 0
      invariant 0 <= k <= |sorted| && forall j :: k <= j < |sorted| ==> NotAfter(t, sorted[j])
    {
      var c := CmpReversed(sorted[k - 1], t);
      if c <= 0 {
        break;
      }
      k := k - 1;
    }
    r := sorted[..k] + [t] + sorted[k..];
    InsertedCopy(sorted, t, k);
  }

  lemma InsertedCopy(sorted: seq<Key>, t: Key, k: nat)
    requires RevSorts(sorted) && k <= |sorted| && (k > 0 ==> NotAfter(sorted[k - 1], t))
    requires forall j :: k <= j < |sorted| ==> NotAfter(t, sorted[j])
    ensures RevSortedCopy(sorted + [t], sorted[..k] + [t] + sorted[k..])
  {
    hide NotAfter;
    forall j | 0 <= j < k ensures NotAfter(sorted[j], t) {
      if j < k - 1 {
        NotAfterTransitive(sorted[j], sorted[k - 1], t);
      }
    }
    InsertedSorts(sorted, t, k);
    SameTails(sorted, t, k);
  }

  lemma SameTails(sorted: seq<Key>, t: Key, k: nat)
    requires k <= |sorted|
    ensures multiset(sorted[..k] + [t] + sorted[k..]) == multiset(sorted + [t])
  {
    assert sorted == sorted[..k] + sorted[k..];
  }

  lemma InsertedSorts(sorted: seq<Key>, t: Key, k: nat)
    requires RevSorts(sorted) && k <= |sorted|
    requires forall j :: k <= j < |sorted| ==> NotAfter(t, sorted[j])
    requires forall j :: 0 <= j < k ==> NotAfter(sorted[j], t)
    ensures RevSorts(sorted[..k] + [t] + sorted[k..])
  {
    hide NotAfter;
  }

  lemma NotAfterTransitive(a: Key, b: Key, c: Key)
    ensures NotAfter(a, b) && NotAfter(b, c) ==> NotAfter(a, c)
  {
    if RevLess(a, b) && RevLess(b, c) {
      LessTransitive(Rev(a), Rev(b), Rev(c));
    }
  }

  method DropDuplicates(sorted: seq<Key>) returns (d: seq<Key>)
    requires RevSorts(sorted)
    ensures RevAscend(d) && forall t :: t in d <==> t in sorted
  {
    hide RevLess;
    d := [];
    var i := 0;
    while i < |sorted|
      invariant 0 <= i <= |sorted| && RevAscend(d) && forall t :: t in d <==> t in sorted[..i]
      invariant i == 0 ==> d == []
      invariant i > 0 ==> d != [] && d[|d| - 1] == sorted[i - 1]
    {
      assert sorted[..i + 1] == sorted[..i] + [sorted[i]];
      if i == 0 || sorted[i] != sorted[i - 1] {
        Above(sorted, d, i);
        d := d + [sorted[i]];
      }
      i := i + 1;
    }
    assert sorted[..i] == sorted;
  }

  lemma Above(sorted: seq<Key>, d: seq<Key>, i: nat)
    requires RevSorts(sorted) && i < |sorted| && RevAscend(d)
    requires i == 0 ==> d == []
    requires i > 0 ==> d != [] && d[|d| - 1] == sorted[i - 1] && sorted[i] != sorted[i - 1]
    ensures RevAscend(d + [sorted[i]])
  {
    hide Less;
    assert i > 0 ==> NotAfter(sorted[i - 1], sorted[i]);
    forall k | 0 <= k < |d| ensures RevLess(d[k], sorted[i]) {
      if k < |d| - 1 {
        LessTransitive(Rev(d[k]), Rev(d[|d| - 1]), Rev(sorted[i]));
      }
    }
  }

  /** Binary search for a tail among the distinct ones. */
  method FindTail(d: seq<Key>, probe: Key) returns (lo: nat)
    requires RevAscend(d) && probe in d
    ensures lo < |d| && d[lo] == probe
  {
    hide RevLess;
    lo := 0;
    var hi := |d|;
    ghost var at: nat :| at < |d| && d[at] == probe;
    while lo < hi
      invariant 0 <= lo <= at <= hi <= |d|
    {
      var mid := lo + (hi - lo) / 2;
      var c := CmpReversed(d[mid], probe);
      Compared(d, mid, at);
      if c < 0 {
        lo := mid + 1;
      } else {
        hi := mid;
      }
    }
  }

  lemma Compared(d: seq<Key>, mid: nat, at: nat)
    requires RevAscend(d) && mid < |d| && at < |d|
    ensures RevLess(d[mid], d[at]) <==> mid < at
  {
    if at < mid {
      LessAsymmetric(Rev(d[mid]), Rev(d[at]));
    } else {
      LessIrreflexive(Rev(d[at]));
    }
  }

  const NO_TAIL: nat := 0xFFFF_FFFF

  /** Every node with a tail refers to it in the pool. */
  ghost predicate TailsPlaced(nodes: seq<Node>, order: seq<nat>, pool: Key, refs: seq<TailRef>, tailOf: seq<nat>, j: nat) {
    && InRange(nodes, order) && j <= |order| == |tailOf|
    && forall v :: 0 < v < j && nodes[order[v]].tail != [] ==>
         tailOf[v] < |refs| && Slices(pool, refs[tailOf[v]], nodes[order[v]].tail)
  }

  method PlaceTails(nodes: seq<Node>, order: seq<nat>, s: Sections) returns (pool: Key, refs: seq<TailRef>, tailOf: seq<nat>)
    requires EdgesWritten(nodes, order, |order|, s)
    ensures TailsPlaced(nodes, order, pool, refs, tailOf, |order|)
  {
    hide RevLess, RevAscend, PoolFrom, Slices;
    var sorted := SortTails(s.tails);
    var d := DropDuplicates(sorted);
    SortedMembers(s.tails, sorted);
    pool, refs := EmitPool(d);
    tailOf := seq(|order|, _ => NO_TAIL);
    var v := 1;
    while v < |order|
      invariant 1 <= v <= |order| && TailsPlaced(nodes, order, pool, refs, tailOf, v)
    {
      if s.tailFlags[v - 1] {
        var at := FindTail(d, nodes[order[v]].tail);
        tailOf := tailOf[v := at];
      }
      v := v + 1;
    }
  }

  lemma SortedMembers(tails: seq<Key>, sorted: seq<Key>)
    requires multiset(sorted) == multiset(tails)
    ensures forall t :: t in tails <==> t in sorted
  {
    forall t ensures t in tails <==> t in sorted {
      assert t in tails <==> t in multiset(tails);
      assert t in sorted <==> t in multiset(sorted);
    }
  }
}
