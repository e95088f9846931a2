/** Level-order unary degree sequences: an ordered tree as bits, and navigation over them. */
module Louds {
  import opened RankedBits

  /** The first v degrees added up. */
  function Sum(d: seq<nat>, v: nat): nat
    requires v <= |d|
  {
    if v == 0 then 0 else Sum(d, v - 1) + d[v - 1]
  }

  function Ones(n: nat): (s: seq<bool>)
    ensures |s| == n
  {
    seq(n, _ => true)
  }

  /** Every node writes one 1 a child and then a 0. */
  function LoudsBits(d: seq<nat>): (s: seq<bool>)
    ensures |s| == Sum(d, |d|) + |d|
  {
    if d == [] then [] else
      var front := d[..|d| - 1];
      SumPrefix(d, |d| - 1, |d| - 1);
      LoudsBits(front) + Ones(d[|d| - 1]) + [false]
  }

  lemma {:induction false} SumPrefix(d: seq<nat>, n: nat, v: nat)
    requires v <= n <= |d|
    ensures Sum(d[..n], v) == Sum(d, v)
  {
    if v > 0 {
      SumPrefix(d, n, v - 1);
    }
  }

  lemma {:induction false} SumMonotone(d: seq<nat>, u: nat, v: nat)
    requires u <= v <= |d|
    ensures Sum(d, u) <= Sum(d, v)
    ensures u < v ==> Sum(d, u) + d[u] <= Sum(d, v)
  {
    if u < v {
      SumMonotone(d, u, v - 1);
    }
  }

  /** Where node v's run of 1s starts. */
  function Begin(d: seq<nat>, v: nat): nat
    requires v <= |d|
  {
    Sum(d, v) + v
  }

  lemma {:induction false} PrefixBits(d: seq<nat>, v: nat)
    requires v <= |d|
    ensures Begin(d, v) <= |LoudsBits(d)| && LoudsBits(d[..v]) == LoudsBits(d)[..Begin(d, v)]
    decreases |d|
  {
    if v == |d| {
      assert d[..v] == d;
    } else {
      var front := d[..|d| - 1];
      PrefixBits(front, v);
      SumPrefix(d, |d| - 1, v);
      assert front[..v] == d[..v];
    }
  }

  /** Node v's stretch of bits. */
  lemma NodeStretch(d: seq<nat>, v: nat)
    requires v < |d|
    ensures Begin(d, v + 1) == Begin(d, v) + d[v] + 1 <= |LoudsBits(d)|
    ensures forall i :: Begin(d, v) <= i < Begin(d, v) + d[v] ==> LoudsBits(d)[i]
    ensures !LoudsBits(d)[Begin(d, v) + d[v]]
  {
    hide LoudsBits;
    PrefixBits(d, v);
    PrefixBits(d, v + 1);
    LastStretch(d, v);
    var s := LoudsBits(d)[..Begin(d, v + 1)];
    assert s == LoudsBits(d[..v]) + Ones(d[v]) + [false];
    assert forall i :: 0 <= i < |s| ==> LoudsBits(d)[i] == s[i];
  }

  lemma LastStretch(d: seq<nat>, v: nat)
    requires v < |d|
    ensures LoudsBits(d[..v + 1]) == LoudsBits(d[..v]) + Ones(d[v]) + [false]
  {
    assert d[..v + 1][..v] == d[..v];
  }

  lemma {:induction false} RankRun(s: seq<bool>, i: nat, n: nat)
    requires i + n <= |s| && forall j :: i <= j < i + n ==> s[j]
    ensures RankOf(s, i + n, true) == RankOf(s, i, true) + n
  {
    if n > 0 {
      RankRun(s, i, n - 1);
    }
  }

  /** Before node v's run there is one 1 for every child of an earlier node. */
  lemma {:induction false} RankAtBegin(d: seq<nat>, v: nat)
    requires v <= |d|
    ensures Begin(d, v) <= |LoudsBits(d)| && RankOf(LoudsBits(d), Begin(d, v), true) == Sum(d, v)
    ensures RankOf(LoudsBits(d), Begin(d, v), false) == v
  {
    hide LoudsBits;
    PrefixBits(d, v);
    if v > 0 {
      RankAtBegin(d, v - 1);
      NodeStretch(d, v - 1);
      RankRun(LoudsBits(d), Begin(d, v - 1), d[v - 1]);
    }
    RankBoth(LoudsBits(d), Begin(d, v));
  }

  /** The 0 that ends node v's run is the v-th one. */
  lemma SelectEnd(d: seq<nat>, v: nat)
    requires v < |d|
    ensures IsSelect(LoudsBits(d), v, false, Begin(d, v) + d[v])
  {
    hide LoudsBits;
    NodeStretch(d, v);
    RankAtBegin(d, v);
    RankRun(LoudsBits(d), Begin(d, v), d[v]);
    RankBoth(LoudsBits(d), Begin(d, v) + d[v]);
  }

  lemma RankInRun(d: seq<nat>, v: nat, k: nat)
    requires v < |d| && k <= d[v]
    ensures Begin(d, v) + k <= |LoudsBits(d)| && RankOf(LoudsBits(d), Begin(d, v) + k, true) == Sum(d, v) + k
  {
    hide LoudsBits;
    NodeStretch(d, v);
    RankAtBegin(d, v);
    RankRun(LoudsBits(d), Begin(d, v), k);
  }

  method SelectZero(bv: RankedBits, ghost d: seq<nat>, v: nat) returns (p: nat)
    requires bv.Valid() && bv.Contents() == LoudsBits(d) && v < |d|
    ensures p == Begin(d, v) + d[v]
  {
    hide LoudsBits;
    p := bv.Select(v, false);
    SelectEnd(d, v);
    NodeStretch(d, v);
    RankMonotone(LoudsBits(d), Begin(d, v) + d[v] + 1, |LoudsBits(d)|, false);
    SelectUnique(LoudsBits(d), v, false, p, Begin(d, v) + d[v]);
  }

  method ChildBegin(bv: RankedBits, ghost d: seq<nat>, v: nat) returns (p: nat)
    requires bv.Valid() && bv.Contents() == LoudsBits(d) && v < |d|
    ensures p == Begin(d, v)
  {
    hide LoudsBits;
    if v == 0 {
      return 0;
    }
    var zero := SelectZero(bv, d, v - 1);
    p := zero + 1;
  }

  /** The number of 1s of node v is its degree. */
  method ChildCount(bv: RankedBits, ghost d: seq<nat>, v: nat) returns (n: nat)
    requires bv.Valid() && bv.Contents() == LoudsBits(d) && v < |d|
    ensures n == d[v]
  {
    hide LoudsBits;
    var begin := ChildBegin(bv, d, v);
    var end := SelectZero(bv, d, v);
    n := if end > begin then end - begin else 0;
  }

  /** The number of node v's k-th child. */
  function ChildNumber(d: seq<nat>, v: nat, k: nat): nat
    requires v <= |d|
  {
    Sum(d, v) + k + 1
  }

  method Child(bv: RankedBits, ghost d: seq<nat>, v: nat, k: nat) returns (c: nat)
    requires bv.Valid() && bv.Contents() == LoudsBits(d) && v < |d| && k < d[v]
    ensures c == ChildNumber(d, v, k)
  {
    hide LoudsBits;
    var begin := ChildBegin(bv, d, v);
    RankInRun(d, v, k);
    var ones := bv.Rank1(begin + k);
    c := ones + 1;
  }

  /** An ordered tree. */
  datatype Tree = Tree(kids: seq<Tree>)

  function Size(t: Tree): (n: nat)
    ensures n > 0
  {
    1 + ForestSize(t.kids)
  }

  function ForestSize(ts: seq<Tree>): nat {
    if ts == [] then 0 else Size(ts[0]) + ForestSize(ts[1..])
  }

  lemma {:induction false} ForestConcat(a: seq<Tree>, b: seq<Tree>)
    ensures ForestSize(a + b) == ForestSize(a) + ForestSize(b)
  {
    if a == [] {
      assert a + b == b;
    } else {
      assert (a + b)[1..] == a[1..] + b;
      ForestConcat(a[1..], b);
    }
  }

  lemma QueueShrinks(queue: seq<Tree>)
    requires queue != []
    ensures ForestSize(queue[1..] + queue[0].kids) == ForestSize(queue) - 1
  {
    ForestConcat(queue[1..], queue[0].kids);
  }

  /** The nodes met when the queue is worked off: each is taken from the front, its children go
      to the back. */
  function BreadthFirst(queue: seq<Tree>): (nodes: seq<Tree>)
    decreases ForestSize(queue)
  {
    if queue == [] then [] else
      QueueShrinks(queue);
      [queue[0]] + BreadthFirst(queue[1..] + queue[0].kids)
  }

  function Degrees(nodes: seq<Tree>): (d: seq<nat>)
    ensures |d| == |nodes|
  {
    seq(|nodes|, i requires 0 <= i < |nodes| => |nodes[i].kids|)
  }

  lemma {:induction false} QueueFirst(queue: seq<Tree>)
    ensures queue <= BreadthFirst(queue)
    decreases ForestSize(queue)
  {
    if queue != [] {
      QueueShrinks(queue);
      QueueFirst(queue[1..] + queue[0].kids);
      var rest := BreadthFirst(queue[1..] + queue[0].kids);
      assert queue[1..] <= rest;
      assert queue == [queue[0]] + queue[1..];
    }
  }

  lemma {:induction false} SumShift(d: seq<nat>, x: nat, v: nat)
    requires v <= |d|
    ensures Sum([x] + d, v + 1) == x + Sum(d, v)
  {
    if v > 0 {
      SumShift(d, x, v - 1);
    } else {
      assert Sum([x] + d, 0) == 0;
    }
  }

  /** Behind a queue of q trees, child k of node v comes after the children of the nodes before v. */
  ghost predicate KidPlaced(nodes: seq<Tree>, q: nat, v: nat, k: nat)
    requires v < |nodes| && k < |nodes[v].kids|
  {
    var at := q + Sum(Degrees(nodes), v) + k;
    v < q + Sum(Degrees(nodes), v) && at < |nodes| && nodes[at] == nodes[v].kids[k]
  }

  ghost predicate Numbered(nodes: seq<Tree>, q: nat) {
    && |nodes| == q + Sum(Degrees(nodes), |nodes|)
    && (forall v :: 0 <= v < |nodes| ==> v < q + Sum(Degrees(nodes), v))
    && (forall v, k :: 0 <= v < |nodes| && 0 <= k < |nodes[v].kids| ==> KidPlaced(nodes, q, v, k))
  }

  lemma {:induction false} BreadthFirstNumbered(queue: seq<Tree>)
    ensures Numbered(BreadthFirst(queue), |queue|)
    decreases ForestSize(queue)
  {
    hide Sum, Numbered;
    if queue == [] {
      NoneNumbered();
    } else {
      var queue' := queue[1..] + queue[0].kids;
      QueueShrinks(queue);
      BreadthFirstNumbered(queue');
      QueueFirst(queue');
      NumberedStep(queue, BreadthFirst(queue'));
    }
  }

  lemma NoneNumbered()
    ensures Numbered([], 0)
  {
  }

  lemma SumNone(d: seq<nat>)
    ensures Sum(d, 0) == 0
  {
  }

  lemma NumberedStep(queue: seq<Tree>, nodes': seq<Tree>)
    requires queue != [] && queue[1..] + queue[0].kids <= nodes'
    requires Numbered(nodes', |queue| - 1 + |queue[0].kids|)
    ensures Numbered([queue[0]] + nodes', |queue|)
  {
    hide Sum, KidPlaced;
    var x, nodes := queue[0], [queue[0]] + nodes';
    var d', d, q := Degrees(nodes'), Degrees(nodes), |queue|;
    assert d == [|x.kids|] + d';
    SumNone(d);
    SumShift(d', |x.kids|, |nodes'|);
    forall v | 0 <= v < |nodes| ensures v < q + Sum(d, v) {
      if v > 0 {
        SumShift(d', |x.kids|, v - 1);
      }
    }
    forall v, k | 0 <= v < |nodes| && 0 <= k < |nodes[v].kids| ensures KidPlaced(nodes, q, v, k) {
      if v == 0 {
        FirstKid(queue, nodes', k);
      } else {
        ShiftedKid(queue, nodes', v, k);
      }
    }
  }

  lemma ShiftedKid(queue: seq<Tree>, nodes': seq<Tree>, v: nat, k: nat)
    requires queue != [] && 0 < v <= |nodes'| && k < |nodes'[v - 1].kids|
    requires KidPlaced(nodes', |queue| - 1 + |queue[0].kids|, v - 1, k)
    ensures KidPlaced([queue[0]] + nodes', |queue|, v, k)
  {
    hide Sum;
    assert Degrees([queue[0]] + nodes') == [|queue[0].kids|] + Degrees(nodes');
    SumShift(Degrees(nodes'), |queue[0].kids|, v - 1);
  }

  lemma FirstKid(queue: seq<Tree>, nodes': seq<Tree>, k: nat)
    requires queue != [] && queue[1..] + queue[0].kids <= nodes' && k < |queue[0].kids|
    ensures KidPlaced([queue[0]] + nodes', |queue|, 0, k)
  {
    assert nodes'[|queue| - 1 + k] == (queue[1..] + queue[0].kids)[|queue| - 1 + k];
  }

  /** Navigation is correct on every ordered tree: the degree bits give each node's degree, child
      k of node v is the node numbered ChildNumber, which exceeds v, and every node but the root
      is the child of exactly one node at exactly one place. */
  lemma NavigationCorrect(t: Tree)
    ensures |BreadthFirst([t])| == 1 + Sum(Degrees(BreadthFirst([t])), |BreadthFirst([t])|) && BreadthFirst([t])[0] == t
    ensures forall v, k :: 0 <= v < |BreadthFirst([t])| && 0 <= k < |BreadthFirst([t])[v].kids| ==>
              ChildAt(BreadthFirst([t]), v, k)
  {
    hide Sum, KidPlaced;
    BreadthFirstNumbered([t]);
    QueueFirst([t]);
    var nodes := BreadthFirst([t]);
    assert nodes[0] == [t][0];
    forall v, k | 0 <= v < |nodes| && 0 <= k < |nodes[v].kids| ensures ChildAt(nodes, v, k) {
      assert KidPlaced(nodes, 1, v, k);
      PlacedAt(nodes, v, k);
    }
  }

  /** Child k of node v is the node numbered ChildNumber, which exceeds v. */
  ghost predicate ChildAt(nodes: seq<Tree>, v: nat, k: nat)
    requires v < |nodes| && k < |nodes[v].kids|
  {
    var c := ChildNumber(Degrees(nodes), v, k);
    v < c < |nodes| && nodes[c] == nodes[v].kids[k]
  }

  lemma PlacedAt(nodes: seq<Tree>, v: nat, k: nat)
    requires v < |nodes| && k < |nodes[v].kids| && KidPlaced(nodes, 1, v, k)
    ensures ChildAt(nodes, v, k)
  {
  }

  lemma OneParent(d: seq<nat>, c: nat) returns (v: nat, k: nat)
    requires 1 <= c < 1 + Sum(d, |d|)
    ensures v < |d| && k < d[v] && ChildNumber(d, v, k) == c
    ensures forall v', k' :: 0 <= v' < |d| && 0 <= k' < d[v'] && ChildNumber(d, v', k') == c ==> v' == v && k' == k
  {
    v := FindParent(d, c, |d|);
    k := c - 1 - Sum(d, v);
    forall v', k' | 0 <= v' < |d| && 0 <= k' < d[v'] && ChildNumber(d, v', k') == c
      ensures v' == v && k' == k
    {
      if v' < v {
        SumMonotone(d, v', v);
      } else if v < v' {
        SumMonotone(d, v, v');
      }
    }
  }

  lemma {:induction false} FindParent(d: seq<nat>, c: nat, n: nat) returns (v: nat)
    requires n <= |d| && 1 <= c < 1 + Sum(d, n)
    ensures v < n && Sum(d, v) < c <= Sum(d, v) + d[v]
  {
    if Sum(d, n - 1) < c {
      v := n - 1;
    } else {
      v := FindParent(d, c, n - 1);
    }
  }
}
