/** Breadth-first numbering of the compressed trie, and why twice as many nodes as keys suffice. */
module BreadthOrder {
  import opened Bits
  import opened Keys
  import opened Louds
  import opened RadixTrie
  import opened RadixCompress

  /** The degrees of the nodes in the queue. */
  function Degs(nodes: seq<Node>, order: seq<nat>): (d: seq<nat>)
    requires forall i :: 0 <= i < |order| ==> order[i] < |nodes|
    ensures |d| == |order|
  {
    seq(|order|, i requires 0 <= i < |order| => |nodes[order[i]].kids|)
  }

  ghost predicate InRange(nodes: seq<Node>, order: seq<nat>) {
    forall i :: 0 <= i < |order| ==> order[i] < |nodes|
  }

  /** Kid k of the node numbered v is numbered ChildNumber. */
  ghost predicate Numbered(nodes: seq<Node>, order: seq<nat>, v: nat, k: nat)
    requires InRange(nodes, order) && v < |order| && k < |nodes[order[v]].kids|
  {
    var c := ChildNumber(Degs(nodes, order), v, k);
    c < |order| && order[c] == nodes[order[v]].kids[k]
  }

  ghost predicate Distinct(order: seq<nat>) {
    forall i, j :: 0 <= i < j < |order| ==> order[i] != order[j]
  }

  /** The queue starts at the root, and everything else in it is a kid of a node taken from it. */
  ghost predicate FromRoot(lay: Layout, order: seq<nat>, head: nat) {
    && |lay.parent| == |lay.live| && head <= |order| && order != [] && order[0] == 0
    && (forall i :: 0 <= i < |order| ==> order[i] < |lay.live| && lay.live[order[i]])
    && (forall j :: 0 < j < |order| ==> lay.parent[order[j]] in order[..head])
  }

  ghost predicate KidsNumbered(nodes: seq<Node>, order: seq<nat>, head: nat) {
    && InRange(nodes, order) && head <= |order|
    && |order| == 1 + Sum(Degs(nodes, order), head)
    && forall v, k :: 0 <= v < head && 0 <= k < |nodes[order[v]].kids| ==> Numbered(nodes, order, v, k)
  }

  /** The queue after its first `head` nodes have put their kids at its end. */
  ghost predicate Queued(nodes: seq<Node>, lay: Layout, order: seq<nat>, head: nat)
    ensures Queued(nodes, lay, order, head) ==> InRange(nodes, order) && head <= |order| && order != []
  {
    Sized(nodes, lay) && FromRoot(lay, order, head) && Distinct(order) && KidsNumbered(nodes, order, head)
  }

  lemma {:induction false} SumSame(d: seq<nat>, e: seq<nat>, v: nat)
    requires v <= |d| && d <= e
    ensures Sum(d, v) == Sum(e, v)
  {
    if v > 0 {
      SumSame(d, e, v - 1);
    }
  }

  lemma QueueStart(nodes: seq<Node>, lay: Layout)
    requires Wired(nodes, lay)
    ensures Queued(nodes, lay, [0], 0)
  {
  }

  /** Nothing in the queue is a kid of the next node. */
  lemma ParentDiffers(nodes: seq<Node>, lay: Layout, order: seq<nat>, head: nat, j: nat)
    requires Queued(nodes, lay, order, head) && head < |order| && 0 < j < |order|
    ensures lay.parent[order[j]] != order[head]
  {
    var u :| 0 <= u < head && order[u] == lay.parent[order[j]];
    assert order[u] != order[head];
  }

  /** The next node's kids are new in the queue. */
  lemma NewKid(nodes: seq<Node>, lay: Layout, order: seq<nat>, head: nat, k: nat)
    requires Wired(nodes, lay) && Queued(nodes, lay, order, head) && head < |order| && k < |nodes[order[head]].kids|
    ensures var x := nodes[order[head]].kids[k];
            && x < |nodes| && lay.live[x] && lay.parent[x] == order[head] && x !in order
  {
    hide Wired;
    KidInRange(nodes, lay, order[head], k);
    var x := nodes[order[head]].kids[k];
    forall j | 0 <= j < |order| ensures order[j] != x {
      if j > 0 {
        ParentDiffers(nodes, lay, order, head, j);
      }
    }
  }

  lemma QueueStep(nodes: seq<Node>, lay: Layout, order: seq<nat>, head: nat)
    requires Wired(nodes, lay) && Queued(nodes, lay, order, head) && head < |order|
    ensures Queued(nodes, lay, order + nodes[order[head]].kids, head + 1)
  {
    hide Wired, Distinct, FromRoot, KidsNumbered;
    NewKids(nodes, lay, order, head);
    KidsDiffer(nodes, lay, order[head]);
    DistinctJoin(order, nodes[order[head]].kids);
    FromRootJoin(lay, order, head, nodes[order[head]].kids);
    NumberedJoin(nodes, order, head);
  }

  lemma NewKids(nodes: seq<Node>, lay: Layout, order: seq<nat>, head: nat)
    requires Wired(nodes, lay) && Queued(nodes, lay, order, head) && head < |order|
    ensures order[head] < |nodes| && lay.live[order[head]]
    ensures forall k :: 0 <= k < |nodes[order[head]].kids| ==>
              var x := nodes[order[head]].kids[k]; x < |nodes| && lay.live[x] && lay.parent[x] == order[head] && x !in order
  {
    hide Wired, Distinct, KidsNumbered;
    forall k | 0 <= k < |nodes[order[head]].kids|
      ensures var x := nodes[order[head]].kids[k]; x < |nodes| && lay.live[x] && lay.parent[x] == order[head] && x !in order
    {
      NewKid(nodes, lay, order, head, k);
    }
  }

  lemma DistinctJoin(a: seq<nat>, b: seq<nat>)
    requires Distinct(a) && Distinct(b) && forall j :: 0 <= j < |b| ==> b[j] !in a
    ensures Distinct(a + b)
  {
  }

  lemma FromRootJoin(lay: Layout, order: seq<nat>, head: nat, kids: seq<nat>)
    requires FromRoot(lay, order, head) && head < |order|
    requires forall k :: 0 <= k < |kids| ==> kids[k] < |lay.live| && lay.live[kids[k]] && lay.parent[kids[k]] == order[head]
    ensures FromRoot(lay, order + kids, head + 1)
  {
    assert (order + kids)[..head + 1] == order[..head] + [order[head]];
  }

  lemma NumberedJoin(nodes: seq<Node>, order: seq<nat>, head: nat)
    requires KidsNumbered(nodes, order, head) && head < |order| && InRange(nodes, nodes[order[head]].kids)
    ensures KidsNumbered(nodes, order + nodes[order[head]].kids, head + 1)
  {
    hide Sum, Numbered;
    var kids, order' := nodes[order[head]].kids, order + nodes[order[head]].kids;
    DegsGrow(nodes, order, kids);
    SumSame(Degs(nodes, order), Degs(nodes, order'), head);
    SumNext(Degs(nodes, order'), head);
    forall v, k | 0 <= v < head + 1 && 0 <= k < |nodes[order'[v]].kids| ensures Numbered(nodes, order', v, k) {
      NumberedGrow(nodes, order, kids, head, v, k);
    }
  }

  lemma KidsDiffer(nodes: seq<Node>, lay: Layout, p: nat)
    requires Wired(nodes, lay) && p < |nodes| && lay.live[p]
    ensures Distinct(nodes[p].kids)
  {
    forall k, l | 0 <= k < l < |nodes[p].kids| ensures nodes[p].kids[k] != nodes[p].kids[l] {
      assert LabelsAscend(nodes, p, k, l);
    }
  }

  lemma DegsGrow(nodes: seq<Node>, order: seq<nat>, kids: seq<nat>)
    requires InRange(nodes, order) && InRange(nodes, order + kids)
    ensures Degs(nodes, order) <= Degs(nodes, order + kids)
  {
  }

  lemma SumNext(d: seq<nat>, v: nat)
    requires v < |d|
    ensures Sum(d, v + 1) == Sum(d, v) + d[v]
  {
  }

  lemma NumberedGrow(nodes: seq<Node>, order: seq<nat>, kids: seq<nat>, head: nat, v: nat, k: nat)
    requires InRange(nodes, order) && InRange(nodes, order + kids) && head < |order| && v <= head
    requires |order| == 1 + Sum(Degs(nodes, order), head) && kids == nodes[order[head]].kids
    requires k < |nodes[(order + kids)[v]].kids|
    requires v < head ==> Numbered(nodes, order, v, k)
    ensures Numbered(nodes, order + kids, v, k)
  {
    hide Sum;
    DegsGrow(nodes, order, kids);
    SumSame(Degs(nodes, order), Degs(nodes, order + kids), v);
  }

  /** Distinct indices below n are at most n. */
  lemma {:induction false} Pigeonhole(order: seq<nat>, n: nat)
    requires forall i :: 0 <= i < |order| ==> order[i] < n
    requires Distinct(order)
    ensures |order| <= n
  {
    if order != [] {
      assert order[0] < n;
      if i :| 0 <= i < |order| && order[i] == n - 1 {
        var others := order[..i] + order[i + 1..];
        assert forall a :: 0 <= a < |others| ==> others[a] == order[if a < i then a else a + 1];
        Pigeonhole(others, n - 1);
      } else {
        Pigeonhole(order, n - 1);
      }
    }
  }

  lemma QueueBounded(nodes: seq<Node>, lay: Layout, order: seq<nat>, head: nat)
    requires Queued(nodes, lay, order, head)
    ensures |order| <= |nodes|
  {
    Pigeonhole(order, |nodes|);
  }

  /** The queue run to its end. */
  ghost function Run(nodes: seq<Node>, lay: Layout, order: seq<nat>, head: nat): (all: seq<nat>)
    requires Wired(nodes, lay) && Queued(nodes, lay, order, head)
    ensures order <= all && Queued(nodes, lay, all, |all|)
    decreases |nodes| - head
  {
    hide Queued, Wired;
    QueueBounded(nodes, lay, order, head);
    if head == |order| then order else
      QueueStep(nodes, lay, order, head);
      Run(nodes, lay, order + nodes[order[head]].kids, head + 1)
  }

  /** Every live node is reached. */
  lemma {:induction false} AllReached(nodes: seq<Node>, lay: Layout, order: seq<nat>, i: nat)
    requires Wired(nodes, lay) && Queued(nodes, lay, order, |order|) && i < |nodes| && lay.live[i]
    ensures i in order
    decreases i
  {
    if i > 0 {
      var p := lay.parent[i];
      AllReached(nodes, lay, order, p);
      var v :| 0 <= v < |order| && order[v] == p;
      var k :| 0 <= k < |nodes[p].kids| && nodes[p].kids[k] == i;
      assert Numbered(nodes, order, v, k);
    }
  }

  /** Keys held by the first j nodes of the queue. */
  ghost function Held(nodes: seq<Node>, lay: Layout, order: seq<nat>, j: nat): set<Key>
    requires Sized(nodes, lay) && InRange(nodes, order) && j <= |order|
  {
    if j == 0 then {} else
      var x := order[j - 1];
      Held(nodes, lay, order, j - 1) + (if nodes[x].terminal then {lay.paths[x]} else {})
  }

  lemma {:induction false} HeldFrom(nodes: seq<Node>, lay: Layout, order: seq<nat>, j: nat, k: Key)
    requires Sized(nodes, lay) && InRange(nodes, order) && j <= |order|
    ensures k in Held(nodes, lay, order, j) <==>
              exists i :: 0 <= i < j && nodes[order[i]].terminal && lay.paths[order[i]] == k
  {
    if j > 0 {
      HeldFrom(nodes, lay, order, j - 1, k);
    }
  }

  /** No key is held twice, so every node that holds one counts. */
  lemma HeldNext(nodes: seq<Node>, lay: Layout, order: seq<nat>, j: nat)
    requires Wired(nodes, lay) && FromRoot(lay, order, |order|) && Distinct(order) && InRange(nodes, order) && 0 < j <= |order|
    ensures |Held(nodes, lay, order, j)| == |Held(nodes, lay, order, j - 1)| + (if nodes[order[j - 1]].terminal then 1 else 0)
  {
    var x := order[j - 1];
    HeldFrom(nodes, lay, order, j - 1, lay.paths[x]);
    if i :| 0 <= i < j - 1 && nodes[order[i]].terminal && lay.paths[order[i]] == lay.paths[x] {
      SamePath(nodes, lay, order[i], x);
    }
  }

  lemma HeldIsMap(nodes: seq<Node>, lay: Layout, order: seq<nat>, m: map<Key, word>)
    requires Wired(nodes, lay) && Stores(nodes, lay, m) && Queued(nodes, lay, order, |order|)
    ensures |Held(nodes, lay, order, |order|)| == |m|
  {
    hide Wired, KidsNumbered, Held;
    var held := Held(nodes, lay, order, |order|);
    forall k ensures k in held <==> k in m {
      HeldFrom(nodes, lay, order, |order|, k);
      if k in m {
        var i :| 0 <= i < |nodes| && lay.live[i] && lay.paths[i] == k;
        AllReached(nodes, lay, order, i);
        var v :| 0 <= v < |order| && order[v] == i;
      }
    }
    assert held == m.Keys;
  }

  /** Nodes without a key have two kids, except perhaps the root: kids outnumber them. */
  lemma {:induction false} KidsOutnumber(nodes: seq<Node>, lay: Layout, order: seq<nat>, j: nat)
    requires Wired(nodes, lay) && TightBelow(nodes, lay, 0) && Queued(nodes, lay, order, |order|) && 0 < j <= |order|
    ensures Sum(Degs(nodes, order), j) + 2 * |Held(nodes, lay, order, j)|
            >= 2 * j - (if nodes[0].terminal then 0 else if nodes[0].kids == [] then 2 else 1)
  {
    hide Wired, TightBelow, KidsNumbered, FromRoot, Distinct;
    var d, x := Degs(nodes, order), order[j - 1];
    HeldNext(nodes, lay, order, j);
    SumNext(d, j - 1);
    if j == 1 {
      StartsEmpty(nodes, lay, order);
    } else {
      KidsOutnumber(nodes, lay, order, j - 1);
      BelowRootTight(nodes, lay, order, j - 1);
    }
  }

  lemma StartsEmpty(nodes: seq<Node>, lay: Layout, order: seq<nat>)
    requires Queued(nodes, lay, order, |order|)
    ensures order[0] == 0 && Sum(Degs(nodes, order), 0) == 0 && Held(nodes, lay, order, 0) == {}
  {
  }

  lemma BelowRootTight(nodes: seq<Node>, lay: Layout, order: seq<nat>, j: nat)
    requires Wired(nodes, lay) && TightBelow(nodes, lay, 0) && Queued(nodes, lay, order, |order|) && 0 < j < |order|
    ensures Tight(nodes, order[j])
  {
    hide KidsNumbered;
    assert order[j] != order[0];
    assert lay.paths[order[j]] != lay.paths[0];
  }

  /** At most two nodes a key, and the root alone when there is no key. */
  lemma NodesBounded(nodes: seq<Node>, lay: Layout, order: seq<nat>, m: map<Key, word>)
    requires Wired(nodes, lay) && Stores(nodes, lay, m) && TightBelow(nodes, lay, 0) && Queued(nodes, lay, order, |order|)
    ensures |order| <= if m == map[] then 1 else 2 * |m|
  {
    hide Wired, Stores, TightBelow, Sum, Held;
    KidsOutnumber(nodes, lay, order, |order|);
    HeldIsMap(nodes, lay, order, m);
    assert |order| == 1 + Sum(Degs(nodes, order), |order|);
    if m != map[] {
      RootLeads(nodes, lay, m);
    }
  }

  lemma RootLeads(nodes: seq<Node>, lay: Layout, m: map<Key, word>)
    requires Wired(nodes, lay) && Stores(nodes, lay, m) && m != map[]
    ensures nodes[0].terminal || nodes[0].kids != []
  {
    hide Hangs, LabelsAscend;
    var k :| k in m;
    var x :| 0 <= x < |nodes| && lay.live[x] && lay.paths[x] == k;
    if x != 0 {
      assert lay.paths[0] < lay.paths[x];
      var _ := ThroughKid(nodes, lay, 0, x);
    }
  }

  /** Numbers the nodes: an array of four places a word, and sixteen more, is never full. */
  method NumberNodes(t: RadixTrie, nwords: nat) returns (order: seq<nat>)
    requires t.Valid() && TightBelow(t.nodes, t.lay, 0) && |t.m| <= nwords
    ensures Queued(t.nodes, t.lay, order, |order|)
    ensures |order| <= if t.m == map[] then 1 else 2 * |t.m|
  {
    hide Queued, Wired, Stores, TightBelow;
    var bfs := new nat[4 * nwords + 16];
    var head, tail := 0, 1;
    bfs[0] := 0;
    QueueStart(t.nodes, t.lay);
    assert bfs[..1] == [0];
    while head < tail
      invariant head <= tail <= bfs.Length && fresh(bfs) && Queued(t.nodes, t.lay, bfs[..tail], head)
      decreases |t.nodes| - head
    {
      ghost var queue := bfs[..tail];
      QueueBounded(t.nodes, t.lay, queue, head);
      QueueStep(t.nodes, t.lay, queue, head);
      var v, i := bfs[head], 0;
      ghost var kids := t.nodes[queue[head]].kids;
      RoomForKids(t.nodes, t.lay, queue + kids, head + 1, t.m);
      while i < |t.nodes[v].kids|
        invariant 0 <= i <= |kids| && tail == |queue| + i && tail <= bfs.Length && fresh(bfs)
        invariant bfs[..tail] == queue + kids[..i]
      {
        bfs[tail] := t.nodes[v].kids[i];
        tail := tail + 1;
        i := i + 1;
      }
      assert kids[..i] == kids;
      head := head + 1;
    }
    order := bfs[..tail];
    NodesBounded(t.nodes, t.lay, order, t.m);
  }

  lemma RoomForKids(nodes: seq<Node>, lay: Layout, order: seq<nat>, head: nat, m: map<Key, word>)
    requires Wired(nodes, lay) && Stores(nodes, lay, m) && TightBelow(nodes, lay, 0) && Queued(nodes, lay, order, head)
    ensures |order| <= 2 * |m| + 1
  {
    hide Wired, Stores, TightBelow, Queued;
    var all := Run(nodes, lay, order, head);
    NodesBounded(nodes, lay, all, m);
  }
}
