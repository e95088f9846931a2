/** Path compression: a node that holds no key and has a single kid is folded into it. The map
    stays, and afterwards every node but the root holds a key or branches. */
module RadixCompress {
  import opened Bits
  import opened Keys
  import opened RadixTrie

  ghost predicate Tight(nodes: seq<Node>, i: nat)
    requires i < |nodes|
  {
    nodes[i].terminal || |nodes[i].kids| >= 2
  }

  /** Any live node whose path extends that of node v is reached through a kid of v. */
  lemma {:induction false} ThroughKid(nodes: seq<Node>, lay: Layout, v: nat, x: nat) returns (k: nat)
    requires Wired(nodes, lay) && v < |nodes| && x < |nodes| && lay.live[v] && lay.live[x] && lay.paths[v] < lay.paths[x]
    ensures k < |nodes[v].kids| && nodes[v].kids[k] < |nodes|
    ensures lay.paths[nodes[v].kids[k]] <= lay.paths[x] && nodes[nodes[v].kids[k]].edge == lay.paths[x][|lay.paths[v]|]
    decreases |lay.paths[x]|
  {
    var p, j := ParentOf(nodes, lay, x);
    if p == v {
      k := j;
    } else if lay.paths[v] < lay.paths[p] {
      k := ThroughKid(nodes, lay, v, p);
      KidInRange(nodes, lay, v, k);
    } else {
      PrefixesNest(lay.paths[v], lay.paths[p], lay.paths[x]);
      if lay.paths[v] == lay.paths[p] {
        SamePath(nodes, lay, v, p);
        assert false;
      }
      var i := ThroughKid(nodes, lay, p, v);
      SameEdge(nodes, lay, p, i, j);
      assert false;
    }
  }

  lemma PrefixesNest(a: Key, b: Key, c: Key)
    requires a <= c && b <= c
    ensures a < b || b < a || a == b
  {
    if |a| <= |b| {
      assert a == c[..|a|] == b[..|a|];
    } else {
      assert b == c[..|b|] == a[..|b|];
    }
  }

  lemma ParentOf(nodes: seq<Node>, lay: Layout, x: nat) returns (p: nat, j: nat)
    requires Wired(nodes, lay) && x < |nodes| && lay.live[x] && lay.paths[x] != []
    ensures p < x && lay.live[p] && j < |nodes[p].kids| && nodes[p].kids[j] == x
    ensures lay.paths[p] < lay.paths[x] && lay.paths[x][|lay.paths[p]|] == nodes[x].edge
    ensures lay.paths[x] == lay.paths[p] + ([nodes[x].edge] + nodes[x].tail)
  {
    p := lay.parent[x];
    j :| 0 <= j < |nodes[p].kids| && nodes[p].kids[j] == x;
    KidInRange(nodes, lay, p, j);
  }

  /** Kids with the same first byte are the same kid. */
  lemma SameEdge(nodes: seq<Node>, lay: Layout, p: nat, i: nat, j: nat)
    requires Wired(nodes, lay) && p < |nodes| && lay.live[p] && i < |nodes[p].kids| && j < |nodes[p].kids|
    requires nodes[p].kids[i] < |nodes| && nodes[p].kids[j] < |nodes|
    requires nodes[nodes[p].kids[i]].edge == nodes[nodes[p].kids[j]].edge
    ensures i == j
  {
    KidsSorted(nodes, lay, p, j);
  }

  /** Node c takes over its only kid g. */
  function Fold(nodes: seq<Node>, c: nat): (r: seq<Node>)
    requires c < |nodes| && |nodes[c].kids| == 1 && nodes[c].kids[0] < |nodes|
    ensures |r| == |nodes|
  {
    var g := nodes[nodes[c].kids[0]];
    nodes[c := Node(nodes[c].edge, nodes[c].tail + [g.edge] + g.tail, g.kids, g.terminal, g.value)]
  }

  ghost function FoldLayout(nodes: seq<Node>, lay: Layout, c: nat): (r: Layout)
    requires Sized(nodes, lay) && c < |nodes| && |nodes[c].kids| == 1 && nodes[c].kids[0] < |nodes|
    ensures Sized(nodes, r)
  {
    var g := nodes[c].kids[0];
    Layout(lay.paths[c := lay.paths[g]],
           seq(|lay.parent|, i requires 0 <= i < |lay.parent| => if i in nodes[g].kids then c else lay.parent[i]),
           lay.live[g := false])
  }

  /** What folding node c needs. */
  ghost predicate Foldable(nodes: seq<Node>, lay: Layout, c: nat) {
    && Wired(nodes, lay) && 0 < c < |nodes| && lay.live[c] && !nodes[c].terminal
    && |nodes[c].kids| == 1 && nodes[c].kids[0] < |nodes|
  }

  lemma FoldFacts(nodes: seq<Node>, lay: Layout, c: nat)
    requires Foldable(nodes, lay, c)
    ensures var g := nodes[c].kids[0];
            && c < g < |nodes| && lay.live[g] && lay.parent[g] == c
            && lay.paths[g] == lay.paths[c] + ([nodes[g].edge] + nodes[g].tail)
  {
    KidInRange(nodes, lay, c, 0);
  }

  lemma FoldHangs(nodes: seq<Node>, lay: Layout, c: nat, i: nat, k: nat)
    requires Foldable(nodes, lay, c) && i < |nodes| && FoldLayout(nodes, lay, c).live[i] && k < |Fold(nodes, c)[i].kids|
    ensures Hangs(Fold(nodes, c), FoldLayout(nodes, lay, c), i, k)
  {
    var g := nodes[c].kids[0];
    FoldFacts(nodes, lay, c);
    if i == c {
      KidInRange(nodes, lay, g, k);
      assert nodes[g].kids[k] in nodes[g].kids;
    } else {
      KidInRange(nodes, lay, i, k);
      var x := nodes[i].kids[k];
      NotKidOf(nodes, lay, g, i, k);
      if x == c {
        assert lay.paths[g] == lay.paths[i] + ([nodes[c].edge] + (nodes[c].tail + [nodes[g].edge] + nodes[g].tail));
      }
    }
  }

  /** A kid of node i is no kid of another node, and not the folded one. */
  lemma NotKidOf(nodes: seq<Node>, lay: Layout, g: nat, i: nat, k: nat)
    requires Wired(nodes, lay) && i < |nodes| && g < |nodes| && lay.live[i] && lay.live[g] && i != g
    requires k < |nodes[i].kids|
    ensures nodes[i].kids[k] !in nodes[g].kids
    ensures lay.parent[g] != i ==> nodes[i].kids[k] != g
  {
    KidInRange(nodes, lay, i, k);
    if l :| 0 <= l < |nodes[g].kids| && nodes[g].kids[l] == nodes[i].kids[k] {
      KidInRange(nodes, lay, g, l);
    }
  }

  lemma FoldAscend(nodes: seq<Node>, lay: Layout, c: nat, i: nat, k: nat, l: nat)
    requires Foldable(nodes, lay, c) && i < |nodes| && FoldLayout(nodes, lay, c).live[i] && k < l < |Fold(nodes, c)[i].kids|
    ensures LabelsAscend(Fold(nodes, c), i, k, l)
  {
    FoldFacts(nodes, lay, c);
    var j := if i == c then nodes[c].kids[0] else i;
    assert LabelsAscend(nodes, j, k, l);
  }

  lemma FoldParent(nodes: seq<Node>, lay: Layout, c: nat, i: nat)
    requires Foldable(nodes, lay, c) && 0 < i < |nodes| && FoldLayout(nodes, lay, c).live[i]
    ensures var nodes', lay' := Fold(nodes, c), FoldLayout(nodes, lay, c);
            lay'.parent[i] < i && lay'.live[lay'.parent[i]] && i in nodes'[lay'.parent[i]].kids
  {
    var g := nodes[c].kids[0];
    FoldFacts(nodes, lay, c);
    if k :| 0 <= k < |nodes[g].kids| && nodes[g].kids[k] == i {
      KidInRange(nodes, lay, g, k);
    } else {
      assert i in nodes[lay.parent[i]].kids;
      assert lay.parent[i] != g;
    }
  }

  lemma FoldWired(nodes: seq<Node>, lay: Layout, c: nat)
    requires Foldable(nodes, lay, c)
    ensures Wired(Fold(nodes, c), FoldLayout(nodes, lay, c))
  {
    hide Hangs, LabelsAscend;
    var nodes', lay' := Fold(nodes, c), FoldLayout(nodes, lay, c);
    FoldFacts(nodes, lay, c);
    forall i, k | 0 <= i < |nodes'| && lay'.live[i] && 0 <= k < |nodes'[i].kids| ensures Hangs(nodes', lay', i, k) {
      FoldHangs(nodes, lay, c, i, k);
    }
    forall i, k, l | 0 <= i < |nodes'| && lay'.live[i] && 0 <= k < l < |nodes'[i].kids| ensures LabelsAscend(nodes', i, k, l) {
      FoldAscend(nodes, lay, c, i, k, l);
    }
    forall i | 0 < i < |nodes'| && lay'.live[i]
      ensures lay'.parent[i] < i && lay'.live[lay'.parent[i]] && i in nodes'[lay'.parent[i]].kids
    {
      FoldParent(nodes, lay, c, i);
    }
  }

  /** Folding keeps the map. */
  lemma FoldStores(nodes: seq<Node>, lay: Layout, c: nat, m: map<Key, word>)
    requires Foldable(nodes, lay, c) && Stores(nodes, lay, m) && NoDeadEnds(nodes, lay, 0)
    ensures Stores(Fold(nodes, c), FoldLayout(nodes, lay, c), m)
    ensures NoDeadEnds(Fold(nodes, c), FoldLayout(nodes, lay, c), 0)
  {
    hide Wired;
    var nodes', lay', g := Fold(nodes, c), FoldLayout(nodes, lay, c), nodes[c].kids[0];
    FoldFacts(nodes, lay, c);
    forall k | k in m ensures exists i :: 0 <= i < |nodes'| && lay'.live[i] && lay'.paths[i] == k {
      var i :| 0 <= i < |nodes| && lay.live[i] && lay.paths[i] == k;
      var j := if i == g then c else i;
      assert lay'.live[j] && lay'.paths[j] == k;
    }
  }

  /** What compressing the part below node v may do: nodes up to v stay, dead nodes stay dead, edges
      keep their first byte, tight nodes stay as they are, and a path that changes is below v. */
  ghost predicate Shrunk(nodes: seq<Node>, lay: Layout, nodes': seq<Node>, lay': Layout, v: nat) {
    && Sized(nodes, lay) && Sized(nodes', lay') && |nodes| == |nodes'| && v < |nodes|
    && (forall i :: 0 <= i <= v ==> nodes'[i] == nodes[i] && lay'.live[i] == lay.live[i] && lay'.paths[i] == lay.paths[i])
    && (forall i :: 0 <= i < |nodes| && lay'.live[i] ==> lay.live[i] && nodes'[i].edge == nodes[i].edge)
    && (forall i :: 0 <= i < |nodes| && lay'.live[i] ==> lay'.paths[i] == lay.paths[i] || lay.paths[v] < lay'.paths[i])
    && (forall i :: 0 <= i < |nodes| && lay'.live[i] && Tight(nodes, i) ==> nodes'[i] == nodes[i] && lay'.paths[i] == lay.paths[i])
  }

  lemma ShrunkSame(nodes: seq<Node>, lay: Layout, v: nat)
    requires Sized(nodes, lay) && v < |nodes|
    ensures Shrunk(nodes, lay, nodes, lay, v)
  {
  }

  /** Work below a node below v is work below v. */
  lemma ShrunkThen(n0: seq<Node>, l0: Layout, n1: seq<Node>, l1: Layout, n2: seq<Node>, l2: Layout, v: nat, c: nat)
    requires Shrunk(n0, l0, n1, l1, v) && Shrunk(n1, l1, n2, l2, c)
    requires v == c || (v < c && l1.paths[v] < l1.paths[c])
    ensures Shrunk(n0, l0, n2, l2, v)
  {
    forall i | 0 <= i < |n0| && l2.live[i] ensures l2.paths[i] == l0.paths[i] || l0.paths[v] < l2.paths[i] {
      if l2.paths[i] != l1.paths[i] {
        assert l1.paths[c] < l2.paths[i];
        PrefixTransitive(l1.paths[v], l1.paths[c], l2.paths[i]);
      }
    }
    forall i | 0 <= i < |n0| && l2.live[i] && Tight(n0, i) ensures n2[i] == n0[i] && l2.paths[i] == l0.paths[i] {
      assert n1[i] == n0[i] && Tight(n1, i);
    }
  }

  lemma PrefixTransitive(a: Key, b: Key, c: Key)
    requires a <= b && b < c
    ensures a < c
  {
  }

  lemma FoldShrunk(nodes: seq<Node>, lay: Layout, v: nat, c: nat)
    requires Foldable(nodes, lay, c) && v < c && lay.paths[v] < lay.paths[c]
    ensures Shrunk(nodes, lay, Fold(nodes, c), FoldLayout(nodes, lay, c), v)
  {
    hide Wired;
    FoldFacts(nodes, lay, c);
    assert lay.paths[c] <= lay.paths[nodes[c].kids[0]];
  }

  /** Below v, everything through the first i kids is tight. */
  ghost predicate TightUpTo(nodes: seq<Node>, lay: Layout, v: nat, i: nat)
    requires Sized(nodes, lay) && v < |nodes| && i <= |nodes[v].kids|
  {
    forall x :: 0 <= x < |nodes| && lay.live[x] && lay.paths[v] < lay.paths[x] && ThroughFirst(nodes, lay, v, i, x) ==> Tight(nodes, x)
  }

  /** The path of x leaves v by one of its first i kids. */
  ghost predicate ThroughFirst(nodes: seq<Node>, lay: Layout, v: nat, i: nat, x: nat)
    requires Sized(nodes, lay) && v < |nodes| && x < |nodes| && i <= |nodes[v].kids| && lay.paths[v] < lay.paths[x]
  {
    exists k :: 0 <= k < i && nodes[v].kids[k] < |nodes| && nodes[nodes[v].kids[k]].edge == lay.paths[x][|lay.paths[v]|]
  }

  ghost predicate TightBelow(nodes: seq<Node>, lay: Layout, v: nat)
    requires Sized(nodes, lay) && v < |nodes|
  {
    forall x :: 0 <= x < |nodes| && lay.live[x] && lay.paths[v] < lay.paths[x] ==> Tight(nodes, x)
  }

  lemma TightAll(nodes: seq<Node>, lay: Layout, v: nat)
    requires Wired(nodes, lay) && v < |nodes| && lay.live[v] && TightUpTo(nodes, lay, v, |nodes[v].kids|)
    ensures TightBelow(nodes, lay, v)
  {
    hide Wired;
    forall x | 0 <= x < |nodes| && lay.live[x] && lay.paths[v] < lay.paths[x] ensures Tight(nodes, x) {
      var k := ThroughKid(nodes, lay, v, x);
      assert ThroughFirst(nodes, lay, v, |nodes[v].kids|, x);
    }
  }

  /** One kid more: everything through it is tight, and what was tight stays so. */
  lemma TightNext(nodes: seq<Node>, lay: Layout, nodes': seq<Node>, lay': Layout, v: nat, i: nat)
    requires Wired(nodes, lay) && Wired(nodes', lay') && Shrunk(nodes, lay, nodes', lay', v) && lay.live[v]
    requires i < |nodes[v].kids| && TightUpTo(nodes, lay, v, i)
    requires var c := nodes[v].kids[i]; c < |nodes| && lay'.live[c] && Tight(nodes', c) && TightBelow(nodes', lay', c)
    requires forall x :: 0 <= x < |nodes| && lay'.live[x] && lay'.paths[x] != lay.paths[x] ==> lay'.paths[nodes[v].kids[i]] <= lay'.paths[x]
    ensures TightUpTo(nodes', lay', v, i + 1)
  {
    hide Wired;
    var c := nodes[v].kids[i];
    assert nodes'[v] == nodes[v] && lay'.paths[v] == lay.paths[v];
    forall x | 0 <= x < |nodes| && lay'.live[x] && lay'.paths[v] < lay'.paths[x] && ThroughFirst(nodes', lay', v, i + 1, x)
      ensures Tight(nodes', x)
    {
      var k := ThroughKid(nodes', lay', v, x);
      if k == i {
        if lay'.paths[c] == lay'.paths[x] {
          SamePath(nodes', lay', c, x);
        }
      } else {
        TightEarlier(nodes, lay, nodes', lay', v, i, k, x);
      }
    }
  }

  lemma TightEarlier(nodes: seq<Node>, lay: Layout, nodes': seq<Node>, lay': Layout, v: nat, i: nat, k: nat, x: nat)
    requires Wired(nodes', lay') && Shrunk(nodes, lay, nodes', lay', v) && lay.live[v]
    requires i < |nodes[v].kids| && TightUpTo(nodes, lay, v, i)
    requires nodes[v].kids[i] < |nodes| && lay'.live[nodes[v].kids[i]]
    requires x < |nodes| && lay'.live[x] && lay'.paths[v] < lay'.paths[x] && ThroughFirst(nodes', lay', v, i + 1, x)
    requires k < |nodes'[v].kids| && k != i && nodes'[v].kids[k] < |nodes| && nodes'[nodes'[v].kids[k]].edge == lay'.paths[x][|lay'.paths[v]|]
    requires lay'.paths[x] != lay.paths[x] ==> lay'.paths[nodes[v].kids[i]] <= lay'.paths[x]
    ensures Tight(nodes', x)
  {
    hide Wired;
    var c := nodes[v].kids[i];
    KidInRange(nodes', lay', v, i);
    KidInRange(nodes', lay', v, k);
    var j :| 0 <= j < i + 1 && nodes'[v].kids[j] < |nodes'| && nodes'[nodes'[v].kids[j]].edge == lay'.paths[x][|lay'.paths[v]|];
    SameEdge(nodes', lay', v, k, j);
    if lay'.paths[c] <= lay'.paths[x] {
      assert lay'.paths[c][|lay'.paths[v]|] == nodes'[c].edge;
      SameEdge(nodes', lay', v, k, i);
    }
    assert nodes'[nodes[v].kids[k]].edge == nodes[nodes[v].kids[k]].edge;
    assert ThroughFirst(nodes, lay, v, i, x);
  }

  /** Only node c's path has changed, and it still runs below v. */
  ghost predicate OnlyPath(lay: Layout, lay': Layout, c: nat) {
    && |lay.paths| == |lay'.paths| == |lay'.live|
    && forall x :: 0 <= x < |lay.paths| && lay'.live[x] && x != c ==> lay'.paths[x] == lay.paths[x]
  }

  /** Folds node c until it holds a key or branches. */
  method FoldChain(t: RadixTrie, c: nat, ghost v: nat)
    requires t.Valid() && NoDeadEnds(t.nodes, t.lay, 0) && v < c < |t.nodes| && t.lay.live[c] && t.lay.paths[v] < t.lay.paths[c]
    modifies t`nodes, t`lay
    ensures t.Valid() && NoDeadEnds(t.nodes, t.lay, 0) && |t.nodes| == old(|t.nodes|)
    ensures Shrunk(old(t.nodes), old(t.lay), t.nodes, t.lay, v) && OnlyPath(old(t.lay), t.lay, c)
    ensures t.lay.live[c] && t.lay.paths[v] < t.lay.paths[c] && Tight(t.nodes, c)
  {
    hide Wired, Stores, NoDeadEnds, Shrunk;
    ShrunkSame(t.nodes, t.lay, v);
    while |t.nodes[c].kids| == 1 && !t.nodes[c].terminal
      invariant t.Valid() && NoDeadEnds(t.nodes, t.lay, 0) && |t.nodes| == old(|t.nodes|)
      invariant Shrunk(old(t.nodes), old(t.lay), t.nodes, t.lay, v) && OnlyPath(old(t.lay), t.lay, c)
      invariant t.lay.live[c] && t.lay.paths[v] < t.lay.paths[c]
      decreases if |t.nodes[c].kids| == 1 then |t.nodes| - t.nodes[c].kids[0] else -1
    {
      KidInRange(t.nodes, t.lay, c, 0);
      ghost var nodes, lay := t.nodes, t.lay;
      FoldWired(nodes, lay, c);
      FoldStores(nodes, lay, c, t.m);
      FoldShrunk(nodes, lay, v, c);
      ShrunkThen(old(t.nodes), old(t.lay), nodes, lay, Fold(nodes, c), FoldLayout(nodes, lay, c), v, v);
      FoldDeeper(nodes, lay, v, c);
      t.lay := FoldLayout(nodes, lay, c);
      t.nodes := Fold(t.nodes, c);
    }
    ChainEnds(t.nodes, t.lay, c);
  }

  lemma FoldDeeper(nodes: seq<Node>, lay: Layout, v: nat, c: nat)
    requires Foldable(nodes, lay, c) && v < c && lay.paths[v] < lay.paths[c]
    ensures var nodes', lay' := Fold(nodes, c), FoldLayout(nodes, lay, c);
            && lay'.live[c] && lay'.paths[v] < lay'.paths[c] && OnlyPath(lay, lay', c)
            && (|nodes'[c].kids| == 1 ==> nodes'[c].kids[0] > nodes[c].kids[0])
            && (|nodes'[c].kids| == 1 ==> nodes'[c].kids[0] < |nodes|)
  {
    var g := nodes[c].kids[0];
    FoldFacts(nodes, lay, c);
    assert lay.paths[c] <= lay.paths[g];
    if |nodes[g].kids| == 1 {
      KidInRange(nodes, lay, g, 0);
    }
  }

  lemma ChainEnds(nodes: seq<Node>, lay: Layout, c: nat)
    requires NoDeadEnds(nodes, lay, 0) && 0 < c < |nodes| && lay.live[c]
    requires |nodes[c].kids| != 1 || nodes[c].terminal
    ensures Tight(nodes, c)
  {
  }

  /** Compresses everything below node v. */
  method Compress(t: RadixTrie, v: nat)
    requires t.Valid() && NoDeadEnds(t.nodes, t.lay, 0) && v < |t.nodes| && t.lay.live[v]
    modifies t`nodes, t`lay
    ensures t.Valid() && NoDeadEnds(t.nodes, t.lay, 0) && |t.nodes| == old(|t.nodes|)
    ensures Shrunk(old(t.nodes), old(t.lay), t.nodes, t.lay, v)
    ensures TightBelow(t.nodes, t.lay, v)
    decreases |t.nodes| - v
  {
    hide Wired, Stores, NoDeadEnds, Shrunk, TightUpTo, TightBelow, Tight, OnlyPath;
    ShrunkSame(t.nodes, t.lay, v);
    NothingYet(t.nodes, t.lay, v);
    var i := 0;
    while i < |t.nodes[v].kids|
      invariant t.Valid() && NoDeadEnds(t.nodes, t.lay, 0) && |t.nodes| == old(|t.nodes|)
      invariant Shrunk(old(t.nodes), old(t.lay), t.nodes, t.lay, v) && t.lay.live[v]
      invariant i <= |t.nodes[v].kids| && TightUpTo(t.nodes, t.lay, v, i)
      decreases |t.nodes[v].kids| - i
    {
      ghost var n0, l0 := t.nodes, t.lay;
      var c := t.nodes[v].kids[i];
      KidPath(n0, l0, v, i);
      FoldChain(t, c, v);
      ghost var n1, l1 := t.nodes, t.lay;
      Compress(t, c);
      ShrunkThen(n0, l0, n1, l1, t.nodes, t.lay, v, c);
      ShrunkThen(old(t.nodes), old(t.lay), n0, l0, t.nodes, t.lay, v, v);
      KidDone(n0, l0, n1, l1, t.nodes, t.lay, v, i);
      i := i + 1;
    }
    TightAll(t.nodes, t.lay, v);
  }

  lemma NothingYet(nodes: seq<Node>, lay: Layout, v: nat)
    requires Sized(nodes, lay) && v < |nodes|
    ensures TightUpTo(nodes, lay, v, 0)
  {
  }

  lemma KidPath(nodes: seq<Node>, lay: Layout, v: nat, i: nat)
    requires Wired(nodes, lay) && v < |nodes| && lay.live[v] && i < |nodes[v].kids|
    ensures var c := nodes[v].kids[i]; v < c < |nodes| && lay.live[c] && lay.paths[v] < lay.paths[c]
  {
    KidInRange(nodes, lay, v, i);
  }

  lemma KidDone(n0: seq<Node>, l0: Layout, n1: seq<Node>, l1: Layout, n2: seq<Node>, l2: Layout, v: nat, i: nat)
    requires Wired(n0, l0) && Wired(n2, l2) && Sized(n1, l1) && |n0| == |n1| && v < |n0| && l0.live[v]
    requires Shrunk(n0, l0, n2, l2, v) && i < |n0[v].kids| && TightUpTo(n0, l0, v, i)
    requires var c := n0[v].kids[i];
             && v < c < |n0| && OnlyPath(l0, l1, c) && l1.live[c] && Tight(n1, c)
             && Shrunk(n1, l1, n2, l2, c) && TightBelow(n2, l2, c)
    ensures n2[v] == n0[v] && l2.live[v] && TightUpTo(n2, l2, v, i + 1)
  {
    hide Wired, TightUpTo, TightBelow;
    var c := n0[v].kids[i];
    forall x | 0 <= x < |n0| && l2.live[x] && l2.paths[x] != l0.paths[x] ensures l2.paths[c] <= l2.paths[x] {
      if x != c {
        assert l1.paths[x] == l0.paths[x];
      }
    }
    TightNext(n0, l0, n2, l2, v, i);
  }
}
