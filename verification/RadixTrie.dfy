/** The build-time radix trie: nodes in a growing store, an index standing for a pointer; keys are
    inserted byte by byte, then chains are folded into edge tails. */
module RadixTrie {
  import opened Bits
  import opened Keys

  /** edge is the first byte of the edge into the node, tail the rest of it; kids ascend by label. */
  datatype Node = Node(edge: byte, tail: Key, kids: seq<nat>, terminal: bool, value: word)

  /** The path to each node, its parent, and whether it still belongs to the trie. */
  datatype Layout = Layout(paths: seq<Key>, parent: seq<nat>, live: seq<bool>)

  /** Kid k of node i hangs below it by its own edge. */
  ghost predicate Hangs(nodes: seq<Node>, lay: Layout, i: nat, k: nat)
    requires |lay.paths| == |lay.parent| == |lay.live| == |nodes| && i < |nodes| && k < |nodes[i].kids|
  {
    var c := nodes[i].kids[k];
    && i < c < |nodes| && lay.live[c] && lay.parent[c] == i
    && lay.paths[c] == lay.paths[i] + ([nodes[c].edge] + nodes[c].tail)
  }

  ghost predicate Sized(nodes: seq<Node>, lay: Layout) {
    |lay.paths| == |lay.parent| == |lay.live| == |nodes|
  }

  ghost predicate Wired(nodes: seq<Node>, lay: Layout)
    ensures Wired(nodes, lay) ==> Sized(nodes, lay) && 0 < |nodes|
  {
    && Sized(nodes, lay) && 0 < |nodes| && lay.live[0] && lay.paths[0] == []
    && (forall i, k :: 0 <= i < |nodes| && lay.live[i] && 0 <= k < |nodes[i].kids| ==> Hangs(nodes, lay, i, k))
    && (forall i, k, l :: 0 <= i < |nodes| && lay.live[i] && 0 <= k < l < |nodes[i].kids| ==> LabelsAscend(nodes, i, k, l))
    && (forall i :: 0 < i < |nodes| && lay.live[i] ==>
          lay.parent[i] < i && lay.live[lay.parent[i]] && i in nodes[lay.parent[i]].kids)
    && (forall i, j :: 0 <= i < j < |nodes| && lay.live[i] && lay.live[j] ==> lay.paths[i] != lay.paths[j])
  }

  ghost predicate LabelsAscend(nodes: seq<Node>, i: nat, k: nat, l: nat)
    requires i < |nodes| && k < |nodes[i].kids| && l < |nodes[i].kids|
  {
    var c, d := nodes[i].kids[k], nodes[i].kids[l];
    c < |nodes| && d < |nodes| && nodes[c].edge < nodes[d].edge
  }

  /** The terminal nodes are the keys of the map, with their values. */
  ghost predicate Stores(nodes: seq<Node>, lay: Layout, m: map<Key, word>) {
    && Sized(nodes, lay)
    && (forall i :: 0 <= i < |nodes| && lay.live[i] ==>
          (nodes[i].terminal <==> lay.paths[i] in m) && (nodes[i].terminal ==> m[lay.paths[i]] == nodes[i].value))
    && (forall k :: k in m ==> exists i :: 0 <= i < |nodes| && lay.live[i] && lay.paths[i] == k)
  }

  /** Every node but the root, and the one excepted, holds a key or branches at all. */
  ghost predicate NoDeadEnds(nodes: seq<Node>, lay: Layout, except: nat) {
    && Sized(nodes, lay)
    && forall i :: 0 < i < |nodes| && lay.live[i] && i != except ==> nodes[i].terminal || nodes[i].kids != []
  }

  /** Before compression every edge is a single byte. */
  ghost predicate Bytewise(nodes: seq<Node>) {
    forall i :: 0 <= i < |nodes| ==> nodes[i].tail == []
  }

  lemma KidAt(nodes: seq<Node>, lay: Layout, i: nat, k: nat)
    requires Wired(nodes, lay) && i < |nodes| && lay.live[i] && k < |nodes[i].kids|
    ensures Hangs(nodes, lay, i, k)
  {
  }

  /** A live node one byte below node p is a kid of p. */
  lemma OneBelow(nodes: seq<Node>, lay: Layout, p: nat, z: nat, b: byte)
    requires Wired(nodes, lay) && Bytewise(nodes) && p < |nodes| && z < |nodes| && lay.live[p] && lay.live[z]
    requires lay.paths[z] == lay.paths[p] + [b]
    ensures exists k :: 0 <= k < |nodes[p].kids| && nodes[p].kids[k] == z && nodes[z].edge == b
  {
    assert z > 0 by {
      assert lay.paths[z] != [];
    }
    var q := lay.parent[z];
    var k :| 0 <= k < |nodes[q].kids| && nodes[q].kids[k] == z;
    KidAt(nodes, lay, q, k);
    assert lay.paths[z] == lay.paths[q] + [nodes[z].edge];
    assert lay.paths[q] == lay.paths[z][..|lay.paths[z]| - 1] == lay.paths[p];
    SamePath(nodes, lay, p, q);
  }

  lemma SamePath(nodes: seq<Node>, lay: Layout, i: nat, j: nat)
    requires Wired(nodes, lay) && i < |nodes| && j < |nodes| && lay.live[i] && lay.live[j] && lay.paths[i] == lay.paths[j]
    ensures i == j
  {
  }

  /** The nodes with a new leaf, the kid at place lo of node p. */
  function AddKid(nodes: seq<Node>, p: nat, lo: nat, b: byte): (r: seq<Node>)
    requires p < |nodes| && lo <= |nodes[p].kids|
    ensures |r| == |nodes| + 1
  {
    var kids := nodes[p].kids;
    nodes[p := nodes[p].(kids := kids[..lo] + [|nodes|] + kids[lo..])] + [Node(b, [], [], false, 0)]
  }

  function AddPath(lay: Layout, p: nat, b: byte): Layout
    requires p < |lay.paths|
  {
    Layout(lay.paths + [lay.paths[p] + [b]], lay.parent + [p], lay.live + [true])
  }

  /** Place lo is where label b belongs among the kids of node p. */
  ghost predicate Belongs(nodes: seq<Node>, p: nat, lo: nat, b: byte)
    requires p < |nodes|
  {
    && lo <= |nodes[p].kids| && (forall k :: 0 <= k < |nodes[p].kids| ==> nodes[p].kids[k] < |nodes|)
    && (forall k :: 0 <= k < lo ==> nodes[nodes[p].kids[k]].edge < b)
    && (forall k :: lo <= k < |nodes[p].kids| ==> nodes[nodes[p].kids[k]].edge > b)
  }

  /** No live node has the path of the leaf yet. */
  lemma NewPath(nodes: seq<Node>, lay: Layout, p: nat, lo: nat, b: byte, z: nat)
    requires Wired(nodes, lay) && Bytewise(nodes) && p < |nodes| && lay.live[p] && Belongs(nodes, p, lo, b)
    requires z < |nodes| && lay.live[z]
    ensures lay.paths[z] != lay.paths[p] + [b]
  {
    if lay.paths[z] == lay.paths[p] + [b] {
      OneBelow(nodes, lay, p, z, b);
    }
  }

  lemma AddHangs(nodes: seq<Node>, lay: Layout, p: nat, lo: nat, b: byte, i: nat, k: nat)
    requires Wired(nodes, lay) && p < |nodes| && lay.live[p] && Belongs(nodes, p, lo, b)
    requires i < |nodes| && lay.live[i] && k < |AddKid(nodes, p, lo, b)[i].kids|
    ensures Hangs(AddKid(nodes, p, lo, b), AddPath(lay, p, b), i, k)
  {
    var nodes', lay' := AddKid(nodes, p, lo, b), AddPath(lay, p, b);
    if i == p && k == lo {
      assert nodes'[i].kids[k] == |nodes|;
      assert lay.paths[p] + [b] == lay.paths[p] + ([b] + []);
    } else {
      var k0 := if i == p && k > lo then k - 1 else k;
      assert nodes'[i].kids[k] == nodes[i].kids[k0];
      KidAt(nodes, lay, i, k0);
    }
  }

  lemma AddAscend(nodes: seq<Node>, lay: Layout, p: nat, lo: nat, b: byte, i: nat, k: nat, l: nat)
    requires Wired(nodes, lay) && p < |nodes| && lay.live[p] && Belongs(nodes, p, lo, b)
    requires i < |nodes| && lay.live[i] && k < l < |AddKid(nodes, p, lo, b)[i].kids|
    ensures LabelsAscend(AddKid(nodes, p, lo, b), i, k, l)
  {
    var nodes' := AddKid(nodes, p, lo, b);
    AddHangs(nodes, lay, p, lo, b, i, k);
    AddHangs(nodes, lay, p, lo, b, i, l);
    var k0, l0 := if i == p && k > lo then k - 1 else k, if i == p && l > lo then l - 1 else l;
    if i == p && k == lo {
      assert nodes'[i].kids[l] == nodes[i].kids[l0];
      assert nodes[nodes[p].kids[l0]].edge > b;
    } else if i == p && l == lo {
      assert nodes'[i].kids[k] == nodes[i].kids[k0];
    } else {
      assert nodes'[i].kids[k] == nodes[i].kids[k0] && nodes'[i].kids[l] == nodes[i].kids[l0];
      KidAt(nodes, lay, i, k0);
      KidAt(nodes, lay, i, l0);
      assert LabelsAscend(nodes, i, k0, l0);
    }
  }

  lemma AddParent(nodes: seq<Node>, lay: Layout, p: nat, lo: nat, b: byte, i: nat)
    requires Wired(nodes, lay) && p < |nodes| && lay.live[p] && Belongs(nodes, p, lo, b)
    requires 0 < i <= |nodes| && AddPath(lay, p, b).live[i]
    ensures var nodes', lay' := AddKid(nodes, p, lo, b), AddPath(lay, p, b);
            lay'.parent[i] < i && lay'.live[lay'.parent[i]] && i in nodes'[lay'.parent[i]].kids
  {
    var nodes', lay' := AddKid(nodes, p, lo, b), AddPath(lay, p, b);
    if i == |nodes| {
      assert nodes'[p].kids[lo] == |nodes|;
    } else {
      var q := lay.parent[i];
      var k :| 0 <= k < |nodes[q].kids| && nodes[q].kids[k] == i;
      assert nodes'[q].kids[if q == p && k >= lo then k + 1 else k] == i;
    }
  }

  /** Adding a leaf keeps the trie in shape. */
  lemma AddWired(nodes: seq<Node>, lay: Layout, p: nat, lo: nat, b: byte)
    requires Wired(nodes, lay) && Bytewise(nodes) && p < |nodes| && lay.live[p] && Belongs(nodes, p, lo, b)
    ensures Wired(AddKid(nodes, p, lo, b), AddPath(lay, p, b)) && Bytewise(AddKid(nodes, p, lo, b))
  {
    hide Hangs, LabelsAscend;
    var nodes', lay' := AddKid(nodes, p, lo, b), AddPath(lay, p, b);
    forall i, k | 0 <= i < |nodes'| && lay'.live[i] && 0 <= k < |nodes'[i].kids| ensures Hangs(nodes', lay', i, k) {
      AddHangs(nodes, lay, p, lo, b, i, k);
    }
    forall i, k, l | 0 <= i < |nodes'| && lay'.live[i] && 0 <= k < l < |nodes'[i].kids| ensures LabelsAscend(nodes', i, k, l) {
      AddAscend(nodes, lay, p, lo, b, i, k, l);
    }
    forall i | 0 < i < |nodes'| && lay'.live[i]
      ensures lay'.parent[i] < i && lay'.live[lay'.parent[i]] && i in nodes'[lay'.parent[i]].kids
    {
      AddParent(nodes, lay, p, lo, b, i);
    }
    forall i, j | 0 <= i < j < |nodes'| && lay'.live[i] && lay'.live[j] ensures lay'.paths[i] != lay'.paths[j] {
      if j == |nodes| {
        NewPath(nodes, lay, p, lo, b, i);
      }
    }
  }

  /** The leaf is no key, so the map stays. */
  lemma AddStores(nodes: seq<Node>, lay: Layout, p: nat, lo: nat, b: byte, m: map<Key, word>)
    requires Wired(nodes, lay) && Bytewise(nodes) && p < |nodes| && lay.live[p] && Belongs(nodes, p, lo, b)
    requires Stores(nodes, lay, m)
    ensures Stores(AddKid(nodes, p, lo, b), AddPath(lay, p, b), m)
    ensures NoDeadEnds(nodes, lay, p) ==> NoDeadEnds(AddKid(nodes, p, lo, b), AddPath(lay, p, b), |nodes|)
  {
    hide Wired, Bytewise;
    var nodes', lay' := AddKid(nodes, p, lo, b), AddPath(lay, p, b);
    var n := |nodes|;
    assert lay'.paths[n] !in m by {
      if lay'.paths[n] in m {
        var z :| 0 <= z < n && lay.live[z] && lay.paths[z] == lay'.paths[n];
        NewPath(nodes, lay, p, lo, b, z);
      }
    }
    forall k | k in m ensures exists i :: 0 <= i < |nodes'| && lay'.live[i] && lay'.paths[i] == k {
      var i :| 0 <= i < n && lay.live[i] && lay.paths[i] == k;
      assert lay'.live[i] && lay'.paths[i] == k;
    }
    assert nodes'[p].kids[lo] == n;
  }

  function SetKey(nodes: seq<Node>, p: nat, value: word): (r: seq<Node>)
    requires p < |nodes|
    ensures |r| == |nodes|
  {
    nodes[p := nodes[p].(terminal := true, value := value)]
  }

  lemma SetWired(nodes: seq<Node>, lay: Layout, p: nat, value: word)
    requires Wired(nodes, lay) && p < |nodes|
    ensures Wired(SetKey(nodes, p, value), lay)
  {
    var nodes' := SetKey(nodes, p, value);
    forall i, k | 0 <= i < |nodes'| && lay.live[i] && 0 <= k < |nodes'[i].kids| ensures Hangs(nodes', lay, i, k) {
      KidAt(nodes, lay, i, k);
    }
    forall i, k, l | 0 <= i < |nodes'| && lay.live[i] && 0 <= k < l < |nodes'[i].kids| ensures LabelsAscend(nodes', i, k, l) {
      assert LabelsAscend(nodes, i, k, l);
    }
  }

  /** Marking the node at the key's path adds the key to the map. */
  lemma SetStores(nodes: seq<Node>, lay: Layout, p: nat, value: word, m: map<Key, word>)
    requires Wired(nodes, lay) && p < |nodes| && lay.live[p] && Stores(nodes, lay, m)
    ensures Stores(SetKey(nodes, p, value), lay, m[lay.paths[p] := value])
  {
    hide Hangs, LabelsAscend;
    var nodes', m' := SetKey(nodes, p, value), m[lay.paths[p] := value];
    forall i | 0 <= i < |nodes'| && lay.live[i]
      ensures (nodes'[i].terminal <==> lay.paths[i] in m') && (nodes'[i].terminal ==> m'[lay.paths[i]] == nodes'[i].value)
    {
      if lay.paths[i] == lay.paths[p] {
        SamePath(nodes, lay, i, p);
      }
    }
    forall k | k in m' ensures exists i :: 0 <= i < |nodes'| && lay.live[i] && lay.paths[i] == k {
      if k != lay.paths[p] {
        var i :| 0 <= i < |nodes| && lay.live[i] && lay.paths[i] == k;
      }
    }
  }

  class RadixTrie {
    var nodes: seq<Node>
    ghost var lay: Layout
    ghost var m: map<Key, word>

    ghost predicate Valid()
      reads this
    {
      Wired(nodes, lay) && Stores(nodes, lay, m)
    }

    /** Before compression, apart from one node that may still be a dead end. */
    ghost predicate Growing(except: nat)
      reads this
    {
      Valid() && Bytewise(nodes) && NoDeadEnds(nodes, lay, except)
    }

    constructor ()
      ensures Growing(0) && m == map[]
    {
      nodes := [Node(0, [], [], false, 0)];
      lay := Layout([[]], [0], [true]);
      m := map[];
    }

    /** Binary search among the kids of node p. */
    method FindKid(p: nat, b: byte) returns (lo: nat)
      requires Wired(nodes, lay) && p < |nodes| && lay.live[p]
      ensures lo <= |nodes[p].kids| && forall k :: 0 <= k < |nodes[p].kids| ==> nodes[p].kids[k] < |nodes|
      ensures (lo < |nodes[p].kids| && nodes[nodes[p].kids[lo]].edge == b) || Belongs(nodes, p, lo, b)
    {
      hide Hangs, Wired;
      var kids := nodes[p].kids;
      var hi := |kids|;
      lo := 0;
      forall k | 0 <= k < |kids| ensures Hangs(nodes, lay, p, k) && kids[k] < |nodes| {
        KidInRange(nodes, lay, p, k);
      }
      while lo < hi
        invariant 0 <= lo <= hi <= |kids|
        invariant forall k :: 0 <= k < lo ==> nodes[kids[k]].edge < b
        invariant forall k :: hi <= k < |kids| ==> nodes[kids[k]].edge >= b
      {
        var mid := (lo + hi) / 2;
        KidsSorted(nodes, lay, p, mid);
        if nodes[kids[mid]].edge < b {
          lo := mid + 1;
        } else {
          hi := mid;
        }
      }
      if lo < |kids| {
        KidsSorted(nodes, lay, p, lo);
      }
    }

    /** The kid for a byte, added at its sorted place when it is missing. */
    method ChildGetOrAdd(p: nat, b: byte) returns (c: nat)
      requires Growing(p) && p < |nodes| && lay.live[p]
      modifies this
      ensures Growing(c) && m == old(m)
      ensures c < |nodes| && lay.paths[c] == old(lay.paths[p]) + [b] && lay.live[c]
    {
      hide Wired, Stores, NoDeadEnds, Bytewise, Hangs;
      var lo := FindKid(p, b);
      if lo < |nodes[p].kids| && nodes[nodes[p].kids[lo]].edge == b {
        c := nodes[p].kids[lo];
        FoundKid(nodes, lay, p, lo);
        return;
      }
      AddWired(nodes, lay, p, lo, b);
      AddStores(nodes, lay, p, lo, b, m);
      c := |nodes|;
      nodes := AddKid(nodes, p, lo, b);
      lay := AddPath(lay, p, b);
    }

    /** Adds a key; a key that was there already gets the new value. */
    method Insert(key: Key, value: word)
      requires Growing(0)
      modifies this
      ensures Growing(0) && m == old(m)[key := value]
    {
      hide Wired, Stores, NoDeadEnds, Bytewise;
      var cur: nat, i: nat := 0, 0;
      RootPath(nodes, lay);
      while i < |key|
        invariant 0 <= i <= |key| && Growing(cur) && m == old(m)
        invariant cur < |nodes| && lay.live[cur] && lay.paths[cur] == key[..i]
      {
        assert key[..i] + [key[i]] == key[..i + 1];
        cur := ChildGetOrAdd(cur, key[i]);
        i := i + 1;
      }
      assert key[..i] == key;
      SetWired(nodes, lay, cur, value);
      SetStores(nodes, lay, cur, value, m);
      SetGrowing(nodes, lay, cur, value);
      nodes := SetKey(nodes, cur, value);
      m := m[key := value];
    }
  }

  lemma KidInRange(nodes: seq<Node>, lay: Layout, p: nat, k: nat)
    requires Wired(nodes, lay) && p < |nodes| && lay.live[p] && k < |nodes[p].kids|
    ensures Hangs(nodes, lay, p, k) && nodes[p].kids[k] < |nodes|
  {
  }

  lemma KidsSorted(nodes: seq<Node>, lay: Layout, p: nat, mid: nat)
    requires Wired(nodes, lay) && p < |nodes| && lay.live[p] && mid < |nodes[p].kids|
    ensures forall k :: 0 <= k < |nodes[p].kids| ==> nodes[p].kids[k] < |nodes|
    ensures forall k :: 0 <= k < mid ==> nodes[nodes[p].kids[k]].edge < nodes[nodes[p].kids[mid]].edge
    ensures forall k :: mid < k < |nodes[p].kids| ==> nodes[nodes[p].kids[k]].edge > nodes[nodes[p].kids[mid]].edge
  {
    forall k | 0 <= k < |nodes[p].kids| ensures nodes[p].kids[k] < |nodes| {
      KidInRange(nodes, lay, p, k);
    }
    forall k | 0 <= k < mid ensures nodes[nodes[p].kids[k]].edge < nodes[nodes[p].kids[mid]].edge {
      assert LabelsAscend(nodes, p, k, mid);
    }
    forall k | mid < k < |nodes[p].kids| ensures nodes[nodes[p].kids[k]].edge > nodes[nodes[p].kids[mid]].edge {
      assert LabelsAscend(nodes, p, mid, k);
    }
  }

  lemma FoundKid(nodes: seq<Node>, lay: Layout, p: nat, lo: nat)
    requires Wired(nodes, lay) && Bytewise(nodes) && NoDeadEnds(nodes, lay, p)
    requires p < |nodes| && lay.live[p] && lo < |nodes[p].kids|
    ensures var c := nodes[p].kids[lo];
            && c < |nodes| && lay.live[c] && lay.paths[c] == lay.paths[p] + [nodes[c].edge] && NoDeadEnds(nodes, lay, c)
  {
    KidAt(nodes, lay, p, lo);
    var c := nodes[p].kids[lo];
    assert [nodes[c].edge] + [] == [nodes[c].edge];
  }

  lemma RootPath(nodes: seq<Node>, lay: Layout)
    requires Wired(nodes, lay)
    ensures 0 < |nodes| && lay.live[0] && lay.paths[0] == []
  {
  }

  lemma SetGrowing(nodes: seq<Node>, lay: Layout, p: nat, value: word)
    requires p < |nodes| && Bytewise(nodes) && NoDeadEnds(nodes, lay, p)
    ensures Bytewise(SetKey(nodes, p, value)) && NoDeadEnds(SetKey(nodes, p, value), lay, 0)
  {
  }
}
