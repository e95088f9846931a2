/** The succinct trie: lookups that run through the serialised sections only, and why they answer
    as the map of the inserted keys does. */
module Succinct {
  import opened Bits
  import opened Keys
  import opened Results
  import opened Louds
  import opened RadixTrie
  import opened RadixCompress
  import opened BreadthOrder
  import opened RankedBits
  import opened Tails
  import opened ValueStore
  import opened Sections

  /** A compressed trie whose nodes are all numbered. */
  ghost predicate Finished(nodes: seq<Node>, lay: Layout, order: seq<nat>, m: map<Key, word>)
    ensures Finished(nodes, lay, order, m) ==> Sized(nodes, lay) && InRange(nodes, order) && order != []
  {
    Wired(nodes, lay) && Stores(nodes, lay, m) && Queued(nodes, lay, order, |order|)
  }

  /** Node v is reached by the first i bytes of the key. */
  ghost predicate Reached(nodes: seq<Node>, lay: Layout, order: seq<nat>, v: nat, key: Key, i: nat) {
    && Sized(nodes, lay) && InRange(nodes, order) && v < |order| && i <= |key|
    && lay.live[order[v]] && lay.paths[order[v]] == key[..i]
  }

  lemma StartsAtRoot(nodes: seq<Node>, lay: Layout, order: seq<nat>, m: map<Key, word>, key: Key)
    requires Finished(nodes, lay, order, m)
    ensures Reached(nodes, lay, order, 0, key, 0)
  {
  }

  /** Kid k of the node numbered v: its number, and that it is there. */
  lemma KidNumber(nodes: seq<Node>, lay: Layout, order: seq<nat>, m: map<Key, word>, v: nat, k: nat)
    requires Finished(nodes, lay, order, m) && v < |order| && k < |nodes[order[v]].kids|
    ensures var c := ChildNumber(Degs(nodes, order), v, k);
            0 < c < |order| && order[c] == nodes[order[v]].kids[k] && lay.live[order[v]] && lay.live[order[c]]
  {
    hide Sum, Wired, Stores;
    assert BreadthOrder.Numbered(nodes, order, v, k);
  }

  /** Labels ascend among the kids of a node. */
  lemma KidLabels(nodes: seq<Node>, lay: Layout, order: seq<nat>, m: map<Key, word>, v: nat, k: nat, l: nat)
    requires Finished(nodes, lay, order, m) && v < |order| && k < l < |nodes[order[v]].kids|
    requires 0 < ChildNumber(Degs(nodes, order), v, k) < |order| && 0 < ChildNumber(Degs(nodes, order), v, l) < |order|
    ensures Labels(nodes, order)[ChildNumber(Degs(nodes, order), v, k) - 1] < Labels(nodes, order)[ChildNumber(Degs(nodes, order), v, l) - 1]
  {
    hide Sum, Wired, Stores;
    KidNumber(nodes, lay, order, m, v, k);
    KidNumber(nodes, lay, order, m, v, l);
    KidsSorted(nodes, lay, order[v], k);
  }

  /** A stored key that goes on past node v goes on through a kid with its next byte. */
  lemma KeyGoesOn(nodes: seq<Node>, lay: Layout, order: seq<nat>, m: map<Key, word>, v: nat, key: Key, i: nat) returns (k: nat)
    requires Finished(nodes, lay, order, m) && Reached(nodes, lay, order, v, key, i) && i < |key| && key in m
    ensures k < |nodes[order[v]].kids| && nodes[order[v]].kids[k] < |nodes|
    ensures nodes[nodes[order[v]].kids[k]].edge == key[i] && lay.paths[nodes[order[v]].kids[k]] <= key
  {
    hide Wired, KidsNumbered;
    var x :| 0 <= x < |nodes| && lay.live[x] && lay.paths[x] == key;
    assert lay.paths[order[v]] < lay.paths[x];
    k := ThroughKid(nodes, lay, order[v], x);
  }

  /** No kid has the next byte: the key is not stored. */
  lemma NoKid(nodes: seq<Node>, lay: Layout, order: seq<nat>, m: map<Key, word>, v: nat, key: Key, i: nat)
    requires Finished(nodes, lay, order, m) && Reached(nodes, lay, order, v, key, i) && i < |key|
    requires forall k :: 0 <= k < |nodes[order[v]].kids| ==>
               var c := ChildNumber(Degs(nodes, order), v, k); 0 < c < |order| && Labels(nodes, order)[c - 1] != key[i]
    ensures key !in m
  {
    hide Wired, Stores, KidsNumbered, Sum;
    if key in m {
      var k := KeyGoesOn(nodes, lay, order, m, v, key, i);
      KidNumber(nodes, lay, order, m, v, k);
    }
  }

  /** The kid with the next byte: its path, and that a stored key must run along its tail. */
  lemma ThroughHit(nodes: seq<Node>, lay: Layout, order: seq<nat>, m: map<Key, word>, v: nat, key: Key, i: nat, k: nat)
    requires Finished(nodes, lay, order, m) && Reached(nodes, lay, order, v, key, i) && i < |key|
    requires k < |nodes[order[v]].kids| && ChildNumber(Degs(nodes, order), v, k) - 1 < |order| - 1
    requires Labels(nodes, order)[ChildNumber(Degs(nodes, order), v, k) - 1] == key[i]
    ensures var c := ChildNumber(Degs(nodes, order), v, k);
            var tail := nodes[order[c]].tail;
            && (TailMatches(key, i + 1, tail) ==> Reached(nodes, lay, order, c, key, i + 1 + |tail|))
            && (!TailMatches(key, i + 1, tail) ==> key !in m)
  {
    hide Wired, Stores, KidsNumbered, Sum;
    KidNumber(nodes, lay, order, m, v, k);
    KidInRange(nodes, lay, order[v], k);
    var c := ChildNumber(Degs(nodes, order), v, k);
    var tail := nodes[order[c]].tail;
    assert lay.paths[order[c]] == key[..i] + ([key[i]] + tail);
    TailOrNot(key, i, tail);
    if key in m && !TailMatches(key, i + 1, tail) {
      var k' := KeyGoesOn(nodes, lay, order, m, v, key, i);
      SameEdge(nodes, lay, order[v], k', k);
    }
  }

  /** The key goes on from byte i with the tail. */
  predicate TailMatches(key: Key, i: nat, tail: Key) {
    i + |tail| <= |key| && key[i..i + |tail|] == tail
  }

  lemma TailOrNot(key: Key, i: nat, tail: Key)
    requires i < |key|
    ensures TailMatches(key, i + 1, tail) ==> key[..i + 1 + |tail|] == key[..i] + ([key[i]] + tail)
    ensures key[..i] + ([key[i]] + tail) <= key ==> TailMatches(key, i + 1, tail)
  {
    var p := key[..i] + ([key[i]] + tail);
    if p <= key {
      assert p[i + 1..] == tail;
      assert key[..|p|] == p;
      assert key[i + 1..i + 1 + |tail|] == key[..|p|][i + 1..];
    }
  }

  /** At the end of the key, the node says whether it is stored. */
  lemma AtEnd(nodes: seq<Node>, lay: Layout, order: seq<nat>, m: map<Key, word>, v: nat, key: Key)
    requires Finished(nodes, lay, order, m) && Reached(nodes, lay, order, v, key, |key|)
    ensures KeyFlags(nodes, order)[v] == nodes[order[v]].terminal
    ensures nodes[order[v]].terminal <==> key in m
    ensures key in m ==> nodes[order[v]].value == m[key]
  {
    hide Wired, KidsNumbered;
    assert key[..|key|] == key;
  }

  class SuccinctTrie {
    const louds: RankedBits
    const tailsPresent: RankedBits
    const terminals: RankedBits
    const labels: seq<byte>
    const pool: Key
    const refs: seq<TailRef>
    const tailOf: seq<nat>
    const values: seq<byte>
    const sample: seq<nat>

    ghost const nodes: seq<Node>
    ghost const lay: Layout
    ghost const order: seq<nat>
    ghost const m: map<Key, word>

    ghost function Degrees(): seq<nat>
      requires InRange(nodes, order)
    {
      Degs(nodes, order)
    }

    ghost predicate Valid()
      reads louds.super, louds.block, tailsPresent.super, tailsPresent.block, terminals.super, terminals.block
      reads louds, tailsPresent, terminals
    {
      && Finished(nodes, lay, order, m)
      && louds.Valid() && louds.Contents() == LoudsBits(Degrees())
      && tailsPresent.Valid() && tailsPresent.Contents() == TailFlags(nodes, order)
      && terminals.Valid() && terminals.Contents() == KeyFlags(nodes, order)
      && labels == Labels(nodes, order)
      && TailsPlaced(nodes, order, pool, refs, tailOf, |order|)
      && values == Encoded(ValuesOf(nodes, order, |order|)) && Sampled(ValuesOf(nodes, order, |order|), sample)
    }

    /** Writes the sections of a numbered trie. */
    constructor (nodes: seq<Node>, ghost lay: Layout, order: seq<nat>, ghost m: map<Key, word>)
      requires Finished(nodes, lay, order, m)
      ensures Valid() && this.m == m
    {
      hide Wired, Stores, Queued, LoudsBits, Encoded, Offset, Slices, RankOf;
      var s := WriteSections(nodes, order);
      var louds0 := Freeze(s.louds);
      var tails0 := Freeze(s.tailFlags);
      var terminals0 := Freeze(s.terminals);
      WholeSections(nodes, order, s);
      var pool0, refs0, tailOf0 := PlaceTails(nodes, order, s);
      var sample0 := SampleOffsets(ValuesOf(nodes, order, |order|), s.offsets);
      louds, tailsPresent, terminals := louds0, tails0, terminals0;
      labels, values, sample := s.labels, s.values, sample0;
      pool, refs, tailOf := pool0, refs0, tailOf0;
      this.nodes, this.lay, this.order, this.m := nodes, lay, order, m;
    }

    /** The number of kid k of node v, whose run of 1s starts at cb. */
    method KidId(cb: nat, ghost v: nat, k: nat) returns (cid: nat)
      requires Valid() && v < |order| && k < Degrees()[v] && cb == Begin(Degrees(), v)
      ensures cid == ChildNumber(Degrees(), v, k) && 0 < cid < |order|
    {
      hide LoudsBits, TailFlags, KeyFlags, Labels, TailsPlaced, Encoded, ValuesOf, Sampled, Finished, Sum, Begin, RankOf;
      KidNumber(nodes, lay, order, m, v, k);
      RankInRun(Degrees(), v, k);
      var ones := louds.Rank1(cb + k);
      cid := ones + 1;
    }

    /** Binary search for a byte over the labels of node v's kids. */
    method FindLabel(cb: nat, cc: nat, ghost v: nat, b: byte) returns (hit: nat)
      requires Valid() && v < |order| && cc == Degrees()[v] && cb == Begin(Degrees(), v)
      ensures hit <= cc
      ensures forall k :: 0 <= k < cc ==> 0 < ChildNumber(Degrees(), v, k) < |order|
      ensures hit < cc ==> labels[ChildNumber(Degrees(), v, hit) - 1] == b
      ensures hit == cc ==> forall k :: 0 <= k < cc ==> labels[ChildNumber(Degrees(), v, k) - 1] != b
    {
      hide LoudsBits, TailFlags, KeyFlags, Labels, TailsPlaced, Encoded, ValuesOf, Sampled, Finished, Sum, ChildNumber, Begin;
      forall k | 0 <= k < cc ensures 0 < ChildNumber(Degrees(), v, k) < |order| {
        KidNumber(nodes, lay, order, m, v, k);
      }
      var lo, hi := 0, cc;
      hit := cc;
      while lo < hi
        invariant 0 <= lo <= hi <= cc && (hit == cc || hit == hi)
        invariant forall k :: 0 <= k < lo ==> labels[ChildNumber(Degrees(), v, k) - 1] < b
        invariant forall k :: hi <= k < cc && k != hit ==> labels[ChildNumber(Degrees(), v, k) - 1] > b
        invariant hit < cc ==> labels[ChildNumber(Degrees(), v, hit) - 1] == b
      {
        var mid := (lo + hi) / 2;
        var cid := KidId(cb, v, mid);
        LabelsAround(v, mid);
        var lb := labels[cid - 1];
        if lb < b {
          lo := mid + 1;
        } else {
          hi := mid;
          if lb == b {
            hit := mid;
          }
        }
      }
    }

    lemma LabelsAround(v: nat, mid: nat)
      requires Valid() && v < |order| && mid < Degrees()[v]
      ensures forall k :: 0 <= k < Degrees()[v] ==> 0 < ChildNumber(Degrees(), v, k) < |order|
      ensures forall k :: 0 <= k < mid ==> labels[ChildNumber(Degrees(), v, k) - 1] < labels[ChildNumber(Degrees(), v, mid) - 1]
      ensures forall k :: mid < k < Degrees()[v] ==> labels[ChildNumber(Degrees(), v, mid) - 1] < labels[ChildNumber(Degrees(), v, k) - 1]
    {
      hide LoudsBits, TailFlags, KeyFlags, Labels, TailsPlaced, Encoded, ValuesOf, Sampled, Finished, Sum, ChildNumber;
      forall k | 0 <= k < Degrees()[v] ensures 0 < ChildNumber(Degrees(), v, k) < |order| {
        KidNumber(nodes, lay, order, m, v, k);
      }
      forall k | 0 <= k < mid ensures labels[ChildNumber(Degrees(), v, k) - 1] < labels[ChildNumber(Degrees(), v, mid) - 1] {
        KidLabels(nodes, lay, order, m, v, k, mid);
      }
      forall k | mid < k < Degrees()[v] ensures labels[ChildNumber(Degrees(), v, mid) - 1] < labels[ChildNumber(Degrees(), v, k) - 1] {
        KidLabels(nodes, lay, order, m, v, mid, k);
      }
    }

    /** Compares the tail of node cid, if it has one, with the key from byte i. */
    method MatchTail(cid: nat, key: Key, i: nat) returns (ok: bool, i': nat)
      requires Valid() && 0 < cid < |order| && i <= |key|
      ensures ok <==> TailMatches(key, i, nodes[order[cid]].tail)
      ensures ok ==> i' == i + |nodes[order[cid]].tail|
    {
      hide LoudsBits, KeyFlags, Labels, Encoded, ValuesOf, Sampled, Finished;
      ok, i' := true, i;
      var present := tailsPresent.Get(cid - 1);
      if present {
        var t := refs[tailOf[cid]];
        ok := i + t.length <= |key| && key[i..i + t.length] == pool[t.offset..t.offset + t.length];
        i' := i + t.length;
      }
    }

    /** Walks down from the root. When it stops early, the key is not stored. */
    method Descend(key: Key) returns (ok: bool, v: nat)
      requires Valid()
      ensures ok ==> Reached(nodes, lay, order, v, key, |key|)
      ensures !ok ==> key !in m
    {
      hide LoudsBits, TailFlags, KeyFlags, Labels, TailsPlaced, Encoded, ValuesOf, Sampled, Finished, Reached, TailMatches, Sum, ChildNumber, Begin;
      var i := 0;
      ok, v := true, 0;
      StartsAtRoot(nodes, lay, order, m, key);
      while i < |key|
        invariant 0 <= i <= |key| && v < |order| && Reached(nodes, lay, order, v, key, i)
      {
        var cb := ChildBegin(louds, Degrees(), v);
        var cc := ChildCount(louds, Degrees(), v);
        var hit := FindLabel(cb, cc, v, key[i]);
        if hit == cc {
          NoKid(nodes, lay, order, m, v, key, i);
          return false, v;
        }
        var cid := KidId(cb, v, hit);
        ThroughHit(nodes, lay, order, m, v, key, i, hit);
        ok, i := MatchTail(cid, key, i + 1);
        if !ok {
          return false, v;
        }
        ReachedInside(nodes, lay, order, cid, key, i);
        v := cid;
      }
    }

    /** Whether the key is stored. */
    method Contains(key: Key) returns (found: bool)
      requires Valid()
      ensures found <==> key in m
    {
      hide LoudsBits, TailFlags, KeyFlags, Labels, TailsPlaced, Encoded, ValuesOf, Sampled, Finished;
      var ok, v := Descend(key);
      if !ok {
        return false;
      }
      AtEnd(nodes, lay, order, m, v, key);
      found := terminals.Get(v);
    }

    /** The value of a stored key: its node's rank among the nodes with a key is its place in the
        value store. */
    method Lookup(key: Key) returns (r: Option<word>)
      requires Valid()
      ensures r == if key in m then Some(m[key]) else None
    {
      hide LoudsBits, TailFlags, KeyFlags, Labels, TailsPlaced, Encoded, ValuesOf, Sampled, Finished, RankOf;
      var ok, v := Descend(key);
      if !ok {
        return None;
      }
      AtEnd(nodes, lay, order, m, v, key);
      var stored := terminals.Get(v);
      if !stored {
        return None;
      }
      ValueByRank(nodes, order, v);
      var ordinal := terminals.Rank1(v);
      var value := Fetch(values, sample, ValuesOf(nodes, order, |order|), ordinal);
      r := Some(value);
    }
  }

  lemma ReachedInside(nodes: seq<Node>, lay: Layout, order: seq<nat>, v: nat, key: Key, i: nat)
    requires Reached(nodes, lay, order, v, key, i)
    ensures v < |order| && i <= |key|
  {
  }

  lemma WholeSections(nodes: seq<Node>, order: seq<nat>, s: Sections)
    requires NodesWritten(nodes, order, |order|, s) && EdgesWritten(nodes, order, |order|, s)
    ensures s.louds == LoudsBits(Degs(nodes, order)) && s.terminals == KeyFlags(nodes, order)
    ensures s.labels == Labels(nodes, order) && s.tailFlags == TailFlags(nodes, order)
  {
    hide LoudsBits;
    assert Degs(nodes, order)[..|order|] == Degs(nodes, order);
  }

  /** The map after inserting the entries one after another: a later value replaces an earlier one. */
  function Inserted(entries: seq<(Key, word)>): map<Key, word> {
    if entries == [] then map[] else
      var last := entries[|entries| - 1];
      Inserted(entries[..|entries| - 1])[last.0 := last.1]
  }

  /** A key has the value of its last insertion. */
  lemma {:induction false} LastInsertionWins(entries: seq<(Key, word)>, key: Key)
    ensures key in Inserted(entries) <==> exists i :: 0 <= i < |entries| && entries[i].0 == key
    ensures key in Inserted(entries) ==>
              exists i :: 0 <= i < |entries| && entries[i] == (key, Inserted(entries)[key]) && NotAfterwards(entries, i, key)
  {
    if entries != [] {
      var front, last := entries[..|entries| - 1], entries[|entries| - 1];
      LastInsertionWins(front, key);
      if last.0 == key {
        assert NotAfterwards(entries, |entries| - 1, key);
      } else if key in Inserted(front) {
        var i :| 0 <= i < |front| && front[i] == (key, Inserted(front)[key]) && NotAfterwards(front, i, key);
        assert entries[i] == front[i] && NotAfterwards(entries, i, key);
      }
    }
  }

  ghost predicate NotAfterwards(entries: seq<(Key, word)>, i: nat, key: Key) {
    forall j :: i < j < |entries| ==> entries[j].0 != key
  }

  lemma {:induction false} InsertedSize(entries: seq<(Key, word)>)
    ensures |Inserted(entries)| <= |entries|
  {
    if entries != [] {
      var front, last := entries[..|entries| - 1], entries[|entries| - 1];
      InsertedSize(front);
      assert Inserted(entries).Keys == Inserted(front).Keys + {last.0};
    }
  }

  /** From words to lookups: insert, compress, number, serialise. What the result answers is the
      map of the last insertions. */
  method BuildIndex(entries: seq<(Key, word)>) returns (s: SuccinctTrie)
    ensures s.Valid() && s.m == Inserted(entries)
  {
    hide Wired, Stores, Bytewise, NoDeadEnds, Queued, TightBelow, Shrunk, Inserted;
    var t := new RadixTrie();
    var i := 0;
    NothingInserted();
    while i < |entries|
      invariant 0 <= i <= |entries| && t.Growing(0) && t.m == Inserted(entries[..i]) && fresh(t)
    {
      OneMore(entries, i);
      t.Insert(entries[i].0, entries[i].1);
      i := i + 1;
    }
    assert entries[..i] == entries;
    RootPath(t.nodes, t.lay);
    Compress(t, 0);
    InsertedSize(entries);
    var order := NumberNodes(t, |entries|);
    s := new SuccinctTrie(t.nodes, t.lay, order, t.m);
  }

  lemma NothingInserted()
    ensures Inserted([]) == map[]
  {
  }

  lemma OneMore(entries: seq<(Key, word)>, i: nat)
    requires i < |entries|
    ensures Inserted(entries[..i + 1]) == Inserted(entries[..i])[entries[i].0 := entries[i].1]
  {
    assert entries[..i + 1][..i] == entries[..i];
  }
}
