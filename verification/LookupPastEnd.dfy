/** Why the greatest key is an exception: a walk past it goes on into the bits after the trie. */
module LookupPastEnd {
  import opened Bits
  import opened Results
  import opened Varint
  import opened Keys
  import opened Values
  import opened Trie
  import opened TrieBuild
  import opened Dictionary
  import opened Iteration
  import opened Navigation
  import opened IterateAll
  import opened Lookup
  import opened LookupAgrees

  lemma {:induction false} LastIsAbove(kids: Kids, above: int)
    requires KidsWellFormed(kids, above) && kids.Kid?
    ensures LastKid(kids).run != [] && above < LastKid(kids).run[0]
  {
    if kids.rest.Kid? {
      LastIsAbove(kids.rest, kids.first.run[0]);
    }
  }

  /** The last child is chosen by its own first byte; it ends where its parent does. */
  lemma {:induction false} ChooseLast(
    sym: Symbols, s: seq<bool>, pos: nat, end: nat, kids: Kids, above: int, index: nat, c: nat, n: nat, b: byte)
    returns (p: nat, i: nat)
    requires HoldsKids(sym, s, pos, end, kids, above, index) && kids.Kid? && c + Len(kids) == n
    requires LastKid(kids).run != [] && LastKid(kids).run[0] == b
    ensures Holds(sym, s, p, end, LastKid(kids), i)
    ensures ChooseChild(sym, s, pos, c, n, b) == Ok(p + sym.bps)
    decreases kids
  {
    hide Holds, HoldsKids, NodeBits, BitsOf, ReadBits, ReadVarint, At, Varint.Varint, Covers, LastKey, IsControl;
    CanonicalKids(sym, s, pos, end, kids, above, index);
    var size := |NodeBits(sym, kids.first, index)|;
    HoldsKidsParts(sym, s, pos, end, kids, above, index);
    p, i := FirstPos(sym, pos, kids, index), index;
    FirstSymbol(sym, s, p, if kids.rest.NoKids? then end else p + size, kids.first, index, b);
    CoveredCode(sym, kids.first.run[0]);
    assert Len(kids) == 1 + Len(kids.rest);
    if kids.rest.Kid? {
      assert Len(kids.rest) > 0 && LastKid(kids) == LastKid(kids.rest);
      ReadControlAt(sym, s, pos, SKIP, size);
      RestAscends(sym, s, p + size, end, kids, index + Count(kids.first));
      var p', i' := ChooseLast(sym, s, p + size, end, kids.rest, kids.first.run[0], index + Count(kids.first), c + 1, n, b);
      p, i := p', i';
    }
  }

  lemma RestAscends(sym: Symbols, s: seq<bool>, pos: nat, end: nat, kids: Kids, index: nat)
    requires kids.Kid? && kids.rest.Kid? && kids.first.run != []
    requires HoldsKids(sym, s, pos, end, kids.rest, kids.first.run[0], index)
    ensures LastKid(kids.rest).run != [] && kids.first.run[0] < LastKid(kids.rest).run[0]
  {
    LastIsAbove(kids.rest, kids.first.run[0]);
  }

  /** A walk along a key that strictly extends the greatest key of a subtree leaves the subtree
      behind that key, with the rest of the key still to match. */
  lemma {:induction false} ProbePastLast(
    sym: Symbols, s: seq<bool>, pos: nat, end: nat, t: Trie, index: nat, key: Key, matched: nat)
    requires Holds(sym, s, pos, end, t, index) && matched <= |key| && LastKey(t) < key[matched..]
    ensures matched + |LastKey(t)| <= |key|
    ensures Probe(sym, s, pos, key, matched, false) == Probe(sym, s, end, key, matched + |LastKey(t)|, true)
    decreases |key| - matched
  {
    hide Holds, BitsOf, ReadBits, ReadVarint, Covers, AfterTerm, Probe, ChooseChild, KidsPos, LastKey;
    var rest := key[matched..];
    CanonicalNode(sym, s, pos, end, t, index);
    LastKeyLength(t);
    if t.run != [] {
      LastKeyStarts(t, rest);
      ProbeLiteral(sym, s, pos, end, t, index, key, matched);
      HoldsShorter(sym, s, pos, end, t, index);
      assert key[matched + 1..] == rest[1..];
      LastKeyShorter(t, rest);
      ProbePastLast(sym, s, pos + sym.bps, end, t.(run := t.run[1..]), index, key, matched + 1);
    } else if t.kids.NoKids? {
      ProbeLeaf(sym, s, pos, end, t, index, key, matched);
    } else {
      var k, at := LastKid(t.kids), KidsPos(sym, pos, t, index);
      LastKeyOfBranch(t);
      LastOfBranch(sym, s, pos, end, t, index);
      LastKeyStarts(k, rest);
      LastKeyLength(k);
      ProbeOn(sym, s, pos, end, t, index, key, matched);
      AtTerminal(sym, s, pos, end, t, index);
      var p, i := ChooseLast(sym, s, at, end, t.kids, -1, KidsIndex(t.term, index), 0, Len(t.kids), rest[0]);
      HoldsShorter(sym, s, p, end, k, i);
      assert key[matched + 1..] == rest[1..];
      LastKeyShorter(k, rest);
      ProbePastLast(sym, s, p + sym.bps, end, k.(run := k.run[1..]), i, key, matched + 1);
    }
  }

  lemma LastKeyLength(t: Trie)
    ensures t.run != [] ==> |LastKey(t)| == 1 + |LastKey(t.(run := t.run[1..]))|
    ensures t.run == [] && t.kids.NoKids? ==> LastKey(t) == []
  {
  }

  lemma LastKeyStarts(t: Trie, rest: Key)
    requires t.run != [] && LastKey(t) < rest
    ensures rest != [] && rest[0] == t.run[0]
  {
    assert LastKey(t)[0] == t.run[0];
  }

  lemma LastOfBranch(sym: Symbols, s: seq<bool>, pos: nat, end: nat, t: Trie, index: nat)
    requires Holds(sym, s, pos, end, t, index) && t.kids.Kid?
    ensures LastKid(t.kids).run != []
  {
    LastIsAbove(t.kids, -1);
  }

  lemma ProbeLeaf(sym: Symbols, s: seq<bool>, pos: nat, end: nat, t: Trie, index: nat, key: Key, matched: nat)
    requires Holds(sym, s, pos, end, t, index) && t.run == [] && t.kids.NoKids? && matched < |key|
    ensures Probe(sym, s, pos, key, matched, false) == Probe(sym, s, end, key, matched, true)
  {
    hide Holds, HoldsKids, NodeBits, BitsOf, ReadBits, ReadVarint, At, Varint.Varint, Covers, ChooseChild;
    CanonicalNode(sym, s, pos, end, t, index);
    AtTerminal(sym, s, pos, end, t, index);
  }

  /** Exactly what lookup does with a key that strictly extends the greatest one: it goes on
      reading symbols where the value store starts, as if the store were a branch of the trie. */
  lemma LookupPastLast(d: Dict, es: seq<Entry>, key: Key)
    requires Encodes(d, es) && es != [] && es[|es| - 1].key < key
    ensures var n := |es[|es| - 1].key|;
            LookupKey(d, key)
            == match Probe(d.sym, d.s, d.valueStart, key, n, true)
               case Miss(e) => Err(e)
               case NullHit => Ok(Null)
               case ValueHit(i) => if d.hasValues then FetchValue(d, i) else Ok(Null)
    ensures Closed(d.sym, d.s, d.valueStart) ==> LookupKey(d, key) == Err(NotFound)
  {
    hide Holds, Probe, FetchValue, StoreBits, At, Sorted, Closed;
    ProbePastEntries(d, es, key);
    TrieStartBound(d, es);
    if Closed(d.sym, d.s, d.valueStart) {
      ClosedStops(d, key, |es[|es| - 1].key|);
    }
  }

  lemma ProbePastEntries(d: Dict, es: seq<Entry>, key: Key)
    requires Encodes(d, es) && es != [] && es[|es| - 1].key < key
    ensures Probe(d.sym, d.s, d.trieStart, key, 0, false)
         == Probe(d.sym, d.s, d.valueStart, key, |es[|es| - 1].key|, true)
  {
    hide Holds, TrieOf, Items, Probe, LastKey, Sorted, StoreBits, At;
    var n, t := |es|, TrieOf(es, d.hasValues, 0, |es|, 0);
    TrieWellFormed(es, d.hasValues, 0, n, 0);
    TrieItems(es, d.hasValues, 0, n, 0, 0);
    assert es[0].key[..0] == [] && key[0..] == key;
    LastItem(t, [], 0);
    assert [] + LastKey(t) == LastKey(t);
    assert Expected(es, d.hasValues, 0, n, 0)[n - 1].key == es[n - 1].key;
    ProbePastLast(d.sym, d.s, d.trieStart, d.valueStart, t, 0, key, 0);
  }

  lemma ClosedStops(d: Dict, key: Key, n: nat)
    requires Shaped(d.sym) && n <= |key| && Closed(d.sym, d.s, d.valueStart)
    ensures Probe(d.sym, d.s, d.valueStart, key, n, true) == Miss(NotFound)
  {
    hide ReadBits, ReadVarint;
  }
}
