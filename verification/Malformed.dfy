/** What the walks over a trie make of bits that no encoder writes: lookup, iteration, prefix search and
    the depth-first walk of the bindings look at the same symbols and do not agree about them. */
module Malformed {
  import opened Bits
  import opened Results
  import opened Varint
  import opened Keys
  import opened Trie
  import opened SymbolTable
  import opened Dictionary
  import opened Iteration
  import opened Lookup
  import opened DepthFirst
  import opened PrefixSearch

  /** A SKIP or one of the two control codes without a use, where a node should go on: lookup
      fails with another error than iteration and prefix search, and the bindings take it for the
      byte that the table has for the code. */
  lemma StrayControl(sym: Symbols, s: seq<bool>, pos: nat, end: nat, path: Key, key: Key, matched: nat)
    requires Canonical(sym) && pos < end && matched <= |key|
    requires ReadBits(s, pos, sym.bps) in {Ok(2), Ok(3), Ok(4)}
    ensures Probe(sym, s, pos, key, matched, false) == Miss(InvalidParam)
    ensures Walk(sym, s, pos, end, path) == Lost(Corrupt)
    ensures matched < |key| ==> DescendTo(sym, s, pos, end, key, matched) == Err(Corrupt)
    ensures var byteOf := sym.byteOf[ReadBits(s, pos, sym.bps).value];
            DfsWalk(sym, s, pos, end, path) == DfsWalk(sym, s, pos + sym.bps, end, path + [byteOf])
  {
    hide ReadVarint;
  }

  /** A symbol other than BRANCH behind the end of a key: for lookup the key is not there, the
      others fail with different errors. */
  lemma NoBranchBehindKey(sym: Symbols, s: seq<bool>, pos: nat, end: nat, path: Key, key: Key, matched: nat, stack: seq<Frame>)
    requires Canonical(sym) && pos < end && matched <= |key| && ReadBits(s, pos, sym.bps).Ok?
    requires ReadBits(s, pos, sym.bps).value >= 2 && ReadBits(s, pos, sym.bps).value != 5
    ensures Probe(sym, s, pos, key, matched, true) == Miss(NotFound)
    ensures BranchAfterKey(sym, s, pos, end, |path|, stack) == Err(Corrupt)
    ensures BranchIfPresent(sym, s, pos, end, path) == Err(InvalidParam)
  {
    hide ReadBits, ReadVarint;
  }

  /** Another end of a key behind the end of a key: lookup goes on as if it were one. */
  lemma SecondEnd(sym: Symbols, s: seq<bool>, pos: nat, end: nat, path: Key, key: Key, matched: nat, stack: seq<Frame>)
    requires Canonical(sym) && pos < end && matched < |key| && ReadBits(s, pos, sym.bps) == Ok(0)
    ensures Probe(sym, s, pos, key, matched, true) == Probe(sym, s, pos + sym.bps, key, matched, true)
    ensures BranchAfterKey(sym, s, pos, end, |path|, stack) == Err(Corrupt)
    ensures BranchIfPresent(sym, s, pos, end, path) == Err(InvalidParam)
  {
    hide ReadBits, ReadVarint;
  }

  /** Fewer bits than a symbol: all of them run out, but behind the end of a key lookup reports that
      the key is not there. */
  lemma OutOfBits(sym: Symbols, s: seq<bool>, pos: nat, end: nat, path: Key, key: Key, matched: nat, stack: seq<Frame>)
    requires Canonical(sym) && pos < end && matched <= |key| && pos + sym.bps > |s|
    ensures Probe(sym, s, pos, key, matched, false) == Miss(Eof) && Probe(sym, s, pos, key, matched, true) == Miss(NotFound)
    ensures matched < |key| ==> DescendTo(sym, s, pos, end, key, matched) == Err(if pos > |s| then InvalidPosition else Eof)
    ensures Walk(sym, s, pos, end, path) == Lost(Eof) && BranchAfterKey(sym, s, pos, end, |path|, stack) == Err(Eof)
    ensures DfsWalk(sym, s, pos, end, path) == Err(Eof) && BranchIfPresent(sym, s, pos, end, path) == Err(Eof)
  {
    hide ReadVarint;
  }

  /** Another symbol where a SKIP should be: iteration and prefix search insist on it, while lookup
      passes over the child by the distance behind whatever symbol it is. */
  lemma NoSkip(sym: Symbols, s: seq<bool>, front: seq<Frame>, f: Frame, c: nat, n: nat, b: byte, distance: nat, child: nat)
    requires Canonical(sym) && f.nextChild <= |s| && f.remaining > 1 && c + 1 < n
    requires ReadBits(s, f.nextChild, sym.bps).Ok? && ReadBits(s, f.nextChild, sym.bps).value != 2
    requires ReadVarint(s, f.nextChild + sym.bps) == Ok((distance, child)) && child + distance <= |s|
    requires ReadBits(s, child, sym.bps).Ok? && ReadBits(s, child, sym.bps).value != sym.codeOf[b]
    ensures Sibling(sym, s, front + [f]) == Err(Corrupt)
    ensures FindChild(sym, s, f.nextChild, f.subtreeEnd, c, n, sym.codeOf[b]) == Err(Corrupt)
    ensures ChooseChild(sym, s, f.nextChild, c, n, b) == ChooseChild(sym, s, child + distance, c + 1, n, b)
  {
    hide ReadVarint, ReadBits;
    assert (front + [f])[..|front + [f]| - 1] == front;
  }

  /** A trie said to start behind the last bit. */
  lemma TrieOutside(d: Dict, key: Key)
    requires Shaped(d.sym) && d.numKeys > 0 && |d.s| < d.trieStart
    ensures LookupKey(d, key) == Err(InvalidPosition) && Next(d, Iterate(d)).0 == Stop(InvalidPosition)
    ensures key != [] && d.trieStart < d.valueStart ==> FindPrefix(d, key) == Err(InvalidPosition)
  {
    hide Probe, Search;
  }

  /** A configuration is refused for a width outside of 1 to 8, and for a number of symbols that
      leaves no room for the control codes or does not fit the width. */
  lemma ConfigRefused(s: seq<bool>, pos: nat)
    requires pos + 12 <= |s|
    ensures var bps, count := Val(s[pos..pos + 4]), Val(s[pos + 4..pos + 12]);
            !(1 <= bps <= 8 && 6 <= count <= Pow2(bps)) ==> ParseConfig(s, pos) == Err(Error.Alphabet)
  {
    hide Val, Pow2, ReadCtrl, ReadTable;
    assert s[pos + 4..pos + 4 + 8] == s[pos + 4..pos + 12];
  }

  /** A table entry of 256 or more is passed over: the code keeps the byte it has. */
  lemma WideEntry(s: seq<bool>, pos: nat, sym: Symbols, code: nat)
    requires |sym.codeOf| == 256 && |sym.byteOf| == 256 && code < sym.count
    ensures var entry := ReadVarint(s, pos);
            entry.Ok? && entry.value.0 >= 256 ==> ReadTable(s, pos, sym, code) == ReadTable(s, entry.value.1, sym, code + 1)
  {
    hide ReadVarint;
  }
}
