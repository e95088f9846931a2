/** An opened dictionary, and what its bits hold when an encoder wrote them. */
module Dictionary {
  import opened Bits
  import opened Results
  import opened Varint
  import opened Trie

  /** What opening a buffer yields; s is the buffer's bits. */
  datatype Dict = Dict(s: seq<bool>, sym: Symbols, numKeys: nat, hasValues: bool, trieStart: nat, valueStart: nat)

  /** The trie at pos, filling the stream up to end, over an alphabet the dictionary can spell. */
  ghost predicate Holds(sym: Symbols, s: seq<bool>, pos: nat, end: nat, t: Trie, index: nat) {
    && Canonical(sym) && WellFormed(t) && Spelled(sym, t)
    && index + Count(t) <= 0x1_0000_0000 && |s| < 0x1_0000_0000_0000_0000
    && At(s, pos, NodeBits(sym, t, index)) && pos + |NodeBits(sym, t, index)| == end
  }

  /** A run of siblings at pos, likewise. */
  ghost predicate HoldsKids(sym: Symbols, s: seq<bool>, pos: nat, end: nat, kids: Kids, above: int, index: nat) {
    && Canonical(sym) && KidsWellFormed(kids, above) && KidsSpelled(sym, kids)
    && index + KidsCount(kids) <= 0x1_0000_0000 && |s| < 0x1_0000_0000_0000_0000
    && (kids.Kid? ==> At(s, pos, KidsBits(sym, kids, index)) && pos + |KidsBits(sym, kids, index)| == end)
  }

  lemma ReadSymbolAt(sym: Symbols, s: seq<bool>, pos: nat, code: nat)
    requires Canonical(sym) && code < Pow2(sym.bps) && At(s, pos, BitsOf(code, sym.bps))
    ensures ReadBits(s, pos, sym.bps) == Ok(code)
  {
    ReadBitsAt(s, pos, code, sym.bps);
  }

  /** A control symbol and its operand read back. */
  lemma ReadControlAt(sym: Symbols, s: seq<bool>, pos: nat, c: nat, operand: word)
    requires Canonical(sym) && c < NUM_CONTROL_CODES
    requires At(s, pos, BitsOf(sym.ctrl[c], sym.bps) + Varint.Varint(operand))
    ensures ReadBits(s, pos, sym.bps) == Ok(c)
    ensures ReadVarint(s, pos + sym.bps) == Ok((operand, pos + sym.bps + |Varint.Varint(operand)|))
  {
    hide Varint.Varint, BitsOf, ReadBits, ReadVarint;
    AtSplit(s, pos, BitsOf(sym.ctrl[c], sym.bps), Varint.Varint(operand));
    ReadSymbolAt(sym, s, pos, c);
    ReadVarintAt(s, pos + sym.bps, operand);
  }

  /** Siblings start with different bytes, so there are at most 256 of them. */
  lemma {:induction false} FewKids(kids: Kids, above: int)
    requires KidsWellFormed(kids, above) && -1 <= above < 256
    ensures Len(kids) <= 255 - above
  {
    if kids.Kid? {
      FewKids(kids.rest, kids.first.run[0]);
    }
  }

  /** Position of a node's terminal, of what follows it, and of its first child. */
  function TermPos(sym: Symbols, pos: nat, t: Trie): nat
    requires Shaped(sym)
  {
    pos + |RunBits(sym, t.run)|
  }

  function AfterTerm(sym: Symbols, pos: nat, t: Trie, index: nat): nat
    requires Shaped(sym)
  {
    TermPos(sym, pos, t) + |TermBits(sym, t.term, index)|
  }

  function KidsPos(sym: Symbols, pos: nat, t: Trie, index: nat): nat
    requires Shaped(sym)
  {
    AfterTerm(sym, pos, t, index) + sym.bps + |Varint.Varint(Len(t.kids))|
  }

  lemma HoldsParts(sym: Symbols, s: seq<bool>, pos: nat, end: nat, t: Trie, index: nat)
    requires Holds(sym, s, pos, end, t, index)
    ensures At(s, pos, RunBits(sym, t.run))
    ensures At(s, TermPos(sym, pos, t), TermBits(sym, t.term, index))
    ensures t.kids.NoKids? ==> AfterTerm(sym, pos, t, index) == end
    ensures t.kids.Kid? ==>
              && At(s, AfterTerm(sym, pos, t, index), BitsOf(sym.ctrl[BRANCH], sym.bps) + Varint.Varint(Len(t.kids)))
              && HoldsKids(sym, s, KidsPos(sym, pos, t, index), end, t.kids, -1, KidsIndex(t.term, index))
              && KidsPos(sym, pos, t, index) <= end && Len(t.kids) <= 256
  {
    hide RunBits, TermBits, KidsBits, BitsOf, Varint.Varint, At;
    var run, term := RunBits(sym, t.run), TermBits(sym, t.term, index);
    var branch := BranchBits(sym, t.kids, KidsIndex(t.term, index));
    AtSplit(s, pos, run, term + branch);
    AtSplit(s, TermPos(sym, pos, t), term, branch);
    FewKids(t.kids, -1);
    if t.kids.Kid? {
      var code, n := BitsOf(sym.ctrl[BRANCH], sym.bps), Varint.Varint(Len(t.kids));
      var kids := KidsBits(sym, t.kids, KidsIndex(t.term, index));
      Associative(code, n, kids);
      AtSplit(s, AfterTerm(sym, pos, t, index), code + n, kids);
    }
  }

  /** Where the first of several siblings starts and ends. */
  function FirstPos(sym: Symbols, pos: nat, kids: Kids, index: nat): nat
    requires Shaped(sym) && kids.Kid?
  {
    if kids.rest.NoKids? then pos
    else pos + sym.bps + |Varint.Varint(|NodeBits(sym, kids.first, index)|)|
  }

  lemma HoldsKidsParts(sym: Symbols, s: seq<bool>, pos: nat, end: nat, kids: Kids, above: int, index: nat)
    requires HoldsKids(sym, s, pos, end, kids, above, index) && kids.Kid?
    ensures var size := |NodeBits(sym, kids.first, index)|;
            var p := FirstPos(sym, pos, kids, index);
            var next := if kids.rest.NoKids? then end else p + size;
            && size <= |s| && p + size == next && next <= |s|
            && Holds(sym, s, p, next, kids.first, index)
            && HoldsKids(sym, s, next, end, kids.rest, kids.first.run[0], index + Count(kids.first))
            && (kids.rest.Kid? ==> At(s, pos, SkipBits(sym, size)))
  {
    hide NodeBits, BitsOf, Varint.Varint, At, WellFormed, Spelled;
    var child := NodeBits(sym, kids.first, index);
    assert |KidsBits(sym, kids, index)| <= |s| by {
      AtBound(s, pos, KidsBits(sym, kids, index));
    }
    if kids.rest.Kid? {
      var rest := KidsBits(sym, kids.rest, index + Count(kids.first));
      AtSplit(s, pos, SkipBits(sym, |child|), child + rest);
      AtSplit(s, pos + |SkipBits(sym, |child|)|, child, rest);
    }
    AtBound(s, FirstPos(sym, pos, kids, index), child);
  }

  lemma AtBound(s: seq<bool>, pos: nat, chunk: seq<bool>)
    requires At(s, pos, chunk)
    ensures pos + |chunk| <= |s|
  {
  }
}
