/** What a reader meets at each place of an encoded trie. */
module Navigation {
  import opened Bits
  import opened Results
  import opened Varint
  import opened Keys
  import opened Trie
  import opened Dictionary
  import opened Subtree

  lemma {:induction false} CountPositive(t: Trie)
    requires WellFormed(t)
    ensures Count(t) > 0
  {
    if t.term.NoKey? {
      CountPositive(t.kids.first);
    }
  }

  lemma FirstSymbol(sym: Symbols, s: seq<bool>, pos: nat, end: nat, t: Trie, index: nat, b: byte)
    requires Holds(sym, s, pos, end, t, index) && t.run != []
    ensures ReadBits(s, pos, sym.bps) == Ok(sym.codeOf[t.run[0]]) && pos < end
    ensures Covers(sym, t.run[0]) && pos + sym.bps <= |s|
    ensures sym.codeOf[t.run[0]] == sym.codeOf[b] <==> t.run[0] == b
  {
    hide BitsOf, ReadBits, TermBits, BranchBits;
    HoldsParts(sym, s, pos, end, t, index);
    var code := sym.codeOf[t.run[0]];
    assert Covers(sym, t.run[0]);
    AtSplit(s, pos, BitsOf(code, sym.bps), RunBits(sym, t.run[1..]));
    ReadSymbolAt(sym, s, pos, code);
  }

  lemma CanonicalKids(sym: Symbols, s: seq<bool>, pos: nat, end: nat, kids: Kids, above: int, index: nat)
    requires HoldsKids(sym, s, pos, end, kids, above, index)
    ensures Canonical(sym) && |s| < 0x1_0000_0000_0000_0000
    ensures kids.Kid? ==> kids.first.run != [] && pos <= |s|
  {
  }

  /** A node one byte into its run. */
  lemma HoldsShorter(sym: Symbols, s: seq<bool>, pos: nat, end: nat, t: Trie, index: nat)
    requires Holds(sym, s, pos, end, t, index) && t.run != []
    ensures Holds(sym, s, pos + sym.bps, end, t.(run := t.run[1..]), index)
  {
    hide BitsOf, TermBits, BranchBits, RunBits;
    var t' := t.(run := t.run[1..]);
    RunSplit(sym, t.run);
    var symbol := BitsOf(sym.codeOf[t.run[0]], sym.bps);
    var others := TermBits(sym, t.term, index) + BranchBits(sym, t.kids, KidsIndex(t.term, index));
    Associative(symbol, RunBits(sym, t'.run), others);
    AtSplit(s, pos, symbol, NodeBits(sym, t', index));
  }

  lemma RunSplit(sym: Symbols, run: Key)
    requires Shaped(sym) && run != []
    ensures RunBits(sym, run) == BitsOf(sym.codeOf[run[0]], sym.bps) + RunBits(sym, run[1..])
  {
  }

  lemma NoPick(b: byte, index: nat)
    ensures Pick(NoKids, b, index) == None
  {
  }

  lemma CanonicalNode(sym: Symbols, s: seq<bool>, pos: nat, end: nat, t: Trie, index: nat)
    requires Holds(sym, s, pos, end, t, index)
    ensures Canonical(sym) && |s| < 0x1_0000_0000_0000_0000 && pos <= |s| && index < 0x1_0000_0000
    ensures t.term.NoKey? ==> t.kids.Kid?
  {
    CountPositive(t);
  }

  lemma AtTerminal(sym: Symbols, s: seq<bool>, pos: nat, end: nat, t: Trie, index: nat)
    requires Holds(sym, s, pos, end, t, index) && t.run == []
    ensures Shaped(sym) && TermPos(sym, pos, t) == pos < end
    ensures match t.term
            case NoKey => AfterTerm(sym, pos, t, index) == pos
            case Plain => ReadBits(s, pos, sym.bps) == Ok(END) && AfterTerm(sym, pos, t, index) == pos + sym.bps
            case Valued => ReadBits(s, pos, sym.bps) == Ok(END_VAL)
                           && ReadVarint(s, pos + sym.bps) == Ok((index, AfterTerm(sym, pos, t, index)))
    ensures t.kids.NoKids? ==> AfterTerm(sym, pos, t, index) == end
    ensures t.kids.Kid? ==>
              && At(s, AfterTerm(sym, pos, t, index), BitsOf(sym.ctrl[BRANCH], sym.bps) + Varint.Varint(Len(t.kids)))
              && HoldsKids(sym, s, KidsPos(sym, pos, t, index), end, t.kids, -1, KidsIndex(t.term, index))
              && AfterTerm(sym, pos, t, index) < KidsPos(sym, pos, t, index) <= end && Len(t.kids) <= 256
  {
    hide NodeBits, BitsOf, ReadBits, ReadVarint, At, Varint.Varint, WellFormed, Spelled, HoldsKids, Covers;
    CanonicalNode(sym, s, pos, end, t, index);
    HoldsParts(sym, s, pos, end, t, index);
    match t.term
    case NoKey =>
    case Plain => ReadSymbolAt(sym, s, pos, END);
    case Valued => ReadControlAt(sym, s, pos, END_VAL, index);
  }

  lemma AfterTermBeyond(sym: Symbols, pos: nat, t: Trie, index: nat)
    requires Shaped(sym)
    ensures AfterTerm(sym, pos, t, index) >= pos
  {
  }
}
