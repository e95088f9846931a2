/** The prefix trie of a dictionary and its bit encoding: the specification the encoder
    writes and every walker reads. */
module Trie {
  import opened Bits
  import opened Varint
  import opened Keys

  const END: nat := 0
  const END_VAL: nat := 1
  const SKIP: nat := 2
  const BRANCH: nat := 5
  const NUM_CONTROL_CODES: nat := 6

  /** The symbol tables of a dictionary: ctrl holds the code of each control symbol,
      codeOf the code of each key byte, byteOf its inverse, isCtrl which codes are control. */
  datatype Symbols = Symbols(bps: nat, count: nat, ctrl: seq<nat>, codeOf: seq<nat>, byteOf: seq<byte>, isCtrl: seq<bool>)

  predicate Shaped(sym: Symbols) {
    && 1 <= sym.bps <= 8 && |sym.ctrl| == NUM_CONTROL_CODES
    && |sym.codeOf| == 256 && |sym.byteOf| == 256 && |sym.isCtrl| == 256
  }

  /** Byte b has a code of its own. */
  ghost predicate Covers(sym: Symbols, b: byte)
    requires Shaped(sym)
  {
    && NUM_CONTROL_CODES <= sym.codeOf[b] < 256 && sym.codeOf[b] < Pow2(sym.bps)
    && sym.byteOf[sym.codeOf[b]] == b
  }

  /** Control codes are 0 to 5 and the only ones marked as control; a byte that is not covered
      maps to code 0. */
  ghost predicate Canonical(sym: Symbols) {
    && Shaped(sym) && NUM_CONTROL_CODES < Pow2(sym.bps) <= 256
    && sym.ctrl == [0, 1, 2, 3, 4, 5]
    && (forall c :: 0 <= c < 256 ==> (sym.isCtrl[c] <==> c < NUM_CONTROL_CODES))
    && forall b: byte :: sym.codeOf[b] == 0 || Covers(sym, b)
  }

  /** How a key ends at a node: not at all, with a null value, or with a stored value. */
  datatype Terminal = NoKey | Plain | Valued

  datatype Trie = Node(run: Key, term: Terminal, kids: Kids)
  datatype Kids = NoKids | Kid(first: Trie, rest: Kids)

  /** A key, how it ends, and its ordinal among all keys. */
  datatype Item = Item(key: Key, term: Terminal, index: nat)

  function Len(kids: Kids): nat {
    if kids.NoKids? then 0 else 1 + Len(kids.rest)
  }

  function Count(t: Trie): nat {
    (if t.term.NoKey? then 0 else 1) + KidsCount(t.kids)
  }

  function KidsCount(kids: Kids): nat {
    if kids.NoKids? then 0 else Count(kids.first) + KidsCount(kids.rest)
  }

  /** The keys below t in depth-first order, numbered from index on. */
  function Items(t: Trie, prefix: Key, index: nat): (items: seq<Item>)
    ensures |items| == Count(t)
  {
    var key := prefix + t.run;
    if t.term.NoKey? then KidItems(t.kids, key, index)
    else [Item(key, t.term, index)] + KidItems(t.kids, key, index + 1)
  }

  function KidItems(kids: Kids, prefix: Key, index: nat): (items: seq<Item>)
    ensures |items| == KidsCount(kids)
  {
    if kids.NoKids? then []
    else Items(kids.first, prefix, index) + KidItems(kids.rest, prefix, index + Count(kids.first))
  }

  /** Every leaf holds a key, a node without one branches, and siblings start with distinct
      bytes in ascending order. */
  predicate WellFormed(t: Trie) {
    && (t.term.NoKey? ==> Len(t.kids) >= 2)
    && KidsWellFormed(t.kids, -1)
  }

  predicate KidsWellFormed(kids: Kids, above: int) {
    kids.Kid? ==>
      && kids.first.run != [] && above < kids.first.run[0]
      && WellFormed(kids.first)
      && KidsWellFormed(kids.rest, kids.first.run[0])
  }

  /** Levels of nested BRANCHes. */
  function Depth(t: Trie): nat {
    if t.kids.NoKids? then 0 else 1 + KidsDepth(t.kids)
  }

  function KidsDepth(kids: Kids): nat {
    if kids.NoKids? then 0
    else if Depth(kids.first) > KidsDepth(kids.rest) then Depth(kids.first) else KidsDepth(kids.rest)
  }

  ghost predicate Spelled(sym: Symbols, t: Trie)
    requires Shaped(sym)
  {
    (forall b :: b in t.run ==> Covers(sym, b)) && KidsSpelled(sym, t.kids)
  }

  ghost predicate KidsSpelled(sym: Symbols, kids: Kids)
    requires Shaped(sym)
  {
    kids.Kid? ==> Spelled(sym, kids.first) && KidsSpelled(sym, kids.rest)
  }

  function RunBits(sym: Symbols, run: Key): (bs: seq<bool>)
    requires Shaped(sym)
    ensures |bs| == |run| * sym.bps
  {
    if run == [] then [] else BitsOf(sym.codeOf[run[0]], sym.bps) + RunBits(sym, run[1..])
  }

  function TermBits(sym: Symbols, term: Terminal, index: nat): seq<bool>
    requires Shaped(sym)
  {
    match term
    case NoKey => []
    case Plain => BitsOf(sym.ctrl[END], sym.bps)
    case Valued => BitsOf(sym.ctrl[END_VAL], sym.bps) + Varint.Varint(index)
  }

  /** Index of the first key below a node's children. */
  function KidsIndex(term: Terminal, index: nat): nat {
    if term.NoKey? then index else index + 1
  }

  function NodeBits(sym: Symbols, t: Trie, index: nat): seq<bool>
    requires Shaped(sym)
    decreases t, 1
  {
    RunBits(sym, t.run) + (TermBits(sym, t.term, index) + BranchBits(sym, t.kids, KidsIndex(t.term, index)))
  }

  function BranchBits(sym: Symbols, kids: Kids, index: nat): seq<bool>
    requires Shaped(sym)
    decreases kids, 1
  {
    if kids.NoKids? then []
    else BitsOf(sym.ctrl[BRANCH], sym.bps) + (Varint.Varint(Len(kids)) + KidsBits(sym, kids, index))
  }

  /** Every child but the last is preceded by the distance to its next sibling. */
  function KidsBits(sym: Symbols, kids: Kids, index: nat): seq<bool>
    requires Shaped(sym) && kids.Kid?
    decreases kids, 0
  {
    var child := NodeBits(sym, kids.first, index);
    if kids.rest.NoKids? then child
    else SkipBits(sym, |child|) + (child + KidsBits(sym, kids.rest, index + Count(kids.first)))
  }

  function SkipBits(sym: Symbols, distance: nat): seq<bool>
    requires Shaped(sym)
  {
    BitsOf(sym.ctrl[SKIP], sym.bps) + Varint.Varint(distance)
  }
}
