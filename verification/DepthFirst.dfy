/** The bindings' decoder: a recursive depth-first walk that collects the keys, on any buffer; and
    what it collects from the trie an encoder wrote. */
module DepthFirst {
  import opened Bits
  import opened Results
  import opened Varint
  import opened Keys
  import opened Trie
  import opened TrieSize
  import opened Dictionary
  import opened Iteration
  import opened Navigation

  /** The keys in the order they are met, and where the reader ends up. */
  datatype Walked = Walked(keys: seq<Key>, pos: nat)

  function Left(s: seq<bool>, pos: nat): nat {
    if pos <= |s| then |s| - pos else 0
  }

  function DfsWalk(sym: Symbols, s: seq<bool>, pos: nat, end: nat, key: Key): (r: Result<Walked>)
    requires Shaped(sym)
    ensures r.Ok? ==> pos <= r.value.pos
    decreases Left(s, pos), 1
  {
    if pos >= end then Ok(Walked([], pos)) else
    var code :- ReadBits(s, pos, sym.bps);
    var p := pos + sym.bps;
    if code == sym.ctrl[END] then
      var rest :- BranchIfPresent(sym, s, p, end, key);
      Ok(rest.(keys := [key] + rest.keys))
    else if code == sym.ctrl[END_VAL] then
      var v :- ReadVarint(s, p);
      var rest :- BranchIfPresent(sym, s, v.1, end, key);
      Ok(rest.(keys := [key] + rest.keys))
    else if code == sym.ctrl[BRANCH] then
      var n :- ReadVarint(s, p);
      WalkBranch(sym, s, n.1, n.1, end, key, 0, n.0)
    else DfsWalk(sym, s, p, end, key + [ByteOf(sym, code)])
  }

  function BranchIfPresent(sym: Symbols, s: seq<bool>, pos: nat, end: nat, key: Key): (r: Result<Walked>)
    requires Shaped(sym)
    ensures r.Ok? ==> pos <= r.value.pos
    decreases Left(s, pos), 0
  {
    if pos >= end then Ok(Walked([], pos)) else
    var code :- ReadBits(s, pos, sym.bps);
    if code != sym.ctrl[BRANCH] then Err(InvalidParam) else
    var n :- ReadVarint(s, pos + sym.bps);
    WalkBranch(sym, s, n.1, n.1, end, key, 0, n.0)
  }

  /** The children numbered c to n of a branch whose children start at base. A SKIP bounds its
      child and says where the next one starts, even before the point the child was read to. */
  function WalkBranch(sym: Symbols, s: seq<bool>, base: nat, pos: nat, end: nat, key: Key, c: nat, n: nat): (r: Result<Walked>)
    requires Shaped(sym) && base <= pos
    ensures r.Ok? ==> pos <= r.value.pos
    decreases Left(s, base), 2, if c < n then n - c else 0
  {
    if c >= n then Ok(Walked([], pos))
    else if c < n - 1 then
      var _ :- ReadBits(s, pos, sym.bps);
      var d :- ReadVarint(s, pos + sym.bps);
      var child :- DfsWalk(sym, s, d.1, d.1 + d.0, key);
      var rest :- WalkBranch(sym, s, base, d.1 + d.0, end, key, c + 1, n);
      Ok(rest.(keys := child.keys + rest.keys))
    else DfsWalk(sym, s, pos, end, key)
  }

  ghost function ItemKeys(items: seq<Item>): (ks: seq<Key>)
    ensures |ks| == |items|
  {
    seq(|items|, i requires 0 <= i < |items| => items[i].key)
  }

  lemma ItemKeysConcat(a: seq<Item>, b: seq<Item>)
    ensures ItemKeys(a + b) == ItemKeys(a) + ItemKeys(b)
  {
  }

  lemma {:induction false} DfsRun(sym: Symbols, s: seq<bool>, pos: nat, end: nat, key: Key, run: Key)
    requires Canonical(sym) && (forall b :: b in run ==> Covers(sym, b))
    requires At(s, pos, RunBits(sym, run)) && pos + |RunBits(sym, run)| <= end
    ensures DfsWalk(sym, s, pos, end, key) == DfsWalk(sym, s, pos + |RunBits(sym, run)|, end, key + run)
    decreases |run|
  {
    hide BitsOf, ReadBits, ReadVarint, At, WalkBranch, BranchIfPresent;
    if run == [] {
      assert key + run == key;
    } else {
      assert Covers(sym, run[0]);
      var code := sym.codeOf[run[0]];
      AtSplit(s, pos, BitsOf(code, sym.bps), RunBits(sym, run[1..]));
      ReadSymbolAt(sym, s, pos, code);
      DfsRun(sym, s, pos + sym.bps, end, key + [run[0]], run[1..]);
      assert key + [run[0]] + run[1..] == key + run;
    }
  }

  /** Past the run of a node, with the whole key at hand. */
  lemma DfsPastRun(sym: Symbols, s: seq<bool>, pos: nat, end: nat, stop: nat, key: Key, t: Trie, index: nat)
    requires Holds(sym, s, pos, end, t, index) && (TermPos(sym, pos, t) <= stop || stop == end)
    ensures DfsWalk(sym, s, pos, stop, key) == DfsWalk(sym, s, TermPos(sym, pos, t), stop, key + t.run)
    ensures TermPos(sym, pos, t) < end
  {
    hide NodeBits, DfsWalk, BitsOf;
    HoldsParts(sym, s, pos, end, t, index);
    TerminalWithin(sym, s, pos, end, t, index);
    assert Spelled(sym, t);
    DfsRun(sym, s, pos, stop, key, t.run);
  }

  lemma TerminalWithin(sym: Symbols, s: seq<bool>, pos: nat, end: nat, t: Trie, index: nat)
    requires Holds(sym, s, pos, end, t, index)
    ensures t.term.NoKey? ==> t.kids.Kid?
    ensures TermPos(sym, pos, t) < end && index < 0x1_0000_0000
    ensures if t.kids.Kid? then AfterTerm(sym, pos, t, index) < end else AfterTerm(sym, pos, t, index) == end
    ensures KidsPos(sym, pos, t, index) == AfterTerm(sym, pos, t, index) + sym.bps + |Varint.Varint(Len(t.kids))|
    ensures AfterTerm(sym, pos, t, index) == TermPos(sym, pos, t) +
              match t.term case NoKey => 0 case Plain => sym.bps case Valued => sym.bps + |Varint.Varint(index)|
  {
    hide NodeBits, BitsOf, At, RunBits, Varint.Varint, Spelled;
    HoldsParts(sym, s, pos, end, t, index);
    CountPositive(t);
  }

  /** Behind the terminal of a node: its children, or nothing at all when the walk is to stop there. */
  lemma DfsBranch(sym: Symbols, s: seq<bool>, pos: nat, end: nat, stop: nat, key: Key, t: Trie, index: nat)
    requires Holds(sym, s, pos, end, t, index) && stop <= end
    ensures var at := AfterTerm(sym, pos, t, index);
            var base := KidsPos(sym, pos, t, index);
            && (if t.kids.Kid? then at < end else at == end)
            && BranchIfPresent(sym, s, at, stop, key)
               == (if at >= stop then Ok(Walked([], at)) else WalkBranch(sym, s, base, base, stop, key, 0, Len(t.kids)))
            && (t.term.NoKey? && at < stop ==>
                  DfsWalk(sym, s, at, stop, key) == WalkBranch(sym, s, base, base, stop, key, 0, Len(t.kids)))
  {
    hide NodeBits, BitsOf, ReadBits, ReadVarint, At, RunBits, Varint.Varint, WalkBranch, Spelled, WellFormed, AfterTerm, KidsPos;
    HoldsParts(sym, s, pos, end, t, index);
    TerminalWithin(sym, s, pos, end, t, index);
    if t.kids.Kid? {
      ReadControlAt(sym, s, AfterTerm(sym, pos, t, index), BRANCH, Len(t.kids));
    }
  }

  /** At the end of a run: the key if there is one, and the children if there are any. */
  lemma DfsTerminal(sym: Symbols, s: seq<bool>, pos: nat, end: nat, stop: nat, key: Key, t: Trie, index: nat)
    requires Holds(sym, s, pos, end, t, index) && TermPos(sym, pos, t) < stop <= end
    ensures var at := TermPos(sym, pos, t);
            var r := DfsWalk(sym, s, at, stop, key);
            if t.term.NoKey? then
              && t.kids.Kid? && AfterTerm(sym, pos, t, index) == at
              && r == WalkBranch(sym, s, KidsPos(sym, pos, t, index), KidsPos(sym, pos, t, index), stop, key, 0, Len(t.kids))
            else
              match BranchIfPresent(sym, s, AfterTerm(sym, pos, t, index), stop, key)
              case Err(e) => r == Err(e)
              case Ok(w) => r == Ok(w.(keys := [key] + w.keys))
  {
    hide NodeBits, BitsOf, ReadBits, ReadVarint, At, RunBits, Varint.Varint, WalkBranch, BranchIfPresent, Spelled, WellFormed, AfterTerm, KidsPos;
    HoldsParts(sym, s, pos, end, t, index);
    TerminalWithin(sym, s, pos, end, t, index);
    var at := TermPos(sym, pos, t);
    match t.term
    case NoKey => DfsBranch(sym, s, pos, end, stop, key, t, index);
    case Plain => ReadSymbolAt(sym, s, at, END);
    case Valued => ReadControlAt(sym, s, at, END_VAL, index);
  }

  /** The walk over a subtree collects exactly its keys, in order, and stops at its end. */
  lemma {:induction false} DfsNode(sym: Symbols, s: seq<bool>, pos: nat, end: nat, key: Key, t: Trie, index: nat)
    requires Holds(sym, s, pos, end, t, index)
    ensures DfsWalk(sym, s, pos, end, key) == Ok(Walked(ItemKeys(Items(t, key, index)), end))
    decreases t, 1
  {
    hide Holds, DfsWalk, WalkBranch, BranchIfPresent, TermPos, AfterTerm, KidsPos;
    var k := key + t.run;
    ItemsAre(t, key, index);
    DfsPastRun(sym, s, pos, end, end, key, t, index);
    DfsTerminal(sym, s, pos, end, end, k, t, index);
    DfsBranch(sym, s, pos, end, end, k, t, index);
    if t.kids.Kid? {
      KidsHeld(sym, s, pos, end, t, index);
      DfsKids(sym, s, KidsPos(sym, pos, t, index), KidsPos(sym, pos, t, index), end, k, t.kids, -1,
              KidsIndex(t.term, index), 0, Len(t.kids));
    }
  }

  lemma ItemsAre(t: Trie, key: Key, index: nat)
    ensures var below := ItemKeys(KidItems(t.kids, key + t.run, KidsIndex(t.term, index)));
            && ItemKeys(Items(t, key, index)) == (if t.term.NoKey? then below else [key + t.run] + below)
            && (t.kids.NoKids? ==> below == [] && [key + t.run] + below == [key + t.run])
  {
  }

  lemma KidsHeld(sym: Symbols, s: seq<bool>, pos: nat, end: nat, t: Trie, index: nat)
    requires Holds(sym, s, pos, end, t, index) && t.kids.Kid?
    ensures HoldsKids(sym, s, KidsPos(sym, pos, t, index), end, t.kids, -1, KidsIndex(t.term, index))
  {
    hide NodeBits, BitsOf, At, WellFormed, Spelled;
    HoldsParts(sym, s, pos, end, t, index);
  }

  lemma {:induction false} DfsKids(
    sym: Symbols, s: seq<bool>, base: nat, pos: nat, end: nat, key: Key, kids: Kids, above: int, index: nat, c: nat, n: nat)
    requires HoldsKids(sym, s, pos, end, kids, above, index) && kids.Kid? && base <= pos && c + Len(kids) == n
    ensures WalkBranch(sym, s, base, pos, end, key, c, n) == Ok(Walked(ItemKeys(KidItems(kids, key, index)), end))
    decreases kids, 0
  {
    hide Holds, HoldsKids, NodeBits, BitsOf, ReadBits, ReadVarint, At, Varint.Varint, DfsWalk, Items;
    KidsCanonical(sym, s, pos, end, kids, above, index);
    HoldsKidsParts(sym, s, pos, end, kids, above, index);
    var size := |NodeBits(sym, kids.first, index)|;
    var p := FirstPos(sym, pos, kids, index);
    DfsNode(sym, s, p, if kids.rest.NoKids? then end else p + size, key, kids.first, index);
    var first, others := Items(kids.first, key, index), KidItems(kids.rest, key, index + Count(kids.first));
    ItemKeysConcat(first, others);
    assert Len(kids) == 1 + Len(kids.rest);
    if kids.rest.Kid? {
      assert Len(kids.rest) > 0;
      ReadControlAt(sym, s, pos, SKIP, size);
      DfsKids(sym, s, base, p + size, end, key, kids.rest, kids.first.run[0], index + Count(kids.first), c + 1, n);
    } else {
      assert first + [] == first;
    }
  }

  lemma KidsCanonical(sym: Symbols, s: seq<bool>, pos: nat, end: nat, kids: Kids, above: int, index: nat)
    requires HoldsKids(sym, s, pos, end, kids, above, index)
    ensures Canonical(sym) && |s| < 0x1_0000_0000_0000_0000
    ensures kids.Kid? ==> kids.first.run != []
  {
  }

  /** A walk that is to stop inside a run stops without a key. */
  lemma {:induction false} DfsRunStops(sym: Symbols, s: seq<bool>, pos: nat, stop: nat, key: Key, run: Key) returns (p: nat)
    requires Canonical(sym) && (forall b :: b in run ==> Covers(sym, b))
    requires At(s, pos, RunBits(sym, run)) && stop <= pos + |RunBits(sym, run)|
    ensures DfsWalk(sym, s, pos, stop, key) == Ok(Walked([], p))
    decreases |run|
  {
    hide BitsOf, ReadBits, ReadVarint, At, WalkBranch, BranchIfPresent;
    p := pos;
    if pos < stop {
      assert Covers(sym, run[0]);
      var code := sym.codeOf[run[0]];
      AtSplit(s, pos, BitsOf(code, sym.bps), RunBits(sym, run[1..]));
      ReadSymbolAt(sym, s, pos, code);
      p := DfsRunStops(sym, s, pos + sym.bps, stop, key + [run[0]], run[1..]);
    }
  }

  /** A last terminal takes less than a hundred bits. */
  lemma LastTerminal(sym: Symbols, s: seq<bool>, pos: nat, end: nat, t: Trie, index: nat)
    requires Holds(sym, s, pos, end, t, index) && t.kids.NoKids?
    ensures end < TermPos(sym, pos, t) + 100
  {
    hide NodeBits, BitsOf, At, RunBits, Varint.Varint, Spelled, TermPos, AfterTerm;
    TerminalWithin(sym, s, pos, end, t, index);
    CanonicalNode(sym, s, pos, end, t, index);
    WordSize(index);
  }

  /** A walk that is to stop a hundred bits or more before the end of a subtree goes well, and
      collects some of the first keys, but not the last one. */
  lemma {:induction false} DfsShort(sym: Symbols, s: seq<bool>, pos: nat, end: nat, stop: nat, key: Key, t: Trie, index: nat)
    returns (w: Walked)
    requires Holds(sym, s, pos, end, t, index) && stop + 100 <= end
    ensures DfsWalk(sym, s, pos, stop, key) == Ok(w) && w.keys < ItemKeys(Items(t, key, index))
    decreases t, 1
  {
    hide Holds, DfsWalk, WalkBranch, BranchIfPresent, TermPos, AfterTerm, KidsPos;
    var k := key + t.run;
    ItemsAre(t, key, index);
    SomeItems(sym, s, pos, end, t, key, index);
    CanonicalNode(sym, s, pos, end, t, index);
    if TermPos(sym, pos, t) >= stop {
      w := DfsStops(sym, s, pos, end, stop, key, t, index);
    } else {
      DfsPastRun(sym, s, pos, end, stop, key, t, index);
      DfsTerminal(sym, s, pos, end, stop, k, t, index);
      DfsBranch(sym, s, pos, end, stop, k, t, index);
      if t.kids.NoKids? {
        LastTerminal(sym, s, pos, end, t, index);
        assert false;
      }
      w := Walked([], AfterTerm(sym, pos, t, index));
      if w.pos < stop {
        KidsHeld(sym, s, pos, end, t, index);
        var base := KidsPos(sym, pos, t, index);
        w := KidsShort(sym, s, base, base, end, stop, k, t.kids, -1, KidsIndex(t.term, index), 0, Len(t.kids));
      }
      if !t.term.NoKey? {
        w := w.(keys := [k] + w.keys);
      }
    }
  }

  lemma SomeItems(sym: Symbols, s: seq<bool>, pos: nat, end: nat, t: Trie, key: Key, index: nat)
    requires Holds(sym, s, pos, end, t, index)
    ensures ItemKeys(Items(t, key, index)) != []
    ensures t.kids.Kid? ==> ItemKeys(KidItems(t.kids, key + t.run, KidsIndex(t.term, index))) != []
  {
    hide NodeBits, Spelled, Canonical, At;
    CountPositive(t);
    if t.kids.Kid? {
      assert KidsWellFormed(t.kids, -1);
      CountPositive(t.kids.first);
    }
  }

  lemma DfsStops(sym: Symbols, s: seq<bool>, pos: nat, end: nat, stop: nat, key: Key, t: Trie, index: nat) returns (w: Walked)
    requires Holds(sym, s, pos, end, t, index) && stop <= TermPos(sym, pos, t)
    ensures DfsWalk(sym, s, pos, stop, key) == Ok(w) && w.keys == []
  {
    hide NodeBits, DfsWalk, BitsOf;
    HoldsParts(sym, s, pos, end, t, index);
    assert Spelled(sym, t);
    var p := DfsRunStops(sym, s, pos, stop, key, t.run);
    w := Walked([], p);
  }

  lemma {:induction false} KidsShort(
    sym: Symbols, s: seq<bool>, base: nat, pos: nat, end: nat, stop: nat, key: Key, kids: Kids, above: int, index: nat,
    c: nat, n: nat) returns (w: Walked)
    requires HoldsKids(sym, s, pos, end, kids, above, index) && kids.Kid? && base <= pos && c + Len(kids) == n
    requires stop + 100 <= end
    ensures WalkBranch(sym, s, base, pos, stop, key, c, n) == Ok(w) && w.keys < ItemKeys(KidItems(kids, key, index))
    decreases kids, 0
  {
    hide Holds, HoldsKids, NodeBits, BitsOf, ReadBits, ReadVarint, At, Varint.Varint, DfsWalk, Items;
    KidsCanonical(sym, s, pos, end, kids, above, index);
    HoldsKidsParts(sym, s, pos, end, kids, above, index);
    var size := |NodeBits(sym, kids.first, index)|;
    var p := FirstPos(sym, pos, kids, index);
    var first, others := Items(kids.first, key, index), KidItems(kids.rest, key, index + Count(kids.first));
    ItemKeysConcat(first, others);
    assert Len(kids) == 1 + Len(kids.rest);
    if kids.rest.Kid? {
      assert Len(kids.rest) > 0;
      DfsNode(sym, s, p, p + size, key, kids.first, index);
      ReadControlAt(sym, s, pos, SKIP, size);
      w := KidsShort(sym, s, base, p + size, end, stop, key, kids.rest, kids.first.run[0], index + Count(kids.first), c + 1, n);
      w := w.(keys := ItemKeys(first) + w.keys);
    } else {
      assert first + [] == first;
      w := DfsShort(sym, s, p, end, stop, key, kids.first, index);
    }
  }
}
