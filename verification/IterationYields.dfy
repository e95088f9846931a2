/** On a trie an encoder wrote, the iterator yields its items in order, one a call. */
module IterationYields {
  import opened Bits
  import opened Results
  import opened Varint
  import opened Keys
  import opened Trie
  import opened Dictionary
  import opened Iteration

  /** The children a stack frame still has to visit, under a common key prefix. */
  datatype Branch = Branch(kids: Kids, above: int, prefix: Key, index: nat)

  ghost predicate FrameHolds(sym: Symbols, s: seq<bool>, f: Frame, b: Branch) {
    && HoldsKids(sym, s, f.nextChild, f.subtreeEnd, b.kids, b.above, b.index)
    && f.remaining == Len(b.kids) && f.keyLen == |b.prefix| && -1 <= b.above < 256
  }

  /** The stack stands for the plan, and the key buffer starts with every frame's prefix. */
  ghost predicate Tracks(sym: Symbols, s: seq<bool>, key: Key, stack: seq<Frame>, plan: seq<Branch>)
    decreases plan
  {
    && |stack| == |plan| <= MAX_DEPTH
    && if plan == [] then true else
         var b := plan[|plan| - 1];
         b.prefix <= key && FrameHolds(sym, s, stack[|stack| - 1], b)
         && Tracks(sym, s, b.prefix, stack[..|stack| - 1], plan[..|plan| - 1])
  }

  /** Everything still to come, innermost branch first. */
  ghost function Pending(plan: seq<Branch>): seq<Item> {
    if plan == [] then [] else
      var b := plan[|plan| - 1];
      KidItems(b.kids, b.prefix, b.index) + Pending(plan[..|plan| - 1])
  }

  /** No branch still to come nests deeper than the stack has room for. */
  ghost predicate Fits(plan: seq<Branch>) {
    plan == [] || (|plan| + KidsDepth(plan[|plan| - 1].kids) <= MAX_DEPTH && Fits(plan[..|plan| - 1]))
  }

  lemma {:induction false} WalkRun(sym: Symbols, s: seq<bool>, pos: nat, end: nat, key: Key, run: Key)
    requires Canonical(sym) && (forall b :: b in run ==> Covers(sym, b))
    requires At(s, pos, RunBits(sym, run)) && pos + |RunBits(sym, run)| <= end
    ensures Walk(sym, s, pos, end, key) == Walk(sym, s, pos + |RunBits(sym, run)|, end, key + run)
    decreases |run|
  {
    hide BitsOf, ReadBits, ReadVarint, At;
    if run == [] {
      assert key + run == key;
    } else {
      assert Covers(sym, run[0]);
      var code := sym.codeOf[run[0]];
      AtSplit(s, pos, BitsOf(code, sym.bps), RunBits(sym, run[1..]));
      ReadSymbolAt(sym, s, pos, code);
      WalkRun(sym, s, pos + sym.bps, end, key + [run[0]], run[1..]);
      assert key + [run[0]] + run[1..] == key + run;
    }
  }

  /** The frame a node's branch pushes. */
  ghost function FrameOf(sym: Symbols, pos: nat, end: nat, t: Trie, index: nat, key: Key): Frame
    requires Shaped(sym)
  {
    Frame(end, KidsPos(sym, pos, t, index), Len(t.kids), |key|)
  }

  /** What the walk meets at the end of a node's run. */
  lemma WalkNode(sym: Symbols, s: seq<bool>, pos: nat, end: nat, key: Key, t: Trie, index: nat)
    requires Holds(sym, s, pos, end, t, index)
    ensures var k := key + t.run;
            Walk(sym, s, pos, end, key) ==
              match t.term
              case NoKey => AtBranch(Len(t.kids), KidsPos(sym, pos, t, index), k)
              case Plain => AtKey(false, 0, AfterTerm(sym, pos, t, index), k)
              case Valued => AtKey(true, index, AfterTerm(sym, pos, t, index), k)
  {
    hide NodeBits, BitsOf, ReadBits, ReadVarint, At, WellFormed, RunBits, Varint.Varint;
    HoldsParts(sym, s, pos, end, t, index);
    assert Spelled(sym, t) && WellFormed(t);
    var p := TermPos(sym, pos, t);
    match t.term
    case NoKey =>
      HasKids(t);
      WalkRun(sym, s, pos, end, key, t.run);
      ReadControlAt(sym, s, p, BRANCH, Len(t.kids));
    case Plain =>
      WalkRunToEnd(sym, s, pos, end, key, t, index);
      ReadSymbolAt(sym, s, p, END);
    case Valued =>
      WalkRunToEnd(sym, s, pos, end, key, t, index);
      ReadControlAt(sym, s, p, END_VAL, index);
  }

  lemma HasKids(t: Trie)
    requires WellFormed(t) && t.term.NoKey?
    ensures t.kids.Kid?
  {
  }

  lemma WalkRunToEnd(sym: Symbols, s: seq<bool>, pos: nat, end: nat, key: Key, t: Trie, index: nat)
    requires Holds(sym, s, pos, end, t, index)
    ensures pos + |RunBits(sym, t.run)| <= end
    ensures Walk(sym, s, pos, end, key) == Walk(sym, s, TermPos(sym, pos, t), end, key + t.run)
  {
    HoldsParts(sym, s, pos, end, t, index);
    WalkRun(sym, s, pos, end, key, t.run);
  }

  /** Going down one node: its key if it has one, and its children pushed if it has any. */
  lemma DescendNode(sym: Symbols, s: seq<bool>, pos: nat, end: nat, key: Key, stack: seq<Frame>, t: Trie, index: nat)
    requires Holds(sym, s, pos, end, t, index)
    ensures var k := key + t.run;
            var st := stack + [FrameOf(sym, pos, end, t, index, k)];
            Descend(sym, s, pos, end, key, stack) ==
              if t.kids.Kid? && |stack| + 1 > MAX_DEPTH then Bad(Overflow)
              else match t.term
                   case NoKey => Deeper(k, st)
                   case _ => Emit(t.term.Valued?, if t.term.Valued? then index else 0, k, if t.kids.Kid? then st else stack)
  {
    hide NodeBits, BitsOf, ReadBits, ReadVarint, At, RunBits, TermBits, Varint.Varint, Walk, AfterTerm;
    HoldsParts(sym, s, pos, end, t, index);
    WalkNode(sym, s, pos, end, key, t, index);
    if t.kids.Kid? {
      ReadControlAt(sym, s, AfterTerm(sym, pos, t, index), BRANCH, Len(t.kids));
      KidsPosAfter(sym, pos, t, index);
    }
    if t.term.NoKey? {
      HasKids(t);
    }
  }

  lemma KidsPosAfter(sym: Symbols, pos: nat, t: Trie, index: nat)
    requires Shaped(sym)
    ensures KidsPos(sym, pos, t, index) == AfterTerm(sym, pos, t, index) + sym.bps + |Varint.Varint(Len(t.kids))|
  {
  }

  lemma TracksPush(sym: Symbols, s: seq<bool>, pos: nat, end: nat, key: Key, stack: seq<Frame>, plan: seq<Branch>, t: Trie, index: nat)
    requires Holds(sym, s, pos, end, t, index) && t.kids.Kid?
    requires Tracks(sym, s, key, stack, plan) && |stack| < MAX_DEPTH
    ensures var k := key + t.run;
            var b := Branch(t.kids, -1, k, KidsIndex(t.term, index));
            && Tracks(sym, s, k, stack + [FrameOf(sym, pos, end, t, index, k)], plan + [b])
            && Pending(plan + [b]) == KidItems(t.kids, k, KidsIndex(t.term, index)) + Pending(plan)
            && (Fits(plan + [b]) <==> Fits(plan) && |plan| + Depth(t) <= MAX_DEPTH)
  {
    hide NodeBits, At, HoldsKids;
    HoldsParts(sym, s, pos, end, t, index);
    var k := key + t.run;
    var b := Branch(t.kids, -1, k, KidsIndex(t.term, index));
    var f := FrameOf(sym, pos, end, t, index, k);
    assert (stack + [f])[..|stack|] == stack && (plan + [b])[..|plan|] == plan;
    TracksLonger(sym, s, key, k, stack, plan);
  }

  lemma TracksLonger(sym: Symbols, s: seq<bool>, key: Key, longer: Key, stack: seq<Frame>, plan: seq<Branch>)
    requires Tracks(sym, s, key, stack, plan) && key <= longer
    ensures Tracks(sym, s, longer, stack, plan)
  {
  }

  /** The plan with exhausted branches dropped from the inside. */
  ghost function Unwound(plan: seq<Branch>): (r: seq<Branch>)
    ensures |r| <= |plan| && (r == [] || r[|r| - 1].kids.Kid?)
    ensures Pending(r) == Pending(plan)
    ensures |plan| <= MAX_DEPTH ==> (Fits(plan) <==> Fits(r))
  {
    if plan == [] || plan[|plan| - 1].kids.Kid? then plan else Unwound(plan[..|plan| - 1])
  }

  /** The plan after its innermost branch hands out its first child. */
  ghost function HandedOut(plan: seq<Branch>): (r: seq<Branch>)
    requires plan != [] && plan[|plan| - 1].kids.Kid?
    ensures |r| == |plan|
  {
    var b := plan[|plan| - 1];
    plan[..|plan| - 1]
    + [Branch(b.kids.rest, if b.kids.first.run == [] then -1 else b.kids.first.run[0], b.prefix, b.index + Count(b.kids.first))]
  }

  /** The next child of the innermost unfinished branch. */
  ghost predicate LandsOn(sym: Symbols, s: seq<bool>, key: Key, p: seq<Branch>, r: Result<Child>)
    requires p != [] && p[|p| - 1].kids.Kid?
  {
    var b := p[|p| - 1];
    && r.Ok? && var c := r.value;
    && Holds(sym, s, c.pos, c.end, b.kids.first, b.index)
    && b.prefix <= key && c.keyLen == |b.prefix|
    && Tracks(sym, s, b.prefix, c.stack, HandedOut(p))
  }

  lemma UnwoundStep(sym: Symbols, s: seq<bool>, key: Key, stack: seq<Frame>, plan: seq<Branch>)
    requires Shaped(sym) && Tracks(sym, s, key, stack, plan) && plan != []
    ensures stack != [] && |stack| == |plan| <= MAX_DEPTH
    ensures var b := plan[|plan| - 1];
            && b.prefix <= key && FrameHolds(sym, s, stack[|stack| - 1], b)
            && Tracks(sym, s, b.prefix, stack[..|stack| - 1], plan[..|plan| - 1])
    ensures if plan[|plan| - 1].kids.Kid? then Unwound(plan) == plan
            else Unwound(plan) == Unwound(plan[..|plan| - 1]) && Sibling(sym, s, stack) == Sibling(sym, s, stack[..|stack| - 1])
  {
    hide HoldsKids, ReadBits, ReadVarint;
  }

  /** Moving to a sibling lands on the next child of the innermost unfinished branch. */
  lemma {:induction false} SiblingNext(sym: Symbols, s: seq<bool>, key: Key, stack: seq<Frame>, plan: seq<Branch>)
    requires Shaped(sym) && Tracks(sym, s, key, stack, plan)
    ensures var p := Unwound(plan);
            if p == [] then Sibling(sym, s, stack) == Err(Eof) else LandsOn(sym, s, key, p, Sibling(sym, s, stack))
    decreases plan
  {
    hide Tracks, Unwound, Sibling, HandedOut, FrameHolds, Holds;
    if plan == [] {
      NoSibling(sym, s, key, stack);
    } else {
      var front, b := plan[..|plan| - 1], plan[|plan| - 1];
      UnwoundStep(sym, s, key, stack, plan);
      if b.kids.NoKids? {
        SiblingNext(sym, s, b.prefix, stack[..|stack| - 1], front);
      } else {
        SiblingStep(sym, s, stack, b);
        HandedTracks(sym, s, stack, plan, Sibling(sym, s, stack).value.stack);
      }
    }
  }

  lemma NoSibling(sym: Symbols, s: seq<bool>, key: Key, stack: seq<Frame>)
    requires Shaped(sym) && Tracks(sym, s, key, stack, [])
    ensures Unwound([]) == [] && Sibling(sym, s, stack) == Err(Eof)
  {
  }

  lemma HandedTracks(sym: Symbols, s: seq<bool>, stack: seq<Frame>, plan: seq<Branch>, after: seq<Frame>)
    requires plan != [] && plan[|plan| - 1].kids.Kid? && plan[|plan| - 1].kids.first.run != []
    requires |stack| == |plan| <= MAX_DEPTH && after != [] && after[..|after| - 1] == stack[..|stack| - 1]
    requires var b := plan[|plan| - 1];
             && Tracks(sym, s, b.prefix, stack[..|stack| - 1], plan[..|plan| - 1])
             && FrameHolds(sym, s, after[|after| - 1],
                           Branch(b.kids.rest, b.kids.first.run[0], b.prefix, b.index + Count(b.kids.first)))
    ensures Tracks(sym, s, plan[|plan| - 1].prefix, after, HandedOut(plan))
  {
    hide FrameHolds;
    assert HandedOut(plan)[..|plan| - 1] == plan[..|plan| - 1];
    assert |after| - 1 == |stack| - 1;
  }

  lemma SiblingStep(sym: Symbols, s: seq<bool>, stack: seq<Frame>, b: Branch)
    requires Shaped(sym) && stack != [] && FrameHolds(sym, s, stack[|stack| - 1], b) && b.kids.Kid?
    ensures var r := Sibling(sym, s, stack);
            && r.Ok? && var c := r.value;
            && Holds(sym, s, c.pos, c.end, b.kids.first, b.index)
            && b.kids.first.run != [] && c.keyLen == |b.prefix|
            && c.stack != [] && c.stack[..|c.stack| - 1] == stack[..|stack| - 1]
            && FrameHolds(sym, s, c.stack[|c.stack| - 1],
                          Branch(b.kids.rest, b.kids.first.run[0], b.prefix, b.index + Count(b.kids.first)))
  {
    hide NodeBits, BitsOf, ReadBits, ReadVarint, At, Varint.Varint, Spelled, WellFormed;
    var f := stack[|stack| - 1];
    HoldsKidsParts(sym, s, f.nextChild, f.subtreeEnd, b.kids, b.above, b.index);
    FirstPosIs(sym, f.nextChild, b.kids, b.index);
    var size := |NodeBits(sym, b.kids.first, b.index)|;
    assert Len(b.kids) == 1 + Len(b.kids.rest);
    if b.kids.rest.Kid? {
      ReadControlAt(sym, s, f.nextChild, SKIP, size);
      assert Len(b.kids.rest) > 0;
    }
  }

  lemma FirstPosIs(sym: Symbols, pos: nat, kids: Kids, index: nat)
    requires Shaped(sym) && kids.Kid?
    ensures FirstPos(sym, pos, kids, index)
         == if kids.rest.NoKids? then pos else pos + sym.bps + |Varint.Varint(|NodeBits(sym, kids.first, index)|)|
  {
  }

  lemma {:induction false} HandedOutPending(plan: seq<Branch>)
    requires plan != [] && plan[|plan| - 1].kids.Kid?
    ensures var b := plan[|plan| - 1];
            && Pending(plan) == Items(b.kids.first, b.prefix, b.index) + Pending(HandedOut(plan))
            && (Fits(plan) <==> Fits(HandedOut(plan)) && |plan| + Depth(b.kids.first) <= MAX_DEPTH)
  {
    hide Items, Count, Depth, KidsCount;
    var front, b := plan[..|plan| - 1], plan[|plan| - 1];
    var rest := HandedOut(plan);
    assert rest[..|rest| - 1] == front;
    var first := Items(b.kids.first, b.prefix, b.index);
    var others := KidItems(b.kids.rest, b.prefix, b.index + Count(b.kids.first));
    ItemsAssociative(first, others, Pending(front));
  }

  lemma ItemsAssociative(a: seq<Item>, b: seq<Item>, c: seq<Item>)
    ensures (a + b) + c == a + (b + c)
  {
  }

  /** A visit reports the next item. */
  ghost predicate Reports(v: Visit, item: Item) {
    && v.Emit? && v.key == item.key
    && item.term == (if v.hasIndex then Valued else Plain) && (v.hasIndex ==> v.index == item.index)
  }

  /** A visit serves the first of the items and leaves the rest pending; it fails only
      where branches nest too deep for the stack. */
  ghost predicate Serves(sym: Symbols, s: seq<bool>, v: Visit, items: seq<Item>, fits: bool, rest: seq<Branch>) {
    if v.Bad? then v.error == Overflow && !fits
    else
      && items != [] && Reports(v, items[0])
      && Tracks(sym, s, v.key, v.stack, rest) && Pending(rest) == items[1..]
      && (fits <==> Fits(rest))
  }

  /** A node with a key serves it at once. */
  lemma ServesKey(sym: Symbols, s: seq<bool>, v: Visit, key: Key, plan: seq<Branch>, t: Trie, index: nat, rest: seq<Branch>, fits: bool)
    requires !t.term.NoKey? && v.Emit? && v.key == key + t.run && Tracks(sym, s, v.key, v.stack, rest)
    requires v.hasIndex == t.term.Valued? && (v.hasIndex ==> v.index == index)
    requires Pending(rest) == KidItems(t.kids, key + t.run, index + 1) + Pending(plan) && (fits <==> Fits(rest))
    ensures Serves(sym, s, v, Items(t, key, index) + Pending(plan), fits, rest)
  {
    hide KidItems, Pending, Fits, Tracks;
    ItemsAssociative([Item(key + t.run, t.term, index)], KidItems(t.kids, key + t.run, index + 1), Pending(plan));
  }

  /** So does every search that starts on a node. */
  lemma {:induction false} SearchNode(
    sym: Symbols, s: seq<bool>, pos: nat, end: nat, key: Key, stack: seq<Frame>, plan: seq<Branch>, t: Trie, index: nat)
    returns (rest: seq<Branch>)
    requires Holds(sym, s, pos, end, t, index) && Tracks(sym, s, key, stack, plan)
    ensures Serves(sym, s, Search(sym, s, pos, end, key, stack), Items(t, key, index) + Pending(plan),
                   Fits(plan) && |plan| + Depth(t) <= MAX_DEPTH, rest)
    decreases t
  {
    hide Descend, Sibling, HandedOut, FrameOf, Holds, Search, Tracks, Serves, Items, KidItems, Pending, Fits, Truncate;
    rest := plan;
    var k := key + t.run;
    HoldsFacts(sym, s, pos, end, t, index);
    DescendNode(sym, s, pos, end, key, stack, t, index);
    TracksBound(sym, s, key, stack, plan);
    SearchUnfold(sym, s, pos, end, key, stack);
    TracksLonger(sym, s, key, k, stack, plan);
    var v := Search(sym, s, pos, end, key, stack);
    var fits := Fits(plan) && |plan| + Depth(t) <= MAX_DEPTH;
    if t.kids.NoKids? {
      assert KidItems(t.kids, k, index + 1) + Pending(plan) == Pending(plan) by { LeafItems(k, index + 1, Pending(plan)); }
      FitsBound(plan);
      ServesKey(sym, s, v, key, plan, t, index, rest, fits);
    } else if |stack| == MAX_DEPTH {
      Overflows(sym, s, v, Items(t, key, index) + Pending(plan), fits, rest);
    } else {
      TracksPush(sym, s, pos, end, key, stack, plan, t, index);
      rest := plan + [Branch(t.kids, -1, k, KidsIndex(t.term, index))];
      if t.term.NoKey? {
        assert Unwound(rest) == rest;
        assert Items(t, key, index) == KidItems(t.kids, k, index) by { KeylessItems(t, key, index); }
        rest := SearchBelow(sym, s, k, stack + [FrameOf(sym, pos, end, t, index, k)], rest);
      } else {
        ServesKey(sym, s, v, key, plan, t, index, rest, fits);
      }
    }
  }

  lemma HoldsFacts(sym: Symbols, s: seq<bool>, pos: nat, end: nat, t: Trie, index: nat)
    requires Holds(sym, s, pos, end, t, index)
    ensures Shaped(sym) && (t.term.NoKey? ==> t.kids.Kid?)
    ensures t.kids.Kid? ==> Depth(t) >= 1
    ensures t.kids.NoKids? ==> Depth(t) == 0
  {
  }

  lemma LeafItems(key: Key, index: nat, others: seq<Item>)
    ensures KidItems(NoKids, key, index) + others == others
  {
  }

  lemma KeylessItems(t: Trie, key: Key, index: nat)
    requires t.term.NoKey?
    ensures Items(t, key, index) == KidItems(t.kids, key + t.run, index)
  {
  }

  lemma FitsBound(plan: seq<Branch>)
    ensures Fits(plan) ==> |plan| <= MAX_DEPTH
  {
  }

  lemma Overflows(sym: Symbols, s: seq<bool>, v: Visit, items: seq<Item>, fits: bool, rest: seq<Branch>)
    requires v == Bad(Overflow) && !fits
    ensures Serves(sym, s, v, items, fits, rest)
  {
  }

  lemma TracksBound(sym: Symbols, s: seq<bool>, key: Key, stack: seq<Frame>, plan: seq<Branch>)
    requires Tracks(sym, s, key, stack, plan)
    ensures |stack| == |plan| <= MAX_DEPTH
  {
  }

  lemma SearchUnfold(sym: Symbols, s: seq<bool>, pos: nat, end: nat, key: Key, stack: seq<Frame>)
    requires Shaped(sym) && |stack| <= MAX_DEPTH
    ensures var v := Search(sym, s, pos, end, key, stack);
            var d := Descend(sym, s, pos, end, key, stack);
            if d.Deeper? then
              |d.stack| <= MAX_DEPTH &&
              match Sibling(sym, s, d.stack)
              case Err(e) => v == Bad(e)
              case Ok(c) => v == Search(sym, s, c.pos, c.end, Truncate(d.key, c.keyLen), c.stack)
            else v == d
  {
    hide Descend, Sibling, Truncate, Fuel, Weight;
    DescendFuel(sym, s, pos, end, key, stack);
  }

  /** The same from a sibling move. */
  lemma {:induction false} SearchBelow(sym: Symbols, s: seq<bool>, key: Key, stack: seq<Frame>, plan: seq<Branch>)
    returns (rest: seq<Branch>)
    requires Shaped(sym) && Tracks(sym, s, key, stack, plan)
    ensures match Sibling(sym, s, stack)
            case Err(e) => e == Eof && Unwound(plan) == [] && Pending(plan) == []
            case Ok(c) =>
              Unwound(plan) != [] && |c.stack| <= MAX_DEPTH &&
              Serves(sym, s, Search(sym, s, c.pos, c.end, Truncate(key, c.keyLen), c.stack), Pending(plan), Fits(plan), rest)
    decreases if Unwound(plan) == [] then NoKids else Unwound(plan)[|Unwound(plan)| - 1].kids
  {
    hide Holds, Sibling, HandedOut, Unwound, Search, Serves, KidItems, Items;
    rest := plan;
    SiblingNext(sym, s, key, stack, plan);
    var p := Unwound(plan);
    assert |plan| <= MAX_DEPTH;
    if p != [] {
      var b, c := p[|p| - 1], Sibling(sym, s, stack).value;
      assert Truncate(key, c.keyLen) == b.prefix;
      HandedOutPending(p);
      rest := SearchNode(sym, s, c.pos, c.end, b.prefix, c.stack, HandedOut(p), b.kids.first, b.index);
    }
  }
}
