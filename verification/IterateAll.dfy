/** Repeated calls of the iterator list the entries of the dictionary, then report the end. */
module IterateAll {
  import opened Bits
  import opened Results
  import opened Keys
  import opened Values
  import opened Trie
  import opened TrieBuild
  import opened Dictionary
  import opened Navigation
  import opened Iteration
  import opened IterationYields

  function Vals(es: seq<Entry>): (vs: seq<Value>)
    ensures |vs| == |es|
  {
    seq(|es|, i requires 0 <= i < |es| => es[i].val)
  }

  /** The dictionary holds the sorted entries es: its trie, and one value an entry in its store. */
  ghost predicate Encodes(d: Dict, es: seq<Entry>) {
    && Sorted(es) && d.numKeys == |es| && Canonical(d.sym) && d.valueStart <= |d.s|
    && (es != [] ==> Holds(d.sym, d.s, d.trieStart, d.valueStart, TrieOf(es, d.hasValues, 0, |es|, 0), 0))
    && (if d.hasValues then
          (forall v :: v in Vals(es) ==> Encodable(v)) && At(d.s, d.valueStart, StoreBits(Vals(es), d.valueStart))
        else forall i :: 0 <= i < |es| ==> es[i].val == Null)
  }

  /** The value cursor stands where a scan from the start of the store would. */
  ghost predicate CursorOk(d: Dict, es: seq<Entry>, it: Iter) {
    d.hasValues ==>
      && it.valueIndex <= |es|
      && ScanValues(d.s, d.valueStart, it.valueIndex) == Ok(it.valuePos)
  }

  /** Where the next entries come from: a subtree not yet entered, or the branches on the stack. */
  datatype Todo = Root(t: Trie, index: nat) | Stacked(plan: seq<Branch>)

  ghost function TodoItems(it: Iter, todo: Todo): seq<Item>
    requires todo.Root? ==> it.rootKeyLen <= |it.key|
  {
    match todo
    case Root(t, index) => Items(t, it.key[..it.rootKeyLen], index)
    case Stacked(plan) => Pending(plan)
  }

  /** The iterator is about to list the entries k..hi. */
  ghost predicate Ready(d: Dict, es: seq<Entry>, it: Iter, todo: Todo, k: nat, hi: nat) {
    && Encodes(d, es) && k <= hi <= |es| && es != [] && !it.done && CursorOk(d, es, it)
    && (match todo
        case Root(t, index) =>
          && !it.started && it.stack == [] && it.rootKeyLen <= |it.key|
          && Holds(d.sym, d.s, it.rootPos, it.rootEnd, t, index)
        case Stacked(plan) =>
          it.started && Tracks(d.sym, d.s, it.key, it.stack, plan))
    && TodoItems(it, todo) == Expected(es, d.hasValues, k, hi, k)
  }

  /** The stack has room for every branch still to come. */
  ghost predicate Room(todo: Todo) {
    match todo
    case Root(t, _) => Depth(t) <= 256
    case Stacked(plan) => Fits(plan)
  }

  /** A value is decoded in place or after a rescan; either way it is the entry's own. */
  lemma ValueAtIndex(d: Dict, es: seq<Entry>, it: Iter, i: nat)
    requires Encodes(d, es) && CursorOk(d, es, it) && i < |es|
    ensures var r := ValueAt(d, it, i);
            && r.Ok? && r.value.0 == es[i].val
            && CursorOk(d, es, r.value.1)
            && r.value.1 == it.(valuePos := r.value.1.valuePos, valueIndex := r.value.1.valueIndex)
  {
    hide ReadValue, StoreBits, At, Holds, Sorted, StorePos, ScanValues;
    if d.hasValues {
      StoreReadsBack(d.s, d.valueStart, Vals(es), i);
      StoreReadsBack(d.s, d.valueStart, Vals(es), i + 1);
      ScanNone(d.s, it.valuePos);
    }
  }

  lemma ScanNone(s: seq<bool>, pos: nat)
    ensures ScanValues(s, pos, 0) == Ok(pos)
  {
  }

  /** A sibling move with children left to visit has something to serve. */
  lemma SomethingPending(sym: Symbols, s: seq<bool>, key: Key, stack: seq<Frame>, plan: seq<Branch>)
    requires Shaped(sym) && Tracks(sym, s, key, stack, plan) && Unwound(plan) != []
    ensures Pending(plan) != []
  {
    hide HandedOut, Unwound, Sibling, NodeBits, At, Spelled;
    SiblingNext(sym, s, key, stack, plan);
    var p := Unwound(plan);
    CountPositive(p[|p| - 1].kids.first);
  }

  /** How a call starts: either nothing is left, or the visit serves the next entry. */
  lemma StartServes(d: Dict, es: seq<Entry>, it: Iter, todo: Todo, k: nat, hi: nat) returns (rest: seq<Branch>)
    requires Ready(d, es, it, todo, k, hi) && |it.stack| <= MAX_DEPTH
    ensures var v := Start(d.sym, d.s, it);
            if k == hi then v == Bad(Eof) && Room(todo)
            else Serves(d.sym, d.s, v, Expected(es, d.hasValues, k, hi, k), Room(todo), rest)
  {
    hide Search, Sibling, Serves, Holds, Tracks, Pending, Fits, Expected, Items, At, StoreBits, ScanValues, Unwound;
    rest := [];
    match todo
    case Root(t, index) =>
      var key := it.key[..it.rootKeyLen];
      RootServes(d, it, t, index, key);
      rest := SearchNode(d.sym, d.s, it.rootPos, it.rootEnd, key, [], [], t, index);
      assert Items(t, key, index) + Pending([]) == Items(t, key, index) by { NothingPending(Items(t, key, index)); }
    case Stacked(plan) =>
      rest := SearchBelow(d.sym, d.s, it.key, it.stack, plan);
      StartIsSibling(d, it);
      TracksBound(d.sym, d.s, it.key, it.stack, plan);
      if Unwound(plan) != [] {
        SomethingPending(d.sym, d.s, it.key, it.stack, plan);
      } else {
        UnwoundFits(plan);
      }
  }

  lemma StartIsSibling(d: Dict, it: Iter)
    requires Shaped(d.sym) && it.started && |it.stack| <= MAX_DEPTH
    ensures match Sibling(d.sym, d.s, it.stack)
            case Err(e) => Start(d.sym, d.s, it) == Bad(e)
            case Ok(c) => Start(d.sym, d.s, it) == Search(d.sym, d.s, c.pos, c.end, Truncate(it.key, c.keyLen), c.stack)
  {
  }

  lemma RootServes(d: Dict, it: Iter, t: Trie, index: nat, key: Key)
    requires Holds(d.sym, d.s, it.rootPos, it.rootEnd, t, index)
    requires !it.started && it.stack == [] && it.rootKeyLen <= |it.key| && key == it.key[..it.rootKeyLen]
    ensures Start(d.sym, d.s, it) == Search(d.sym, d.s, it.rootPos, it.rootEnd, key, [])
    ensures Tracks(d.sym, d.s, key, [], []) && |Items(t, key, index)| > 0
    ensures Fits([])
  {
    hide Search;
    CountPositive(t);
  }

  lemma NothingPending(items: seq<Item>)
    ensures items + Pending([]) == items
  {
  }

  lemma UnwoundFits(plan: seq<Branch>)
    requires |plan| <= MAX_DEPTH && Unwound(plan) == []
    ensures Fits(plan)
  {
  }

  lemma ExpectedHead(es: seq<Entry>, hasValues: bool, k: nat, hi: nat)
    requires k < hi <= |es|
    ensures var items := Expected(es, hasValues, k, hi, k);
            && items[0] == Item(es[k].key, TerminalOf(hasValues, es[k].val), k)
            && items[1..] == Expected(es, hasValues, k + 1, hi, k + 1)
  {
  }

  /** One call: the next entry, or the end when there is none, or an overflow when the stack
      has no room for a branch still to come. */
  lemma NextStep(d: Dict, es: seq<Entry>, it: Iter, todo: Todo, k: nat, hi: nat) returns (todo': Todo)
    requires Ready(d, es, it, todo, k, hi) && |it.stack| <= MAX_DEPTH
    ensures var r := Next(d, it);
            if k == hi then r.0 == Stop(Eof) && r.1.done && Room(todo)
            else if r.0.Stop? then r.0 == Stop(Overflow) && r.1.done && !Room(todo)
            else
              && r.0 == Yield(es[k].key, es[k].val)
              && Ready(d, es, r.1, todo', k + 1, hi) && (Room(todo) <==> Room(todo'))
  {
    hide Start, Tracks, Pending, Fits, Expected, ValueAt, Holds, At, Items, ScanValues, StoreBits, Sorted;
    var rest := StartServes(d, es, it, todo, k, hi);
    todo' := Stacked(rest);
    var v := Start(d.sym, d.s, it);
    if k < hi {
      ExpectedHead(es, d.hasValues, k, hi);
      if v.Emit? {
        var moved := it.(started := true, key := v.key, stack := v.stack);
        if v.hasIndex {
          ValueAtIndex(d, es, moved, k);
        }
      }
    }
  }

  /** The outcomes of n calls in a row. */
  function Calls(d: Dict, it: Iter, n: nat): (outcomes: seq<Outcome>)
    requires Shaped(d.sym) && |it.stack| <= MAX_DEPTH
    ensures |outcomes| == n
    decreases n
  {
    if n == 0 then [] else
      var r := Next(d, it);
      [r.0] + Calls(d, r.1, n - 1)
  }

  /** The listing of entries k..hi and the end after it. */
  function Listing(es: seq<Entry>, k: nat, hi: nat): (outcomes: seq<Outcome>)
    requires k <= hi <= |es|
    ensures |outcomes| == hi - k + 1
    decreases hi - k
  {
    if k == hi then [Stop(Eof)] else [Yield(es[k].key, es[k].val)] + Listing(es, k + 1, hi)
  }

  /** Calls on the iterator list the entries k..hi, each once and in order, and then report the end. */
  ghost predicate Lists(d: Dict, it: Iter, es: seq<Entry>, k: nat, hi: nat)
    requires k <= hi <= |es|
  {
    Shaped(d.sym) && |it.stack| <= MAX_DEPTH && Calls(d, it, hi - k + 1) == Listing(es, k, hi)
  }

  /** A ready iterator lists its entries and then reports the end, exactly when the stack has
      room for every branch on the way. */
  lemma {:induction false} CallsList(d: Dict, es: seq<Entry>, it: Iter, todo: Todo, k: nat, hi: nat)
    requires Ready(d, es, it, todo, k, hi) && |it.stack| <= MAX_DEPTH
    ensures Calls(d, it, hi - k + 1) == Listing(es, k, hi) <==> Room(todo)
    decreases hi - k
  {
    hide Next, CursorOk, Holds, Tracks, TodoItems, Room, Sorted, StoreBits, At;
    var todo' := NextStep(d, es, it, todo, k, hi);
    var r := Next(d, it);
    var calls, list := Calls(d, it, hi - k + 1), Listing(es, k, hi);
    if k == hi {
      assert Calls(d, r.1, 0) == [];
    } else {
      assert calls[0] == r.0 && calls[1..] == Calls(d, r.1, hi - k);
      assert list[0] == Yield(es[k].key, es[k].val) && list[1..] == Listing(es, k + 1, hi);
      if r.0.Yield? {
        CallsList(d, es, r.1, todo', k + 1, hi);
      }
    }
  }

  /** Iterating an encoded dictionary lists every entry once, in ascending key order, each
      with its own value, and then reports the end, if and only if its trie nests at most
      256 branches. */
  lemma IterateLists(d: Dict, es: seq<Entry>)
    requires Encodes(d, es)
    ensures Lists(d, Iterate(d), es, 0, |es|) <==> (es != [] ==> Depth(TrieOf(es, d.hasValues, 0, |es|, 0)) <= 256)
  {
    hide Calls, Listing, Iterate, Ready, TrieOf, Depth, Encodes, Sorted;
    FreshShape(d, es);
    if es == [] {
      EmptyLists(d);
      EmptyListing(es);
    } else {
      var todo := Root(TrieOf(es, d.hasValues, 0, |es|, 0), 0);
      FreshReady(d, es, todo);
      CallsList(d, es, Iterate(d), todo, 0, |es|);
    }
  }

  lemma FreshShape(d: Dict, es: seq<Entry>)
    requires Encodes(d, es)
    ensures Shaped(d.sym) && Iterate(d).stack == [] && Sorted(es) && d.numKeys == |es|
    ensures es != [] ==> Range(es, 0, |es|, 0)
  {
    hide Holds, TrieOf, At, StoreBits, Sorted;
  }

  lemma EmptyListing(es: seq<Entry>)
    requires es == []
    ensures Listing(es, 0, 0) == [Stop(Eof)]
  {
  }

  lemma EmptyLists(d: Dict)
    requires d.numKeys == 0 && Shaped(d.sym)
    ensures Calls(d, Iterate(d), 1) == [Stop(Eof)]
  {
    var r := Next(d, Iterate(d));
    assert Calls(d, r.1, 0) == [];
  }

  lemma FreshReady(d: Dict, es: seq<Entry>, todo: Todo)
    requires Encodes(d, es) && es != [] && todo == Root(TrieOf(es, d.hasValues, 0, |es|, 0), 0)
    ensures Ready(d, es, Iterate(d), todo, 0, |es|)
  {
    hide Holds, TrieOf, At, StoreBits, Expected;
    TrieItems(es, d.hasValues, 0, |es|, 0, 0);
    assert es[0].key[..0] == [];
  }
}
