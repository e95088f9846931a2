/** On an encoded dictionary lookup returns the stored value of every key, and rejects every
    absent key, except that one which strictly extends the greatest key walks off the trie. */
module LookupAgrees {
  import opened Bits
  import opened Results
  import opened Varint
  import opened Keys
  import opened Values
  import opened Trie
  import opened TrieBuild
  import opened Dictionary
  import opened Iteration
  import opened Subtree
  import opened Navigation
  import opened IterateAll
  import opened Lookup

  /** How the key made of a prefix and rest ends, and its index, if t has it. */
  ghost function FoundIn(t: Trie, rest: Key, index: nat): Option<(Terminal, nat)> {
    match Sub(t, rest, index)
    case None => None
    case Some(sub) => if sub.0.run == [] && !sub.0.term.NoKey? then Some((sub.0.term, sub.1)) else None
  }

  ghost predicate FoundMeans(items: seq<Item>, key: Key, index: nat, found: Option<(Terminal, nat)>) {
    match found
    case None => forall j :: 0 <= j < |items| ==> items[j].key != key
    case Some(f) => index <= f.1 < index + |items| && items[f.1 - index] == Item(key, f.0, f.1)
  }

  /** Below a node's run every key is longer than the key at its end. */
  lemma {:induction false} KidKeysLonger(kids: Kids, above: int, prefix: Key, index: nat)
    requires KidsWellFormed(kids, above)
    ensures forall j :: 0 <= j < KidsCount(kids) ==> |prefix| < |KidItems(kids, prefix, index)[j].key|
  {
    if kids.Kid? {
      ItemsStart(kids.first, prefix, index);
      KidKeysLonger(kids.rest, kids.first.run[0], prefix, index + Count(kids.first));
    }
  }

  lemma OnlyOwnKey(t: Trie, prefix: Key, index: nat)
    requires WellFormed(t)
    ensures FoundMeans(Items(t, prefix, index), prefix, index,
                       if t.run == [] && !t.term.NoKey? then Some((t.term, index)) else None)
  {
    if t.run != [] {
      ItemsStart(t, prefix, index);
    } else {
      assert prefix + t.run == prefix;
      KidKeysLonger(t.kids, -1, prefix, KidsIndex(t.term, index));
    }
  }

  lemma {:induction false} SubWellFormed(t: Trie, rest: Key, index: nat)
    requires WellFormed(t)
    ensures Sub(t, rest, index).Some? ==> WellFormed(Sub(t, rest, index).value.0)
    decreases t
  {
    if !(rest <= t.run) && t.run <= rest {
      KidSubWellFormed(t.kids, -1, rest[|t.run|..], KidsIndex(t.term, index));
    }
  }

  lemma {:induction false} KidSubWellFormed(kids: Kids, above: int, rest: Key, index: nat)
    requires KidsWellFormed(kids, above) && rest != []
    ensures KidSub(kids, rest, index).Some? ==> WellFormed(KidSub(kids, rest, index).value.0)
    decreases kids
  {
    if kids.Kid? {
      SubWellFormed(kids.first, rest, index);
      KidSubWellFormed(kids.rest, kids.first.run[0], rest, index + Count(kids.first));
    }
  }

  lemma FoundInItems(t: Trie, prefix: Key, rest: Key, index: nat)
    requires WellFormed(t)
    ensures FoundMeans(Items(t, prefix, index), prefix + rest, index, FoundIn(t, rest, index))
  {
    hide Items, Sub, WellFormed;
    SubSelects(t, prefix, rest, index);
    SubWellFormed(t, rest, index);
    var items := Items(t, prefix, index);
    match Sub(t, rest, index)
    case None =>
      forall j | 0 <= j < |items| ensures items[j].key != prefix + rest {
        assert prefix + rest <= prefix + rest;
      }
    case Some(sub) =>
      OnlyOwnKey(sub.0, prefix + rest, sub.1);
      var some := Items(sub.0, prefix + rest, sub.1);
      assert some == items[sub.1 - index..sub.1 - index + Count(sub.0)];
      assert forall j :: sub.1 - index <= j < sub.1 - index + Count(sub.0) ==> items[j] == some[j - (sub.1 - index)];
  }

  /** The greatest key below a node, from where its run starts. */
  function LastKey(t: Trie): Key
    decreases t
  {
    t.run + if t.kids.NoKids? then [] else LastKey(LastKid(t.kids))
  }

  function LastKid(kids: Kids): (t: Trie)
    requires kids.Kid?
    ensures t < kids
  {
    if kids.rest.NoKids? then kids.first else LastKid(kids.rest)
  }

  lemma {:induction false} LastItem(t: Trie, prefix: Key, index: nat)
    requires WellFormed(t)
    ensures Count(t) > 0 && Items(t, prefix, index)[Count(t) - 1].key == prefix + LastKey(t)
    decreases t, 0
  {
    CountPositive(t);
    if t.kids.Kid? {
      LastKidItem(t.kids, -1, prefix + t.run, KidsIndex(t.term, index));
      assert prefix + LastKey(t) == prefix + t.run + LastKey(LastKid(t.kids));
    } else {
      assert prefix + LastKey(t) == prefix + t.run;
    }
  }

  lemma {:induction false} LastKidItem(kids: Kids, above: int, prefix: Key, index: nat)
    requires KidsWellFormed(kids, above) && kids.Kid?
    ensures KidsCount(kids) > 0
    ensures KidItems(kids, prefix, index)[KidsCount(kids) - 1].key == prefix + LastKey(LastKid(kids))
    decreases kids, 1
  {
    if kids.rest.NoKids? {
      LastItem(kids.first, prefix, index);
    } else {
      LastKidItem(kids.rest, kids.first.run[0], prefix, index + Count(kids.first));
    }
  }

  /** What follows a subtree cannot be taken for a continuation of its last key. */
  ghost predicate Closed(sym: Symbols, s: seq<bool>, end: nat)
    requires Shaped(sym)
  {
    match ReadBits(s, end, sym.bps)
    case Err(_) => true
    case Ok(code) => code != sym.ctrl[END] && code != sym.ctrl[END_VAL] && code != sym.ctrl[BRANCH]
  }

  /** The chosen child, one symbol in. */
  ghost predicate Chosen(sym: Symbols, s: seq<bool>, end: nat, kids: Kids, picked: Option<(Trie, nat)>, r: Result<nat>)
    requires Shaped(sym)
  {
    match picked
    case None => r == Err(NotFound)
    case Some(k) =>
      && r.Ok? && sym.bps <= r.value && k.0.run != []
      && exists e :: Holds(sym, s, r.value - sym.bps, e, k.0, k.1)
                     && (Closed(sym, s, e) || (e == end && kids.Kid? && k.0 == LastKid(kids)))
  }

  lemma ClosedBeforeSibling(sym: Symbols, s: seq<bool>, pos: nat, end: nat, kids: Kids, above: int, index: nat)
    requires HoldsKids(sym, s, pos, end, kids, above, index) && kids.Kid?
    ensures Closed(sym, s, pos)
  {
    hide NodeBits, BitsOf, ReadBits, ReadVarint, At, Varint.Varint, Holds, Covers;
    CanonicalKids(sym, s, pos, end, kids, above, index);
    HoldsKidsParts(sym, s, pos, end, kids, above, index);
    if kids.rest.Kid? {
      ReadControlAt(sym, s, pos, SKIP, |NodeBits(sym, kids.first, index)|);
    } else {
      FirstSymbol(sym, s, pos, end, kids.first, index, 0);
      CoveredCode(sym, kids.first.run[0]);
    }
  }

  lemma CoveredCode(sym: Symbols, b: byte)
    requires Canonical(sym) && Covers(sym, b)
    ensures sym.codeOf[b] >= NUM_CONTROL_CODES && !IsControl(sym, sym.codeOf[b])
  {
  }

  lemma ChosenHere(sym: Symbols, s: seq<bool>, pos: nat, e: nat, end: nat, kids: Kids, k: Trie, index: nat)
    requires Holds(sym, s, pos, e, k, index) && k.run != [] && Shaped(sym)
    requires Closed(sym, s, e) || (e == end && kids.Kid? && k == LastKid(kids))
    ensures Chosen(sym, s, end, kids, Some((k, index)), Ok(pos + sym.bps))
  {
    hide Holds, Closed, LastKid;
    var q := pos + sym.bps;
    assert q - sym.bps == pos;
    assert Holds(sym, s, q - sym.bps, e, k, index);
  }

  lemma NothingChosen(sym: Symbols, s: seq<bool>, end: nat, kids: Kids)
    requires Shaped(sym)
    ensures Chosen(sym, s, end, kids, None, Err(NotFound))
  {
  }

  lemma ChosenFurther(sym: Symbols, s: seq<bool>, end: nat, kids: Kids, picked: Option<(Trie, nat)>, r: Result<nat>)
    requires Shaped(sym) && kids.Kid? && kids.rest.Kid? && Chosen(sym, s, end, kids.rest, picked, r)
    ensures Chosen(sym, s, end, kids, picked, r)
  {
    hide Holds, Closed;
    assert LastKid(kids) == LastKid(kids.rest);
  }

  lemma {:induction false} ChooseChildAt(
    sym: Symbols, s: seq<bool>, pos: nat, end: nat, kids: Kids, above: int, index: nat, c: nat, n: nat, b: byte)
    requires HoldsKids(sym, s, pos, end, kids, above, index) && c + Len(kids) == n
    ensures Chosen(sym, s, end, kids, Pick(kids, b, index), ChooseChild(sym, s, pos, c, n, b))
    decreases kids
  {
    hide Holds, HoldsKids, NodeBits, BitsOf, ReadBits, ReadVarint, At, Varint.Varint, Covers, Closed, LastKey, IsControl, Chosen;
    CanonicalKids(sym, s, pos, end, kids, above, index);
    NothingChosen(sym, s, end, kids);
    if kids.Kid? {
      var size := |NodeBits(sym, kids.first, index)|;
      HoldsKidsParts(sym, s, pos, end, kids, above, index);
      var p := FirstPos(sym, pos, kids, index);
      FirstSymbol(sym, s, p, if kids.rest.NoKids? then end else p + size, kids.first, index, b);
      CoveredCode(sym, kids.first.run[0]);
      assert Len(kids) == 1 + Len(kids.rest);
      if kids.rest.NoKids? {
        ChosenHere(sym, s, p, end, end, kids, kids.first, index);
      } else {
        assert Len(kids.rest) > 0;
        ReadControlAt(sym, s, pos, SKIP, size);
        ClosedBeforeSibling(sym, s, p + size, end, kids.rest, kids.first.run[0], index + Count(kids.first));
        ChosenHere(sym, s, p, p + size, end, kids, kids.first, index);
        ChooseChildAt(sym, s, p + size, end, kids.rest, kids.first.run[0], index + Count(kids.first), c + 1, n, b);
        ChosenFurther(sym, s, end, kids, Pick(kids.rest, b, index + Count(kids.first)),
                      ChooseChild(sym, s, p + size, c + 1, n, b));
      }
    }
  }

  ghost function HitFor(found: Option<(Terminal, nat)>): Hit {
    match found
    case None => Miss(NotFound)
    case Some(f) => if f.0.Valued? then ValueHit(f.1) else NullHit
  }

  /** At the end of a run with key left over: through the branch, or nowhere. */
  lemma ProbeOn(sym: Symbols, s: seq<bool>, pos: nat, end: nat, t: Trie, index: nat, key: Key, matched: nat)
    requires Holds(sym, s, pos, end, t, index) && t.run == [] && matched < |key|
    requires t.kids.NoKids? ==> Closed(sym, s, end)
    ensures var r := Probe(sym, s, pos, key, matched, false);
            if t.kids.NoKids? then r == Miss(NotFound)
            else
              match ChooseChild(sym, s, KidsPos(sym, pos, t, index), 0, Len(t.kids), key[matched])
              case Err(e) => r == Miss(e)
              case Ok(q) => r == Probe(sym, s, q, key, matched + 1, false)
  {
    hide Holds, HoldsKids, NodeBits, BitsOf, ReadBits, ReadVarint, At, Varint.Varint, Covers, ChooseChild;
    CanonicalNode(sym, s, pos, end, t, index);
    AtTerminal(sym, s, pos, end, t, index);
    if t.kids.Kid? {
      ReadControlAt(sym, s, AfterTerm(sym, pos, t, index), BRANCH, Len(t.kids));
      KidsPosIs(sym, pos, t, index);
    }
  }

  lemma KidsPosIs(sym: Symbols, pos: nat, t: Trie, index: nat)
    requires Shaped(sym)
    ensures KidsPos(sym, pos, t, index) == AfterTerm(sym, pos, t, index) + sym.bps + |Varint.Varint(Len(t.kids))|
  {
  }

  /** With the key used up, the terminal decides. */
  lemma ProbeEnd(sym: Symbols, s: seq<bool>, pos: nat, end: nat, t: Trie, index: nat, key: Key)
    requires Holds(sym, s, pos, end, t, index)
    ensures Probe(sym, s, pos, key, |key|, false) == HitFor(FoundIn(t, [], index))
  {
    hide Holds, HoldsKids, NodeBits, BitsOf, ReadBits, ReadVarint, At, Varint.Varint, Covers, ChooseChild, AfterTerm, KidsPos;
    CanonicalNode(sym, s, pos, end, t, index);
    assert t.run[0..] == t.run;
    if t.run == [] {
      AtTerminal(sym, s, pos, end, t, index);
      if t.term.NoKey? {
        ReadControlAt(sym, s, pos, BRANCH, Len(t.kids));
      }
    } else {
      FirstSymbol(sym, s, pos, end, t, index, 0);
      CoveredCode(sym, t.run[0]);
    }
  }

  /** A literal symbol either matches the next byte of the key or ends the search. */
  lemma ProbeLiteral(sym: Symbols, s: seq<bool>, pos: nat, end: nat, t: Trie, index: nat, key: Key, matched: nat)
    requires Holds(sym, s, pos, end, t, index) && t.run != [] && matched < |key|
    ensures Probe(sym, s, pos, key, matched, false)
         == if t.run[0] == key[matched] then Probe(sym, s, pos + sym.bps, key, matched + 1, false) else Miss(NotFound)
  {
    hide Holds, BitsOf, ReadBits, ReadVarint, ChooseChild;
    CanonicalNode(sym, s, pos, end, t, index);
    FirstSymbol(sym, s, pos, end, t, index, key[matched]);
    CoveredCode(sym, t.run[0]);
  }

  /** The walk reports exactly what the trie holds for the key, provided the bits after the
      trie are closed or the key does not run past the greatest one. */
  lemma {:induction false} ProbeNode(
    sym: Symbols, s: seq<bool>, pos: nat, end: nat, t: Trie, index: nat, key: Key, matched: nat)
    requires Holds(sym, s, pos, end, t, index) && matched <= |key|
    requires Closed(sym, s, end) || !(LastKey(t) < key[matched..])
    ensures Probe(sym, s, pos, key, matched, false) == HitFor(FoundIn(t, key[matched..], index))
    decreases |s| - pos, 1
  {
    hide Holds, BitsOf, ReadBits, ReadVarint, Pick, KidSub, Covers, AfterTerm, Probe, ChooseChild, Closed, Sub, KidsPos;
    var rest := key[matched..];
    CanonicalNode(sym, s, pos, end, t, index);
    if matched == |key| {
      ProbeEnd(sym, s, pos, end, t, index, key);
    } else if t.run != [] {
      ProbeLiteral(sym, s, pos, end, t, index, key, matched);
      SubShift(t, rest, index);
      if t.run[0] == rest[0] {
        var t' := t.(run := t.run[1..]);
        HoldsShorter(sym, s, pos, end, t, index);
        HoldsBounded(sym, s, pos, end, t, index);
        assert key[matched + 1..] == rest[1..];
        LastKeyShorter(t, rest);
        ProbeNode(sym, s, pos + sym.bps, end, t', index, key, matched + 1);
      }
    } else {
      ProbeBranch(sym, s, pos, end, t, index, key, matched);
    }
  }

  lemma HoldsBounded(sym: Symbols, s: seq<bool>, pos: nat, end: nat, t: Trie, index: nat)
    requires Holds(sym, s, pos, end, t, index) && t.run != []
    ensures pos + sym.bps <= |s|
  {
    FirstSymbol(sym, s, pos, end, t, index, 0);
  }

  lemma LastKeyShorter(t: Trie, rest: Key)
    requires t.run != [] && rest != [] && t.run[0] == rest[0]
    ensures LastKey(t) < rest <==> LastKey(t.(run := t.run[1..])) < rest[1..]
  {
    var t' := t.(run := t.run[1..]);
    assert LastKey(t) == [rest[0]] + LastKey(t');
    assert rest == [rest[0]] + rest[1..];
  }

  lemma LastKeyOfBranch(t: Trie)
    requires t.run == []
    ensures LastKey(t) == if t.kids.NoKids? then [] else LastKey(LastKid(t.kids))
  {
  }

  lemma {:induction false} PickStarts(kids: Kids, b: byte, index: nat)
    ensures var k := Pick(kids, b, index); k.Some? ==> k.value.0.run != [] && k.value.0.run[0] == b
  {
    if kids.Kid? {
      PickStarts(kids.rest, b, index + Count(kids.first));
    }
  }

  lemma FoundInBranch(t: Trie, rest: Key, index: nat)
    requires t.run == [] && rest != []
    ensures match Pick(t.kids, rest[0], KidsIndex(t.term, index))
            case None => FoundIn(t, rest, index) == None
            case Some(k) =>
              && k.0.run != [] && k.0.run[0] == rest[0]
              && FoundIn(t, rest, index) == FoundIn(k.0.(run := k.0.run[1..]), rest[1..], k.1)
  {
    hide Pick, KidSub;
    KidSubPicks(t.kids, rest, KidsIndex(t.term, index));
    PickStarts(t.kids, rest[0], KidsIndex(t.term, index));
    assert rest[|t.run|..] == rest;
    var p := Pick(t.kids, rest[0], KidsIndex(t.term, index));
    if p.Some? {
      SubShift(p.value.0, rest, p.value.1);
    }
  }

  lemma EnterKid(sym: Symbols, s: seq<bool>, end: nat, t: Trie, k: (Trie, nat), q: nat, rest: Key) returns (e: nat)
    requires Shaped(sym) && Chosen(sym, s, end, t.kids, Some(k), Ok(q))
    requires t.run == [] && rest != [] && k.0.run != [] && k.0.run[0] == rest[0]
    requires Closed(sym, s, end) || !(LastKey(t) < rest)
    ensures Holds(sym, s, q, e, k.0.(run := k.0.run[1..]), k.1)
    ensures Closed(sym, s, e) || !(LastKey(k.0.(run := k.0.run[1..])) < rest[1..])
  {
    hide Holds, Closed, LastKey;
    LastKeyOfBranch(t);
    e :| Holds(sym, s, q - sym.bps, e, k.0, k.1)
         && (Closed(sym, s, e) || (e == end && t.kids.Kid? && k.0 == LastKid(t.kids)));
    HoldsShorter(sym, s, q - sym.bps, e, k.0, k.1);
    LastKeyShorter(k.0, rest);
  }

  lemma {:induction false} ProbeBranch(
    sym: Symbols, s: seq<bool>, pos: nat, end: nat, t: Trie, index: nat, key: Key, matched: nat)
    requires Holds(sym, s, pos, end, t, index) && t.run == [] && matched < |key|
    requires Closed(sym, s, end) || !(LastKey(t) < key[matched..])
    ensures Probe(sym, s, pos, key, matched, false) == HitFor(FoundIn(t, key[matched..], index))
    decreases |s| - pos, 0
  {
    hide Holds, HoldsKids, At, ReadBits, ReadVarint, Pick, FoundIn, AfterTerm, Probe, ChooseChild, Closed, LastKey;
    var rest, kidsIndex := key[matched..], KidsIndex(t.term, index);
    CanonicalNode(sym, s, pos, end, t, index);
    LastKeyOfBranch(t);
    ProbeOn(sym, s, pos, end, t, index, key, matched);
    FoundInBranch(t, rest, index);
    if t.kids.Kid? {
      var at := KidsPos(sym, pos, t, index);
      AtTerminal(sym, s, pos, end, t, index);
      ChooseChildAt(sym, s, at, end, t.kids, -1, kidsIndex, 0, Len(t.kids), rest[0]);
      var picked := Pick(t.kids, rest[0], kidsIndex);
      if picked.Some? {
        var k, q := picked.value, ChooseChild(sym, s, at, 0, Len(t.kids), rest[0]).value;
        var e := EnterKid(sym, s, end, t, k, q, rest);
        assert key[matched + 1..] == rest[1..];
        ProbeNode(sym, s, q, e, k.0.(run := k.0.run[1..]), k.1, key, matched + 1);
      }
    } else {
      NoPick(rest[0], kidsIndex);
    }
  }

  /** A proper prefix comes first. */
  lemma PrefixIsLess(a: Key, b: Key)
    requires a < b
    ensures Less(a, b)
  {
    assert a[..|a|] == b[..|a|];
    LessAt(a, b, |a|);
  }

  lemma SameKey(es: seq<Entry>, i: nat, j: nat)
    requires Sorted(es) && i < |es| && j < |es| && es[i].key == es[j].key
    ensures i == j
  {
    LessIrreflexive(es[i].key);
  }

  lemma NotPastLast(es: seq<Entry>, i: nat)
    requires Sorted(es) && i < |es|
    ensures !(es[|es| - 1].key < es[i].key)
  {
    var last := es[|es| - 1].key;
    if last < es[i].key {
      PrefixIsLess(last, es[i].key);
      if i < |es| - 1 {
        LessTransitive(last, es[i].key, last);
      }
      LessIrreflexive(last);
    }
  }

  /** What the walk over an encoded dictionary reports, in terms of its entries. */
  lemma ProbeEntries(d: Dict, es: seq<Entry>, key: Key) returns (found: Option<(Terminal, nat)>)
    requires Encodes(d, es) && es != [] && !(es[|es| - 1].key < key)
    ensures Probe(d.sym, d.s, d.trieStart, key, 0, false) == HitFor(found)
    ensures match found
            case None => forall i :: 0 <= i < |es| ==> es[i].key != key
            case Some(f) => f.1 < |es| && es[f.1].key == key && f.0 == TerminalOf(d.hasValues, es[f.1].val)
  {
    hide Holds, TrieOf, Items, Probe, FoundIn, LastKey, Sorted, StoreBits, At;
    var n, t := |es|, TrieOf(es, d.hasValues, 0, |es|, 0);
    TrieWellFormed(es, d.hasValues, 0, n, 0);
    TrieItems(es, d.hasValues, 0, n, 0, 0);
    assert es[0].key[..0] == [] && [] + key == key && key[0..] == key;
    LastItem(t, [], 0);
    assert [] + LastKey(t) == LastKey(t);
    FoundInItems(t, [], key, 0);
    ProbeNode(d.sym, d.s, d.trieStart, d.valueStart, t, 0, key, 0);
    found := FoundIn(t, key, 0);
    var items := Expected(es, d.hasValues, 0, n, 0);
    assert forall i :: 0 <= i < n ==> items[i].key == es[i].key;
  }

  lemma FetchStored(d: Dict, es: seq<Entry>, i: nat)
    requires Encodes(d, es) && d.hasValues && i < |es|
    ensures FetchValue(d, i) == Ok(es[i].val)
  {
    hide ReadValue, StoreBits, At, Holds, Sorted, StorePos, ScanValues;
    StoreReadsBack(d.s, d.valueStart, Vals(es), i);
  }

  /** Every stored key is found, with its own value. */
  lemma LookupPresent(d: Dict, es: seq<Entry>, i: nat)
    requires Encodes(d, es) && i < |es|
    ensures LookupKey(d, es[i].key) == Ok(es[i].val)
  {
    hide Holds, Probe, FetchValue, StoreBits, At, Sorted;
    NotPastLast(es, i);
    var found := ProbeEntries(d, es, es[i].key);
    TrieStartBound(d, es);
    SameKey(es, i, found.value.1);
    if found.value.0.Valued? {
      FetchStored(d, es, i);
    }
  }

  /** A key that was not added is not found, unless it strictly extends the greatest key. */
  lemma LookupAbsent(d: Dict, es: seq<Entry>, key: Key)
    requires Encodes(d, es)
    requires forall i :: 0 <= i < |es| ==> es[i].key != key
    requires es != [] ==> !(es[|es| - 1].key < key)
    ensures LookupKey(d, key) == Err(NotFound)
  {
    hide Holds, Probe, StoreBits, At, Sorted;
    if es != [] {
      var found := ProbeEntries(d, es, key);
      TrieStartBound(d, es);
    }
  }

  lemma TrieStartBound(d: Dict, es: seq<Entry>)
    requires Encodes(d, es) && es != []
    ensures d.trieStart <= |d.s|
  {
    hide TrieOf, NodeBits, WellFormed, Spelled;
  }
}
