/** On an encoded dictionary a prefix iterator lists exactly the entries whose keys start with
    the prefix. */
module PrefixFinds {
  import opened Bits
  import opened Results
  import opened Varint
  import opened Keys
  import opened Values
  import opened Trie
  import opened TrieBuild
  import opened Dictionary
  import opened Iteration
  import opened PrefixSearch
  import opened Subtree
  import opened Navigation
  import opened IterateAll

  /** The located subtree, where the descent says it is. */
  ghost predicate FoundAt(sym: Symbols, s: seq<bool>, found: Option<(Trie, nat)>, r: Result<(nat, nat)>) {
    match found
    case None => r == Err(NotFound)
    case Some(sub) => r.Ok? && Holds(sym, s, r.value.0, r.value.1, sub.0, sub.1)
  }

  lemma {:induction false} FindChildAt(
    sym: Symbols, s: seq<bool>, pos: nat, end: nat, kids: Kids, above: int, index: nat, c: nat, n: nat, b: byte)
    requires HoldsKids(sym, s, pos, end, kids, above, index) && c + Len(kids) == n
    ensures FoundAt(sym, s, Pick(kids, b, index), FindChild(sym, s, pos, end, c, n, sym.codeOf[b]))
    decreases kids
  {
    hide Holds, HoldsKids, NodeBits, BitsOf, ReadBits, ReadVarint, At, Varint.Varint;
    CanonicalKids(sym, s, pos, end, kids, above, index);
    if kids.Kid? {
      var size := |NodeBits(sym, kids.first, index)|;
      HoldsKidsParts(sym, s, pos, end, kids, above, index);
      var p := FirstPos(sym, pos, kids, index);
      FirstSymbol(sym, s, p, if kids.rest.NoKids? then end else p + size, kids.first, index, b);
      assert Len(kids) == 1 + Len(kids.rest);
      if kids.rest.Kid? {
        assert Len(kids.rest) > 0;
        ReadControlAt(sym, s, pos, SKIP, size);
        FindChildAt(sym, s, p + size, end, kids.rest, kids.first.run[0], index + Count(kids.first), c + 1, n, b);
      }
    }
  }

  /** At the end of a run only the branch can continue the prefix. */
  lemma DescendToBranch(sym: Symbols, s: seq<bool>, pos: nat, end: nat, t: Trie, index: nat, prefix: Key, matched: nat)
    requires Holds(sym, s, pos, end, t, index) && t.run == [] && matched < |prefix|
    ensures var r := DescendTo(sym, s, pos, end, prefix, matched);
            if t.kids.NoKids? then r == Err(NotFound)
            else
              match BranchTo(sym, s, AfterTerm(sym, pos, t, index) + sym.bps, end, prefix[matched])
              case Err(e) => r == Err(e)
              case Ok(c) => r == DescendTo(sym, s, c.0, c.1, prefix, matched)
  {
    hide Holds, HoldsKids, NodeBits, BitsOf, ReadBits, ReadVarint, At, Varint.Varint, Covers, BranchTo;
    CanonicalNode(sym, s, pos, end, t, index);
    AtTerminal(sym, s, pos, end, t, index);
    if t.kids.Kid? {
      ReadControlAt(sym, s, AfterTerm(sym, pos, t, index), BRANCH, Len(t.kids));
    }
  }

  lemma BranchFinds(sym: Symbols, s: seq<bool>, pos: nat, end: nat, t: Trie, index: nat, b: byte)
    requires Holds(sym, s, pos, end, t, index) && t.run == [] && t.kids.Kid?
    ensures FoundAt(sym, s, Pick(t.kids, b, KidsIndex(t.term, index)),
                    BranchTo(sym, s, AfterTerm(sym, pos, t, index) + sym.bps, end, b))
  {
    hide Holds, HoldsKids, NodeBits, BitsOf, ReadBits, ReadVarint, At, Varint.Varint, FindChild, Pick, Covers, FoundAt;
    CanonicalNode(sym, s, pos, end, t, index);
    AtTerminal(sym, s, pos, end, t, index);
    FindChildAt(sym, s, KidsPos(sym, pos, t, index), end, t.kids, -1, KidsIndex(t.term, index), 0, Len(t.kids), b);
    ReadControlAt(sym, s, AfterTerm(sym, pos, t, index), BRANCH, Len(t.kids));
  }

  /** The descent reaches exactly the subtree that Sub names. */
  lemma {:induction false} DescendFinds(
    sym: Symbols, s: seq<bool>, pos: nat, end: nat, t: Trie, index: nat, prefix: Key, matched: nat)
    requires Holds(sym, s, pos, end, t, index) && matched <= |prefix|
    ensures FoundAt(sym, s, Sub(t, prefix[matched..], index), DescendTo(sym, s, pos, end, prefix, matched))
    decreases |s| - pos
  {
    hide Holds, BitsOf, ReadBits, ReadVarint, BranchTo, Pick, KidSub, Covers, AfterTerm;
    var rest := prefix[matched..];
    CanonicalNode(sym, s, pos, end, t, index);
    if matched == |prefix| {
      assert t.(run := t.run[0..]) == t;
    } else if t.run != [] {
      FirstSymbol(sym, s, pos, end, t, index, prefix[matched]);
      DescendLiteral(sym, s, pos, end, t, index, prefix, matched);
      SubShift(t, rest, index);
      if t.run[0] == rest[0] {
        HoldsShorter(sym, s, pos, end, t, index);
        DescendFinds(sym, s, pos + sym.bps, end, t.(run := t.run[1..]), index, prefix, matched + 1);
        assert prefix[matched + 1..] == rest[1..];
      }
    } else {
      DescendToBranch(sym, s, pos, end, t, index, prefix, matched);
      KidSubPicks(t.kids, rest, KidsIndex(t.term, index));
      assert rest[|t.run|..] == rest;
      if t.kids.Kid? {
        BranchFinds(sym, s, pos, end, t, index, prefix[matched]);
        var k := Pick(t.kids, rest[0], KidsIndex(t.term, index));
        if k.Some? {
          var c := BranchTo(sym, s, AfterTerm(sym, pos, t, index) + sym.bps, end, prefix[matched]).value;
          AfterTermBeyond(sym, pos, t, index);
          DescendFinds(sym, s, c.0, c.1, k.value.0, k.value.1, prefix, matched);
        }
      } else {
        NoPick(rest[0], KidsIndex(t.term, index));
      }
    }
  }

  /** A literal symbol either matches the next byte or ends the search. */
  lemma DescendLiteral(sym: Symbols, s: seq<bool>, pos: nat, end: nat, t: Trie, index: nat, prefix: Key, matched: nat)
    requires Holds(sym, s, pos, end, t, index) && t.run != [] && matched < |prefix|
    ensures DescendTo(sym, s, pos, end, prefix, matched)
         == if t.run[0] == prefix[matched] then DescendTo(sym, s, pos + sym.bps, end, prefix, matched + 1) else Err(NotFound)
  {
    hide Holds, BitsOf, ReadBits, ReadVarint, BranchTo, Pick, KidSub;
    CanonicalNode(sym, s, pos, end, t, index);
    FirstSymbol(sym, s, pos, end, t, index, prefix[matched]);
  }

  lemma {:induction false} SubDepth(t: Trie, rest: Key, index: nat)
    ensures Sub(t, rest, index).Some? ==> Depth(Sub(t, rest, index).value.0) <= Depth(t)
    decreases t
  {
    if !(rest <= t.run) && t.run <= rest {
      KidSubDepth(t.kids, rest[|t.run|..], KidsIndex(t.term, index));
    }
  }

  lemma {:induction false} KidSubDepth(kids: Kids, rest: Key, index: nat)
    requires rest != []
    ensures KidSub(kids, rest, index).Some? ==> Depth(KidSub(kids, rest, index).value.0) <= KidsDepth(kids)
    decreases kids
  {
    if kids.Kid? {
      SubDepth(kids.first, rest, index);
      KidSubDepth(kids.rest, rest, index + Count(kids.first));
    }
  }

  lemma ExpectedSlice(es: seq<Entry>, hasValues: bool, k: nat, hi: nat)
    requires k <= hi <= |es|
    ensures Expected(es, hasValues, 0, |es|, 0)[k..hi] == Expected(es, hasValues, k, hi, k)
  {
  }

  /** The subtree of the prefix, in a dictionary that has keys. */
  ghost function Located(es: seq<Entry>, hasValues: bool, prefix: Key): Option<(Trie, nat)>
    requires Sorted(es) && es != []
  {
    Sub(TrieOf(es, hasValues, 0, |es|, 0), prefix, 0)
  }

  /** It holds exactly the entries whose keys start with the prefix, and they are consecutive. */
  lemma LocatedEntries(es: seq<Entry>, hasValues: bool, prefix: Key) returns (k: nat, hi: nat)
    requires Sorted(es) && es != []
    ensures k <= hi <= |es|
    ensures forall i :: 0 <= i < |es| ==> (prefix <= es[i].key <==> k <= i < hi)
    ensures match Located(es, hasValues, prefix)
            case None => k == hi
            case Some(sub) => Items(sub.0, prefix, sub.1) == Expected(es, hasValues, k, hi, k)
  {
    hide TrieOf, Sub, Items, Sorted, AllShare;
    var t := TrieOf(es, hasValues, 0, |es|, 0);
    TrieWellFormed(es, hasValues, 0, |es|, 0);
    TrieItems(es, hasValues, 0, |es|, 0, 0);
    assert es[0].key[..0] == [] && [] + prefix == prefix;
    SubSelects(t, [], prefix, 0);
    var items := Expected(es, hasValues, 0, |es|, 0);
    assert forall i :: 0 <= i < |es| ==> items[i].key == es[i].key;
    match Located(es, hasValues, prefix)
    case None => k, hi := 0, 0;
    case Some(sub) =>
      k, hi := sub.1, sub.1 + Count(sub.0);
      ExpectedSlice(es, hasValues, k, hi);
  }

  lemma NothingFound(d: Dict, es: seq<Entry>, prefix: Key)
    requires Encodes(d, es) && es != [] && Located(es, d.hasValues, prefix).None?
    ensures FindPrefix(d, prefix).Ok? && FindPrefix(d, prefix).value.done
  {
    hide Holds, TrieOf, DescendTo, StoreBits, At, Sorted;
    var t := TrieOf(es, d.hasValues, 0, |es|, 0);
    DescendFinds(d.sym, d.s, d.trieStart, d.valueStart, t, 0, prefix, 0);
    assert prefix[0..] == prefix;
    assert [] <= t.run;
  }

  lemma SomethingFound(d: Dict, es: seq<Entry>, prefix: Key, k: nat, hi: nat)
    requires Encodes(d, es) && es != [] && Located(es, d.hasValues, prefix).Some? && k <= hi <= |es|
    requires var sub := Located(es, d.hasValues, prefix).value;
             Items(sub.0, prefix, sub.1) == Expected(es, d.hasValues, k, hi, k)
    ensures FindPrefix(d, prefix).Ok?
    ensures var sub := Located(es, d.hasValues, prefix).value;
            Ready(d, es, FindPrefix(d, prefix).value, Root(sub.0, sub.1), k, hi)
  {
    hide Holds, TrieOf, DescendTo, StoreBits, At, Sorted, Items, Expected;
    var t := TrieOf(es, d.hasValues, 0, |es|, 0);
    if prefix == [] {
      assert t.(run := t.run[0..]) == t;
    } else {
      DescendFinds(d.sym, d.s, d.trieStart, d.valueStart, t, 0, prefix, 0);
      assert prefix[0..] == prefix && prefix[..|prefix|] == prefix;
    }
  }

  lemma DoneLists(d: Dict, es: seq<Entry>, it: Iter, k: nat)
    requires Shaped(d.sym) && it.done && |it.stack| <= MAX_DEPTH && k <= |es|
    ensures Calls(d, it, 1) == Listing(es, k, k)
  {
    var r := Next(d, it);
    assert Calls(d, r.1, 0) == [];
  }

  /** A prefix iterator opens, and lists exactly the entries whose keys start with the prefix,
      in order and with their values, before it reports the end: if and only if the branches
      below the prefix nest at most 256 deep, and so whenever those of the whole trie do. */
  lemma FindPrefixLists(d: Dict, es: seq<Entry>, prefix: Key) returns (k: nat, hi: nat)
    requires Encodes(d, es)
    ensures k <= hi <= |es|
    ensures forall i :: 0 <= i < |es| ==> (prefix <= es[i].key <==> k <= i < hi)
    ensures FindPrefix(d, prefix).Ok?
    ensures Lists(d, FindPrefix(d, prefix).value, es, k, hi)
        <==> (es != [] && Located(es, d.hasValues, prefix).Some? ==>
                Depth(Located(es, d.hasValues, prefix).value.0) <= 256)
    ensures (es != [] ==> Depth(TrieOf(es, d.hasValues, 0, |es|, 0)) <= 256) ==> Lists(d, FindPrefix(d, prefix).value, es, k, hi)
  {
    hide Holds, TrieOf, Sub, DescendTo, Items, Expected, Calls, Listing, StoreBits, At, Sorted;
    if es == [] {
      k, hi := 0, 0;
      EmptyLists(d);
      EmptyListing(es);
    } else {
      k, hi := LocatedEntries(es, d.hasValues, prefix);
      SubDepth(TrieOf(es, d.hasValues, 0, |es|, 0), prefix, 0);
      if Located(es, d.hasValues, prefix).None? {
        NothingFound(d, es, prefix);
        DoneLists(d, es, FindPrefix(d, prefix).value, k);
      } else {
        var sub := Located(es, d.hasValues, prefix).value;
        SomethingFound(d, es, prefix, k, hi);
        CallsList(d, es, FindPrefix(d, prefix).value, Root(sub.0, sub.1), k, hi);
      }
    }
  }
}
