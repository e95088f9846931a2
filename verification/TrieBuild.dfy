/** The trie of a sorted entry list, by the index ranges the encoder recurses on. */
module TrieBuild {
  import opened Keys
  import opened Values
  import opened Trie

  datatype Entry = Entry(key: Key, val: Value)

  /** Strictly ascending, hence without duplicates. */
  ghost predicate Sorted(es: seq<Entry>) {
    forall i, j :: 0 <= i < j < |es| ==> Less(es[i].key, es[j].key)
  }

  /** The entries start..end agree on their first n bytes. */
  ghost predicate Range(es: seq<Entry>, start: nat, end: nat, n: nat) {
    && start < end <= |es| && n <= |es[start].key|
    && forall i :: start <= i < end ==> n <= |es[i].key| && es[i].key[..n] == es[start].key[..n]
  }

  /** They all have a byte n, and it is the same one. */
  predicate AllShare(es: seq<Entry>, start: nat, end: nat, n: nat)
    requires start < end <= |es|
  {
    && n < |es[start].key|
    && forall i :: start <= i < end ==> n < |es[i].key| && es[i].key[n] == es[start].key[n]
  }

  /** Length of the longest common prefix, given that it is at least n. */
  function Common(es: seq<Entry>, start: nat, end: nat, n: nat): (c: nat)
    requires start < end <= |es|
    ensures n <= c && !AllShare(es, start, end, c)
    ensures forall k :: n <= k < c ==> AllShare(es, start, end, k)
    decreases |es[start].key| - n
  {
    if AllShare(es, start, end, n) then Common(es, start, end, n + 1) else n
  }

  lemma {:induction false} CommonRange(es: seq<Entry>, start: nat, end: nat, n: nat, c: nat)
    requires Range(es, start, end, n) && n <= c
    requires forall k :: n <= k < c ==> AllShare(es, start, end, k)
    ensures Range(es, start, end, c)
  {
    if n < c {
      CommonRange(es, start, end, n, c - 1);
      assert AllShare(es, start, end, c - 1);
      forall i | start <= i < end
        ensures es[i].key[..c] == es[start].key[..c]
      {
        assert es[i].key[..c] == es[i].key[..c - 1] + [es[i].key[c - 1]];
      }
    }
  }

  /** End of the group of entries that share byte n with entry cs. */
  function ChildEnd(es: seq<Entry>, cs: nat, end: nat, n: nat): (ce: nat)
    requires cs < end <= |es| && forall i :: cs <= i < end ==> n < |es[i].key|
    ensures cs < ce <= end && AllShare(es, cs, ce, n)
    ensures ce < end ==> es[ce].key[n] != es[cs].key[n]
  {
    GroupEnd(es, cs, cs + 1, end, n)
  }

  function GroupEnd(es: seq<Entry>, cs: nat, ce: nat, end: nat, n: nat): (r: nat)
    requires cs < ce <= end <= |es| && forall i :: cs <= i < end ==> n < |es[i].key|
    requires AllShare(es, cs, ce, n)
    ensures ce <= r <= end && AllShare(es, cs, r, n)
    ensures r < end ==> es[r].key[n] != es[cs].key[n]
    decreases end - ce
  {
    if ce < end && es[ce].key[n] == es[cs].key[n] then GroupEnd(es, cs, ce + 1, end, n) else ce
  }

  /** With a sorted range that agrees on n bytes, only the first key can end there, and byte n
      never decreases. */
  lemma SortedRange(es: seq<Entry>, start: nat, end: nat, n: nat)
    requires Sorted(es) && Range(es, start, end, n)
    ensures forall i :: start < i < end ==> n < |es[i].key|
    ensures forall i, j :: start <= i < j < end && n < |es[i].key| ==> es[i].key[n] <= es[j].key[n]
  {
    forall i, j | start <= i < j < end
      ensures n < |es[j].key| && (n < |es[i].key| ==> es[i].key[n] <= es[j].key[n])
    {
      LessAt(es[i].key, es[j].key, n);
    }
  }

  /** First entry of the range that continues past n bytes. */
  function KidsStart(es: seq<Entry>, start: nat, n: nat): nat
    requires start < |es|
  {
    if |es[start].key| == n then start + 1 else start
  }

  function TerminalOf(hasValues: bool, v: Value): Terminal {
    if hasValues && !v.Null? then Valued else Plain
  }

  /** What the encoder demands of a range before it splits it into children: it shares n bytes
      and no more, so a range without a terminal falls into at least two groups. */
  ghost predicate Splits(es: seq<Entry>, lo: nat, hi: nat, n: nat) {
    && Sorted(es) && Range(es, lo, hi, n) && !AllShare(es, lo, hi, n)
  }

  lemma GroupIsSmaller(es: seq<Entry>, lo: nat, hi: nat, cs: nat, n: nat)
    requires Splits(es, lo, hi, n) && KidsStart(es, lo, n) <= cs < hi
    ensures forall i :: cs <= i < hi ==> n < |es[i].key|
    ensures Range(es, cs, ChildEnd(es, cs, hi, n), n)
    ensures ChildEnd(es, cs, hi, n) - cs < hi - lo
  {
    SortedRange(es, lo, hi, n);
  }

  function TrieOf(es: seq<Entry>, hasValues: bool, start: nat, end: nat, n: nat): Trie
    requires Sorted(es) && Range(es, start, end, n)
    decreases end - start, end - start + 1
  {
    var c := Common(es, start, end, n);
    CommonRange(es, start, end, n, c);
    Node(es[start].key[n..c],
         if |es[start].key| == c then TerminalOf(hasValues, es[start].val) else NoKey,
         KidsOf(es, hasValues, start, end, KidsStart(es, start, c), c))
  }

  function KidsOf(es: seq<Entry>, hasValues: bool, lo: nat, hi: nat, cs: nat, n: nat): Kids
    requires Splits(es, lo, hi, n) && KidsStart(es, lo, n) <= cs <= hi
    decreases hi - lo, hi - cs
  {
    if cs == hi then NoKids else
      GroupIsSmaller(es, lo, hi, cs, n);
      var ce := ChildEnd(es, cs, hi, n);
      Kid(TrieOf(es, hasValues, cs, ce, n), KidsOf(es, hasValues, lo, hi, ce, n))
  }

  /** The items the entries start..end should come out as. */
  function Expected(es: seq<Entry>, hasValues: bool, start: nat, end: nat, index: nat): (items: seq<Item>)
    requires start <= end <= |es|
    ensures |items| == end - start
  {
    seq(end - start, k requires 0 <= k < end - start =>
      Item(es[start + k].key, TerminalOf(hasValues, es[start + k].val), index + k))
  }

  lemma ExpectedSplit(es: seq<Entry>, hasValues: bool, start: nat, mid: nat, end: nat, index: nat)
    requires start <= mid <= end <= |es|
    ensures Expected(es, hasValues, start, end, index)
         == Expected(es, hasValues, start, mid, index) + Expected(es, hasValues, mid, end, index + (mid - start))
    ensures mid == start + 1 ==>
              Expected(es, hasValues, start, mid, index) == [Item(es[start].key, TerminalOf(hasValues, es[start].val), index)]
  {
  }

  /** The trie holds exactly the entries, in order. */
  lemma {:induction false} TrieItems(es: seq<Entry>, hasValues: bool, start: nat, end: nat, n: nat, index: nat)
    requires Sorted(es) && Range(es, start, end, n)
    ensures Items(TrieOf(es, hasValues, start, end, n), es[start].key[..n], index)
         == Expected(es, hasValues, start, end, index)
    decreases end - start, end - start + 1
  {
    hide Common, AllShare, Expected, ChildEnd, Sorted;
    var c := Common(es, start, end, n);
    CommonRange(es, start, end, n, c);
    var key := es[start].key;
    assert key[..n] + key[n..c] == key[..c];
    var cs := KidsStart(es, start, c);
    KidsItems(es, hasValues, start, end, cs, c, index + (cs - start));
    ExpectedSplit(es, hasValues, start, cs, end, index);
    if cs > start {
      assert key[..c] == key;
    }
  }

  lemma {:induction false} KidsItems(es: seq<Entry>, hasValues: bool, lo: nat, hi: nat, cs: nat, n: nat, index: nat)
    requires Splits(es, lo, hi, n) && KidsStart(es, lo, n) <= cs <= hi
    ensures KidItems(KidsOf(es, hasValues, lo, hi, cs, n), es[lo].key[..n], index)
         == Expected(es, hasValues, cs, hi, index)
    decreases hi - lo, hi - cs
  {
    hide Common, AllShare, Expected, ChildEnd, Sorted, TrieOf, Items;
    if cs < hi {
      GroupIsSmaller(es, lo, hi, cs, n);
      var ce := ChildEnd(es, cs, hi, n);
      TrieItems(es, hasValues, cs, ce, n, index);
      KidsItems(es, hasValues, lo, hi, ce, n, index + (ce - cs));
      assert es[cs].key[..n] == es[lo].key[..n];
      ExpectedSplit(es, hasValues, cs, ce, hi, index);
      assert Count(TrieOf(es, hasValues, cs, ce, n)) == ce - cs;
    }
  }

  /** A node without a key has at least two children, and siblings ascend. */
  lemma {:induction false} TrieWellFormed(es: seq<Entry>, hasValues: bool, start: nat, end: nat, n: nat)
    requires Sorted(es) && Range(es, start, end, n)
    ensures WellFormed(TrieOf(es, hasValues, start, end, n))
    decreases end - start, end - start + 1
  {
    var c := Common(es, start, end, n);
    CommonRange(es, start, end, n, c);
    var cs := KidsStart(es, start, c);
    SortedRange(es, start, end, c);
    KidsAscend(es, hasValues, start, end, cs, c, -1);
    if cs == start {
      GroupIsSmaller(es, start, end, cs, c);
      var ce := ChildEnd(es, cs, end, c);
      assert Len(KidsOf(es, hasValues, start, end, ce, c)) >= 1;
    }
  }

  lemma {:induction false} KidsAscend(es: seq<Entry>, hasValues: bool, lo: nat, hi: nat, cs: nat, n: nat, above: int)
    requires Splits(es, lo, hi, n) && KidsStart(es, lo, n) <= cs <= hi
    requires cs < hi ==> n < |es[cs].key| && above < es[cs].key[n]
    ensures KidsWellFormed(KidsOf(es, hasValues, lo, hi, cs, n), above)
    decreases hi - lo, hi - cs
  {
    if cs < hi {
      GroupIsSmaller(es, lo, hi, cs, n);
      var ce := ChildEnd(es, cs, hi, n);
      TrieWellFormed(es, hasValues, cs, ce, n);
      var run := TrieOf(es, hasValues, cs, ce, n).run;
      assert AllShare(es, cs, ce, n);
      CommonRange(es, cs, ce, n, Common(es, cs, ce, n));
      assert run != [] && run[0] == es[cs].key[n];
      SortedRange(es, lo, hi, n);
      KidsAscend(es, hasValues, lo, hi, ce, n, es[cs].key[n]);
    }
  }

  /** Every byte of every key has a symbol code. */
  ghost predicate AllCovered(sym: Symbols, es: seq<Entry>)
    requires Shaped(sym)
  {
    forall i, b :: 0 <= i < |es| && b in es[i].key ==> Covers(sym, b)
  }

  lemma {:induction false} TrieSpelled(sym: Symbols, es: seq<Entry>, hasValues: bool, start: nat, end: nat, n: nat)
    requires Shaped(sym) && AllCovered(sym, es) && Sorted(es) && Range(es, start, end, n)
    ensures Spelled(sym, TrieOf(es, hasValues, start, end, n))
    decreases end - start, end - start + 1
  {
    var c := Common(es, start, end, n);
    CommonRange(es, start, end, n, c);
    KidsAllSpelled(sym, es, hasValues, start, end, KidsStart(es, start, c), c);
  }

  lemma {:induction false} KidsAllSpelled(
    sym: Symbols, es: seq<Entry>, hasValues: bool, lo: nat, hi: nat, cs: nat, n: nat)
    requires Shaped(sym) && AllCovered(sym, es)
    requires Splits(es, lo, hi, n) && KidsStart(es, lo, n) <= cs <= hi
    ensures KidsSpelled(sym, KidsOf(es, hasValues, lo, hi, cs, n))
    decreases hi - lo, hi - cs
  {
    if cs < hi {
      GroupIsSmaller(es, lo, hi, cs, n);
      var ce := ChildEnd(es, cs, hi, n);
      TrieSpelled(sym, es, hasValues, cs, ce, n);
      KidsAllSpelled(sym, es, hasValues, lo, hi, ce, n);
    }
  }
}
