/** How deep the branches of a trie nest, told from its keys. */
module IterationDepth {
  import opened Keys
  import opened Trie
  import opened TrieBuild
  import opened Dictionary
  import opened Iteration
  import opened IterateAll

  ghost predicate NoLonger(es: seq<Entry>, lo: nat, hi: nat, n: nat)
    requires lo <= hi <= |es|
  {
    forall i :: lo <= i < hi ==> |es[i].key| <= n
  }

  /** Every nested branch is at least one byte further down. */
  lemma {:induction false} DepthByKeys(es: seq<Entry>, hasValues: bool, lo: nat, hi: nat, n: nat, longest: nat)
    requires Sorted(es) && Range(es, lo, hi, n) && NoLonger(es, lo, hi, longest)
    ensures Common(es, lo, hi, n) + Depth(TrieOf(es, hasValues, lo, hi, n)) <= longest
    decreases hi - lo, hi - lo + 1
  {
    var c := Common(es, lo, hi, n);
    CommonRange(es, lo, hi, n, c);
    KidsDepthByKeys(es, hasValues, lo, hi, KidsStart(es, lo, c), c, longest);
  }

  lemma {:induction false} KidsDepthByKeys(es: seq<Entry>, hasValues: bool, lo: nat, hi: nat, cs: nat, n: nat, longest: nat)
    requires Splits(es, lo, hi, n) && KidsStart(es, lo, n) <= cs <= hi && NoLonger(es, lo, hi, longest)
    ensures cs < hi ==> n + 1 + KidsDepth(KidsOf(es, hasValues, lo, hi, cs, n)) <= longest
    decreases hi - lo, hi - cs
  {
    if cs < hi {
      hide Sorted, Less;
      GroupIsSmaller(es, lo, hi, cs, n);
      var ce := ChildEnd(es, cs, hi, n);
      DepthByKeys(es, hasValues, cs, ce, n, longest);
      assert AllShare(es, cs, ce, n);
      KidsDepthByKeys(es, hasValues, lo, hi, ce, n, longest);
      assert |es[cs].key| >= n + 1;
    }
  }

  /** No key is longer than 256 bytes: then iteration lists every entry. */
  lemma ShortKeysList(d: Dict, es: seq<Entry>)
    requires Encodes(d, es) && NoLonger(es, 0, |es|, 256)
    ensures Lists(d, Iterate(d), es, 0, |es|)
  {
    hide Lists, Depth, TrieOf;
    IterateLists(d, es);
    if es != [] {
      DepthByKeys(es, d.hasValues, 0, |es|, 0, 256);
    }
  }

  /** Every key is a proper prefix of the next. */
  ghost predicate Nested(es: seq<Entry>) {
    forall i, j :: 0 <= i < j < |es| ==> es[i].key < es[j].key
  }

  lemma {:induction false} CommonOfNested(es: seq<Entry>, lo: nat, hi: nat, n: nat)
    requires Nested(es) && lo < hi <= |es| && n <= |es[lo].key|
    ensures Common(es, lo, hi, n) == |es[lo].key|
    decreases |es[lo].key| - n
  {
    if n < |es[lo].key| {
      assert AllShare(es, lo, hi, n);
      CommonOfNested(es, lo, hi, n + 1);
    }
  }

  /** A branch with a single child, which holds all the others. */
  lemma NestedKid(es: seq<Entry>, hasValues: bool, lo: nat, c: nat)
    requires Nested(es) && lo + 1 < |es| && c == |es[lo].key| && Splits(es, lo, |es|, c)
    ensures Range(es, lo + 1, |es|, c)
    ensures KidsOf(es, hasValues, lo, |es|, lo + 1, c) == Kid(TrieOf(es, hasValues, lo + 1, |es|, c), NoKids)
  {
    hide Sorted, TrieOf;
    GroupIsSmaller(es, lo, |es|, lo + 1, c);
    assert ChildEnd(es, lo + 1, |es|, c) == |es|;
  }

  lemma OneKidDepth(t: Trie)
    ensures KidsDepth(Kid(t, NoKids)) == Depth(t)
  {
    assert KidsDepth(NoKids) == 0;
  }

  /** Nested keys make a trie with a branch at every key but the last. */
  lemma {:induction false} NestedDepth(es: seq<Entry>, hasValues: bool, lo: nat, n: nat)
    requires Sorted(es) && Nested(es) && Range(es, lo, |es|, n)
    ensures Depth(TrieOf(es, hasValues, lo, |es|, n)) == |es| - lo - 1
    decreases |es| - lo
  {
    hide Sorted;
    var c := |es[lo].key|;
    CommonOfNested(es, lo, |es|, n);
    CommonRange(es, lo, |es|, n, c);
    if lo + 1 < |es| {
      NestedKid(es, hasValues, lo, c);
      NestedDepth(es, hasValues, lo + 1, c);
      OneKidDepth(TrieOf(es, hasValues, lo + 1, |es|, c));
    } else {
      assert KidsOf(es, hasValues, lo, |es|, lo + 1, c) == NoKids;
    }
  }

  /** Nested keys are listed if and only if there are at most 257 of them. */
  lemma NestedList(d: Dict, es: seq<Entry>)
    requires Encodes(d, es) && Nested(es)
    ensures Lists(d, Iterate(d), es, 0, |es|) <==> |es| <= 257
  {
    hide Lists, Depth, TrieOf;
    IterateLists(d, es);
    if es != [] {
      NestedDepth(es, d.hasValues, 0, 0);
    }
  }
}
