/** How large a trie can get: no more than the key bytes below it and a constant for every key.
    This is why 64-bit SKIP distances never wrap. */
module TrieSize {
  import opened Bits
  import opened Varint
  import opened Keys
  import opened Values
  import opened Trie
  import opened TrieBuild
  import opened TrieWriter

  const MAX_KEY_BYTES: nat := 0x100_0000_0000_0000

  /** Key bytes past the first n. */
  ghost function KeyBytes(es: seq<Entry>, start: nat, end: nat, n: nat): nat
    requires start <= end <= |es| && forall i :: start <= i < end ==> n <= |es[i].key|
    decreases end - start
  {
    if start == end then 0 else (|es[start].key| - n) + KeyBytes(es, start + 1, end, n)
  }

  lemma {:induction false} KeyBytesSplit(es: seq<Entry>, start: nat, mid: nat, end: nat, n: nat)
    requires start <= mid <= end <= |es| && forall i :: start <= i < end ==> n <= |es[i].key|
    ensures KeyBytes(es, start, end, n) == KeyBytes(es, start, mid, n) + KeyBytes(es, mid, end, n)
    decreases mid - start
  {
    if start < mid {
      KeyBytesSplit(es, start + 1, mid, end, n);
    }
  }

  lemma {:induction false} KeyBytesDeeper(es: seq<Entry>, start: nat, end: nat, n: nat, c: nat)
    requires start <= end <= |es| && n <= c && forall i :: start <= i < end ==> c <= |es[i].key|
    ensures KeyBytes(es, start, end, n) >= KeyBytes(es, start, end, c)
    ensures start < end ==> KeyBytes(es, start, end, n) >= KeyBytes(es, start, end, c) + (c - n)
    decreases end - start
  {
    if start < end {
      KeyBytesDeeper(es, start + 1, end, n, c);
    }
  }

  lemma {:induction false} VarintSize(v: nat, groups: nat)
    requires v < Pow2(7 * groups) && groups > 0
    ensures |Varint.Varint(v)| <= 8 * groups
    decreases groups
  {
    hide Pow2, BitsOf;
    Pow2Constants();
    if v >= 128 {
      Pow2Add(7, 7 * groups - 7);
      VarintSize(v / 128, groups - 1);
    }
  }

  lemma WordSize(v: nat)
    requires v < 0x1_0000_0000_0000_0000
    ensures |Varint.Varint(v)| <= 80
  {
    hide Varint.Varint, Pow2;
    WordFitsGroups(v);
    VarintSize(v, MAX_GROUPS);
  }

  /** Bits of a subtree with `keys` keys and `bytes` key bytes below its prefix. */
  ghost function Limit(bytes: nat, keys: nat): int {
    8 * bytes + 400 * (2 * keys - 1)
  }

  lemma RunSize(sym: Symbols, run: Key)
    requires Shaped(sym)
    ensures |RunBits(sym, run)| <= 8 * |run|
  {
    hide RunBits;
    MulLess(|run|, sym.bps);
  }

  lemma MulLess(n: nat, bps: nat)
    requires bps <= 8
    ensures n * bps <= 8 * n
  {
  }

  lemma {:induction false} NodeSize(sym: Symbols, es: seq<Entry>, hasValues: bool, start: nat, end: nat, n: nat, index: nat)
    requires Shaped(sym) && Sorted(es) && Range(es, start, end, n)
    requires forall i :: start <= i < end ==> n <= |es[i].key|
    requires KeyBytes(es, start, end, n) <= MAX_KEY_BYTES && index + (end - start) <= 0x1_0000_0000
    ensures |RangeBits(sym, es, hasValues, start, end, n, index)| <= Limit(KeyBytes(es, start, end, n), end - start)
    decreases end - start, end - start + 1
  {
    hide Common, TrieOf, KidsOf, Sorted, AllShare, RunBits, TermBits, KidsBits, Varint.Varint, KeyBytes, BitsOf;
    RangeParts(sym, es, hasValues, start, end, n, index);
    var c := Common(es, start, end, n);
    var cs := KidsStart(es, start, c);
    var kids := KidsOf(es, hasValues, start, end, cs, c);
    var kidsIndex := index + (cs - start);
    EndSize(sym, es[start], hasValues, c, index);
    RunSize(sym, es[start].key[n..c]);
    RangeKeys(es, start, end, c);
    KeyBytesDeeper(es, start, end, n, c);
    KeyBytesSplit(es, start, cs, end, c);
    KidsLen(es, hasValues, start, end, cs, c);
    KidsSize(sym, es, hasValues, start, end, cs, c, kidsIndex);
    ForkIsSmall(sym, Len(kids));
  }

  lemma RangeKeys(es: seq<Entry>, start: nat, end: nat, c: nat)
    requires Range(es, start, end, c)
    ensures forall i :: start <= i < end ==> c <= |es[i].key|
  {
  }

  lemma EndSize(sym: Symbols, e: Entry, hasValues: bool, c: nat, index: nat)
    requires Shaped(sym) && index < 0x1_0000_0000
    ensures |EndBits(sym, e, hasValues, c, index)| <= 88
  {
    WordSize(index);
  }

  lemma ForkIsSmall(sym: Symbols, count: nat)
    requires Shaped(sym) && count <= 0x1_0000_0000
    ensures |ForkBits(sym, count)| <= 88
  {
    WordSize(count);
  }

  /** Children partition the entries, so there are no more of them; and a node without a key of
      its own has two. */
  lemma {:induction false} KidsLen(es: seq<Entry>, hasValues: bool, lo: nat, hi: nat, cs: nat, n: nat)
    requires Splits(es, lo, hi, n) && KidsStart(es, lo, n) <= cs <= hi
    ensures Len(KidsOf(es, hasValues, lo, hi, cs, n)) <= hi - cs
    ensures cs == lo ==> Len(KidsOf(es, hasValues, lo, hi, cs, n)) >= 2
    decreases hi - lo, hi - cs
  {
    hide TrieOf, ChildEnd, AllShare, Sorted;
    if cs < hi {
      GroupIsSmaller(es, lo, hi, cs, n);
      var ce := ChildEnd(es, cs, hi, n);
      KidsLen(es, hasValues, lo, hi, ce, n);
      if cs == lo {
        RestOfGroup(es, lo, hi, n);
        OneMore(es, hasValues, lo, hi, ce, n);
      }
    }
  }

  lemma RestOfGroup(es: seq<Entry>, lo: nat, hi: nat, n: nat)
    requires Splits(es, lo, hi, n) && KidsStart(es, lo, n) == lo
    ensures forall i :: lo <= i < hi ==> n < |es[i].key|
    ensures ChildEnd(es, lo, hi, n) < hi
  {
    GroupIsSmaller(es, lo, hi, lo, n);
  }

  lemma OneMore(es: seq<Entry>, hasValues: bool, lo: nat, hi: nat, cs: nat, n: nat)
    requires Splits(es, lo, hi, n) && KidsStart(es, lo, n) <= cs < hi
    ensures Len(KidsOf(es, hasValues, lo, hi, cs, n)) >= 1
  {
    hide TrieOf, ChildEnd, AllShare, Sorted;
  }

  lemma {:induction false} KidsSize(
    sym: Symbols, es: seq<Entry>, hasValues: bool, lo: nat, hi: nat, cs: nat, n: nat, index: nat)
    requires Shaped(sym) && Splits(es, lo, hi, n) && KidsStart(es, lo, n) <= cs <= hi
    requires forall i :: lo <= i < hi ==> n <= |es[i].key|
    requires KeyBytes(es, cs, hi, n) <= MAX_KEY_BYTES && index + (hi - cs) <= 0x1_0000_0000
    ensures |RestBits(sym, es, hasValues, lo, hi, cs, n, index)|
         <= 8 * KeyBytes(es, cs, hi, n) + 800 * (hi - cs) - 312 * Len(KidsOf(es, hasValues, lo, hi, cs, n))
    decreases hi - lo, hi - cs
  {
    hide Common, TrieOf, KidsOf, RangeBits, RestBits, AllShare, Sorted, ChildEnd, KeyBytes, Len;
    if cs == hi {
      RestEmpty(sym, es, hasValues, lo, hi, n, index);
      NoKidsLeft(es, hasValues, lo, hi, n);
    } else {
      RestStep(sym, es, hasValues, lo, hi, cs, n, index);
      var ce := ChildEnd(es, cs, hi, n);
      KeyBytesSplit(es, cs, ce, hi, n);
      NodeSize(sym, es, hasValues, cs, ce, n, index);
      ChildSize(sym, RangeBits(sym, es, hasValues, cs, ce, n, index), ce < hi);
      KidsSize(sym, es, hasValues, lo, hi, ce, n, index + (ce - cs));
    }
  }

  lemma NoKidsLeft(es: seq<Entry>, hasValues: bool, lo: nat, hi: nat, n: nat)
    requires Splits(es, lo, hi, n) && KidsStart(es, lo, n) <= hi
    ensures Len(KidsOf(es, hasValues, lo, hi, hi, n)) == 0
  {
  }

  lemma ChildSize(sym: Symbols, child: seq<bool>, more: bool)
    requires Shaped(sym) && |child| < 0x1_0000_0000_0000_0000
    ensures |ChildBits(sym, child, more)| <= |child| + 88
  {
    hide Varint.Varint, BitsOf;
    WordSize(|child|);
  }

  /** So a trie of any dictionary whose keys fit in memory is smaller than 2^64 bits. */
  lemma TrieFits(sym: Symbols, es: seq<Entry>, hasValues: bool)
    requires Shaped(sym) && Sorted(es) && 0 < |es| < 0x1_0000_0000 && KeyBytes(es, 0, |es|, 0) <= MAX_KEY_BYTES
    ensures Range(es, 0, |es|, 0)
    ensures |RangeBits(sym, es, hasValues, 0, |es|, 0, 0)| < 0x1_0000_0000_0000_0000
  {
    hide TrieOf, NodeBits, Sorted;
    NodeSize(sym, es, hasValues, 0, |es|, 0, 0);
  }
}
