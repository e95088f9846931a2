/** The Huffman cost routine: the weights it merges add up to the least cost of a binary prefix
    code for the frequencies. */
module Huffman {
  import opened PrefixCodes

  const SYMBOLS: nat := 256

  /** How many of the first n slots take part. */
  function Count(on: seq<bool>, n: nat): (k: nat)
    requires n <= |on|
    ensures k <= n
  {
    if n == 0 then 0 else Count(on, n - 1) + (if on[n - 1] then 1 else 0)
  }

  lemma {:induction false} CountOff(on: seq<bool>, n: nat, i: nat)
    requires n <= |on| && i < |on|
    ensures Count(on[i := false], n) == Count(on, n) - (if i < n && on[i] then 1 else 0)
  {
    if n > 0 {
      CountOff(on, n - 1, i);
    }
  }

  lemma {:induction false} CountPrefix(on: seq<bool>, on': seq<bool>, n: nat)
    requires n <= |on| && on <= on'
    ensures Count(on', n) == Count(on, n)
  {
    if n > 0 {
      CountPrefix(on, on', n - 1);
    }
  }

  lemma MergedCount(on: seq<bool>, a: nat, b: nat)
    requires a < |on| && b < |on| && a != b && on[a] && on[b]
    ensures Count(Merged(on, a, b), |on| + 1) == Count(on, |on|) - 1
  {
    var off := on[a := false][b := false];
    CountOff(on, |on|, a);
    CountOff(on[a := false], |on|, b);
    CountPrefix(off, off + [true], |on|);
  }

  /** The nonzero frequencies, in order. */
  function Nonzero(freq: seq<nat>, n: nat): (w: seq<nat>)
    requires n <= |freq|
    ensures |w| <= n
  {
    if n == 0 then [] else Nonzero(freq, n - 1) + (if freq[n - 1] > 0 then [freq[n - 1]] else [])
  }

  /** The two lightest of the first i slots, as far as there are two. */
  ghost predicate TwoLightest(w: seq<nat>, on: seq<bool>, i: nat, a: int, b: int)
    requires i <= |w| && i <= |on|
  {
    && (a < 0 ==> b < 0 && forall j :: 0 <= j < i ==> !on[j])
    && (a >= 0 ==> a < i && on[a] && forall j :: 0 <= j < i && on[j] ==> w[a] <= w[j])
    && (b < 0 ==> forall j :: 0 <= j < i && on[j] ==> j == a)
    && (b >= 0 ==> a >= 0 && b < i && b != a && on[b] && forall j :: 0 <= j < i && on[j] && j != a ==> w[b] <= w[j])
  }

  lemma {:induction false} TwoCounted(on: seq<bool>, n: nat, a: int)
    requires n <= |on| && forall j :: 0 <= j < n && on[j] ==> j == a
    ensures Count(on, n) <= 1 && (Count(on, n) == 1 ==> 0 <= a < n && on[a])
  {
    if n > 0 {
      TwoCounted(on, n - 1, a);
      if on[n - 1] {
        NoneCounted(on, n - 1, a);
      }
    }
  }

  lemma {:induction false} NoneCounted(on: seq<bool>, n: nat, a: int)
    requires n <= |on| && a >= n && forall j :: 0 <= j < n && on[j] ==> j == a
    ensures Count(on, n) == 0
  {
    if n > 0 {
      NoneCounted(on, n - 1, a);
    }
  }

  lemma {:induction false} OneCounted(on: seq<bool>, n: nat) returns (p: nat)
    requires n <= |on| && Count(on, n) == 1
    ensures p < n && on[p] && forall j :: 0 <= j < n && on[j] ==> j == p
  {
    if on[n - 1] {
      p := n - 1;
      CountedNone(on, n - 1);
    } else {
      p := OneCounted(on, n - 1);
    }
  }

  lemma {:induction false} CountedNone(on: seq<bool>, n: nat)
    requires n <= |on| && Count(on, n) == 0
    ensures forall j :: 0 <= j < n ==> !on[j]
  {
    if n > 0 {
      CountedNone(on, n - 1);
    }
  }

  /** The scan over the slots not yet merged. */
  method FindTwo(w: seq<nat>, used: seq<bool>, ghost on: seq<bool>) returns (a: nat, b: nat)
    requires |w| == |used| == |on| && forall i :: 0 <= i < |w| ==> on[i] == !used[i]
    requires Count(on, |on|) > 1
    ensures Lightest(w, on, a, b)
  {
    hide Count;
    var x, y, i := -1, -1, 0;
    while i < |w|
      invariant 0 <= i <= |w| && TwoLightest(w, on, i, x, y)
    {
      if !used[i] {
        if x < 0 || w[i] < w[x] {
          y := x;
          x := i;
        } else if y < 0 || w[i] < w[y] {
          y := i;
        }
      }
      i := i + 1;
    }
    if y < 0 {
      TwoCounted(on, |on|, x);
      assert false;
    }
    a, b := x, y;
  }

  /** Least costs for the second alphabet are least costs for the first one, acc dearer. */
  ghost predicate Carries(w0: seq<nat>, on0: seq<bool>, w1: seq<nat>, on1: seq<bool>, acc: nat) {
    && (forall v: nat :: Bound(w1, on1, v) ==> Bound(w0, on0, v + acc))
    && (forall v: nat :: Reached(w1, on1, v) ==> Reached(w0, on0, v + acc))
  }

  lemma CarriesNothing(w: seq<nat>, on: seq<bool>)
    ensures Carries(w, on, w, on, 0)
  {
  }

  lemma CarriesMerge(w0: seq<nat>, on0: seq<bool>, w: seq<nat>, on: seq<bool>, acc: nat, a: nat, b: nat)
    requires Carries(w0, on0, w, on, acc) && Lightest(w, on, a, b)
    ensures Carries(w0, on0, MergedWeights(w, a, b), Merged(on, a, b), acc + w[a] + w[b])
  {
    hide Bound, Reached, MergedWeights, Merged;
    var w', on' := MergedWeights(w, a, b), Merged(on, a, b);
    forall v: nat | Bound(w', on', v) ensures Bound(w0, on0, v + (acc + w[a] + w[b])) {
      MergeBound(w, on, a, b, v);
      Regroup(v, w[a], w[b], acc);
    }
    forall v: nat | Reached(w', on', v) ensures Reached(w0, on0, v + (acc + w[a] + w[b])) {
      MergeReached(w, on, a, b, v);
      Regroup(v, w[a], w[b], acc);
    }
  }

  lemma Regroup(v: nat, x: nat, y: nat, acc: nat)
    ensures v + x + y + acc == v + (acc + x + y)
  {
  }

  lemma CarriesToEnd(w0: seq<nat>, w: seq<nat>, on: seq<bool>, acc: nat)
    requires |w| == |on| && Count(on, |on|) == 1 && Carries(w0, seq(|w0|, _ => true), w, on, acc)
    ensures Optimal(w0, acc)
  {
    hide Bound, Reached, Optimal;
    var p := OneCounted(on, |on|);
    SingleSymbol(w, on, p);
    assert 0 + acc == acc;
    OptimalFrom(w0, acc);
  }

  lemma {:induction false} AllCounted(n: nat, k: nat)
    requires k <= n
    ensures Count(seq(n, _ => true), k) == k
  {
    if k > 0 {
      AllCounted(n, k - 1);
    }
  }

  function SumFrom(w: seq<nat>, n: nat): nat
    requires n <= |w|
    decreases |w| - n
  {
    if n == |w| then 0 else w[n] + SumFrom(w, n + 1)
  }

  lemma {:induction false} SumAppend(w: seq<nat>, x: nat, n: nat)
    requires n <= |w|
    ensures SumFrom(w + [x], n) == SumFrom(w, n) + x
    decreases |w| - n
  {
    if n < |w| {
      SumAppend(w, x, n + 1);
    } else {
      assert SumFrom(w + [x], n) == x + SumFrom(w + [x], n + 1);
    }
  }

  /** The slots in use, and which of them are not merged yet. */
  ghost function Open(used: seq<bool>, nn: nat): (on: seq<bool>)
    requires nn <= |used|
    ensures |on| == nn
  {
    seq(nn, i requires 0 <= i < nn => !used[i])
  }

  lemma OpenMerged(used: seq<bool>, nn: nat, a: nat, b: nat)
    requires nn < |used| && a < nn && b < nn && !used[nn]
    ensures Open(used[a := true][b := true], nn + 1) == Merged(Open(used, nn), a, b)
  {
  }

  /** Copies the nonzero frequencies to the front of the slots. */
  method LoadWeights(freq: seq<nat>, w: array<nat>, left: array<int>) returns (nn: nat)
    requires |freq| == SYMBOLS && w.Length == left.Length == 2 * SYMBOLS
    modifies w, left
    ensures nn <= SYMBOLS && w[..nn] == Nonzero(freq, SYMBOLS)
    ensures forall i :: 0 <= i < nn ==> left[i] == -1
  {
    nn := 0;
    var i := 0;
    while i < SYMBOLS
      invariant 0 <= i <= SYMBOLS && nn <= i && w[..nn] == Nonzero(freq, i)
      invariant forall j :: 0 <= j < nn ==> left[j] == -1
    {
      if freq[i] > 0 {
        w[nn], left[nn] := freq[i], -1;
        nn := nn + 1;
      }
      i := i + 1;
    }
  }

  /** Slots a and b are merged into the next free one. */
  method MergeSlots(w: array<nat>, used: array<bool>, left: array<int>, nn: nat, a: nat, b: nat)
    requires w.Length == left.Length == used.Length && nn < w.Length && a < nn && b < nn && a != b
    modifies w, used, left
    ensures w[..nn + 1] == old(w[..nn]) + [old(w[a]) + old(w[b])]
    ensures used[..] == old(used[..])[a := true][b := true]
    ensures left[nn] == a && forall i :: 0 <= i < nn ==> left[i] == old(left[i])
  {
    used[a], used[b] := true, true;
    w[nn] := w[a] + w[b];
    left[nn] := a;
  }

  /** Merges the two lightest slots until one is left; the internal slots add up to the least cost. */
  method MergeAll(w: array<nat>, left: array<int>, n: nat) returns (nn: nat)
    requires w.Length == left.Length == 2 * SYMBOLS && 2 <= n <= SYMBOLS
    requires forall i :: 0 <= i < n ==> left[i] == -1
    modifies w, left
    ensures n <= nn <= 2 * SYMBOLS && w[..n] == old(w[..n])
    ensures forall i :: 0 <= i < nn ==> (left[i] >= 0 <==> i >= n)
    ensures Optimal(old(w[..n]), SumFrom(w[..nn], n))
  {
    hide Carries, Count, Optimal, SumFrom, Merged, MergedWeights, Lightest;
    ghost var w0 := w[..n];
    ghost var on0 := seq(n, _ => true);
    var used := new bool[2 * SYMBOLS](_ => false);
    nn := n;
    var remaining := n;
    CarriesNothing(w0, on0);
    AllCounted(n, n);
    assert Open(used[..], n) == on0;
    SumNothing(w0);
    while remaining > 1
      invariant 1 <= remaining <= n && nn == 2 * n - remaining && w[..n] == w0
      invariant forall i :: nn <= i < used.Length ==> !used[i]
      invariant forall i :: 0 <= i < nn ==> (left[i] >= 0 <==> i >= n)
      invariant Count(Open(used[..], nn), nn) == remaining
      invariant Carries(w0, on0, w[..nn], Open(used[..], nn), SumFrom(w[..nn], n))
    {
      ghost var on, before := Open(used[..], nn), w[..nn];
      var a, b := FindTwo(w[..nn], used[..nn], on);
      MergeFacts(w0, on0, before, on, n, a, b);
      OpenMerged(used[..], nn, a, b);
      MergeSlots(w, used, left, nn, a, b);
      nn := nn + 1;
      remaining := remaining - 1;
    }
    CarriesToEnd(w0, w[..nn], Open(used[..], nn), SumFrom(w[..nn], n));
  }

  /** What one merge does to the slots. */
  lemma MergeFacts(w0: seq<nat>, on0: seq<bool>, w: seq<nat>, on: seq<bool>, n: nat, a: nat, b: nat)
    requires n <= |w| && Lightest(w, on, a, b) && Carries(w0, on0, w, on, SumFrom(w, n))
    ensures a < |on| == |w| && b < |on| && a != b && on[a] && on[b]
    ensures Count(Merged(on, a, b), |on| + 1) == Count(on, |on|) - 1
    ensures Carries(w0, on0, w + [w[a] + w[b]], Merged(on, a, b), SumFrom(w + [w[a] + w[b]], n))
  {
    hide Carries, Count, SumFrom;
    CarriesMerge(w0, on0, w, on, SumFrom(w, n), a, b);
    MergedCount(on, a, b);
    SumAppend(w, w[a] + w[b], n);
  }

  lemma SumNothing(w: seq<nat>)
    ensures SumFrom(w, |w|) == 0
  {
  }

  /** Bits that coding the text behind the frequencies takes, and how many symbols it uses. */
  method HuffmanBits(freq: seq<nat>) returns (bits: nat, symbols: nat)
    requires |freq| == SYMBOLS
    ensures symbols == |Nonzero(freq, SYMBOLS)|
    ensures symbols == 0 ==> bits == 0
    ensures symbols == 1 ==> bits == Nonzero(freq, SYMBOLS)[0]
    ensures symbols >= 2 ==> Optimal(Nonzero(freq, SYMBOLS), bits)
  {
    hide Nonzero, Optimal;
    var w, left := new nat[2 * SYMBOLS], new int[2 * SYMBOLS];
    symbols := LoadWeights(freq, w, left);
    if symbols == 0 {
      return 0, symbols;
    }
    if symbols == 1 {
      return w[0], symbols;
    }
    var nn := MergeAll(w, left, symbols);
    bits := InternalSum(w[..nn], left[..nn], symbols);
  }

  method InternalSum(w: seq<nat>, left: seq<int>, n: nat) returns (bits: nat)
    requires |w| == |left| && n <= |w| && forall i :: 0 <= i < |w| ==> (left[i] >= 0 <==> i >= n)
    ensures bits == SumFrom(w, n)
  {
    bits := 0;
    var i := 0;
    while i < |w|
      invariant 0 <= i <= |w| && bits + SumFrom(w, if i > n then i else n) == SumFrom(w, n)
    {
      if left[i] >= 0 {
        bits := bits + w[i];
      }
      i := i + 1;
    }
  }
}
