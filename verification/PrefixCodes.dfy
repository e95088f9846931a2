/** Binary prefix codes over some of the symbols 0..n, their cost, and why merging the two lightest
    symbols keeps the best cost in step. */
module PrefixCodes {
  import opened Bits

  type Word = seq<bool>

  /** Which symbols take part is given by flags; sums run over the symbols below n. */
  ghost function Cost(w: seq<nat>, on: seq<bool>, len: seq<nat>, n: nat): nat
    requires n <= |w| && n <= |on| && n <= |len|
  {
    if n == 0 then 0 else Cost(w, on, len, n - 1) + (if on[n - 1] then w[n - 1] * len[n - 1] else 0)
  }

  ghost function Kraft(on: seq<bool>, len: seq<nat>, m: nat, n: nat): nat
    requires n <= |on| && n <= |len|
    requires forall i :: 0 <= i < n && on[i] ==> len[i] <= m
  {
    if n == 0 then 0 else Kraft(on, len, m, n - 1) + (if on[n - 1] then Pow2(m - len[n - 1]) else 0)
  }

  /** Lengths no greater than m that leave room for one another. */
  ghost predicate Feasible(on: seq<bool>, len: seq<nat>, m: nat)
    ensures Feasible(on, len, m) ==> |on| == |len|
  {
    && |on| == |len| && (forall i :: 0 <= i < |on| && on[i] ==> len[i] <= m)
    && Kraft(on, len, m, |on|) <= Pow2(m)
  }

  ghost function Lengths(c: seq<Word>): (len: seq<nat>)
    ensures |len| == |c|
  {
    seq(|c|, i requires 0 <= i < |c| => |c[i]|)
  }

  ghost predicate PrefixFree(on: seq<bool>, c: seq<Word>)
    ensures PrefixFree(on, c) ==> |on| == |c|
  {
    && |on| == |c|
    && forall i, j :: 0 <= i < |on| && 0 <= j < |on| && i != j && on[i] && on[j] ==> !(c[i] <= c[j])
  }

  /** No feasible lengths cost less than v. */
  ghost predicate Bound(w: seq<nat>, on: seq<bool>, v: nat)
    ensures Bound(w, on, v) ==> |w| == |on|
  {
    && |w| == |on|
    && forall len, m :: Feasible(on, len, m) ==> v <= Cost(w, on, len, |on|)
  }

  /** Some prefix code costs v. */
  ghost predicate Reached(w: seq<nat>, on: seq<bool>, v: nat) {
    && |w| == |on|
    && exists c :: PrefixFree(on, c) && Cost(w, on, Lengths(c), |on|) == v
  }

  // The Kraft inequality.

  /** The symbols whose word starts with b. */
  ghost function Starting(on: seq<bool>, c: seq<Word>, b: bool): (r: seq<bool>)
    requires |on| == |c|
    ensures |r| == |on|
  {
    seq(|on|, i requires 0 <= i < |on| => on[i] && c[i] != [] && c[i][0] == b)
  }

  ghost function Rests(c: seq<Word>): (r: seq<Word>)
    ensures |r| == |c|
  {
    seq(|c|, i requires 0 <= i < |c| => if c[i] == [] then [] else c[i][1..])
  }

  lemma {:induction false} KraftSplit(on: seq<bool>, c: seq<Word>, m: nat, n: nat)
    requires n <= |on| == |c| && m > 0
    requires forall i :: 0 <= i < |on| && on[i] ==> 0 < |c[i]| <= m
    ensures Kraft(on, Lengths(c), m, n)
         == Kraft(Starting(on, c, false), Lengths(Rests(c)), m - 1, n) + Kraft(Starting(on, c, true), Lengths(Rests(c)), m - 1, n)
  {
    if n > 0 {
      KraftSplit(on, c, m, n - 1);
    }
  }

  lemma {:induction false} KraftOnly(on: seq<bool>, len: seq<nat>, m: nat, n: nat, p: nat)
    requires p < |on| && n <= |on| == |len| && forall i :: 0 <= i < |on| && on[i] ==> i == p && len[i] <= m
    ensures Kraft(on, len, m, n) <= if n > p then Pow2(m - (if len[p] <= m then len[p] else m)) else 0
  {
    if n > 0 {
      KraftOnly(on, len, m, n - 1, p);
    }
  }

  lemma {:induction false} KraftNone(on: seq<bool>, len: seq<nat>, m: nat, n: nat)
    requires n <= |on| == |len| && forall i :: 0 <= i < |on| ==> !on[i]
    ensures Kraft(on, len, m, n) == 0
  {
    if n > 0 {
      KraftNone(on, len, m, n - 1);
    }
  }

  /** Words of a prefix code leave room for one another. */
  lemma {:induction false} KraftInequality(on: seq<bool>, c: seq<Word>, m: nat)
    requires PrefixFree(on, c) && forall i :: 0 <= i < |on| && on[i] ==> |c[i]| <= m
    ensures Kraft(on, Lengths(c), m, |on|) <= Pow2(m)
    decreases m
  {
    if p :| 0 <= p < |on| && on[p] && c[p] == [] {
      forall i | 0 <= i < |on| && on[i] ensures i == p {
        assert c[p] <= c[i];
      }
      KraftOnly(on, Lengths(c), m, |on|, p);
    } else if m == 0 {
      KraftNone(on, Lengths(c), m, |on|);
    } else {
      KraftSplit(on, c, m, |on|);
      HalfPrefixFree(on, c, false);
      HalfPrefixFree(on, c, true);
      KraftInequality(Starting(on, c, false), Rests(c), m - 1);
      KraftInequality(Starting(on, c, true), Rests(c), m - 1);
    }
  }

  lemma HalfPrefixFree(on: seq<bool>, c: seq<Word>, b: bool)
    requires PrefixFree(on, c)
    ensures PrefixFree(Starting(on, c, b), Rests(c))
  {
    var half, rests := Starting(on, c, b), Rests(c);
    forall i, j | 0 <= i < |on| && 0 <= j < |on| && i != j && half[i] && half[j]
      ensures !(rests[i] <= rests[j])
    {
      RestPrefix(c[i], c[j]);
    }
  }

  lemma RestPrefix(x: Word, y: Word)
    requires x != [] && y != [] && x[0] == y[0]
    ensures x[1..] <= y[1..] ==> x <= y
  {
    assert x == [x[0]] + x[1..] && y == [y[0]] + y[1..];
  }

  // Changing one length, or one flag.

  ghost function Share(on: seq<bool>, i: nat, n: nat, x: int): int
    requires i < |on|
  {
    if i < n && on[i] then x else 0
  }

  lemma {:induction false} CostAt(w: seq<nat>, on: seq<bool>, len: seq<nat>, n: nat, i: nat, x: nat)
    requires n <= |w| && |w| <= |on| && |w| <= |len| && i < |w|
    ensures Cost(w, on, len[i := x], n) == Cost(w, on, len, n) + Share(on, i, n, w[i] * x - w[i] * len[i])
  {
    if n > 0 {
      CostAt(w, on, len, n - 1, i, x);
    }
  }

  lemma {:induction false} KraftAt(on: seq<bool>, len: seq<nat>, m: nat, n: nat, i: nat, x: nat)
    requires n <= |on| <= |len| && i < |on| && x <= m && forall j :: 0 <= j < |on| && on[j] ==> len[j] <= m
    ensures Kraft(on, len[i := x], m, n)
         == Kraft(on, len, m, n) + Share(on, i, n, Pow2(m - x) - (if on[i] then Pow2(m - len[i]) else 0))
  {
    hide Pow2;
    if n > 0 {
      KraftAt(on, len, m, n - 1, i, x);
    }
  }

  lemma {:induction false} CostOff(w: seq<nat>, on: seq<bool>, len: seq<nat>, n: nat, i: nat)
    requires n <= |w| && |w| <= |on| && |w| <= |len| && i < |w|
    ensures Cost(w, on, len, n) == Cost(w, on[i := false], len, n) + Share(on, i, n, w[i] * len[i])
  {
    if n > 0 {
      CostOff(w, on, len, n - 1, i);
    }
  }

  lemma {:induction false} KraftOff(on: seq<bool>, len: seq<nat>, m: nat, n: nat, i: nat)
    requires n <= |on| <= |len| && i < |on| && forall j :: 0 <= j < |on| && on[j] ==> len[j] <= m
    ensures Kraft(on, len, m, n) == Kraft(on[i := false], len, m, n) + Share(on, i, n, if on[i] then Pow2(m - len[i]) else 0)
  {
    hide Pow2;
    if n > 0 {
      KraftOff(on, len, m, n - 1, i);
    }
  }

  /** Only the entries below n matter. */
  lemma {:induction false} CostPrefix(w: seq<nat>, on: seq<bool>, len: seq<nat>, w': seq<nat>, on': seq<bool>, len': seq<nat>, n: nat)
    requires n <= |w| && n <= |on| && n <= |len| && w <= w' && on <= on' && len <= len'
    ensures Cost(w', on', len', n) == Cost(w, on, len, n)
  {
    if n > 0 {
      CostPrefix(w, on, len, w', on', len', n - 1);
    }
  }

  lemma {:induction false} KraftPrefix(on: seq<bool>, len: seq<nat>, on': seq<bool>, len': seq<nat>, m: nat, n: nat)
    requires n <= |on| && n <= |len| && on <= on' && len <= len'
    requires forall i :: 0 <= i < n && on[i] ==> len[i] <= m
    ensures Kraft(on', len', m, n) == Kraft(on, len, m, n)
  {
    if n > 0 {
      KraftPrefix(on, len, on', len', m, n - 1);
    }
  }

  // Merging the two lightest symbols.

  /** Symbols a and b take part, and no other one is lighter. */
  ghost predicate Lightest(w: seq<nat>, on: seq<bool>, a: nat, b: nat) {
    && |w| == |on| && a < |on| && b < |on| && a != b && on[a] && on[b] && w[a] <= w[b]
    && forall i :: 0 <= i < |on| && on[i] && i != a ==> w[b] <= w[i]
  }

  /** Symbols a and b are replaced by a new one. */
  function Merged(on: seq<bool>, a: nat, b: nat): (r: seq<bool>)
    requires a < |on| && b < |on|
    ensures |r| == |on| + 1
  {
    on[a := false][b := false] + [true]
  }

  /** The weights with that of the new symbol. */
  function MergedWeights(w: seq<nat>, a: nat, b: nat): (r: seq<nat>)
    requires a < |w| && b < |w|
    ensures |r| == |w| + 1
  {
    w + [w[a] + w[b]]
  }

  /** Two symbols swap lengths: the heavier one gets the shorter. */
  lemma Exchange(w: seq<nat>, on: seq<bool>, len: seq<nat>, m: nat, a: nat, p: nat) returns (len': seq<nat>)
    requires Feasible(on, len, m) && |w| == |on| && a < |on| && p < |on| && on[a] && on[p]
    requires len[a] <= len[p] && (a == p || w[a] <= w[p])
    ensures len' == len[a := len[p]][p := len[a]]
    ensures Feasible(on, len', m) && Cost(w, on, len', |on|) <= Cost(w, on, len, |on|)
  {
    hide Cost, Kraft, Pow2;
    var half := len[a := len[p]];
    len' := half[p := len[a]];
    if a != p {
      CostAt(w, on, len, |on|, a, len[p]);
      CostAt(w, on, half, |on|, p, len[a]);
      KraftAt(on, len, m, |on|, a, len[p]);
      KraftAt(on, half, m, |on|, p, len[a]);
      Lighter(w[a], w[p], len[a], len[p]);
    } else {
      assert len' == len;
    }
  }

  lemma Lighter(x: nat, y: nat, short: nat, long: nat)
    requires x <= y && short <= long
    ensures x * long - x * short <= y * long - y * short
  {
    var d := long - short;
    assert x * long - x * short == x * d && y * long - y * short == y * d;
    MulOrder(x, y, d);
  }

  lemma MulOrder(x: nat, y: nat, d: nat)
    requires x <= y
    ensures x * d <= y * d
  {
  }

  lemma {:induction false} Longest(on: seq<bool>, len: seq<nat>, n: nat, skip: nat) returns (p: nat)
    requires n <= |on| == |len| && exists i :: 0 <= i < n && on[i] && i != skip
    ensures p < n && on[p] && p != skip && forall i :: 0 <= i < n && on[i] && i != skip ==> len[i] <= len[p]
  {
    if i :| 0 <= i < n - 1 && on[i] && i != skip {
      p := Longest(on, len, n - 1, skip);
      if on[n - 1] && n - 1 != skip && len[p] < len[n - 1] {
        p := n - 1;
      }
    } else {
      p := n - 1;
    }
  }

  /** Halving the unit of measure. */
  lemma {:induction false} KraftFiner(on: seq<bool>, len: seq<nat>, m: nat, n: nat)
    requires n <= |on| && n <= |len| && forall i :: 0 <= i < n && on[i] ==> len[i] <= m
    ensures Kraft(on, len, m + 1, n) == 2 * Kraft(on, len, m, n)
  {
    if n > 0 {
      KraftFiner(on, len, m, n - 1);
    }
  }

  /** Lengths are feasible at the coarsest unit that fits them. */
  lemma {:induction false} FeasibleCoarser(on: seq<bool>, len: seq<nat>, m: nat, l: nat)
    requires Feasible(on, len, m) && l <= m && forall i :: 0 <= i < |on| && on[i] ==> len[i] <= l
    ensures Feasible(on, len, l)
    decreases m - l
  {
    if l < m {
      FeasibleCoarser(on, len, m, l + 1);
      KraftFiner(on, len, l, |on|);
    }
  }

  /** With every length at most k the sum is a multiple of 2^(m - k). */
  lemma {:induction false} KraftMultiple(on: seq<bool>, len: seq<nat>, m: nat, k: nat, n: nat) returns (q: nat)
    requires n <= |on| && n <= |len| && k <= m && forall i :: 0 <= i < n && on[i] ==> len[i] <= k
    ensures Kraft(on, len, m, n) == q * Pow2(m - k)
  {
    hide Pow2;
    if n == 0 {
      q := 0;
    } else {
      var q' := KraftMultiple(on, len, m, k, n - 1);
      if on[n - 1] {
        Pow2Add(m - k, k - len[n - 1]);
        q := q' + Pow2(k - len[n - 1]);
        AddMultiple(q', Pow2(k - len[n - 1]), Pow2(m - k));
      } else {
        q := q';
      }
    }
  }

  lemma AddMultiple(q: nat, r: nat, p: nat)
    ensures (q + r) * p == q * p + p * r
  {
  }

  /** A symbol alone at the greatest length can be shortened to the next greatest. */
  lemma Shorten(w: seq<nat>, on: seq<bool>, len: seq<nat>, m: nat, a: nat, k: nat) returns (len': seq<nat>)
    requires Feasible(on, len, m) && |w| == |on| && a < |on| && on[a] && len[a] == m && k < m
    requires forall i :: 0 <= i < |on| && on[i] && i != a ==> len[i] <= k
    ensures len' == len[a := k] && Feasible(on, len', m) && Cost(w, on, len', |on|) <= Cost(w, on, len, |on|)
  {
    hide Cost, Kraft, Pow2;
    len' := len[a := k];
    CostAt(w, on, len, |on|, a, k);
    MulOrder(k, m, w[a]);
    KraftAt(on, len, m, |on|, a, k);
    KraftOff(on, len, m, |on|, a);
    var others := on[a := false];
    var q := KraftMultiple(others, len, m, k, |on|);
    Pow2Add(m - k, k);
    PowZero();
    RoomForOne(q, Pow2(m - k), Pow2(k));
  }

  lemma PowZero()
    ensures Pow2(0) == 1
  {
  }

  lemma RoomForOne(q: nat, p: nat, r: nat)
    requires p > 0 && q * p + 1 <= p * r
    ensures q * p + p <= p * r
  {
    if q >= r {
      MulOrder(r, q, p);
      assert false;
    }
    MulOrder(q + 1, r, p);
  }

  lemma BothOff(w: seq<nat>, on: seq<bool>, len: seq<nat>, m: nat, a: nat, b: nat)
    requires |w| == |on| == |len| && a < |on| && b < |on| && a != b && on[a] && on[b]
    requires forall i :: 0 <= i < |on| && on[i] ==> len[i] <= m
    ensures var off := on[a := false][b := false];
            && Cost(w, on, len, |on|) == Cost(w, off, len, |on|) + w[a] * len[a] + w[b] * len[b]
            && Kraft(on, len, m, |on|) == Kraft(off, len, m, |on|) + Pow2(m - len[a]) + Pow2(m - len[b])
  {
    hide Cost, Kraft, Pow2;
    CostOff(w, on, len, |on|, a);
    CostOff(w, on[a := false], len, |on|, b);
    KraftOff(on, len, m, |on|, a);
    KraftOff(on[a := false], len, m, |on|, b);
  }

  lemma AppendOne(w: seq<nat>, on: seq<bool>, len: seq<nat>, m: nat, x: nat, l: nat)
    requires |w| == |on| == |len| && l <= m && forall i :: 0 <= i < |on| && on[i] ==> len[i] <= m
    ensures Cost(w + [x], on + [true], len + [l], |on| + 1) == Cost(w, on, len, |on|) + x * l
    ensures Kraft(on + [true], len + [l], m, |on| + 1) == Kraft(on, len, m, |on|) + Pow2(m - l)
  {
    CostPrefix(w, on, len, w + [x], on + [true], len + [l], |on|);
    KraftPrefix(on, len, on + [true], len + [l], m, |on|);
  }

  /** Feasible lengths can be rearranged, at no greater cost, so that the two lightest symbols share
      the greatest length. */
  lemma Siblings(w: seq<nat>, on: seq<bool>, len: seq<nat>, m: nat, a: nat, b: nat) returns (best: seq<nat>, k: nat)
    requires Feasible(on, len, m) && Lightest(w, on, a, b)
    ensures Feasible(on, best, k) && best[a] == best[b] == k
    ensures Cost(w, on, best, |on|) <= Cost(w, on, len, |on|)
  {
    hide Cost, Kraft;
    var p := Longest(on, len, |on|, |on|);
    var l := len[p];
    FeasibleCoarser(on, len, m, l);
    var len1 := Exchange(w, on, len, l, a, p);
    var q := Longest(on, len1, |on|, a);
    k := len1[q];
    var len2 := Exchange(w, on, len1, l, b, q);
    best := len2;
    if k < l {
      best := Shorten(w, on, len2, l, a, k);
      FeasibleCoarser(on, best, l, k);
    }
  }

  /** Sharing the greatest length, they can be merged into one symbol one bit shorter. */
  lemma MergeLengths(w: seq<nat>, on: seq<bool>, len: seq<nat>, m: nat, a: nat, b: nat) returns (len': seq<nat>, k: nat)
    requires Feasible(on, len, m) && Lightest(w, on, a, b)
    ensures Feasible(Merged(on, a, b), len', k)
    ensures Cost(MergedWeights(w, a, b), Merged(on, a, b), len', |on| + 1) + w[a] + w[b] <= Cost(w, on, len, |on|)
  {
    hide Cost, Kraft, Pow2;
    var best;
    best, k := Siblings(w, on, len, m, a, b);
    BothOff(w, on, best, k, a, b);
    PowZero();
    if k == 0 {
      assert false;
    }
    len' := best + [k - 1];
    var off := on[a := false][b := false];
    AppendOne(w, off, best, k, w[a] + w[b], k - 1);
    Pow2Add(1, 0);
    PowOne();
    OneBitLess(w[a], w[b], k);
  }

  lemma PowOne()
    ensures Pow2(1) == 2
  {
    assert Pow2(1) == 2 * Pow2(0);
  }

  lemma OneBitLess(x: nat, y: nat, k: nat)
    requires k > 0
    ensures (x + y) * (k - 1) + x + y == x * k + y * k
  {
  }

  lemma {:induction false} CostSame(w: seq<nat>, on: seq<bool>, len: seq<nat>, len': seq<nat>, n: nat)
    requires n <= |w| && n <= |on| && n <= |len| && n <= |len'|
    requires forall i :: 0 <= i < n && on[i] ==> len[i] == len'[i]
    ensures Cost(w, on, len, n) == Cost(w, on, len', n)
  {
    if n > 0 {
      CostSame(w, on, len, len', n - 1);
    }
  }

  /** The word of the merged symbol, continued by 0 and by 1. */
  function SplitWords(c: seq<Word>, a: nat, b: nat): (r: seq<Word>)
    requires c != [] && a < |c| - 1 && b < |c| - 1
    ensures |r| == |c| - 1
  {
    var n := |c| - 1;
    c[..n][a := c[n] + [false]][b := c[n] + [true]]
  }

  lemma Longer(x: Word, y: Word, bit: bool)
    ensures x + [bit] <= y ==> x <= y
    ensures y <= x + [bit] ==> y <= x || x <= y
  {
    if x + [bit] <= y {
      assert x == (x + [bit])[..|x|] == y[..|x|];
    }
    if y <= x + [bit] {
      if |y| <= |x| {
        assert y == (x + [bit])[..|y|] == x[..|y|];
      } else {
        assert y == x + [bit];
      }
    }
  }

  lemma Continued(x: Word)
    ensures !(x + [false] <= x + [true]) && !(x + [true] <= x + [false])
  {
    assert (x + [false])[|x|] == false && (x + [true])[|x|] == true;
  }

  lemma SplitPrefixFree(on: seq<bool>, c: seq<Word>, a: nat, b: nat)
    requires a < |on| && b < |on| && a != b && on[a] && on[b] && PrefixFree(Merged(on, a, b), c)
    ensures PrefixFree(on, SplitWords(c, a, b))
  {
    var n, r, merged := |on|, SplitWords(c, a, b), Merged(on, a, b);
    Continued(c[n]);
    forall i, j | 0 <= i < n && 0 <= j < n && i != j && on[i] && on[j]
      ensures !(r[i] <= r[j])
    {
      if (i == a || i == b) && j != a && j != b {
        assert merged[n] && merged[j];
        Longer(c[n], c[j], i == b);
      } else if i != a && i != b && (j == a || j == b) {
        assert merged[n] && merged[i];
        Longer(c[n], c[i], j == b);
      } else if i != a && i != b {
        assert merged[i] && merged[j];
      }
    }
  }

  lemma SplitLengths(c: seq<Word>, a: nat, b: nat)
    requires c != [] && a < |c| - 1 && b < |c| - 1 && a != b
    ensures var n, len, len' := |c| - 1, Lengths(SplitWords(c, a, b)), Lengths(c);
            && |len| == n && len[a] == len'[n] + 1 && len[b] == len'[n] + 1 && len' == len'[..n] + [len'[n]]
            && forall i :: 0 <= i < n && i != a && i != b ==> len[i] == len'[i]
  {
  }

  lemma SplitCost(w: seq<nat>, on: seq<bool>, c: seq<Word>, a: nat, b: nat)
    requires |w| == |on| == |c| - 1 && a < |on| && b < |on| && a != b && on[a] && on[b]
    ensures Cost(w, on, Lengths(SplitWords(c, a, b)), |on|)
         == Cost(MergedWeights(w, a, b), Merged(on, a, b), Lengths(c), |on| + 1) + w[a] + w[b]
  {
    hide Cost, Lengths, SplitWords, Merged;
    SplitLengths(c, a, b);
    SplitLengthsCost(w, on, Lengths(SplitWords(c, a, b)), Lengths(c), a, b);
  }

  lemma SplitLengthsCost(w: seq<nat>, on: seq<bool>, len: seq<nat>, len': seq<nat>, a: nat, b: nat)
    requires |w| == |on| == |len| == |len'| - 1 && a < |on| && b < |on| && a != b && on[a] && on[b]
    requires len[a] == len[b] == len'[|on|] + 1
    requires forall i :: 0 <= i < |on| && i != a && i != b ==> len[i] == len'[i]
    ensures Cost(w, on, len, |on|) == Cost(MergedWeights(w, a, b), Merged(on, a, b), len', |on| + 1) + w[a] + w[b]
  {
    hide Cost, PairCost, Merged, MergedWeights;
    OthersCost(w, on, len, len', a, b);
    OffTogether(w, on, len, a, b);
    LastCost(w, on, len', a, b);
    OneBitMore(w, a, b, len'[|on|], len[a]);
  }

  lemma OthersCost(w: seq<nat>, on: seq<bool>, len: seq<nat>, len': seq<nat>, a: nat, b: nat)
    requires |w| == |on| == |len| == |len'| - 1 && a < |on| && b < |on|
    requires forall i :: 0 <= i < |on| && i != a && i != b ==> len[i] == len'[i]
    ensures Cost(w, on[a := false][b := false], len, |on|) == Cost(w, on[a := false][b := false], len', |on|)
  {
    CostSame(w, on[a := false][b := false], len, len', |on|);
  }

  lemma LastCost(w: seq<nat>, on: seq<bool>, len: seq<nat>, a: nat, b: nat)
    requires |w| == |on| == |len| - 1 && a < |on| && b < |on|
    ensures Cost(MergedWeights(w, a, b), Merged(on, a, b), len, |on| + 1)
         == Cost(w, on[a := false][b := false], len, |on|) + PairCost(w, a, b, len[|on|])
  {
    CostPrefix(w, on[a := false][b := false], len, MergedWeights(w, a, b), Merged(on, a, b), len, |on|);
  }

  lemma OffTogether(w: seq<nat>, on: seq<bool>, len: seq<nat>, a: nat, b: nat)
    requires |w| == |on| == |len| && a < |on| && b < |on| && a != b && on[a] && on[b] && len[a] == len[b]
    ensures Cost(w, on, len, |on|) == Cost(w, on[a := false][b := false], len, |on|) + PairCost(w, a, b, len[a])
  {
    hide Cost;
    CostOff(w, on, len, |on|, a);
    CostOff(w, on[a := false], len, |on|, b);
  }

  /** What two symbols with words of l bits cost. */
  ghost function PairCost(w: seq<nat>, a: nat, b: nat, l: nat): nat
    requires a < |w| && b < |w|
  {
    (w[a] + w[b]) * l
  }

  lemma OneBitMore(w: seq<nat>, a: nat, b: nat, l: nat, longer: nat)
    requires a < |w| && b < |w| && longer == l + 1
    ensures PairCost(w, a, b, longer) == PairCost(w, a, b, l) + w[a] + w[b]
  {
  }

  /** A bound for the merged alphabet is one for the original, one merge dearer. */
  lemma MergeBound(w: seq<nat>, on: seq<bool>, a: nat, b: nat, v: nat)
    requires Lightest(w, on, a, b) && Bound(MergedWeights(w, a, b), Merged(on, a, b), v)
    ensures Bound(w, on, v + w[a] + w[b])
  {
    hide Cost, Feasible;
    forall len, m | Feasible(on, len, m)
      ensures v + w[a] + w[b] <= Cost(w, on, len, |on|)
    {
      var len', k := MergeLengths(w, on, len, m, a, b);
    }
  }

  lemma MergeReached(w: seq<nat>, on: seq<bool>, a: nat, b: nat, v: nat)
    requires Lightest(w, on, a, b) && Reached(MergedWeights(w, a, b), Merged(on, a, b), v)
    ensures Reached(w, on, v + w[a] + w[b])
  {
    hide Cost, PrefixFree, Lengths;
    var c :| PrefixFree(Merged(on, a, b), c) && Cost(MergedWeights(w, a, b), Merged(on, a, b), Lengths(c), |on| + 1) == v;
    SplitPrefixFree(on, c, a, b);
    SplitCost(w, on, c, a, b);
    assert PrefixFree(on, SplitWords(c, a, b));
  }

  /** A single symbol needs no bits. */
  lemma SingleSymbol(w: seq<nat>, on: seq<bool>, p: nat)
    requires |w| == |on| && p < |on| && on[p] && forall i :: 0 <= i < |on| && on[i] ==> i == p
    ensures Bound(w, on, 0) && Reached(w, on, 0)
  {
    var c: seq<Word> := seq(|on|, _ => []);
    assert PrefixFree(on, c);
    ZeroCost(w, on, Lengths(c), |on|);
  }

  lemma {:induction false} ZeroCost(w: seq<nat>, on: seq<bool>, len: seq<nat>, n: nat)
    requires n <= |w| && n <= |on| && n <= |len| && forall i :: 0 <= i < n ==> len[i] == 0
    ensures Cost(w, on, len, n) == 0
  {
    if n > 0 {
      ZeroCost(w, on, len, n - 1);
    }
  }

  /** The least cost of a prefix code for the weights. */
  ghost predicate Optimal(w: seq<nat>, v: nat) {
    var on := seq(|w|, _ => true);
    && (exists c :: PrefixFree(on, c) && Cost(w, on, Lengths(c), |w|) == v)
    && (forall c :: PrefixFree(on, c) ==> v <= Cost(w, on, Lengths(c), |w|))
  }

  lemma BoundCoversCodes(w: seq<nat>, on: seq<bool>, v: nat, c: seq<Word>)
    requires Bound(w, on, v) && PrefixFree(on, c)
    ensures v <= Cost(w, on, Lengths(c), |on|)
  {
    hide Cost, Kraft;
    var m := LongestWord(c, |c|);
    KraftInequality(on, c, m);
    assert Feasible(on, Lengths(c), m);
  }

  lemma {:induction false} LongestWord(c: seq<Word>, n: nat) returns (m: nat)
    requires n <= |c|
    ensures forall i :: 0 <= i < n ==> |c[i]| <= m
  {
    if n == 0 {
      m := 0;
    } else {
      m := LongestWord(c, n - 1);
      if m < |c[n - 1]| {
        m := |c[n - 1]|;
      }
    }
  }

  lemma OptimalFrom(w: seq<nat>, v: nat)
    requires Bound(w, seq(|w|, _ => true), v) && Reached(w, seq(|w|, _ => true), v)
    ensures Optimal(w, v)
  {
    hide Cost, PrefixFree, Lengths, Bound;
    var on := seq(|w|, _ => true);
    forall c | PrefixFree(on, c) ensures v <= Cost(w, on, Lengths(c), |w|) {
      BoundCoversCodes(w, on, v, c);
    }
  }
}
