/** A bit vector with a two-level rank index, and rank and select over it. */
module RankedBits {
  import opened BitOr
  import opened Bits
  import opened BitStream

  const SUPER_BITS: nat := 2048
  const BLOCK_BITS: nat := 256

  /** How many of the first i bits equal b. */
  function RankOf(s: seq<bool>, i: nat, b: bool): (n: nat)
    requires i <= |s|
    ensures n <= i
  {
    if i == 0 then 0 else RankOf(s, i - 1, b) + (if s[i - 1] == b then 1 else 0)
  }

  lemma {:induction false} RankMonotone(s: seq<bool>, i: nat, j: nat, b: bool)
    requires i <= j <= |s|
    ensures RankOf(s, i, b) <= RankOf(s, j, b) <= RankOf(s, i, b) + (j - i)
  {
    if i < j {
      RankMonotone(s, i, j - 1, b);
    }
  }

  lemma {:induction false} RankBoth(s: seq<bool>, i: nat)
    requires i <= |s|
    ensures RankOf(s, i, true) + RankOf(s, i, false) == i
  {
    if i > 0 {
      RankBoth(s, i - 1);
    }
  }

  /** Position p holds the k-th bit (counting from 0) that equals b. */
  predicate IsSelect(s: seq<bool>, k: nat, b: bool, p: nat) {
    p < |s| && s[p] == b && RankOf(s, p, b) == k
  }

  lemma SelectUnique(s: seq<bool>, k: nat, b: bool, p: nat, q: nat)
    requires IsSelect(s, k, b, p) && IsSelect(s, k, b, q)
    ensures p == q
  {
    if p < q {
      RankMonotone(s, p + 1, q, b);
    } else if q < p {
      RankMonotone(s, q + 1, p, b);
    }
  }

  /** Set bits of a machine word: what the population count instruction returns. */
  function Popcount(v: nat): nat {
    if v == 0 then 0 else v % 2 + Popcount(v / 2)
  }

  /** Counting the set bits of a number counts the set bits of the stretch it was read from. */
  lemma {:induction false} PopcountOfBits(s: seq<bool>, i: nat, n: nat)
    requires i + n <= |s|
    ensures Popcount(Val(s[i..i + n])) == RankOf(s, i + n, true) - RankOf(s, i, true)
  {
    var bs := s[i..i + n];
    if n == 0 {
      assert bs == [];
    } else {
      assert bs[..n - 1] == s[i..i + n - 1];
      PopcountOfBits(s, i, n - 1);
      var front, last := Val(bs[..n - 1]), if bs[n - 1] then 1 else 0;
      PopcountShift(front, last);
    }
  }

  lemma PopcountShift(front: nat, last: nat)
    requires last <= 1
    ensures Popcount(2 * front + last) == Popcount(front) + last
  {
    if front == 0 {
      assert Popcount(0) == 0;
    } else {
      assert (2 * front + last) / 2 == front && (2 * front + last) % 2 == last;
    }
  }

  /** The index entries of a vector: ones before each superblock, and before each block within
      its superblock. */
  ghost predicate Indexed(s: seq<bool>, super: seq<nat>, block: seq<nat>, upTo: nat) {
    && upTo <= |s| + 1
    && (forall q :: 0 <= q && SUPER_BITS * q < upTo ==> q < |super| && super[q] == RankOf(s, SUPER_BITS * q, true))
    && (forall q :: 0 <= q && BLOCK_BITS * q < upTo ==>
          q < |block| && block[q] == RankOf(s, BLOCK_BITS * q, true) - RankOf(s, SUPER_BITS * (q / 8), true))
  }

  /** A byte with all but its first r bits cleared: the and with a mask. */
  function MaskTail(b: byte, r: nat): (m: byte)
    requires r <= 8
    ensures BitsOf(m, 8) == BitsOf(b, 8)[..r] + seq(8 - r, _ => false)
  {
    var bs := BitsOf(b, 8)[..r] + seq(8 - r, _ => false);
    BitsOfVal(bs);
    Pow2Constants();
    Val(bs)
  }

  /** The stored copy: nbits bits of the input, and zero bits after them. */
  function Stored(input: seq<byte>, nbits: nat): (bits: seq<byte>)
    requires nbits <= 8 * |input|
    ensures |bits| == (nbits + 7) / 8 + 8
  {
    var nbytes := (nbits + 7) / 8;
    var copy := input[..nbytes];
    (if nbits % 8 != 0 then copy[nbytes - 1 := MaskTail(copy[nbytes - 1], nbits % 8)] else copy) + seq(8, _ => 0)
  }

  lemma StoredBits(input: seq<byte>, nbits: nat)
    requires nbits <= 8 * |input|
    ensures nbits + 64 <= 8 * |Stored(input, nbits)|
    ensures Unpack(Stored(input, nbits))[..nbits] == Unpack(input)[..nbits]
  {
    hide BitsOf;
    var bits := Stored(input, nbits);
    forall i | 0 <= i < nbits
      ensures Unpack(bits)[i] == Unpack(input)[i]
    {
      StoredBit(input, nbits, i);
    }
  }

  lemma StoredBit(input: seq<byte>, nbits: nat, i: nat)
    requires i < nbits <= 8 * |input|
    ensures BitsOf(Stored(input, nbits)[i / 8], 8)[i % 8] == BitsOf(input[i / 8], 8)[i % 8]
  {
    hide BitsOf;
    if nbits % 8 != 0 && i / 8 == (nbits + 7) / 8 - 1 {
      assert i % 8 < nbits % 8;
    }
  }

  lemma ValAppendByte(s: seq<bool>, i: nat, n: nat)
    requires i + n + 8 <= |s|
    ensures Val(s[i..i + n + 8]) == 256 * Val(s[i..i + n]) + Val(s[i + n..i + n + 8])
  {
    hide Val;
    ValAppend(s, i, n, 8);
    Pow2Constants();
  }

  lemma {:induction false} ValAppend(s: seq<bool>, i: nat, n: nat, m: nat)
    requires i + n + m <= |s|
    ensures Val(s[i..i + n + m]) == Pow2(m) * Val(s[i..i + n]) + Val(s[i + n..i + n + m])
  {
    hide Val;
    if m == 0 {
      ValNone(s, i + n);
    } else {
      ValAppend(s, i, n, m - 1);
      ValNext(s, i, n + m - 1);
      ValNext(s, i + n, m - 1);
      Distribute(Pow2(m - 1), Val(s[i..i + n]), Val(s[i + n..i + n + m - 1]));
    }
  }

  lemma Distribute(p: nat, x: nat, y: nat)
    ensures 2 * (p * x + y) == (2 * p) * x + 2 * y
  {
  }

  lemma Divisions(i: nat)
    ensures (i / BLOCK_BITS) / 8 == i / SUPER_BITS
    ensures BLOCK_BITS * (i / BLOCK_BITS) <= i && SUPER_BITS * (i / SUPER_BITS) <= i
    ensures i / SUPER_BITS <= (i + SUPER_BITS - 1) / SUPER_BITS && i / BLOCK_BITS <= (i + BLOCK_BITS - 1) / BLOCK_BITS
  {
    var q := i / BLOCK_BITS;
    DivUnique(i, SUPER_BITS, q / 8, BLOCK_BITS * (q % 8) + i % BLOCK_BITS);
  }

  /** One step of building the index, at bit i. */
  lemma IndexStep(s: seq<bool>, super: seq<nat>, block: seq<nat>, super': seq<nat>, block': seq<nat>, i: nat)
    requires i <= |s| && Indexed(s, super, block, i)
    requires |super| == |super'| && |block| == |block'| && i / SUPER_BITS < |super| && i / BLOCK_BITS < |block|
    requires super' == if i % SUPER_BITS == 0 then super[i / SUPER_BITS := RankOf(s, i, true)] else super
    requires block' == if i % BLOCK_BITS == 0
                       then block[i / BLOCK_BITS := RankOf(s, i, true) - Before(s, i)] else block
    ensures Indexed(s, super', block', i + 1)
  {
    hide RankOf, Before;
    Divisions(i);
    forall q | 0 <= q && SUPER_BITS * q < i + 1
      ensures q < |super'| && super'[q] == RankOf(s, SUPER_BITS * q, true)
    {
      if SUPER_BITS * q == i {
        assert q == i / SUPER_BITS;
      }
    }
    forall q | 0 <= q && BLOCK_BITS * q < i + 1
      ensures q < |block'| && block'[q] == RankOf(s, BLOCK_BITS * q, true) - RankOf(s, SUPER_BITS * (q / 8), true)
    {
      BlockStep(s, super, block, block', i, q);
    }
  }

  lemma BlockStep(s: seq<bool>, super: seq<nat>, block: seq<nat>, block': seq<nat>, i: nat, q: nat)
    requires i <= |s| && Indexed(s, super, block, i) && |block| == |block'| && i / BLOCK_BITS < |block|
    requires block' == if i % BLOCK_BITS == 0
                       then block[i / BLOCK_BITS := RankOf(s, i, true) - Before(s, i)] else block
    requires BLOCK_BITS * q <= i
    ensures SUPER_BITS * (q / 8) <= |s|
    ensures q < |block'| && block'[q] == RankOf(s, BLOCK_BITS * q, true) - RankOf(s, SUPER_BITS * (q / 8), true)
  {
    hide RankOf;
    Divisions(i);
    if BLOCK_BITS * q == i {
      assert q == i / BLOCK_BITS;
    }
  }

  /** Ones before the superblock of bit i. */
  ghost function Before(s: seq<bool>, i: nat): (n: nat)
    requires i <= |s|
    ensures n <= RankOf(s, i, true)
  {
    Divisions(i);
    RankMonotone(s, SUPER_BITS * (i / SUPER_BITS), i, true);
    RankOf(s, SUPER_BITS * (i / SUPER_BITS), true)
  }

  /** Within a superblock there are too few ones to overflow a 16-bit block entry. */
  lemma WithinFits(s: seq<bool>, i: nat)
    requires i <= |s|
    ensures RankOf(s, i, true) - Before(s, i) < SUPER_BITS < 0x1_0000
  {
    Divisions(i);
    RankMonotone(s, SUPER_BITS * (i / SUPER_BITS), i, true);
  }

  lemma BeforeNext(s: seq<bool>, i: nat)
    requires i < |s|
    ensures (i + 1) % SUPER_BITS == 0 ==> Before(s, i + 1) == RankOf(s, i + 1, true)
    ensures (i + 1) % SUPER_BITS != 0 ==> Before(s, i + 1) == Before(s, i)
  {
    hide RankOf;
    var q := i / SUPER_BITS;
    if (i + 1) % SUPER_BITS != 0 {
      DivUnique(i + 1, SUPER_BITS, q, i % SUPER_BITS + 1);
    } else {
      assert SUPER_BITS * ((i + 1) / SUPER_BITS) == i + 1;
    }
  }

  lemma BitAtUnpack(bits: seq<byte>, i: nat)
    requires i < 8 * |bits|
    ensures Unpack(bits)[i] == ((bits[i / 8] / Pow2(7 - i % 8)) % 2 == 1)
  {
    BitsOfAt(bits[i / 8], 8, i % 8);
  }

  lemma ByteOfUnpack(bits: seq<byte>, n: nat, j: nat)
    requires j % 8 == 0 && j + 8 <= n <= 8 * |bits|
    ensures Val(Unpack(bits)[..n][j..j + 8]) == bits[j / 8]
  {
    hide BitsOf, Unpack, Val;
    UnpackByte(bits, j / 8);
    assert 8 * (j / 8) == j;
    assert Unpack(bits)[..n][j..j + 8] == Unpack(bits)[8 * (j / 8)..8 * (j / 8) + 8];
    Pow2Constants();
    ValOfBits(bits[j / 8], 8);
  }

  class RankedBits {
    const bits: seq<byte>
    const nbits: nat
    const super: array<nat>
    const block: array<nat>

    ghost function Contents(): (s: seq<bool>)
      requires nbits <= 8 * |bits|
      ensures |s| == nbits
    {
      Unpack(bits)[..nbits]
    }

    /** Eight spare bytes keep a word-at-a-time read near the end in bounds. */
    ghost predicate Valid()
      reads this, super, block
      ensures Valid() ==> nbits + 64 <= 8 * |bits|
    {
      && nbits + 64 <= 8 * |bits|
      && Indexed(Contents(), super[..], block[..], nbits + 1)
    }

    /** Copies the bits and builds the index in one pass that includes the position past the
        last bit. */
    constructor (input: seq<byte>, nbits: nat)
      requires nbits <= 8 * |input|
      ensures Valid() && fresh(super) && fresh(block)
      ensures this.nbits == nbits && Contents() == Unpack(input)[..nbits]
    {
      StoredBits(input, nbits);
      this.bits := Stored(input, nbits);
      this.nbits := nbits;
      super := new nat[(nbits + SUPER_BITS - 1) / SUPER_BITS + 1](_ => 0);
      block := new nat[(nbits + BLOCK_BITS - 1) / BLOCK_BITS + 1](_ => 0);
      new;
      BuildIndex();
    }

    method BuildIndex()
      requires nbits + 64 <= 8 * |bits| && super != block
      requires super.Length == (nbits + SUPER_BITS - 1) / SUPER_BITS + 1
      requires block.Length == (nbits + BLOCK_BITS - 1) / BLOCK_BITS + 1
      modifies super, block
      ensures Valid()
    {
      hide RankOf, Indexed, Unpack, Before;
      ghost var s := Contents();
      var total, within, i: nat := 0, 0, 0;
      NothingIndexed(s, super[..], block[..]);
      while i <= nbits
        invariant i <= nbits + 1 && Indexed(s, super[..], block[..], i)
        invariant i <= nbits ==> total == RankOf(s, i, true)
        invariant i <= nbits && i % SUPER_BITS != 0 ==> within == total - Before(s, i)
      {
        within := IndexBit(i, total, within);
        if i < nbits {
          var bit := Get(i);
          RankNext(s, i);
          BeforeNext(s, i);
          if bit {
            total := total + 1;
            within := within + 1;
          }
        }
        i := i + 1;
      }
    }

    /** Records the counts where a superblock or a block starts. */
    method IndexBit(i: nat, total: nat, within: nat) returns (within': nat)
      requires i <= nbits <= 8 * |bits| && super != block
      requires super.Length == (nbits + SUPER_BITS - 1) / SUPER_BITS + 1
      requires block.Length == (nbits + BLOCK_BITS - 1) / BLOCK_BITS + 1
      requires Indexed(Contents(), super[..], block[..], i) && total == RankOf(Contents(), i, true)
      requires i % SUPER_BITS != 0 ==> within == total - Before(Contents(), i)
      modifies super, block
      ensures Indexed(Contents(), super[..], block[..], i + 1) && within' == total - Before(Contents(), i)
    {
      hide RankOf, Indexed, Unpack, Before;
      ghost var super0, block0 := super[..], block[..];
      within' := within;
      BeforeAt(Contents(), i);
      IndexRoom(i, nbits);
      if i % SUPER_BITS == 0 {
        super[i / SUPER_BITS] := total;
        within' := 0;
      }
      if i % BLOCK_BITS == 0 {
        WithinFits(Contents(), i);
        block[i / BLOCK_BITS] := within' % 0x1_0000;
      }
      IndexStep(Contents(), super0, block0, super[..], block[..], i);
    }

    /** The bit itself. */
    method Get(i: nat) returns (b: bool)
      requires i < nbits <= 8 * |bits|
      ensures b == Contents()[i]
    {
      BitAtUnpack(bits, i);
      b := (bits[i / 8] / Pow2(7 - i % 8)) % 2 == 1;
    }

    /** Ones among the first i bits, or among all of them when there are fewer. */
    method Rank1(i: nat) returns (r: nat)
      requires Valid()
      ensures r == RankOf(Contents(), if i <= nbits then i else nbits, true)
    {
      hide RankOf, Unpack, Indexed;
      if i == 0 {
        RankZero(Contents());
        return 0;
      }
      var n := if i > nbits then nbits else i;
      IndexEntries(Contents(), super[..], block[..], n);
      var indexed := super[n / SUPER_BITS] + block[n / BLOCK_BITS];
      r := CountFrom((n / BLOCK_BITS) * BLOCK_BITS, n, indexed);
    }

    /** The ones before bit n, given those before bit start: whole words, whole bytes, single bits. */
    method CountFrom(start: nat, n: nat, before: nat) returns (r: nat)
      requires start % 8 == 0 && start <= n <= nbits <= 8 * |bits| && before == RankOf(Contents(), start, true)
      ensures r == RankOf(Contents(), n, true)
    {
      hide RankOf, Unpack;
      ghost var s := Contents();
      var j := start;
      r := before;
      while j + 64 <= n
        invariant j % 8 == 0 && j <= n && r == RankOf(s, j, true)
      {
        var ones := PopcountWord(j);
        r := r + ones;
        j := j + 64;
      }
      while j + 8 <= n
        invariant j % 8 == 0 && j <= n && r == RankOf(s, j, true)
      {
        var ones := PopcountByte(j);
        r := r + ones;
        j := j + 8;
      }
      while j < n
        invariant j <= n && r == RankOf(s, j, true)
      {
        var bit := Get(j);
        RankNext(s, j);
        r := r + (if bit then 1 else 0);
        j := j + 1;
      }
    }

    method PopcountWord(j: nat) returns (ones: nat)
      requires j % 8 == 0 && j + 64 <= nbits <= 8 * |bits|
      ensures RankOf(Contents(), j + 64, true) == RankOf(Contents(), j, true) + ones
    {
      hide Unpack, RankOf, Popcount, Val;
      var w := WordAt(j);
      PopcountOfBits(Contents(), j, 64);
      ones := Popcount(w);
    }

    method PopcountByte(j: nat) returns (ones: nat)
      requires j % 8 == 0 && j + 8 <= nbits <= 8 * |bits|
      ensures RankOf(Contents(), j + 8, true) == RankOf(Contents(), j, true) + ones
    {
      hide Unpack, RankOf, Popcount, Val;
      ByteOfUnpack(bits, nbits, j);
      PopcountOfBits(Contents(), j, 8);
      ones := Popcount(bits[j / 8]);
    }

    /** Eight bytes as one word, first byte highest. */
    method WordAt(j: nat) returns (w: nat)
      requires j % 8 == 0 && j + 64 <= nbits <= 8 * |bits|
      ensures w == Val(Contents()[j..j + 64])
    {
      hide Unpack, Val;
      ValNone(Contents(), j);
      w := 0;
      var k := 0;
      while k < 8
        invariant 0 <= k <= 8 && w == Val(Contents()[j..j + 8 * k])
      {
        ValAppendByte(Contents(), j, 8 * k);
        ByteOfUnpack(bits, nbits, j + 8 * k);
        assert (j + 8 * k) / 8 == j / 8 + k;
        w := 256 * w + bits[j / 8 + k];
        k := k + 1;
      }
    }

    method Rank0(i: nat) returns (r: nat)
      requires Valid()
      ensures r == RankOf(Contents(), if i <= nbits then i else nbits, false)
    {
      var n := if i > nbits then nbits else i;
      var ones := Rank1(n);
      RankBoth(Contents(), n);
      r := n - ones;
    }

    method Rank(i: nat, b: bool) returns (r: nat)
      requires Valid()
      ensures r == RankOf(Contents(), if i <= nbits then i else nbits, b)
    {
      if b {
        r := Rank1(i);
      } else {
        r := Rank0(i);
      }
    }

    /** Position of the k-th bit that equals b, or the size when there is none: a binary search
        over rank. */
    method Select(k: nat, b: bool) returns (p: nat)
      requires Valid()
      ensures if k < RankOf(Contents(), nbits, b) then IsSelect(Contents(), k, b, p) else p == nbits
    {
      hide Unpack, RankOf, IsSelect;
      ghost var s := Contents();
      if nbits == 0 {
        return 0;
      }
      var available := Rank(nbits, b);
      if k >= available {
        return nbits;
      }
      var lo, hi := 0, nbits;
      NoneBefore(s, b);
      while lo < hi
        invariant 0 <= lo <= hi <= nbits && RankOf(s, lo, b) <= k
        invariant k < RankOf(s, if hi < nbits then hi + 1 else nbits, b)
      {
        var mid := lo + (hi - lo) / 2;
        var seen := Rank(mid + 1, b);
        if seen <= k {
          lo := mid + 1;
        } else {
          hi := mid;
        }
      }
      p := lo;
      RankRises(s, p, k, b);
    }
  }

  lemma RankRises(s: seq<bool>, p: nat, k: nat, b: bool)
    requires p <= |s| && RankOf(s, p, b) <= k < RankOf(s, if p < |s| then p + 1 else |s|, b)
    ensures IsSelect(s, k, b, p)
  {
  }

  lemma ValNone(s: seq<bool>, j: nat)
    requires j <= |s|
    ensures Val(s[j..j]) == 0
  {
  }

  lemma NoneBefore(s: seq<bool>, b: bool)
    ensures RankOf(s, 0, b) == 0
  {
  }

  lemma NothingIndexed(s: seq<bool>, super: seq<nat>, block: seq<nat>)
    ensures Indexed(s, super, block, 0)
  {
  }

  lemma BeforeAt(s: seq<bool>, i: nat)
    requires i <= |s|
    ensures i % SUPER_BITS == 0 ==> Before(s, i) == RankOf(s, i, true)
  {
    hide RankOf;
  }

  lemma IndexRoom(i: nat, n: nat)
    requires i <= n
    ensures i / SUPER_BITS < (n + SUPER_BITS - 1) / SUPER_BITS + 1
    ensures i / BLOCK_BITS < (n + BLOCK_BITS - 1) / BLOCK_BITS + 1
  {
  }

  lemma RankZero(s: seq<bool>)
    ensures RankOf(s, 0, true) == 0
  {
  }

  lemma RankNext(s: seq<bool>, i: nat)
    requires i < |s|
    ensures RankOf(s, i + 1, true) == RankOf(s, i, true) + (if s[i] then 1 else 0)
  {
  }

  /** The two index entries for position n add up to the rank of its block. */
  lemma IndexEntries(s: seq<bool>, super: seq<nat>, block: seq<nat>, n: nat)
    requires n <= |s| && Indexed(s, super, block, |s| + 1)
    ensures n / SUPER_BITS < |super| && n / BLOCK_BITS < |block| && BLOCK_BITS * (n / BLOCK_BITS) <= n
    ensures super[n / SUPER_BITS] + block[n / BLOCK_BITS] == RankOf(s, BLOCK_BITS * (n / BLOCK_BITS), true)
  {
    hide RankOf;
    Divisions(n);
  }
}
