/** LEB128 integers (section 7.6 of DWARF 5) and the zigzag map, as bit sequences. */
module Varint {
  import opened BitOr
  import opened Bits
  import opened Results

  const MAX_GROUPS: nat := 10

  /** Seven payload bits a byte, least significant group first, high bit set on all but the last. */
  function Varint(v: nat): (bs: seq<bool>)
    ensures |bs| % 8 == 0 && |bs| > 0
  {
    if v < 128 then BitsOf(v, 8) else BitsOf(128 + v % 128, 8) + Varint(v / 128)
  }

  /** Group k holds bits 7k to 7k + 6 of the value, and says by its high bit whether others follow. */
  lemma {:induction false} VarintGroup(v: nat, k: nat)
    requires 8 * k < |Varint(v)|
    ensures Val(Varint(v)[8 * k..8 * k + 8]) == v / Pow2(7 * k) % 128 + (if 8 * k + 8 < |Varint(v)| then 128 else 0)
    decreases k
  {
    hide Pow2, BitsOf, Val;
    if k == 0 {
      PowZero();
      FirstGroup(v);
    } else {
      VarintGroup(v / 128, k - 1);
      GroupPower(k);
      DivDiv(v, 128, Pow2(7 * (k - 1)));
      LaterGroup(v, k);
    }
  }

  lemma LaterGroup(v: nat, k: nat)
    requires 0 < 8 * k < |Varint(v)|
    ensures v >= 128 && |Varint(v)| == 8 + |Varint(v / 128)|
    ensures var j := 8 * k - 8; j + 8 <= |Varint(v / 128)| && Varint(v)[8 * k..8 * k + 8] == Varint(v / 128)[j..j + 8]
  {
    hide BitsOf;
  }

  lemma GroupPower(n: nat)
    requires n > 0
    ensures Pow2(7 * n) == 128 * Pow2(7 * (n - 1))
  {
    hide Pow2;
    Pow2Constants();
    Pow2Add(7, 7 * (n - 1));
  }

  lemma PowZero()
    ensures Pow2(0) == 1
  {
  }

  lemma FirstGroup(v: nat)
    ensures Val(Varint(v)[..8]) == v % 128 + (if 8 < |Varint(v)| then 128 else 0)
  {
    hide Pow2, BitsOf, Val;
    Pow2Constants();
    var b := if v < 128 then v else 128 + v % 128;
    assert Varint(v)[..8] == BitsOf(b, 8);
    ValOfBits(b, 8);
  }

  /** There are as many groups as the value needs, and at least one. */
  lemma {:induction false} VarintLength(v: nat, n: nat)
    ensures |Varint(v)| <= 8 * n <==> n > 0 && v < Pow2(7 * n)
    decreases n
  {
    hide BitsOf, Pow2;
    if n > 0 {
      GroupPower(n);
      if v >= 128 {
        VarintLength(v / 128, n - 1);
        PowZero();
      }
    }
  }

  /** The n-bit number at pos. */
  function ReadBits(s: seq<bool>, pos: nat, n: nat): Result<nat> {
    if pos + n > |s| then Err(Eof) else Ok(Val(s[pos..pos + n]))
  }

  /** The integer whose at most `groups` groups start at pos, before truncation, and where it ends. */
  function ReadGroups(s: seq<bool>, pos: nat, groups: nat): (r: Result<(nat, nat)>)
    ensures r.Ok? ==> pos + 8 <= r.value.1 <= |s|
    decreases groups, pos
  {
    if groups == 0 then Err(Overflow)
    else if pos + 8 > |s| then Err(Eof)
    else
      var b := Val(s[pos..pos + 8]);
      if b < 128 then Ok((b, pos + 8))
      else
        var rest :- ReadGroups(s, pos + 8, groups - 1);
        Ok((b - 128 + 128 * rest.0, rest.1))
  }

  /** A 64-bit reader keeps the low 64 bits. */
  function ReadVarint(s: seq<bool>, pos: nat): (r: Result<(nat, nat)>)
    ensures r.Ok? ==> pos + 8 <= r.value.1 <= |s|
  {
    var r :- ReadGroups(s, pos, MAX_GROUPS);
    Ok((r.0 % 0x1_0000_0000_0000_0000, r.1))
  }

  /** The first n groups from pos on are there, and say that others follow. */
  predicate Continues(s: seq<bool>, pos: nat, n: nat)
    decreases n
  {
    n == 0 || (pos + 8 <= |s| && Val(s[pos..pos + 8]) >= 128 && Continues(s, pos + 8, n - 1))
  }

  lemma {:induction false} GroupsEnd(s: seq<bool>, pos: nat, n: nat, groups: nat)
    requires n <= groups && Continues(s, pos, n)
    ensures n == groups ==> ReadGroups(s, pos, groups) == Err(Overflow)
    ensures n < groups && pos + 8 * n + 8 > |s| ==> ReadGroups(s, pos, groups) == Err(Eof)
    ensures var r, end := ReadGroups(s, pos, groups), pos + 8 * n + 8;
            n < groups && end <= |s| && Val(s[end - 8..end]) < 128 ==> r.Ok? && r.value.1 == end
    decreases n
  {
    hide Val;
    if n > 0 {
      GroupsEnd(s, pos + 8, n - 1, groups - 1);
      assert pos + 8 * n + 8 == (pos + 8) + 8 * (n - 1) + 8;
    }
  }

  lemma {:induction false} FewerContinue(s: seq<bool>, pos: nat, m: nat, n: nat)
    requires m <= n && Continues(s, pos, n)
    ensures Continues(s, pos, m)
    decreases m
  {
    if m > 0 {
      FewerContinue(s, pos + 8, m - 1, n - 1);
    }
  }

  /** An integer ends at the first group that says so, the tenth at the latest. */
  lemma VarintEnds(s: seq<bool>, pos: nat, n: nat)
    requires Continues(s, pos, n)
    ensures n >= 10 ==> ReadVarint(s, pos) == Err(Overflow)
    ensures n < 10 && pos + 8 * n + 8 > |s| ==> ReadVarint(s, pos) == Err(Eof)
    ensures var r, end := ReadVarint(s, pos), pos + 8 * n + 8;
            n < 10 && end <= |s| && Val(s[end - 8..end]) < 128 ==> r.Ok? && r.value.1 == end
  {
    hide ReadGroups, Continues, Val;
    var m := if n < 10 then n else 10;
    FewerContinue(s, pos, m, n);
    GroupsEnd(s, pos, m, 10);
  }

  lemma ReadBitsAt(s: seq<bool>, pos: nat, v: nat, n: nat)
    requires v < Pow2(n) && At(s, pos, BitsOf(v, n))
    ensures ReadBits(s, pos, n) == Ok(v)
  {
    ValOfBits(v, n);
  }

  lemma {:induction false} ReadGroupsAt(s: seq<bool>, pos: nat, v: nat, groups: nat)
    requires At(s, pos, Varint(v)) && v < Pow2(7 * groups) && groups > 0
    ensures ReadGroups(s, pos, groups) == Ok((v, pos + |Varint(v)|))
    decreases groups
  {
    hide Pow2, BitsOf, Val;
    Pow2Constants();
    if v < 128 {
      ReadBitsAt(s, pos, v, 8);
    } else {
      AtSplit(s, pos, BitsOf(128 + v % 128, 8), Varint(v / 128));
      ReadBitsAt(s, pos, 128 + v % 128, 8);
      Pow2Add(7, 7 * groups - 7);
      ReadGroupsAt(s, pos + 8, v / 128, groups - 1);
    }
  }

  lemma WordFitsGroups(v: word)
    ensures v < Pow2(7 * MAX_GROUPS)
  {
    Pow2Constants();
    Pow2Monotone(64, 70);
  }

  /** Reading inverts writing for every 64-bit integer, at every bit position. */
  lemma ReadVarintAt(s: seq<bool>, pos: nat, v: word)
    requires At(s, pos, Varint(v))
    ensures ReadVarint(s, pos) == Ok((v, pos + |Varint(v)|))
  {
    hide Pow2, Varint, ReadGroups;
    WordFitsGroups(v);
    ReadGroupsAt(s, pos, v, MAX_GROUPS);
  }

  /** Two's complement value v of 64 bits, mapped so that small magnitudes stay small. */
  function Zigzag(v: int): word
    requires -0x8000_0000_0000_0000 <= v < 0x8000_0000_0000_0000
  {
    if v >= 0 then 2 * v else -2 * v - 1
  }

  function Unzigzag(raw: word): (v: int)
    ensures -0x8000_0000_0000_0000 <= v < 0x8000_0000_0000_0000
    ensures Zigzag(v) == raw
  {
    if raw % 2 == 1 then -(raw / 2) - 1 else raw / 2
  }

  /** The word arithmetic of the writer: the word shifted left by one, exclusive or the sign spread
      over all 64 bits. */
  function ShiftXor(v: int): nat
    requires -0x8000_0000_0000_0000 <= v < 0x8000_0000_0000_0000
  {
    Xor(2 * AsWord(v) % 0x1_0000_0000_0000_0000, if v < 0 then 0xFFFF_FFFF_FFFF_FFFF else 0)
  }

  /** It computes the zigzag map, which keeps the sign in the low bit and the magnitude above it. */
  lemma ZigzagIsShiftXor(v: int)
    requires -0x8000_0000_0000_0000 <= v < 0x8000_0000_0000_0000
    ensures Zigzag(v) == ShiftXor(v)
    ensures Zigzag(v) % 2 == (if v < 0 then 1 else 0) && Zigzag(v) / 2 == if v < 0 then -1 - v else v
  {
    hide Xor, Pow2;
    var w: nat := AsWord(v);
    if v < 0 {
      Pow2Constants();
      DivUnique(2 * w, 0x1_0000_0000_0000_0000, 1, 2 * v + 0x1_0000_0000_0000_0000);
      XorOnes(2 * v + 0x1_0000_0000_0000_0000, 64);
    } else {
      XorStep(2 * v, 0);
    }
  }

  /** The two maps are inverse to each other on all 64-bit values, so zigzag is a bijection. */
  lemma ZigzagBijection(v: int, raw: word)
    requires -0x8000_0000_0000_0000 <= v < 0x8000_0000_0000_0000
    ensures Unzigzag(Zigzag(v)) == v && Zigzag(Unzigzag(raw)) == raw
    ensures Zigzag(v) == raw <==> v == Unzigzag(raw)
  {
  }
}
