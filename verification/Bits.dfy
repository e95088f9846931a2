/** Bit sequences: the view in which every stream format of the repository is specified.
    A stream of bytes is read most significant bit first. */
module Bits {
  type byte = x: int | 0 <= x < 256

  /** A 64-bit unsigned machine word. */
  type word = x: int | 0 <= x < 0x1_0000_0000_0000_0000

  /** A 64-bit integer as an unsigned word. */
  function AsWord(v: int): (raw: word)
    requires -0x8000_0000_0000_0000 <= v < 0x8000_0000_0000_0000
  {
    if v < 0 then v + 0x1_0000_0000_0000_0000 else v
  }

  function Pow2(n: nat): (p: nat)
    ensures p > 0
  {
    if n == 0 then 1 else 2 * Pow2(n - 1)
  }

  /** The low n bits of v, most significant first. */
  function BitsOf(v: nat, n: nat): (bs: seq<bool>)
    ensures |bs| == n
  {
    if n == 0 then [] else BitsOf(v / 2, n - 1) + [v % 2 == 1]
  }

  /** The number a bit sequence stands for, most significant bit first. */
  function Val(bs: seq<bool>): nat {
    if bs == [] then 0 else 2 * Val(bs[..|bs| - 1]) + (if bs[|bs| - 1] then 1 else 0)
  }

  lemma {:induction false} Pow2Add(a: nat, b: nat)
    ensures Pow2(a + b) == Pow2(a) * Pow2(b)
  {
    if a > 0 {
      Pow2Add(a - 1, b);
      assert Pow2(a + b) == 2 * Pow2((a - 1) + b);
    }
  }

  lemma {:induction false} Pow2Monotone(a: nat, b: nat)
    requires a <= b
    ensures Pow2(a) <= Pow2(b)
  {
    if a < b {
      Pow2Monotone(a, b - 1);
    }
  }

  lemma Pow2Constants()
    ensures Pow2(7) == 128 && Pow2(8) == 256 && Pow2(16) == 0x1_0000
    ensures Pow2(32) == 0x1_0000_0000 && Pow2(64) == 0x1_0000_0000_0000_0000
  {
    assert Pow2(4) == 16;
    assert Pow2(7) == 128;
    assert Pow2(8) == 256;
    Pow2Add(8, 8);
    Pow2Add(16, 16);
    Pow2Add(32, 32);
  }

  lemma {:induction false} ValOfBits(v: nat, n: nat)
    requires v < Pow2(n)
    ensures Val(BitsOf(v, n)) == v
  {
    if n > 0 {
      ValOfBits(v / 2, n - 1);
      var bs := BitsOf(v, n);
      assert bs[..|bs| - 1] == BitsOf(v / 2, n - 1);
    }
  }

  lemma {:induction false} BitsOfVal(bs: seq<bool>)
    ensures Val(bs) < Pow2(|bs|)
    ensures BitsOf(Val(bs), |bs|) == bs
  {
    if bs != [] {
      var front := bs[..|bs| - 1];
      BitsOfVal(front);
      assert Val(bs) / 2 == Val(front);
      assert bs == front + [bs[|bs| - 1]];
    }
  }

  /** Chunk occurs in the stream at position pos. */
  predicate At(s: seq<bool>, pos: nat, chunk: seq<bool>) {
    pos + |chunk| <= |s| && s[pos..pos + |chunk|] == chunk
  }

  lemma AtSplit(s: seq<bool>, pos: nat, a: seq<bool>, b: seq<bool>)
    ensures At(s, pos, a + b) <==> At(s, pos, a) && At(s, pos + |a|, b)
  {
    if At(s, pos, a + b) {
      assert s[pos..pos + |a|] == (a + b)[..|a|];
      assert s[pos + |a|..pos + |a| + |b|] == (a + b)[|a|..];
    }
    if At(s, pos, a) && At(s, pos + |a|, b) {
      assert s[pos..pos + |a + b|] == s[pos..pos + |a|] + s[pos + |a|..pos + |a| + |b|];
    }
  }

  lemma AtSplit3(s: seq<bool>, pos: nat, a: seq<bool>, b: seq<bool>, c: seq<bool>)
    requires At(s, pos, a + (b + c))
    ensures At(s, pos, a) && At(s, pos + |a|, b) && At(s, pos + |a| + |b|, c) && pos + |a| + |b| + |c| <= |s|
  {
    AtSplit(s, pos, a, b + c);
    AtSplit(s, pos + |a|, b, c);
  }

  lemma Associative(a: seq<bool>, b: seq<bool>, c: seq<bool>)
    ensures (a + b) + c == a + (b + c)
  {
  }

  /** Writing two numbers after each other is writing one. */
  lemma {:induction false} JoinBits(a: nat, m: nat, b: nat, n: nat)
    requires b < Pow2(n)
    ensures BitsOf(a * Pow2(n) + b, m + n) == BitsOf(a, m) + BitsOf(b, n)
  {
    if n > 0 {
      HalfOfJoin(a, b, n);
      JoinBits(a, m, b / 2, n - 1);
      Associative(BitsOf(a, m), BitsOf(b / 2, n - 1), [b % 2 == 1]);
    }
  }

  lemma HalfOfJoin(a: nat, b: nat, n: nat)
    requires n > 0
    ensures var v := a * Pow2(n) + b; v / 2 == a * Pow2(n - 1) + b / 2 && v % 2 == b % 2
  {
    assert a * Pow2(n) == 2 * (a * Pow2(n - 1));
  }

  /** The bits of a byte buffer in stream order. */
  function Unpack(buf: seq<byte>): (s: seq<bool>)
    ensures |s| == 8 * |buf|
  {
    seq(8 * |buf|, i requires 0 <= i < 8 * |buf| => BitsOf(buf[i / 8], 8)[i % 8])
  }

  /** Whole bytes of a bit sequence; the inverse of Unpack. */
  function Pack(s: seq<bool>): (buf: seq<byte>)
    requires |s| % 8 == 0
    ensures |buf| == |s| / 8
  {
    seq(|s| / 8, i requires 0 <= i < |s| / 8 => ByteAt(s, i))
  }

  function ByteAt(s: seq<bool>, i: nat): byte
    requires 8 * i + 8 <= |s|
  {
    BitsOfVal(s[8 * i..8 * i + 8]);
    Pow2Constants();
    Val(s[8 * i..8 * i + 8])
  }

  lemma UnpackPack(s: seq<bool>)
    requires |s| % 8 == 0
    ensures Unpack(Pack(s)) == s
  {
    hide Unpack, Pack;
    forall i | 0 <= i < |s|
      ensures Unpack(Pack(s))[i] == s[i]
    {
      UnpackPackAt(s, i);
    }
  }

  lemma UnpackPackAt(s: seq<bool>, i: nat)
    requires |s| % 8 == 0 && i < |s|
    ensures Unpack(Pack(s))[i] == s[i]
  {
    hide BitsOf, Val;
    var chunk := s[8 * (i / 8)..8 * (i / 8) + 8];
    BitsOfVal(chunk);
    assert chunk[i % 8] == s[i];
  }

  lemma UnpackByte(buf: seq<byte>, i: nat)
    requires i < |buf|
    ensures Unpack(buf)[8 * i..8 * i + 8] == BitsOf(buf[i], 8)
  {
    hide BitsOf;
    forall j | 0 <= j < 8 ensures Unpack(buf)[8 * i + j] == BitsOf(buf[i], 8)[j] {
      assert (8 * i + j) / 8 == i && (8 * i + j) % 8 == j;
    }
  }

  lemma PackUnpack(buf: seq<byte>)
    ensures Pack(Unpack(buf)) == buf
  {
    forall i | 0 <= i < |buf|
      ensures Pack(Unpack(buf))[i] == buf[i]
    {
      UnpackByte(buf, i);
      Pow2Constants();
      ValOfBits(buf[i], 8);
    }
  }

  lemma UnpackPrefix(buf: seq<byte>, n: nat)
    requires n <= |buf|
    ensures Unpack(buf[..n]) == Unpack(buf)[..8 * n]
  {
  }

  lemma SliceAt(buf: seq<byte>, i: nat, n: nat, k: nat)
    requires i + n <= |buf| && k < 8 * n
    ensures Unpack(buf)[8 * i + k] == Unpack(buf[i..i + n])[k]
  {
    hide BitsOf;
    assert (8 * i + k) / 8 == i + k / 8 && (8 * i + k) % 8 == k % 8;
  }

  lemma UnpackSlice(buf: seq<byte>, i: nat, n: nat)
    requires i + n <= |buf|
    ensures Unpack(buf)[8 * i..8 * i + 8 * n] == Unpack(buf[i..i + n])
  {
    hide Unpack;
    var part, slice := Unpack(buf)[8 * i..8 * i + 8 * n], Unpack(buf[i..i + n]);
    forall k | 0 <= k < 8 * n ensures part[k] == slice[k] {
      SliceAt(buf, i, n, k);
    }
  }

  lemma UnpackConcat(a: seq<byte>, b: seq<byte>)
    ensures Unpack(a + b) == Unpack(a) + Unpack(b)
  {
    hide Unpack;
    var whole := Unpack(a + b);
    UnpackSlice(a + b, 0, |a|);
    UnpackSlice(a + b, |a|, |b|);
    assert (a + b)[0..|a|] == a && (a + b)[|a|..|a| + |b|] == b;
    assert whole == whole[..8 * |a|] + whole[8 * |a|..];
  }
}
