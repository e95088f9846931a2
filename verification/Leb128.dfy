/** Byte strings, and LEB128 integers (section 7.6 of DWARF 5) as byte strings. */
module Leb128 {
  import opened BitOr
  import opened Bits
  import Varint

  /** Seven payload bits a byte, least significant first, the high bit set on all but the last. */
  function Leb(v: nat): (bs: seq<byte>)
    ensures 0 < |bs|
  {
    if v < 128 then [v] else [128 + v % 128] + Leb(v / 128)
  }

  /** The same groups as in a bit stream. */
  lemma {:induction false} LebIsVarint(v: nat)
    ensures Unpack(Leb(v)) == Varint.Varint(v)
  {
    hide BitsOf, Unpack;
    var first: byte := if v < 128 then v else 128 + v % 128;
    UnpackByte([first], 0);
    assert Unpack([first])[0..8] == Unpack([first]);
    if v >= 128 {
      LebIsVarint(v / 128);
      UnpackConcat([first], Leb(v / 128));
    }
  }

  /** The chunk stands in the buffer at pos. */
  predicate Holds(buf: seq<byte>, pos: nat, chunk: seq<byte>)
    ensures Holds(buf, pos, chunk) ==> pos + |chunk| <= |buf|
  {
    pos + |chunk| <= |buf| && buf[pos..pos + |chunk|] == chunk
  }

  lemma HoldsSplit(buf: seq<byte>, pos: nat, a: seq<byte>, b: seq<byte>)
    ensures Holds(buf, pos, a + b) <==> Holds(buf, pos, a) && Holds(buf, pos + |a|, b)
  {
    if Holds(buf, pos, a + b) {
      assert buf[pos..pos + |a|] == (a + b)[..|a|];
      assert buf[pos + |a|..pos + |a| + |b|] == (a + b)[|a|..];
    }
    if Holds(buf, pos, a) && Holds(buf, pos + |a|, b) {
      assert buf[pos..pos + |a + b|] == buf[pos..pos + |a|] + buf[pos + |a|..pos + |a| + |b|];
    }
  }

  lemma HoldsFirst(buf: seq<byte>, pos: nat, chunk: seq<byte>)
    requires Holds(buf, pos, chunk) && chunk != []
    ensures pos < |buf| && buf[pos] == chunk[0] && Holds(buf, pos + 1, chunk[1..])
  {
    assert chunk == [chunk[0]] + chunk[1..];
    HoldsSplit(buf, pos, [chunk[0]], chunk[1..]);
    assert buf[pos..pos + 1][0] == chunk[0];
  }

  lemma FirstByte(buf: seq<byte>, pos: nat, v: nat)
    requires Holds(buf, pos, Leb(v))
    ensures pos < |buf| && buf[pos] == if v < 128 then v else 128 + v % 128
    ensures v >= 128 ==> Holds(buf, pos + 1, Leb(v / 128)) && |Leb(v)| == 1 + |Leb(v / 128)|
    ensures v < 128 ==> |Leb(v)| == 1
  {
    hide Holds;
    HoldsFirst(buf, pos, Leb(v));
    if v >= 128 {
      assert Leb(v)[1..] == Leb(v / 128);
    }
  }

  lemma LebStep(v: nat)
    ensures Leb(v) == if v / 128 == 0 then [v % 128] else [v % 128 + 128] + Leb(v / 128)
  {
  }

  lemma Appended(a: seq<byte>, b: byte, c: seq<byte>)
    ensures (a + [b]) + c == a + ([b] + c)
  {
  }

  /** Appends an integer. */
  method LebWrite(buf: seq<byte>, value: nat) returns (r: seq<byte>)
    ensures r == buf + Leb(value)
  {
    r := buf;
    var v := value;
    while true
      invariant r + Leb(v) == buf + Leb(value)
      decreases v
    {
      var low: byte := v % 128;
      v := v / 128;
      if v == 0 {
        r := r + [low];
        return;
      }
      Appended(r, 128 + low, Leb(v));
      r := r + [128 + low];
    }
  }

  lemma GroupRead(v: nat, shift: nat)
    ensures Shifted(v, shift) == Shifted(v % 128, shift) + Shifted(v / 128, shift + 7)
    ensures v < 128 ==> Shifted(v / 128, shift + 7) == 0
  {
    hide Pow2;
    Pow2Add(7, shift);
    Pow2Constants();
    Regroup(v % 128, v / 128, Pow2(shift));
  }

  lemma Regroup(low: nat, high: nat, p: nat)
    ensures (low + 128 * high) * p == low * p + high * (128 * p)
  {
  }
}
