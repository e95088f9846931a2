/** Bit streams as hexadecimal digits. */
module HexDigits {
  import opened Bits
  import opened Varint
  import opened FileFormat

  /** The bits of hexadecimal digits. */
  function HexBits(ns: seq<nat>): seq<bool> {
    if ns == [] then [] else BitsOf(ns[0], 4) + HexBits(ns[1..])
  }

  /** The digits of bytes. */
  function Hex(buf: seq<byte>): (ns: seq<nat>)
    ensures |ns| == 2 * |buf|
  {
    if buf == [] then [] else [buf[0] / 16, buf[0] % 16] + Hex(buf[1..])
  }

  lemma {:induction false} NibblesConcat(a: seq<nat>, b: seq<nat>)
    ensures HexBits(a + b) == HexBits(a) + HexBits(b)
  {
    hide BitsOf;
    if a == [] {
      assert a + b == b;
    } else {
      assert (a + b)[1..] == a[1..] + b;
      NibblesConcat(a[1..], b);
    }
  }

  lemma Joined(a: seq<nat>, b: seq<nat>, c: seq<nat>, d: seq<nat>)
    ensures HexBits(a + b + c + d) == HexBits(a) + (HexBits(b) + (HexBits(c) + HexBits(d)))
  {
    hide HexBits;
    NibblesConcat(a, b);
    NibblesConcat(a + b, c);
    NibblesConcat(a + b + c, d);
  }

  lemma NibblesLength(ns: seq<nat>)
    ensures |HexBits(ns)| == 4 * |ns|
  {
    hide BitsOf;
    if ns != [] {
      NibblesLength(ns[1..]);
    }
  }

  lemma OneNibble(n: nat)
    ensures HexBits([n]) == BitsOf(n, 4)
  {
    hide BitsOf;
    assert [n][1..] == [] && HexBits([]) == [];
  }

  lemma ByteNibbles(b: byte)
    ensures BitsOf(b, 8) == HexBits([b / 16, b % 16])
  {
    hide BitsOf;
    assert Pow2(4) == 16;
    JoinBits(b / 16, 4, b % 16, 4);
    assert [b / 16, b % 16][1..] == [b % 16 as nat];
    OneNibble(b % 16);
  }

  lemma {:induction false} BytesNibbles(buf: seq<byte>)
    ensures Unpack(buf) == HexBits(Hex(buf))
  {
    hide Unpack, BitsOf, HexBits;
    if buf == [] {
      assert HexBits([]) == [] by { NoNibbles(); }
    } else {
      assert buf == [buf[0]] + buf[1..];
      UnpackConcat([buf[0]], buf[1..]);
      OneByte(buf[0]);
      ByteNibbles(buf[0]);
      BytesNibbles(buf[1..]);
      NibblesConcat([buf[0] / 16, buf[0] % 16], Hex(buf[1..]));
    }
  }

  lemma NoNibbles()
    ensures HexBits([]) == []
  {
  }

  lemma ShortVarint(v: nat)
    requires v < 128
    ensures Varint.Varint(v) == HexBits([v / 16, v % 16])
  {
    hide BitsOf;
    ByteNibbles(v);
  }

  lemma {:induction false} HexConcat(a: seq<byte>, b: seq<byte>)
    ensures Hex(a + b) == Hex(a) + Hex(b)
  {
    if a == [] {
      assert a + b == b;
    } else {
      assert (a + b)[1..] == a[1..] + b;
      HexConcat(a[1..], b);
    }
  }

  lemma HexTwo(a: byte, b: byte)
    ensures Hex([a, b]) == [a / 16, a % 16, b / 16, b % 16]
  {
    assert [a, b][1..] == [b] && [b][1..] == [] && Hex([]) == [];
    assert Hex([b]) == [b / 16, b % 16] + [];
  }

  lemma HexSix(a: byte, b: byte, c: byte, d: byte, e: byte, f: byte)
    ensures Hex([a, b, c, d, e, f])
         == [a / 16, a % 16, b / 16, b % 16, c / 16, c % 16, d / 16, d % 16, e / 16, e % 16, f / 16, f % 16]
  {
    hide Hex;
    HexTwo(a, b);
    HexTwo(c, d);
    HexTwo(e, f);
    assert [a, b, c, d, e, f] == [a, b] + [c, d] + [e, f];
    HexConcat([a, b] + [c, d], [e, f]);
    HexConcat([a, b], [c, d]);
  }

  lemma FiveHex(a: seq<byte>, b: seq<byte>, c: seq<byte>, d: seq<byte>, e: seq<byte>)
    ensures Hex(a + b + c + d + e) == Hex(a) + Hex(b) + Hex(c) + Hex(d) + Hex(e)
  {
    hide Hex;
    HexConcat(a + b + c + d, e);
    HexConcat(a + b + c, d);
    HexConcat(a + b, c);
    HexConcat(a, b);
  }
}
