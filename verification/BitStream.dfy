/** The growable bit writer and the bit reader over a byte buffer. */
module BitStream {
  import opened BitOr
  import opened Bits
  import opened Results
  import opened Varint

  lemma {:induction false} BitsOfAt(v: nat, n: nat, i: nat)
    requires i < n
    ensures BitsOf(v, n)[i] == ((v / Pow2(n - 1 - i)) % 2 == 1)
  {
    if i < n - 1 {
      BitsOfAt(v / 2, n - 1, i);
      DivDiv(v, 2, Pow2(n - 2 - i));
    }
  }

  /** Byte b with bit k (0 is the most significant) set to v: the or / and-not with a one-bit mask. */
  function WithBit(b: byte, k: nat, v: bool): (r: byte)
    requires k < 8
    ensures BitsOf(r, 8) == BitsOf(b, 8)[k := v]
  {
    var bs := BitsOf(b, 8)[k := v];
    BitsOfVal(bs);
    Pow2Constants();
    Val(bs)
  }

  class BitWriter {
    var buf: array<byte>
    var growth: nat
    var pos: nat

    /** Bits past the cursor are zero, which is what lets alignment skip over them. */
    ghost predicate Valid()
      reads this, buf
    {
      && buf.Length > 0
      && pos <= 8 * buf.Length
      && forall i :: pos <= i < 8 * buf.Length ==> !Unpack(buf[..])[i]
    }

    ghost function Contents(): (s: seq<bool>)
      reads this, buf
      requires Valid()
      ensures |s| == pos
    {
      Unpack(buf[..])[..pos]
    }

    constructor (initialCap: nat, growth: nat)
      ensures Valid() && Contents() == [] && fresh(buf)
    {
      var cap := if initialCap > 0 then initialCap else 256;
      this.growth := growth;
      pos := 0;
      buf := new byte[cap](_ => 0);
      new;
      assert forall i :: 0 <= i < 8 * buf.Length ==> !BitsOf(buf[i / 8], 8)[i % 8] by {
        ZeroBits(8);
      }
    }

    /** Room for n more bits; the contents stay. */
    method EnsureCapacity(n: nat)
      requires Valid()
      modifies this
      ensures Valid() && Contents() == old(Contents()) && pos + n <= 8 * buf.Length
      ensures buf == old(buf) || fresh(buf)
    {
      var needed := (pos + n + 7) / 8;
      if needed <= buf.Length {
        return;
      }
      var newCap := if growth > 0 then buf.Length + growth else buf.Length * 2;
      while newCap < needed
        invariant newCap > buf.Length
      {
        newCap := if growth > 0 then newCap + growth else newCap * 2;
      }
      var grown := new byte[newCap](i requires 0 <= i reads this, buf => if i < buf.Length then buf[i] else 0);
      hide Unpack;
      assert grown[..][..buf.Length] == buf[..];
      UnpackPrefix(grown[..], buf.Length);
      UnpackZeros(grown[..], buf.Length);
      buf := grown;
    }

    method PutBit(v: bool)
      requires Valid() && pos < 8 * buf.Length
      modifies this`pos, buf
      ensures Valid() && Contents() == old(Contents()) + [v]
    {
      ghost var before := Unpack(buf[..]);
      buf[pos / 8] := WithBit(buf[pos / 8], pos % 8, v);
      pos := pos + 1;
      assert forall i :: 0 <= i < 8 * buf.Length ==> Unpack(buf[..])[i] == before[pos - 1 := v][i];
    }

    method WriteBits(value: nat, n: nat) returns (r: Result<()>)
      requires Valid()
      modifies this, buf
      ensures Valid() && (buf == old(buf) || fresh(buf))
      ensures r.Ok? <==> 1 <= n <= 64
      ensures Contents() == old(Contents()) + (if r.Ok? then BitsOf(value, n) else [])
    {
      if n == 0 || n > 64 {
        return Err(InvalidParam);
      }
      hide BitsOf, Pow2, Unpack;
      EnsureCapacity(n);
      var i := 0;
      ghost var room := buf;
      ghost var was, bits := Contents(), BitsOf(value, n);
      assert was + bits[..0] == was;
      while i < n
        invariant 0 <= i <= n
        invariant Valid() && buf == room && pos + n - i <= 8 * buf.Length
        invariant Contents() == was + bits[..i]
      {
        BitsOfAt(value, n, i);
        OneMore(was, bits, i);
        PutBit((value / Pow2(n - 1 - i)) % 2 == 1);
        i := i + 1;
      }
      assert bits[..n] == bits;
      return Ok(());
    }

    method AlignToByte()
      requires Valid()
      modifies this
      ensures Valid() && (buf == old(buf) || fresh(buf))
      ensures Contents() == old(Contents()) + Padding(old(pos))
    {
      var rem := pos % 8;
      if rem != 0 {
        EnsureCapacity(8 - rem);
        pos := pos + (8 - rem);
      }
    }

    method WriteVarintU(value: word)
      requires Valid()
      modifies this, buf
      ensures Valid() && (buf == old(buf) || fresh(buf))
      ensures Contents() == old(Contents()) + Varint.Varint(value)
    {
      var v: nat := value;
      ghost var was := Contents();
      ghost var done: seq<bool> := [];
      while true
        invariant Valid() && (buf == old(buf) || fresh(buf))
        invariant Contents() == was + done
        invariant done + Varint.Varint(v) == Varint.Varint(value)
        decreases v
      {
        var byteVal := if v < 128 then v else 128 + v % 128;
        var _ := WriteBits(byteVal, 8);
        Associative(was, done, BitsOf(byteVal, 8));
        if v < 128 {
          return;
        }
        Associative(done, BitsOf(byteVal, 8), Varint.Varint(v / 128));
        done := done + BitsOf(byteVal, 8);
        v := v / 128;
      }
    }

    method WriteVarintS(value: int)
      requires Valid()
      requires -0x8000_0000_0000_0000 <= value < 0x8000_0000_0000_0000
      modifies this, buf
      ensures Valid() && (buf == old(buf) || fresh(buf))
      ensures Contents() == old(Contents()) + Varint.Varint(Zigzag(value))
    {
      hide Zigzag;
      ZigzagIsShiftXor(value);
      WriteVarintU(ShiftXor(value));
    }

    method WriteBytes(bytes: seq<byte>)
      requires Valid()
      modifies this, buf
      ensures Valid() && (buf == old(buf) || fresh(buf))
      ensures Contents() == old(Contents()) + Unpack(bytes)
    {
      hide Unpack, BitsOf;
      var i := 0;
      ghost var was := Contents();
      while i < |bytes|
        invariant 0 <= i <= |bytes|
        invariant Valid() && (buf == old(buf) || fresh(buf))
        invariant Contents() == was + Unpack(bytes)[..8 * i]
      {
        UnpackUpTo(bytes, i);
        Associative(was, Unpack(bytes)[..8 * i], BitsOf(bytes[i], 8));
        var _ := WriteBits(bytes[i], 8);
        i := i + 1;
      }
    }

    /** The finished buffer: the contents padded with zero bits to a whole byte. */
    method DetachBuffer() returns (bytes: seq<byte>)
      requires Valid()
      modifies this
      ensures Valid() && fresh(buf) && Contents() == []
      ensures Unpack(bytes) == old(Contents()) + Padding(old(pos))
    {
      hide Unpack;
      bytes := buf[..(pos + 7) / 8];
      UnpackPrefix(buf[..], (pos + 7) / 8);
      assert buf[..][..(pos + 7) / 8] == bytes;
      buf := new byte[buf.Length](_ => 0);
      pos := 0;
      UnpackZeros(buf[..], 0);
    }
  }

  lemma OneMore(was: seq<bool>, bits: seq<bool>, i: nat)
    requires i < |bits|
    ensures was + bits[..i + 1] == (was + bits[..i]) + [bits[i]]
  {
  }

  lemma UnpackUpTo(bytes: seq<byte>, i: nat)
    requires i < |bytes|
    ensures Unpack(bytes)[..8 * (i + 1)] == Unpack(bytes)[..8 * i] + BitsOf(bytes[i], 8)
  {
    hide Unpack, BitsOf;
    UnpackByte(bytes, i);
    assert Unpack(bytes)[..8 * (i + 1)] == Unpack(bytes)[..8 * i] + Unpack(bytes)[8 * i..8 * i + 8];
  }

  lemma UnpackZeros(buf: seq<byte>, n: nat)
    requires n <= |buf| && forall i :: n <= i < |buf| ==> buf[i] == 0
    ensures forall i :: 8 * n <= i < 8 * |buf| ==> !Unpack(buf)[i]
  {
    ZeroBits(8);
  }

  lemma NothingRead(s: seq<bool>, pos: nat)
    requires pos <= |s|
    ensures Val(s[pos..pos]) == 0
  {
  }

  lemma ValNext(s: seq<bool>, pos: nat, i: nat)
    requires pos + i < |s|
    ensures Val(s[pos..pos + i + 1]) == 2 * Val(s[pos..pos + i]) + (if s[pos + i] then 1 else 0)
  {
    var longer := s[pos..pos + i + 1];
    assert longer[..|longer| - 1] == s[pos..pos + i];
  }

  lemma ZeroBits(n: nat)
    ensures forall i :: 0 <= i < n ==> !BitsOf(0, n)[i]
  {
    forall i | 0 <= i < n ensures !BitsOf(0, n)[i] {
      BitsOfAt(0, n, i);
    }
  }

  /** The zero bits between pos and the next byte boundary. */
  function Padding(pos: nat): (pad: seq<bool>)
    ensures (pos + |pad|) % 8 == 0 && |pad| < 8
  {
    seq((8 - pos % 8) % 8, _ => false)
  }

  class BitReader {
    const buf: seq<byte>
    const bitLen: nat
    var pos: nat

    ghost predicate Valid()
      reads this
    {
      pos <= bitLen <= 8 * |buf|
    }

    ghost function Stream(): seq<bool>
      requires bitLen <= 8 * |buf|
    {
      Unpack(buf)[..bitLen]
    }

    constructor (buf: seq<byte>, bitLen: nat)
      requires bitLen <= 8 * |buf|
      ensures Valid() && this.buf == buf && this.bitLen == bitLen && pos == 0
    {
      this.buf := buf;
      this.bitLen := bitLen;
      pos := 0;
    }

    method Seek(bitPos: nat) returns (r: Result<()>)
      requires Valid()
      modifies this
      ensures Valid()
      ensures r == if bitPos > bitLen then Err(InvalidPosition) else Ok(())
      ensures pos == if r.Ok? then bitPos else old(pos)
    {
      if bitPos > bitLen {
        return Err(InvalidPosition);
      }
      pos := bitPos;
      return Ok(());
    }

    method Advance(n: nat) returns (r: Result<()>)
      requires Valid()
      modifies this
      ensures Valid()
      ensures r == if old(pos) + n > bitLen then Err(Eof) else Ok(())
      ensures pos == if r.Ok? then old(pos) + n else old(pos)
    {
      if pos + n > bitLen {
        return Err(Eof);
      }
      pos := pos + n;
      return Ok(());
    }

    method AlignToByte() returns (r: Result<()>)
      requires Valid()
      modifies this
      ensures Valid()
      ensures r == if old(pos) + |Padding(old(pos))| > bitLen then Err(Eof) else Ok(())
      ensures pos == if r.Ok? then old(pos) + |Padding(old(pos))| else old(pos)
    {
      var rem := pos % 8;
      if rem != 0 {
        if pos + (8 - rem) > bitLen {
          return Err(Eof);
        }
        pos := pos + (8 - rem);
      }
      return Ok(());
    }

    method BitAt(p: nat) returns (bit: bool)
      requires p < bitLen <= 8 * |buf|
      ensures bit == Stream()[p]
    {
      BitsOfAt(buf[p / 8], 8, p % 8);
      bit := (buf[p / 8] / Pow2(7 - p % 8)) % 2 == 1;
    }

    /** Reads without moving the cursor. */
    method PeekBits(n: nat) returns (r: Result<nat>)
      requires Valid()
      ensures r == if n == 0 || n > 64 then Err(InvalidParam) else Varint.ReadBits(Stream(), pos, n)
    {
      hide Val, Unpack;
      ghost var s := Stream();
      if n == 0 || n > 64 {
        return Err(InvalidParam);
      }
      if pos + n > bitLen {
        return Err(Eof);
      }
      var start, val, i := pos, 0, 0;
      NothingRead(s, start);
      while i < n
        invariant 0 <= i <= n
        invariant val == Val(s[start..start + i])
      {
        var bit := BitAt(start + i);
        ValNext(s, start, i);
        val := 2 * val + (if bit then 1 else 0);
        i := i + 1;
      }
      return Ok(val);
    }

    method ReadBits(n: nat) returns (r: Result<nat>)
      requires Valid()
      modifies this
      ensures Valid()
      ensures r == if n == 0 || n > 64 then Err(InvalidParam) else Varint.ReadBits(Stream(), old(pos), n)
      ensures pos == if r.Ok? then old(pos) + n else old(pos)
    {
      r := PeekBits(n);
      if r.Ok? {
        pos := pos + n;
      }
    }

    method ReadVarintU() returns (r: Result<nat>)
      requires Valid()
      modifies this
      ensures Valid()
      ensures match Varint.ReadVarint(Stream(), old(pos))
              case Ok(v) => r == Ok(v.0) && pos == v.1
              case Err(e) => r == Err(e)
    {
      hide Val, Shifted, Unpack, Pow2, Or;
      var val: nat := 0;
      var group := 0;
      ghost var s := Stream();
      ghost var whole := ReadGroups(s, pos, MAX_GROUPS);
      ghost var acc: nat := 0;
      AboveNothing(whole);
      while group < MAX_GROUPS
        invariant 0 <= group <= MAX_GROUPS && Valid()
        invariant val == acc % 0x1_0000_0000_0000_0000 && acc < Pow2(7 * group)
        invariant whole == Above(acc, group, ReadGroups(s, pos, MAX_GROUPS - group))
      {
        var at := pos;
        if at + 8 > bitLen {
          return Err(Eof);
        }
        var group8 := ReadBits(8);
        var b := group8.value;
        GroupStep(s, at, MAX_GROUPS - group, acc, group);
        val := OrGroup(val, b, 7 * group, acc);
        GroupBelow(acc, Low7(b), 7 * group);
        acc := Plus(acc, b, 7 * group);
        if b < 128 {
          return Ok(val);
        }
        group := group + 1;
      }
      return Err(Overflow);
    }

    method ReadVarintS() returns (r: Result<int>)
      requires Valid()
      modifies this
      ensures Valid()
      ensures match Varint.ReadVarint(Stream(), old(pos))
              case Ok(v) => r == Ok(Unzigzag(v.0)) && pos == v.1
              case Err(e) => r == Err(e)
    {
      var raw :- ReadVarintU();
      return Ok(Unzigzag(raw));
    }

    /** A slice of the buffer itself; the cursor must stand on a byte boundary. */
    method DirectBytes(n: nat) returns (r: Result<seq<byte>>)
      requires Valid()
      modifies this
      ensures Valid()
      ensures r == if old(pos) % 8 != 0 then Err(NotAligned)
                   else if old(pos) + 8 * n > bitLen then Err(Eof)
                   else Ok(buf[old(pos) / 8..old(pos) / 8 + n])
      ensures pos == if r.Ok? then old(pos) + 8 * n else old(pos)
    {
      if pos % 8 != 0 {
        return Err(NotAligned);
      }
      if pos + 8 * n > bitLen {
        return Err(Eof);
      }
      r := Ok(buf[pos / 8..pos / 8 + n]);
      pos := pos + 8 * n;
    }
  }

  /** The groups in r weighted above `group` groups that are worth acc. */
  ghost function Above(acc: nat, group: nat, r: Result<(nat, nat)>): Result<(nat, nat)> {
    if r.Err? then r else Ok((acc + r.value.0 * Pow2(7 * group), r.value.1))
  }

  lemma AboveNothing(r: Result<(nat, nat)>)
    ensures Above(0, 0, r) == r
  {
  }

  lemma GroupStep(s: seq<bool>, pos: nat, left: nat, acc: nat, group: nat)
    requires left > 0 && pos + 8 <= |s|
    ensures var b := Val(s[pos..pos + 8]);
            && b < 256
            && Above(acc, group, ReadGroups(s, pos, left))
            == if b < 128 then Ok((Plus(acc, b, 7 * group), pos + 8))
               else Above(Plus(acc, b, 7 * group), group + 1, ReadGroups(s, pos + 8, left - 1))
  {
    hide Val, Pow2, BitsOf;
    var b := Val(s[pos..pos + 8]);
    BitsOfVal(s[pos..pos + 8]);
    Pow2Constants();
    var rest := ReadGroups(s, pos + 8, left - 1);
    if b >= 128 && rest.Ok? {
      Pow2Add(7, 7 * group);
      Regroup(acc, b - 128, rest.value.0, Pow2(7 * group));
    }
  }

  lemma Regroup(acc: nat, low: nat, x: nat, p: nat)
    ensures acc + (low + 128 * x) * p == (acc + low * p) + x * (128 * p)
  {
  }

  /** b & 0x7F. */
  function Low7(b: nat): nat {
    if b < 128 then b else b - 128
  }

  ghost function Plus(acc: nat, b: nat, shift: nat): nat {
    acc + Shifted(Low7(b), shift)
  }

  /** val | ((b & 0x7F) << shift) in a 64-bit word whose set bits all lie below shift. */
  function OrGroup(val: word, b: nat, shift: nat, ghost acc: nat): (r: word)
    requires val == acc % 0x1_0000_0000_0000_0000 && acc < Pow2(shift) && shift <= 64 && b < 256
    ensures r == Plus(acc, b, shift) % 0x1_0000_0000_0000_0000
  {
    OrInWord(acc, Low7(b), shift);
    Or(val, Shifted(Low7(b), shift) % 0x1_0000_0000_0000_0000)
  }
}
