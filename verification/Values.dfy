/** Typed values and their self-delimiting encoding at any bit position. */
module Values {
  import opened Bits
  import opened Results
  import opened Varint
  import opened BitStream

  type int64 = x: int | -0x8000_0000_0000_0000 <= x < 0x8000_0000_0000_0000
  type bytes = s: seq<byte> | |s| < 0x1_0000_0000_0000_0000 witness []

  /** Floats are their bit patterns. Arrays and dictionaries have tags but no encoding;
      a decoder accepts the tags past them as values without a payload. */
  datatype Value =
    | Null
    | Bool(flag: bool)
    | Int(signed: int64)
    | UInt(unsigned: word)
    | Float32(bits32: nat)
    | Float64(bits64: word)
    | Str(str: bytes)
    | Blob(blob: bytes)
    | ArrayValue
    | DictValue
    | Reserved(tag: nat)

  /** The eight types the format can hold. */
  predicate Encodable(v: Value) {
    && (v.Float32? ==> v.bits32 < 0x1_0000_0000)
    && !v.ArrayValue? && !v.DictValue? && !v.Reserved?
  }

  function Tag(v: Value): nat {
    match v
    case Null => 0
    case Bool(_) => 1
    case Int(_) => 2
    case UInt(_) => 3
    case Float32(_) => 4
    case Float64(_) => 5
    case Str(_) => 6
    case Blob(_) => 7
    case ArrayValue => 8
    case DictValue => 9
    case Reserved(t) => t
  }

  /** A length, zero bits up to the byte boundary, then the bytes themselves. */
  function BytesBits(b: bytes, pos: nat): seq<bool> {
    Varint.Varint(|b|) + (Padding(pos + |Varint.Varint(|b|)|) + Unpack(b))
  }

  function PayloadBits(v: Value, pos: nat): seq<bool> {
    match v
    case Bool(b) => [b]
    case Int(i) => Varint.Varint(Zigzag(i))
    case UInt(u) => Varint.Varint(u)
    case Float32(f) => BitsOf(f, 32)
    case Float64(f) => BitsOf(f, 64)
    case Str(b) => BytesBits(b, pos)
    case Blob(b) => BytesBits(b, pos)
    case _ => []
  }

  /** The encoding of v when it starts at bit position pos. */
  function ValueBits(v: Value, pos: nat): seq<bool> {
    BitsOf(Tag(v), 4) + PayloadBits(v, pos + 4)
  }

  function StoreBits(vs: seq<Value>, pos: nat): seq<bool> {
    if vs == [] then [] else
      var first := ValueBits(vs[0], pos);
      first + StoreBits(vs[1..], pos + |first|)
  }

  function ReadBytes(s: seq<bool>, pos: nat): Result<(bytes, nat)> {
    var len :- ReadVarint(s, pos);
    var start := len.1 + |Padding(len.1)|;
    if start + 8 * len.0 > |s| then Err(Eof)
    else Ok((Pack(s[start..start + 8 * len.0]), start + 8 * len.0))
  }

  /** The value at pos and the position after it. */
  function ReadValue(s: seq<bool>, pos: nat): Result<(Value, nat)> {
    var tag :- ReadBits(s, pos, 4);
    ReadPayload(s, tag, pos + 4)
  }

  function ReadPayload(s: seq<bool>, tag: nat, p: nat): Result<(Value, nat)> {
    match tag
    case 0 => Ok((Null, p))
    case 1 => var b :- ReadBits(s, p, 1); Ok((Bool(b == 1), p + 1))
    case 2 => var v :- ReadVarint(s, p); Ok((Int(Unzigzag(v.0)), v.1))
    case 3 => var v :- ReadVarint(s, p); Ok((UInt(v.0), v.1))
    case 4 => var f :- ReadBits(s, p, 32); Ok((Float32(f), p + 32))
    case 5 => var f :- ReadBits(s, p, 64); Word(s, p); Ok((Float64(f), p + 64))
    case 6 => var b :- ReadBytes(s, p); Ok((Str(b.0), b.1))
    case 7 => var b :- ReadBytes(s, p); Ok((Blob(b.0), b.1))
    case 8 => Err(InvalidParam)
    case 9 => Err(InvalidParam)
    case t => Ok((Reserved(t), p))
  }

  lemma Word(s: seq<bool>, p: nat)
    requires p + 64 <= |s|
    ensures Val(s[p..p + 64]) < 0x1_0000_0000_0000_0000
  {
    BitsOfVal(s[p..p + 64]);
    Pow2Constants();
  }

  lemma ReadBytesAt(s: seq<bool>, pos: nat, b: bytes)
    requires At(s, pos, BytesBits(b, pos))
    ensures ReadBytes(s, pos) == Ok((b, pos + |BytesBits(b, pos)|))
  {
    hide Varint.Varint, Padding, Unpack, Pack, ReadVarint;
    var len := Varint.Varint(|b|);
    var pad := Padding(pos + |len|);
    AtSplit(s, pos, len, pad + Unpack(b));
    AtSplit(s, pos + |len|, pad, Unpack(b));
    ReadVarintAt(s, pos, |b|);
    PackUnpack(b);
  }

  lemma OneBit(b: bool)
    ensures Val([b]) == if b then 1 else 0
    ensures BitsOf(if b then 1 else 0, 1) == [b]
  {
    assert Val([b]) == 2 * Val([b][..0]) + (if b then 1 else 0);
  }

  lemma ReadPayloadAt(s: seq<bool>, pos: nat, v: Value)
    requires Encodable(v) && At(s, pos, PayloadBits(v, pos))
    ensures ReadPayload(s, Tag(v), pos) == Ok((v, pos + |PayloadBits(v, pos)|))
  {
    hide Pow2, BitsOf, Varint.Varint, ReadVarint, ReadBytes, BytesBits, Val;
    match v
    case Null =>
    case Bool(b) =>
      assert s[pos..pos + 1] == [b];
      OneBit(b);
    case Int(i) => ReadVarintAt(s, pos, Zigzag(i));
    case UInt(u) => ReadVarintAt(s, pos, u);
    case Float32(f) => Pow2Constants(); ReadBitsAt(s, pos, f, 32);
    case Float64(f) => Pow2Constants(); ReadBitsAt(s, pos, f, 64);
    case Str(b) => ReadBytesAt(s, pos, b);
    case Blob(b) => ReadBytesAt(s, pos, b);
  }

  /** The layout in numbers: four bits of type, then the payload; byte strings start on a byte. */
  lemma ValueLayout(v: Value, pos: nat)
    ensures match v
            case Null => ValueBits(v, pos) == BitsOf(0, 4)
            case Bool(b) => ValueBits(v, pos) == BitsOf(1, 4) + [b]
            case Int(i) => ValueBits(v, pos) == BitsOf(2, 4) + Varint.Varint(ShiftXor(i))
            case UInt(u) => ValueBits(v, pos) == BitsOf(3, 4) + Varint.Varint(u)
            case Float32(f) => ValueBits(v, pos) == BitsOf(4, 4) + BitsOf(f, 32)
            case Float64(f) => ValueBits(v, pos) == BitsOf(5, 4) + BitsOf(f, 64)
            case Str(b) => OnByte(ValueBits(v, pos), pos, BitsOf(6, 4) + Varint.Varint(|b|), b)
            case Blob(b) => OnByte(ValueBits(v, pos), pos, BitsOf(7, 4) + Varint.Varint(|b|), b)
            case _ => true
  {
    hide BitsOf, Varint.Varint, Zigzag, ShiftXor, Unpack;
    match v
    case Int(i) => ZigzagIsShiftXor(i);
    case Str(b) => BytesOnByte(b, pos, BitsOf(6, 4));
    case Blob(b) => BytesOnByte(b, pos, BitsOf(7, 4));
    case Null => assert BitsOf(0, 4) + [] == BitsOf(0, 4);
    case _ =>
  }

  /** Zero bits, fewer than eight, bring the bytes to a byte boundary. */
  ghost predicate OnByte(bits: seq<bool>, pos: nat, lead: seq<bool>, b: seq<byte>) {
    exists pad: seq<bool> ::
      |pad| < 8 && (pos + |lead| + |pad|) % 8 == 0 && (forall i :: 0 <= i < |pad| ==> !pad[i]) && bits == lead + (pad + Unpack(b))
  }

  lemma BytesOnByte(b: bytes, pos: nat, tag: seq<bool>)
    requires |tag| == 4
    ensures OnByte(tag + BytesBits(b, pos + 4), pos, tag + Varint.Varint(|b|), b)
  {
    hide Varint.Varint, Unpack, Padding, OnByte;
    var len := Varint.Varint(|b|);
    var at := pos + 4 + |len|;
    assert pos + |tag + len| == at;
    Associative(tag, len, Padding(at) + Unpack(b));
    PaddedOnByte(pos, tag + len, b);
  }

  lemma PaddedOnByte(pos: nat, lead: seq<bool>, b: bytes)
    ensures OnByte(lead + (Padding(pos + |lead|) + Unpack(b)), pos, lead, b)
  {
    hide Unpack;
    var pad := Padding(pos + |lead|);
    assert forall i :: 0 <= i < |pad| ==> !pad[i];
    assert |pad| < 8 && (pos + |lead| + |pad|) % 8 == 0;
  }

  /** Types 8 and 9 are refused, and what has a higher type is a value without a payload. */
  lemma UnknownTypes(s: seq<bool>, pos: nat)
    requires pos + 4 <= |s|
    ensures var t := Val(s[pos..pos + 4]);
            && (t == 8 || t == 9 ==> ReadValue(s, pos) == Err(InvalidParam))
            && (t >= 10 ==> ReadValue(s, pos) == Ok((Reserved(t), pos + 4)))
  {
    hide Val;
  }

  /** Decoding inverts encoding at every bit position and consumes exactly what was written. */
  lemma ReadValueAt(s: seq<bool>, pos: nat, v: Value)
    requires Encodable(v) && At(s, pos, ValueBits(v, pos))
    ensures ReadValue(s, pos) == Ok((v, pos + |ValueBits(v, pos)|))
  {
    hide BitsOf, PayloadBits, ReadPayload, ReadBits;
    AtSplit(s, pos, BitsOf(Tag(v), 4), PayloadBits(v, pos + 4));
    assert Pow2(4) == 16;
    ReadBitsAt(s, pos, Tag(v), 4);
    ReadPayloadAt(s, pos + 4, v);
  }

  /** Where a scan from pos stands after n values. */
  function ScanValues(s: seq<bool>, pos: nat, n: nat): Result<nat>
    decreases n, pos
  {
    if n == 0 then Ok(pos) else
      var v :- ReadValue(s, pos);
      ScanValues(s, v.1, n - 1)
  }

  /** The position of value i in a store that starts at pos. */
  function StorePos(vs: seq<Value>, pos: nat, i: nat): nat
    requires i <= |vs|
  {
    if i == 0 then pos else StorePos(vs[1..], pos + |ValueBits(vs[0], pos)|, i - 1)
  }

  /** In an encoded store a scan over i values stands exactly on value i, which reads back. */
  lemma {:induction false} StoreReadsBack(s: seq<bool>, pos: nat, vs: seq<Value>, i: nat)
    requires forall v :: v in vs ==> Encodable(v)
    requires At(s, pos, StoreBits(vs, pos)) && i <= |vs|
    ensures ScanValues(s, pos, i) == Ok(StorePos(vs, pos, i)) && StorePos(vs, pos, i) <= |s|
    ensures i < |vs| ==> ReadValue(s, StorePos(vs, pos, i)) == Ok((vs[i], StorePos(vs, pos, i + 1)))
    decreases |vs|
  {
    hide ReadValue, ValueBits;
    if vs != [] {
      var first := ValueBits(vs[0], pos);
      AtSplit(s, pos, first, StoreBits(vs[1..], pos + |first|));
      ReadValueAt(s, pos, vs[0]);
      if i > 0 {
        StoreReadsBack(s, pos + |first|, vs[1..], i - 1);
      }
    }
  }

  method WriteBytesValue(w: BitWriter, b: bytes)
    requires w.Valid()
    modifies w, w.buf
    ensures w.Valid() && (w.buf == old(w.buf) || fresh(w.buf))
    ensures w.Contents() == old(w.Contents()) + BytesBits(b, old(w.pos))
  {
    hide Varint.Varint, Padding, Unpack;
    ghost var was, len := w.Contents(), Varint.Varint(|b|);
    w.WriteVarintU(|b|);
    ghost var pad := Padding(w.pos);
    w.AlignToByte();
    w.WriteBytes(b);
    Associative(was + len, pad, Unpack(b));
    Associative(was, len, pad + Unpack(b));
  }

  /** Fails on arrays and dictionaries, after their tag has been written. */
  method EncodeValue(w: BitWriter, v: Value) returns (r: Result<()>)
    requires w.Valid()
    modifies w, w.buf
    ensures w.Valid() && (w.buf == old(w.buf) || fresh(w.buf))
    ensures r == if v.ArrayValue? || v.DictValue? then Err(InvalidParam) else Ok(())
    ensures w.Contents() == old(w.Contents()) + ValueBits(v, old(w.pos))
  {
    hide Varint.Varint, BitsOf, BytesBits, Zigzag;
    ghost var was := w.Contents();
    var _ := w.WriteBits(Tag(v), 4);
    Associative(was, BitsOf(Tag(v), 4), PayloadBits(v, w.pos));
    match v {
      case Bool(b) =>
        var _ := w.WriteBits(if b then 1 else 0, 1);
        OneBit(b);
      case Int(i) => w.WriteVarintS(i);
      case UInt(u) => w.WriteVarintU(u);
      case Float32(f) => var _ := w.WriteBits(f, 32);
      case Float64(f) => var _ := w.WriteBits(f, 64);
      case Str(b) => WriteBytesValue(w, b);
      case Blob(b) => WriteBytesValue(w, b);
      case ArrayValue => return Err(InvalidParam);
      case DictValue => return Err(InvalidParam);
      case _ =>
    }
    return Ok(());
  }

  method ReadBytesValue(r: BitReader) returns (res: Result<bytes>)
    requires r.Valid() && r.bitLen == 8 * |r.buf|
    modifies r
    ensures r.Valid()
    ensures match ReadBytes(r.Stream(), old(r.pos))
            case Ok(b) => res == Ok(b.0) && r.pos == b.1
            case Err(e) => res == Err(e)
  {
    hide Pack, Unpack;
    var len :- r.ReadVarintU();
    var _ :- r.AlignToByte();
    ghost var start := r.pos;
    var b :- r.DirectBytes(len);
    assert r.Stream() == Unpack(r.buf);
    SlicePack(r.buf, start / 8, len);
    return Ok(b);
  }

  lemma SlicePack(buf: seq<byte>, i: nat, n: nat)
    requires i + n <= |buf|
    ensures Pack(Unpack(buf)[8 * i..8 * i + 8 * n]) == buf[i..i + n]
  {
    hide Pack, Unpack;
    PackUnpack(buf[i..i + n]);
    UnpackSlice(buf, i, n);
  }

  method DecodeValue(r: BitReader) returns (res: Result<Value>)
    requires r.Valid() && r.bitLen == 8 * |r.buf|
    modifies r
    ensures r.Valid()
    ensures match ReadValue(r.Stream(), old(r.pos))
            case Ok(v) => res == Ok(v.0) && r.pos == v.1
            case Err(e) => res == Err(e)
  {
    var tag :- r.ReadBits(4);
    match tag
    case 0 => return Ok(Null);
    case 1 =>
      var b :- r.ReadBits(1);
      return Ok(Bool(b == 1));
    case 2 =>
      var i :- r.ReadVarintS();
      return Ok(Int(i));
    case 3 =>
      var u :- r.ReadVarintU();
      return Ok(UInt(u));
    case 4 =>
      var f :- r.ReadBits(32);
      return Ok(Float32(f));
    case 5 =>
      ghost var p := r.pos;
      var f :- r.ReadBits(64);
      Word(r.Stream(), p);
      return Ok(Float64(f));
    case 6 =>
      var b :- ReadBytesValue(r);
      return Ok(Str(b));
    case 7 =>
      var b :- ReadBytesValue(r);
      return Ok(Blob(b));
    case 8 => return Err(InvalidParam);
    case 9 => return Err(InvalidParam);
    case t => return Ok(Reserved(t));
  }
}
