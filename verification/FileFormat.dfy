/** The .trp file: a 32-byte header, the data stream, and a checksum; and opening one. */
module FileFormat {
  import opened BitOr
  import opened Bits
  import opened Results
  import opened Varint
  import opened BitStream
  import opened Trie
  import opened Dictionary
  import opened SymbolTable
  import Crc

  const HEADER_SIZE: nat := 32
  const MAGIC: seq<byte> := [0x54, 0x52, 0x50, 0x00]
  const VERSION_MAJOR: nat := 1

  datatype Header = Header(minor: nat, flags: nat, numKeys: nat, trieOffset: nat, valueOffset: nat,
                           suffixOffset: nat, dataBits: nat, reserved: nat)

  predicate HasValues(flags: nat) { flags % 2 == 1 }

  predicate HasSuffixTable(flags: nat) { flags / 2 % 2 == 1 }

  function U16(v: nat): (b: seq<byte>)
    ensures |b| == 2
  {
    [v / 0x100 % 0x100, v % 0x100]
  }

  function U32(v: nat): (b: seq<byte>)
    ensures |b| == 4
  {
    [v / 0x100_0000 % 0x100, v / 0x1_0000 % 0x100, v / 0x100 % 0x100, v % 0x100]
  }

  function HeaderBytes(h: Header): (b: seq<byte>)
    ensures |b| == HEADER_SIZE
  {
    MAGIC + [VERSION_MAJOR, h.minor % 0x100] + U16(h.flags) + U32(h.numKeys) + U32(h.trieOffset) + U32(h.valueOffset)
    + U32(h.suffixOffset) + U32(h.dataBits) + U32(h.reserved)
  }

  /** Consecutive fields of the given widths, and as the numbers they hold. */
  function FieldBits(fields: seq<(nat, nat)>): seq<bool> {
    if fields == [] then [] else BitsOf(fields[0].0, fields[0].1) + FieldBits(fields[1..])
  }

  function ReadFields(s: seq<bool>, pos: nat, widths: seq<nat>): (r: Result<seq<nat>>)
    ensures r.Ok? ==> |r.value| == |widths|
    decreases |widths|
  {
    if widths == [] then Ok([]) else
      var v :- ReadBits(s, pos, widths[0]);
      var rest :- ReadFields(s, pos + widths[0], widths[1..]);
      Ok([v] + rest)
  }

  function Fields(h: Header): seq<(nat, nat)> {
    [(h.flags, 16), (h.numKeys, 32), (h.trieOffset, 32), (h.valueOffset, 32), (h.suffixOffset, 32), (h.dataBits, 32), (h.reserved, 32)]
  }

  function ReadHeader(s: seq<bool>): Result<Header> {
    var magic :- ReadFields(s, 0, [8, 8, 8, 8]);
    if magic != [0x54, 0x52, 0x50, 0x00] then Err(BadMagic) else
    var version :- ReadFields(s, 32, [8, 8]);
    if version[0] != VERSION_MAJOR then Err(Version) else
    var f :- ReadFields(s, 48, [16, 32, 32, 32, 32, 32, 32]);
    Ok(Header(version[1], f[0], f[1], f[2], f[3], f[4], f[5], f[6]))
  }

  function Octets(buf: seq<byte>): (data: seq<bv8>)
    ensures |data| == |buf|
  {
    seq(|buf|, i requires 0 <= i < |buf| => buf[i] as bv8)
  }

  function Crc32(buf: seq<byte>): (crc: nat)
    ensures crc < 0x1_0000_0000
  {
    Crc.Bitwise(Octets(buf)) as nat
  }

  /** Opening a buffer: header, checksum if asked for, symbol table. */
  function Open(buf: seq<byte>, check: bool): (r: Result<Dict>)
    ensures r.Ok? ==> Shaped(r.value.sym) && r.value.s == Unpack(buf)
  {
    if |buf| < HEADER_SIZE then Err(Truncated) else
    var s := Unpack(buf);
    var h :- ReadHeader(s);
    if check && buf[|buf| - 4..] != U32(Crc32(buf[..|buf| - 4])) then Err(Corrupt)
    else if HasSuffixTable(h.flags) then Err(Version)
    else
      var sym :- ParseConfig(s, 8 * HEADER_SIZE);
      Ok(Dict(s, sym, h.numKeys, HasValues(h.flags), 8 * HEADER_SIZE + h.trieOffset, 8 * HEADER_SIZE + h.valueOffset))
  }

  lemma U16Bits(v: nat)
    requires v < 0x1_0000
    ensures Unpack(U16(v)) == BitsOf(v, 16)
  {
    hide BitsOf, Pow2;
    Pow2Constants();
    JoinBits(v / 0x100, 8, v % 0x100, 8);
    TwoBytes(v / 0x100 % 0x100, v % 0x100);
  }

  lemma TwoBytes(a: byte, b: byte)
    ensures Unpack([a, b]) == BitsOf(a, 8) + BitsOf(b, 8)
  {
    hide BitsOf;
    OneByte(a);
    OneByte(b);
    assert [a, b] == [a] + [b];
    UnpackConcat([a], [b]);
  }

  lemma OneByte(a: byte)
    ensures Unpack([a]) == BitsOf(a, 8)
  {
  }

  lemma U32Bits(v: nat)
    requires v < 0x1_0000_0000
    ensures Unpack(U32(v)) == BitsOf(v, 32)
  {
    hide BitsOf, Pow2, Unpack;
    Pow2Constants();
    var hi, lo := v / 0x1_0000, v % 0x1_0000;
    JoinBits(hi, 16, lo, 16);
    U16Bits(hi);
    U16Bits(lo);
    Quarters(v);
    assert U32(v) == U16(hi) + U16(lo);
    UnpackConcat(U16(hi), U16(lo));
  }

  lemma Quarters(v: nat)
    requires v < 0x1_0000_0000
    ensures var hi, lo := v / 0x1_0000, v % 0x1_0000;
            && hi / 0x100 % 0x100 == v / 0x100_0000 % 0x100 && hi % 0x100 == v / 0x1_0000 % 0x100
            && lo / 0x100 % 0x100 == v / 0x100 % 0x100 && lo % 0x100 == v % 0x100
  {
    var hi, lo := v / 0x1_0000, v % 0x1_0000;
    var a, b, c, d := hi / 0x100, hi % 0x100, lo / 0x100, lo % 0x100;
    Digits(v, a, b, c, d);
    Digits(lo, 0, 0, c, d);
  }

  lemma Digits(v: nat, a: nat, b: nat, c: nat, d: nat)
    requires v == 0x100_0000 * a + 0x1_0000 * b + 0x100 * c + d && b < 0x100 && c < 0x100 && d < 0x100
    ensures v / 0x100_0000 == a && v / 0x1_0000 % 0x100 == b && v / 0x100 % 0x100 == c && v % 0x100 == d
  {
    DivUnique(v, 0x100_0000, a, 0x1_0000 * b + 0x100 * c + d);
    DivUnique(v, 0x1_0000, 0x100 * a + b, 0x100 * c + d);
    DivUnique(v, 0x100, 0x1_0000 * a + 0x100 * b + c, d);
    DivUnique(0x100 * a + b, 0x100, a, b);
    DivUnique(0x1_0000 * a + 0x100 * b + c, 0x100, 0x100 * a + b, c);
  }

  ghost function Widths(fields: seq<(nat, nat)>): seq<nat> {
    seq(|fields|, i requires 0 <= i < |fields| => fields[i].1)
  }

  ghost function Numbers(fields: seq<(nat, nat)>): seq<nat> {
    seq(|fields|, i requires 0 <= i < |fields| => fields[i].0)
  }

  /** Reading fields inverts writing them. */
  lemma {:induction false} ReadFieldsAt(s: seq<bool>, pos: nat, fields: seq<(nat, nat)>)
    requires At(s, pos, FieldBits(fields))
    requires forall i :: 0 <= i < |fields| ==> fields[i].0 < Pow2(fields[i].1)
    ensures ReadFields(s, pos, Widths(fields)) == Ok(Numbers(fields))
    decreases |fields|
  {
    hide BitsOf, At, ReadBits, Pow2;
    if fields != [] {
      AtSplit(s, pos, BitsOf(fields[0].0, fields[0].1), FieldBits(fields[1..]));
      ReadBitsAt(s, pos, fields[0].0, fields[0].1);
      ReadFieldsAt(s, pos + fields[0].1, fields[1..]);
      assert Widths(fields)[1..] == Widths(fields[1..]);
      assert Numbers(fields) == [fields[0].0] + Numbers(fields[1..]);
    }
  }

  ghost predicate Small(h: Header) {
    && h.minor < 0x100 && h.flags < 0x1_0000 && h.numKeys < 0x1_0000_0000 && h.trieOffset < 0x1_0000_0000
    && h.valueOffset < 0x1_0000_0000 && h.suffixOffset < 0x1_0000_0000 && h.dataBits < 0x1_0000_0000
    && h.reserved < 0x1_0000_0000
  }

  ghost function MagicFields(): seq<(nat, nat)> { [(0x54, 8), (0x52, 8), (0x50, 8), (0x00, 8)] }

  ghost function VersionFields(h: Header): seq<(nat, nat)> { [(VERSION_MAJOR, 8), (h.minor, 8)] }

  ghost function HeaderBits(h: Header): seq<bool> {
    FieldBits(MagicFields()) + (FieldBits(VersionFields(h)) + FieldBits(Fields(h)))
  }

  lemma FieldsFrom(f: seq<(nat, nat)>, i: nat)
    requires i < |f|
    ensures FieldBits(f[i..]) == BitsOf(f[i].0, f[i].1) + FieldBits(f[i + 1..])
  {
    assert f[i..][1..] == f[i + 1..];
  }

  lemma FieldsEnd(f: seq<(nat, nat)>)
    ensures FieldBits(f[|f|..]) == [] && FieldBits(f[0..]) == FieldBits(f)
  {
    assert f[0..] == f;
  }

  lemma TailBits(h: Header)
    ensures FieldBits(Fields(h)) ==
      BitsOf(h.flags, 16) + (BitsOf(h.numKeys, 32) + (BitsOf(h.trieOffset, 32) + (BitsOf(h.valueOffset, 32)
      + (BitsOf(h.suffixOffset, 32) + (BitsOf(h.dataBits, 32) + (BitsOf(h.reserved, 32) + []))))))
  {
    hide BitsOf, FieldBits;
    var f := Fields(h);
    FieldsFrom(f, 0);
    FieldsFrom(f, 1);
    FieldsFrom(f, 2);
    FieldsFrom(f, 3);
    FieldsFrom(f, 4);
    FieldsFrom(f, 5);
    FieldsFrom(f, 6);
    FieldsEnd(f);
  }

  lemma LeadBits(h: Header)
    ensures FieldBits(MagicFields()) == BitsOf(0x54, 8) + (BitsOf(0x52, 8) + (BitsOf(0x50, 8) + (BitsOf(0x00, 8) + [])))
    ensures FieldBits(VersionFields(h)) == BitsOf(VERSION_MAJOR, 8) + (BitsOf(h.minor, 8) + [])
  {
    hide BitsOf, FieldBits;
    var m, v := MagicFields(), VersionFields(h);
    FieldsFrom(m, 0);
    FieldsFrom(m, 1);
    FieldsFrom(m, 2);
    FieldsFrom(m, 3);
    FieldsEnd(m);
    FieldsFrom(v, 0);
    FieldsFrom(v, 1);
    FieldsEnd(v);
  }

  lemma LeadBytes(minor: byte)
    ensures Unpack(MAGIC + [VERSION_MAJOR, minor])
         == (BitsOf(0x54, 8) + BitsOf(0x52, 8)) + (BitsOf(0x50, 8) + BitsOf(0x00, 8)) + (BitsOf(VERSION_MAJOR, 8) + BitsOf(minor, 8))
  {
    hide BitsOf, Unpack;
    TwoBytes(0x54, 0x52);
    TwoBytes(0x50, 0x00);
    TwoBytes(VERSION_MAJOR, minor);
    assert MAGIC + [VERSION_MAJOR, minor] == [0x54, 0x52] + [0x50, 0x00] + [VERSION_MAJOR, minor];
    UnpackConcat([0x54, 0x52] + [0x50, 0x00], [VERSION_MAJOR, minor]);
    UnpackConcat([0x54, 0x52], [0x50, 0x00]);
  }

  /** Header bytes, read as bits, are the header's fields one after the other. */
  lemma HeaderBytesBits(h: Header)
    requires Small(h)
    ensures Unpack(HeaderBytes(h)) == HeaderBits(h)
  {
    hide BitsOf, Unpack, U16, U32, FieldBits;
    TailBits(h);
    LeadBits(h);
    LeadBytes(h.minor);
    U16Bits(h.flags);
    U32Bits(h.numKeys);
    U32Bits(h.trieOffset);
    U32Bits(h.valueOffset);
    U32Bits(h.suffixOffset);
    U32Bits(h.dataBits);
    U32Bits(h.reserved);
    UnpackJoined(MAGIC + [VERSION_MAJOR, h.minor], U16(h.flags), U32(h.numKeys), U32(h.trieOffset), U32(h.valueOffset),
                 U32(h.suffixOffset), U32(h.dataBits), U32(h.reserved));
    assert h.minor % 0x100 == h.minor;
  }

  lemma UnpackJoined(a: seq<byte>, b: seq<byte>, c: seq<byte>, d: seq<byte>, e: seq<byte>, f: seq<byte>, g: seq<byte>, h: seq<byte>)
    ensures Unpack(a + b + c + d + e + f + g + h)
         == Unpack(a) + Unpack(b) + Unpack(c) + Unpack(d) + Unpack(e) + Unpack(f) + Unpack(g) + Unpack(h)
  {
    hide Unpack;
    UnpackConcat(a, b);
    UnpackConcat(a + b, c);
    UnpackConcat(a + b + c, d);
    UnpackConcat(a + b + c + d, e);
    UnpackConcat(a + b + c + d + e, f);
    UnpackConcat(a + b + c + d + e + f, g);
    UnpackConcat(a + b + c + d + e + f + g, h);
  }

  /** Reading a header inverts writing it. */
  lemma ReadHeaderAt(s: seq<bool>, h: Header)
    requires Small(h) && At(s, 0, HeaderBits(h))
    ensures ReadHeader(s) == Ok(h)
  {
    hide BitsOf, FieldBits, ReadFields, At, Pow2;
    var m, v, f := MagicFields(), VersionFields(h), Fields(h);
    FieldsSizes(h);
    AtSplit(s, 0, FieldBits(m), FieldBits(v) + FieldBits(f));
    AtSplit(s, 32, FieldBits(v), FieldBits(f));
    Pow2Constants();
    ReadFieldsAt(s, 0, m);
    ReadFieldsAt(s, 32, v);
    ReadFieldsAt(s, 48, f);
    assert Widths(m) == [8, 8, 8, 8] && Widths(v) == [8, 8] && Widths(f) == [16, 32, 32, 32, 32, 32, 32];
    assert Numbers(m) == [0x54, 0x52, 0x50, 0x00] && Numbers(v) == [VERSION_MAJOR, h.minor];
    assert Numbers(f) == [h.flags, h.numKeys, h.trieOffset, h.valueOffset, h.suffixOffset, h.dataBits, h.reserved];
  }

  lemma FieldsSizes(h: Header)
    ensures |FieldBits(MagicFields())| == 32 && |FieldBits(VersionFields(h))| == 16 && |FieldBits(Fields(h))| == 208
  {
    hide BitsOf, FieldBits;
    LeadBits(h);
    TailBits(h);
  }

  method ReadFieldsFrom(r: BitReader, widths: seq<nat>) returns (res: Result<seq<nat>>)
    requires r.Valid() && forall w :: w in widths ==> 1 <= w <= 64
    modifies r
    ensures r.Valid() && res == ReadFields(r.Stream(), old(r.pos), widths)
    ensures res.Ok? ==> r.pos == old(r.pos) + Total(widths)
  {
    hide ReadBits;
    var vs: seq<nat> := [];
    ghost var s := r.Stream();
    ghost var whole := ReadFields(s, r.pos, widths);
    var i := 0;
    assert widths[0..] == widths && (whole.Ok? ==> vs + whole.value == whole.value);
    while i < |widths|
      invariant 0 <= i <= |widths| && r.Valid() && |vs| == i
      invariant r.pos + Total(widths[i..]) == old(r.pos) + Total(widths)
      invariant match ReadFields(s, r.pos, widths[i..])
                case Err(e) => whole == Err(e)
                case Ok(rest) => whole == Ok(vs + rest)
    {
      assert widths[i] in widths && widths[i..][1..] == widths[i + 1..];
      ghost var after := ReadFields(s, r.pos + widths[i], widths[i + 1..]);
      var v :- r.ReadBits(widths[i]);
      assert after.Ok? ==> vs + ([v] + after.value) == (vs + [v]) + after.value;
      vs := vs + [v];
      i := i + 1;
    }
    assert vs + [] == vs;
    return Ok(vs);
  }

  function Total(widths: seq<nat>): nat {
    if widths == [] then 0 else widths[0] + Total(widths[1..])
  }

  lemma TotalsOf()
    ensures Total([8, 8, 8, 8]) == 32 && Total([8, 8]) == 16 && Total([16, 32, 32, 32, 32, 32, 32]) == 208
  {
    assert Total([32, 32, 32]) == 96;
    assert [16, 32, 32, 32, 32, 32, 32][1..][1..][1..][1..] == [32, 32, 32];
  }

  method ReadHeaderFrom(r: BitReader) returns (res: Result<Header>)
    requires r.Valid() && r.pos == 0
    modifies r
    ensures r.Valid() && res == ReadHeader(r.Stream())
    ensures res.Ok? ==> r.pos == 8 * HEADER_SIZE
  {
    hide ReadFields, Total;
    TotalsOf();
    var magic :- ReadFieldsFrom(r, [8, 8, 8, 8]);
    if magic != [0x54, 0x52, 0x50, 0x00] {
      return Err(BadMagic);
    }
    var version :- ReadFieldsFrom(r, [8, 8]);
    if version[0] != VERSION_MAJOR {
      return Err(Version);
    }
    var f :- ReadFieldsFrom(r, [16, 32, 32, 32, 32, 32, 32]);
    return Ok(Header(version[1], f[0], f[1], f[2], f[3], f[4], f[5], f[6]));
  }

  method Crc32Of(buf: seq<byte>) returns (crc: nat)
    ensures crc == Crc32(buf)
  {
    var sum := Crc.Checksum(Octets(buf));
    return sum as nat;
  }

  method OpenBuffer(buf: seq<byte>, check: bool) returns (res: Result<Dict>)
    ensures res == Open(buf, check)
  {
    hide ReadHeader, ParseConfig, Unpack, Crc32;
    if |buf| < HEADER_SIZE {
      return Err(Truncated);
    }
    var r := new BitReader(buf, 8 * |buf|);
    assert r.Stream() == Unpack(buf);
    var h :- ReadHeaderFrom(r);
    if check {
      var actual := Crc32Of(buf[..|buf| - 4]);
      if buf[|buf| - 4..] != U32(actual) {
        return Err(Corrupt);
      }
    }
    if HasSuffixTable(h.flags) {
      return Err(Version);
    }
    var sym :- ReadConfig(r);
    return Ok(Dict(Unpack(buf), sym, h.numKeys, HasValues(h.flags), 8 * HEADER_SIZE + h.trieOffset, 8 * HEADER_SIZE + h.valueOffset));
  }
}
