/** What becomes of a file that was damaged after it was written. */
module Damage {
  import opened Bits
  import opened Results
  import opened Varint
  import opened TrieBuild
  import opened SymbolTable
  import opened FileFormat
  import opened FileContents
  import opened BindingDecoder
  import opened Trie
  import Crc

  /** The bits of a buffer, every byte with its lowest bit first. */
  function BitList(buf: seq<byte>): (bits: seq<bool>)
    ensures |bits| == 8 * |buf|
  {
    Crc.BitsIn(Octets(buf))
  }

  /** The damage lies within 32 bits from bit i on. */
  ghost predicate DamagedAt(damaged: seq<byte>, file: seq<byte>, i: nat) {
    && |damaged| == |file| && damaged != file
    && forall k :: 0 <= k < 8 * |file| && (k < i || i + 32 <= k) ==> BitList(damaged)[k] == BitList(file)[k]
  }

  /** Magic and version in front, the checksum of everything else at the end. */
  ghost predicate Sealed(file: seq<byte>) {
    && |file| >= 36 && file[..5] == [0x54, 0x52, 0x50, 0x00, 0x01]
    && file[|file| - 4..] == U32(Crc32(file[..|file| - 4]))
  }

  lemma HeaderHead(h: Header)
    ensures |HeaderBytes(h)| == 32 && HeaderBytes(h)[..5] == [0x54, 0x52, 0x50, 0x00, 0x01]
  {
    hide U16, U32;
  }

  lemma BodySealed(head: seq<byte>, data: seq<byte>)
    requires |head| == 32 && head[..5] == [0x54, 0x52, 0x50, 0x00, 0x01]
    ensures Sealed(WithChecksum(head + data))
  {
    hide U32, Crc32;
    ChecksumMatches(head + data);
    assert WithChecksum(head + data)[..5] == head[..5];
  }

  lemma FileSealed(es: seq<Entry>)
    requires Sorted(es) && Shaped(TableFor(es))
    ensures Sealed(FileOf(es))
  {
    hide HeaderBytes, WithChecksum, Sealed, DataBytes, TableOf, Sorted;
    HeaderHead(FinalHeader(es));
    BodySealed(HeaderBytes(FinalHeader(es)), DataBytes(es));
  }

  function Octet(b: byte): bv8 {
    b as bv8
  }

  function Small8(c: bv8): int {
    c as int
  }

  lemma NextOctet(c: bv8)
    requires c != 255
    ensures Small8(c + 1) == Small8(c) + 1
  {
  }

  lemma EndsOfOctets(c: bv8)
    ensures Small8(0) == 0 && (c == 255 ==> Small8(c) == 255)
  {
  }

  lemma {:induction false} OctetReached(b: byte) returns (c: bv8)
    ensures Small8(c) == b
  {
    hide Small8;
    c := 0;
    EndsOfOctets(c);
    if b > 0 {
      c := OctetReached(b - 1);
      EndsOfOctets(c);
      NextOctet(c);
      c := c + 1;
    }
  }

  lemma OctetOf(c: bv8)
    ensures Small8(c) as bv8 == c
  {
  }

  lemma OctetBack(b: byte)
    ensures Small8(Octet(b)) == b
  {
    hide Small8;
    var c := OctetReached(b);
    OctetOf(c);
  }

  function Number(c: bv32): (n: nat)
    ensures n < 0x1_0000_0000
  {
    c as nat
  }

  lemma NumberBack(c: bv32)
    ensures Number(c) as bv32 == c
  {
  }

  lemma OctetsSame(a: byte, b: byte)
    requires Octet(a) == Octet(b)
    ensures a == b
  {
    hide Octet, Small8;
    OctetBack(a);
    OctetBack(b);
  }

  lemma NumbersSame(x: bv32, y: bv32)
    requires Number(x) == Number(y)
    ensures x == y
  {
    hide Number;
    NumberBack(x);
    NumberBack(y);
  }

  lemma OctetAt(buf: seq<byte>, i: nat)
    requires i < |buf|
    ensures Octets(buf)[i] == Octet(buf[i])
  {
  }

  lemma NumberOf(buf: seq<byte>)
    ensures Crc32(buf) == Number(Crc.Bitwise(Octets(buf)))
  {
    hide Crc.Bitwise, Octets;
  }

  lemma OctetsInjective(a: seq<byte>, b: seq<byte>)
    requires |a| == |b| && a != b
    ensures Octets(a) != Octets(b)
  {
    hide Octets, Octet;
    var i :| 0 <= i < |a| && a[i] != b[i];
    OctetAt(a, i);
    OctetAt(b, i);
    if Octets(a)[i] == Octets(b)[i] {
      OctetsSame(a[i], b[i]);
      assert false;
    }
  }

  lemma U32Injective(v: nat, w: nat)
    requires v < 0x1_0000_0000 && w < 0x1_0000_0000 && U32(v) == U32(w)
    ensures v == w
  {
    hide U32, Pow2;
    Pow2Constants();
    U32Bits(v);
    U32Bits(w);
    ValOfBits(v, 32);
    ValOfBits(w, 32);
  }

  /** A burst in the bytes that a checksum covers changes it. */
  lemma BodyDamaged(a: seq<byte>, b: seq<byte>, i: nat)
    requires DamagedAt(a, b, i)
    ensures U32(Crc32(a)) != U32(Crc32(b))
  {
    hide U32, Crc32, Crc.Bitwise, Octets, Crc.BitsIn, Number;
    OctetsInjective(a, b);
    assert BitList(a) == Crc.BitsIn(Octets(a)) && BitList(b) == Crc.BitsIn(Octets(b));
    Crc.BurstDetected(Octets(a), Octets(b), i);
    NumberOf(a);
    NumberOf(b);
    if U32(Crc32(a)) == U32(Crc32(b)) {
      U32Injective(Crc32(a), Crc32(b));
      NumbersSame(Crc.Bitwise(Octets(a)), Crc.Bitwise(Octets(b)));
      assert false;
    }
  }

  lemma BitListConcat(a: seq<byte>, b: seq<byte>)
    ensures BitList(a + b) == BitList(a) + BitList(b)
  {
    hide Crc.BitsIn;
    assert Octets(a + b) == Octets(a) + Octets(b);
    BitsInConcat(Octets(a), Octets(b));
  }

  lemma {:induction false} BitsInConcat(a: seq<bv8>, b: seq<bv8>)
    ensures Crc.BitsIn(a + b) == Crc.BitsIn(a) + Crc.BitsIn(b)
    decreases |a|
  {
    hide Crc.LowFirst;
    if a == [] {
      assert a + b == b;
    } else {
      assert (a + b)[1..] == a[1..] + b;
      BitsInConcat(a[1..], b);
    }
  }

  /** Bytes whose bits are all the same are the same. */
  lemma SameBits(a: seq<byte>, b: seq<byte>)
    requires BitList(a) == BitList(b)
    ensures a == b
  {
    hide Crc.BitsIn, Octets;
    assert |BitList(a)| == |BitList(b)|;
    Crc.BitsInInjective(Octets(a), Octets(b));
    if a != b {
      OctetsInjective(a, b);
      assert false;
    }
  }

  /** What stands before the damage and what stands behind it is unharmed. */
  lemma SplitDamage(damaged: seq<byte>, file: seq<byte>, i: nat, n: nat)
    requires DamagedAt(damaged, file, i) && n <= |file|
    ensures 8 * n <= i ==> damaged[..n] == file[..n]
    ensures i + 32 <= 8 * n ==> damaged[n..] == file[n..] && DamagedAt(damaged[..n], file[..n], i)
  {
    hide BitList;
    assert damaged == damaged[..n] + damaged[n..] && file == file[..n] + file[n..];
    BitListConcat(damaged[..n], damaged[n..]);
    BitListConcat(file[..n], file[n..]);
    var x, y := BitList(damaged), BitList(file);
    assert x[..8 * n] == BitList(damaged[..n]) && x[8 * n..] == BitList(damaged[n..]);
    assert y[..8 * n] == BitList(file[..n]) && y[8 * n..] == BitList(file[n..]);
    if 8 * n <= i {
      assert x[..8 * n] == y[..8 * n];
      SameBits(damaged[..n], file[..n]);
    }
    if i + 32 <= 8 * n {
      assert x[8 * n..] == y[8 * n..];
      SameBits(damaged[n..], file[n..]);
    }
  }

  lemma ByteRead(buf: seq<byte>, k: nat)
    requires k < |buf|
    ensures ReadBits(Unpack(buf), 8 * k, 8) == Ok(buf[k])
  {
    hide Unpack, Pow2;
    Pow2Constants();
    UnpackByte(buf, k);
    ValOfBits(buf[k], 8);
  }

  lemma {:induction false} FieldsThere(s: seq<bool>, pos: nat, widths: seq<nat>)
    requires pos + Total(widths) <= |s|
    ensures ReadFields(s, pos, widths).Ok?
    decreases |widths|
  {
    if widths != [] {
      FieldsThere(s, pos + widths[0], widths[1..]);
    }
  }

  ghost function Bytewise(n: nat): (widths: seq<nat>)
    ensures |widths| == n
  {
    seq(n, _ => 8)
  }

  /** Fields of one byte are the bytes. */
  lemma {:induction false} BytesRead(buf: seq<byte>, k: nat, n: nat)
    requires k + n <= |buf|
    ensures ReadFields(Unpack(buf), 8 * k, Bytewise(n)) == Ok(buf[k..k + n])
    decreases n
  {
    hide Unpack, ReadBits;
    if n > 0 {
      ByteRead(buf, k);
      BytesRead(buf, k + 1, n - 1);
      assert Bytewise(n)[0] == 8 && Bytewise(n)[1..] == Bytewise(n - 1);
      assert 8 * k + 8 == 8 * (k + 1);
      assert buf[k..k + n] == [buf[k]] + buf[k + 1..k + n];
    } else {
      assert buf[k..k + n] == [];
    }
  }

  lemma MagicRead(buf: seq<byte>)
    requires |buf| >= 32
    ensures ReadFields(Unpack(buf), 0, [8, 8, 8, 8]) == Ok(buf[..4])
    ensures ReadFields(Unpack(buf), 32, [8, 8]) == Ok([buf[4], buf[5]])
  {
    hide Unpack, ReadFields;
    BytesRead(buf, 0, 4);
    BytesRead(buf, 4, 2);
    assert Bytewise(4) == [8, 8, 8, 8] && Bytewise(2) == [8, 8];
    assert buf[4..6] == [buf[4], buf[5]];
  }

  /** What the first five bytes decide: magic first, then the version. */
  lemma HeadRead(buf: seq<byte>)
    requires |buf| >= 32
    ensures ReadHeader(Unpack(buf)).Ok? <==> buf[..5] == [0x54, 0x52, 0x50, 0x00, 0x01]
    ensures ReadHeader(Unpack(buf)) == Err(BadMagic) <==> buf[..4] != [0x54, 0x52, 0x50, 0x00]
    ensures ReadHeader(Unpack(buf)) == Err(Version) <==> buf[..4] == [0x54, 0x52, 0x50, 0x00] && buf[4] != 0x01
  {
    hide Unpack, ReadFields;
    MagicRead(buf);
    TotalsOf();
    FieldsThere(Unpack(buf), 48, [16, 32, 32, 32, 32, 32, 32]);
    assert buf[..4] == [buf[0], buf[1], buf[2], buf[3]] && buf[..5] == [buf[0], buf[1], buf[2], buf[3], buf[4]];
  }

  /** Both readers refuse what is too short, has another magic or another version, in this order. */
  lemma HeadRefused(buf: seq<byte>, check: bool)
    ensures |buf| < 32 ==> Open(buf, check) == Err(Truncated)
    ensures |buf| < 36 ==> DecodeMap(buf) == Err(Truncated)
    ensures |buf| >= 32 && buf[..4] != [0x54, 0x52, 0x50, 0x00] ==> Open(buf, check) == Err(BadMagic)
    ensures |buf| >= 36 && buf[..4] != [0x54, 0x52, 0x50, 0x00] ==> DecodeMap(buf) == Err(BadMagic)
    ensures |buf| >= 32 && buf[..4] == [0x54, 0x52, 0x50, 0x00] && buf[4] != 0x01 ==> Open(buf, check) == Err(Version)
    ensures |buf| >= 36 && buf[..4] == [0x54, 0x52, 0x50, 0x00] && buf[4] != 0x01 ==> DecodeMap(buf) == Err(Version)
  {
    hide Unpack, ReadHeader, ParseConfig, DecodeStream, Crc32, U32;
    if |buf| >= 32 {
      HeadRead(buf);
    }
  }

  lemma FlagsRead(buf: seq<byte>)
    requires |buf| >= 32
    ensures ReadBits(Unpack(buf), 48, 16) == Ok(256 * (buf[6] as nat) + buf[7])
  {
    hide Unpack, Pow2, BitsOf;
    var v := 256 * (buf[6] as nat) + buf[7];
    UnpackSlice(buf, 6, 2);
    assert buf[6..8] == [buf[6], buf[7]] == U16(v);
    U16Bits(v);
    Pow2Constants();
    ValOfBits(v, 16);
  }

  lemma FirstField(s: seq<bool>, pos: nat, widths: seq<nat>)
    requires widths != [] && ReadFields(s, pos, widths).Ok?
    ensures ReadBits(s, pos, widths[0]) == Ok(ReadFields(s, pos, widths).value[0])
  {
    hide ReadBits;
  }

  /** Bit 1 of the flags asks for a suffix table, which no version has. */
  lemma SuffixRefused(buf: seq<byte>, check: bool)
    requires |buf| >= 32 && buf[..5] == [0x54, 0x52, 0x50, 0x00, 0x01] && buf[7] / 2 % 2 == 1
    requires check ==> buf[|buf| - 4..] == U32(Crc32(buf[..|buf| - 4]))
    ensures Open(buf, check) == Err(Version)
  {
    hide Unpack, ReadFields, ReadBits, ParseConfig, Crc32, U32;
    HeadRead(buf);
    MagicRead(buf);
    TotalsOf();
    FieldsThere(Unpack(buf), 48, [16, 32, 32, 32, 32, 32, 32]);
    FirstField(Unpack(buf), 48, [16, 32, 32, 32, 32, 32, 32]);
    FlagsRead(buf);
  }

  /** A checksum that does not match is refused whatever else is there. */
  lemma MismatchRefused(buf: seq<byte>)
    requires |buf| >= 36 && buf[..5] == [0x54, 0x52, 0x50, 0x00, 0x01]
    requires buf[|buf| - 4..] != U32(Crc32(buf[..|buf| - 4]))
    ensures Open(buf, true) == Err(Corrupt) && DecodeMap(buf) == Err(Corrupt)
  {
    hide Unpack, ReadHeader, ParseConfig, DecodeStream, Crc32, U32;
    HeadRead(buf);
    assert buf[..4] == buf[..5][..4];
  }

  /** Damage to at most four neighbouring bytes lies within 32 bits. */
  lemma FourBytes(file: seq<byte>, damaged: seq<byte>, k: nat)
    requires |damaged| == |file| && damaged != file
    requires forall j :: 0 <= j < |file| && (j < k || k + 4 <= j) ==> damaged[j] == file[j]
    ensures DamagedAt(damaged, file, 8 * k)
  {
    hide BitList;
    var n, m := if k < |file| then k else |file|, if k + 4 < |file| then k + 4 else |file|;
    assert damaged == damaged[..n] + damaged[n..m] + damaged[m..] && file == file[..n] + file[n..m] + file[m..];
    BitListConcat(damaged[..n] + damaged[n..m], damaged[m..]);
    BitListConcat(damaged[..n], damaged[n..m]);
    BitListConcat(file[..n] + file[n..m], file[m..]);
    BitListConcat(file[..n], file[n..m]);
    assert damaged[..n] == file[..n] && damaged[m..] == file[m..];
  }

  lemma SealedLength(file: seq<byte>)
    requires Sealed(file)
    ensures |file| >= 36
  {
  }

  /** What both readers say to a file whose damage lies within 32 bits, before its checksum or in it. */
  lemma DamageRefused(file: seq<byte>, damaged: seq<byte>, i: nat)
    requires Sealed(file) && DamagedAt(damaged, file, i)
    requires i + 32 <= 8 * (|file| - 4) || 8 * (|file| - 4) <= i
    ensures var e := if damaged[..4] != file[..4] then BadMagic else if damaged[4] != file[4] then Version else Corrupt;
            Open(damaged, true) == Err(e) && DecodeMap(damaged) == Err(e)
    ensures i >= 40 ==> Open(damaged, true) == Err(Corrupt) && DecodeMap(damaged) == Err(Corrupt)
  {
    hide DamagedAt, Open, DecodeMap, Crc32, U32;
    var n := |file| - 4;
    LengthKept(damaged, file, i);
    SplitDamage(damaged, file, i, n);
    SplitDamage(damaged, file, i, 5);
    assert file[..4] == file[..5][..4] && file[4] == file[..5][4];
    assert damaged[..4] == damaged[..5][..4] && damaged[4] == damaged[..5][4];
    assert damaged[..5] == damaged[..4] + [damaged[4]];
    HeadRefused(damaged, true);
    if damaged[..5] == file[..5] {
      if i + 32 <= 8 * n {
        BodyDamaged(damaged[..n], file[..n], i);
      } else {
        assert damaged == damaged[..n] + damaged[n..] && file == file[..n] + file[n..];
      }
      MismatchRefused(damaged);
    }
  }

  lemma LengthKept(damaged: seq<byte>, file: seq<byte>, i: nat)
    requires DamagedAt(damaged, file, i)
    ensures |damaged| == |file| && damaged != file
  {
  }
}
