/** The file of a sorted entry list, and that opening it recovers the entries. */
module FileContents {
  import opened BitOr
  import opened Bits
  import opened Results
  import opened BitStream
  import opened Values
  import opened Trie
  import opened TrieBuild
  import opened TrieWriter
  import opened Dictionary
  import opened IterateAll
  import opened SymbolTable
  import opened FileFormat

  /** Some value is worth storing. */
  predicate AnyValue(es: seq<Entry>) {
    exists i :: 0 <= i < |es| && !es[i].val.Null?
  }

  ghost function TableFor(es: seq<Entry>): Symbols {
    TableOf(UsedFrom(es, 0))
  }

  const DATA_START: nat := 8 * HEADER_SIZE

  ghost function TrieStart(es: seq<Entry>): nat {
    DATA_START + |ConfigBits(TableFor(es))|
  }

  ghost function TrieBits(es: seq<Entry>): seq<bool>
    requires Sorted(es) && Shaped(TableFor(es))
  {
    if es == [] then [] else RangeBits(TableFor(es), es, AnyValue(es), 0, |es|, 0, 0)
  }

  ghost function ValueStart(es: seq<Entry>): nat
    requires Sorted(es) && Shaped(TableFor(es))
  {
    TrieStart(es) + |TrieBits(es)|
  }

  ghost function ValuesBits(es: seq<Entry>): seq<bool>
    requires Sorted(es) && Shaped(TableFor(es))
  {
    if AnyValue(es) then StoreBits(Vals(es), ValueStart(es)) else []
  }

  /** The data stream: trie configuration, trie, values. */
  ghost function DataBits(es: seq<Entry>): seq<bool>
    requires Sorted(es) && Shaped(TableFor(es))
  {
    ConfigBits(TableFor(es)) + (TrieBits(es) + ValuesBits(es))
  }

  ghost function HeaderFor(es: seq<Entry>, trieOffset: nat, valueOffset: nat, dataBits: nat): Header {
    Header(0, if AnyValue(es) then 1 else 0, |es|, trieOffset, valueOffset, 0, dataBits, 0)
  }

  ghost function FinalHeader(es: seq<Entry>): Header
    requires Sorted(es) && Shaped(TableFor(es))
  {
    HeaderFor(es, TrieStart(es) - DATA_START, ValueStart(es) - DATA_START, |DataBits(es)|)
  }

  /** Bits that follow DATA_START as whole bytes, zero bits at the end. */
  ghost function Padded(bits: seq<bool>): (data: seq<byte>)
    ensures Unpack(data) == bits + Padding(DATA_START + |bits|)
  {
    var whole := bits + Padding(DATA_START + |bits|);
    PaddedLength(bits);
    UnpackPack(whole);
    Pack(whole)
  }

  lemma PaddedLength(bits: seq<bool>)
    ensures |bits + Padding(DATA_START + |bits|)| % 8 == 0
  {
    var n := |bits + Padding(DATA_START + |bits|)|;
    assert (DATA_START + n) % 8 == 0;
  }

  ghost function DataBytes(es: seq<Entry>): seq<byte>
    requires Sorted(es) && Shaped(TableFor(es))
  {
    Padded(DataBits(es))
  }

  ghost function WithChecksum(body: seq<byte>): seq<byte> {
    body + U32(Crc32(body))
  }

  ghost function FileOf(es: seq<Entry>): seq<byte>
    requires Sorted(es) && Shaped(TableFor(es))
  {
    WithChecksum(HeaderBytes(FinalHeader(es)) + DataBytes(es))
  }

  /** Up to 249 distinct key bytes, values of the eight types, and a stream whose bits a 64-bit
      position can count. */
  ghost predicate Writable(es: seq<Entry>)
    ensures Writable(es) ==> Sorted(es) && Shaped(TableFor(es))
  {
    && Sorted(es) && |es| < 0x1_0000_0000 && |UsedFrom(es, 0)| <= 249
    && (forall i :: 0 <= i < |es| ==> Encodable(es[i].val))
    && Shaped(TableFor(es)) && |DataBits(es)| + 1000 < 0x1_0000_0000_0000_0000
  }

  /** The two offsets that a reader goes by fit their fields. */
  ghost predicate OffsetsFit(es: seq<Entry>)
    requires Sorted(es) && Shaped(TableFor(es))
  {
    ValueStart(es) - DATA_START < 0x1_0000_0000
  }

  /** What the C encoder accepts: the whole stream is counted in 32 bits. */
  ghost predicate Representable(es: seq<Entry>)
    ensures Representable(es) ==> Sorted(es) && Shaped(TableFor(es))
  {
    && Sorted(es) && |es| < 0x1_0000_0000 && |UsedFrom(es, 0)| <= 249
    && (forall i :: 0 <= i < |es| ==> Encodable(es[i].val))
    && Shaped(TableFor(es)) && |DataBits(es)| < 0x1_0000_0000
  }

  lemma RepresentableFits(es: seq<Entry>)
    requires Representable(es)
    ensures Writable(es) && OffsetsFit(es)
  {
    hide ConfigBits, TrieBits, ValuesBits, TableOf, Sorted, Encodable;
  }

  /** What opening the file of the entries yields. */
  ghost function DictOf(es: seq<Entry>): Dict
    requires Sorted(es) && Shaped(TableFor(es))
  {
    Dict(Unpack(FileOf(es)), TableFor(es), |es|, AnyValue(es), TrieStart(es), ValueStart(es))
  }

  /** The header as its 32-bit fields hold it. */
  ghost function CutHeader(es: seq<Entry>): (h: Header)
    requires Sorted(es) && Shaped(TableFor(es))
    ensures |es| < 0x1_0000_0000 ==> Small(h)
  {
    hide TableOf, Sorted, ConfigBits, TrieBits, ValuesBits;
    HeaderFor(es, Low32(TrieStart(es) - DATA_START), Low32(ValueStart(es) - DATA_START), Low32(|DataBits(es)|))
  }

  function Low32(v: nat): (r: nat)
    ensures r < 0x1_0000_0000
  {
    v % 0x1_0000_0000
  }

  lemma Low32Bytes(v: nat)
    ensures U32(Low32(v)) == U32(v)
  {
    var q, r := v / 0x1_0000_0000, v % 0x1_0000_0000;
    LowByte3(q, r);
    LowByte2(q, r);
    LowByte1(q, r);
    LowByte0(q, r);
  }

  /** Dividing takes the high part out whole. */
  lemma LowPart(v: nat, d: nat, q: nat, r: nat)
    requires d > 0 && v == d * q + r
    ensures v / d == q + r / d
  {
    Euclid(r, d);
    Spread(d, q, r / d);
    DivUnique(v, d, q + r / d, r % d);
  }

  lemma Spread(d: nat, q: nat, x: nat)
    ensures d * q + d * x == d * (q + x)
  {
  }

  lemma LowByte(q: nat, x: nat)
    ensures (0x100 * q + x) % 0x100 == x % 0x100
  {
  }

  lemma LowByte3(q: nat, r: nat)
    ensures (0x1_0000_0000 * q + r) / 0x100_0000 % 0x100 == r / 0x100_0000 % 0x100
  {
    LowPart(0x1_0000_0000 * q + r, 0x100_0000, 0x100 * q, r);
    LowByte(q, r / 0x100_0000);
  }

  lemma LowByte2(q: nat, r: nat)
    ensures (0x1_0000_0000 * q + r) / 0x1_0000 % 0x100 == r / 0x1_0000 % 0x100
  {
    LowPart(0x1_0000_0000 * q + r, 0x1_0000, 0x1_0000 * q, r);
    LowByte(0x100 * q, r / 0x1_0000);
  }

  lemma LowByte1(q: nat, r: nat)
    ensures (0x1_0000_0000 * q + r) / 0x100 % 0x100 == r / 0x100 % 0x100
  {
    LowPart(0x1_0000_0000 * q + r, 0x100, 0x100_0000 * q, r);
    LowByte(0x1_0000 * q, r / 0x100);
  }

  lemma LowByte0(q: nat, r: nat)
    ensures (0x1_0000_0000 * q + r) % 0x100 == r % 0x100
  {
    LowByte(0x100_0000 * q, r);
  }

  lemma SameBytes(es: seq<Entry>, t: nat, v: nat, n: nat)
    ensures HeaderBytes(HeaderFor(es, t, v, n)) == HeaderBytes(HeaderFor(es, Low32(t), Low32(v), Low32(n)))
  {
    hide U32, U16, Low32, AnyValue;
    Low32Bytes(t);
    Low32Bytes(v);
    Low32Bytes(n);
  }

  /** The bytes of a header are those of the cut one. */
  lemma CutBytes(es: seq<Entry>)
    requires Sorted(es) && Shaped(TableFor(es))
    ensures HeaderBytes(FinalHeader(es)) == HeaderBytes(CutHeader(es))
  {
    hide HeaderBytes, HeaderFor, Low32, DataBits, ConfigBits, TrieBits, TableFor, Sorted;
    SameBytes(es, TrieStart(es) - DATA_START, ValueStart(es) - DATA_START, |DataBits(es)|);
  }

  /** The file, read as bits. */
  lemma FileBits(es: seq<Entry>)
    requires Writable(es)
    ensures At(Unpack(FileOf(es)), 0, HeaderBits(CutHeader(es)))
    ensures At(Unpack(FileOf(es)), DATA_START, DataBits(es))
    ensures |Unpack(FileOf(es))| < DATA_START + |DataBits(es)| + 40
  {
    hide ConfigBits, TrieBits, ValuesBits, TableOf, Sorted, Unpack, HeaderBytes, Padded, HeaderBits, U32, Crc32, DataBits, FinalHeader, CutHeader, Encodable, Pack;
    CutBytes(es);
    var h, data := HeaderBytes(CutHeader(es)), DataBytes(es);
    var crc := U32(Crc32(h + data));
    HeaderBytesBits(CutHeader(es));
    UnpackConcat(h, data);
    UnpackConcat(h + data, crc);
    var s, pad := Unpack(FileOf(es)), Padding(DATA_START + |DataBits(es)|);
    Associative(Unpack(h), Unpack(data), Unpack(crc));
    Associative(DataBits(es), pad, Unpack(crc));
    assert s == Unpack(h) + (DataBits(es) + (pad + Unpack(crc)));
    AtSplit(s, 0, Unpack(h), DataBits(es) + (pad + Unpack(crc)));
    AtSplit(s, DATA_START, DataBits(es), pad + Unpack(crc));
    assert At(s, 0, s);
  }

  /** Opening the file succeeds, checksum included, and finds trie and values where they are,
      whichever encoder wrote it. */
  lemma OpenFile(es: seq<Entry>, check: bool)
    requires Writable(es) && OffsetsFit(es)
    ensures Open(FileOf(es), check) == Ok(DictOf(es))
  {
    hide ConfigBits, TrieBits, ValuesBits, TableOf, Sorted, Unpack, HeaderBytes, DataBytes, HeaderBits, U32, Crc32, At, ReadHeader, ParseConfig;
    var s := Unpack(FileOf(es));
    FileBits(es);
    ReadHeaderAt(s, CutHeader(es));
    AtSplit(s, DATA_START, ConfigBits(TableFor(es)), TrieBits(es) + ValuesBits(es));
    AlphabetDistinct(es);
    ParseConfigAt(s, DATA_START, UsedFrom(es, 0));
    ChecksumMatches(HeaderBytes(FinalHeader(es)) + DataBytes(es));
  }

  lemma ChecksumMatches(body: seq<byte>)
    ensures var f := WithChecksum(body); f[|f| - 4..] == U32(Crc32(f[..|f| - 4])) && |f| == |body| + 4
  {
    hide U32, Crc32;
    assert WithChecksum(body)[..|body|] == body;
  }

  /** Where the trie and the values stand in the file. */
  lemma StreamParts(es: seq<Entry>)
    requires Writable(es)
    ensures var s := Unpack(FileOf(es));
            && At(s, TrieStart(es), TrieBits(es)) && At(s, ValueStart(es), ValuesBits(es))
            && ValueStart(es) <= |s| < 0x1_0000_0000_0000_0000
  {
    hide ConfigBits, TableOf, UsedFrom, Sorted, Unpack, At, FileOf, TrieBits, ValuesBits, Writable, CutHeader, HeaderBits;
    FileBits(es);
    FileShort(es);
    AtSplit3(Unpack(FileOf(es)), DATA_START, ConfigBits(TableFor(es)), TrieBits(es), ValuesBits(es));
  }

  lemma TrieHeld(sym: Symbols, es: seq<Entry>, hasValues: bool, s: seq<bool>, pos: nat)
    requires Canonical(sym) && AllCovered(sym, es) && Sorted(es) && 0 < |es| <= 0x1_0000_0000
    requires Range(es, 0, |es|, 0) && |s| < 0x1_0000_0000_0000_0000
    requires At(s, pos, RangeBits(sym, es, hasValues, 0, |es|, 0, 0))
    ensures Holds(sym, s, pos, pos + |RangeBits(sym, es, hasValues, 0, |es|, 0, 0)|, TrieOf(es, hasValues, 0, |es|, 0), 0)
  {
    hide AllCovered, Sorted, Range, TrieOf, WellFormed, Spelled, NodeBits, At;
    TrieWellFormed(es, hasValues, 0, |es|, 0);
    TrieSpelled(sym, es, hasValues, 0, |es|, 0);
    TrieCount(es, hasValues, 0, |es|, 0);
  }

  /** The opened file holds exactly the entries. */
  lemma FileEncodes(es: seq<Entry>)
    requires Writable(es)
    ensures Encodes(DictOf(es), es)
  {
    hide ConfigBits, TableOf, Sorted, Unpack, At, StoreBits, TrieOf, Canonical, AllCovered, Holds, FileOf, TrieBits, RangeBits, Encodable;
    StreamParts(es);
    AlphabetCovers(es);
    ValsEncodable(es);
    if es != [] {
      WholeTrie(es);
      TrieHeld(TableFor(es), es, AnyValue(es), Unpack(FileOf(es)), TrieStart(es));
    }
  }

  lemma WholeTrie(es: seq<Entry>)
    requires Sorted(es) && Shaped(TableFor(es)) && es != []
    ensures Range(es, 0, |es|, 0)
    ensures TrieBits(es) == RangeBits(TableFor(es), es, AnyValue(es), 0, |es|, 0, 0)
  {
    hide TableOf, Sorted, NodeBits, TrieOf;
  }

  lemma FileShort(es: seq<Entry>)
    requires Writable(es)
    ensures |DataBits(es)| + 1000 < 0x1_0000_0000_0000_0000
  {
  }

  lemma ValsEncodable(es: seq<Entry>)
    requires forall i :: 0 <= i < |es| ==> Encodable(es[i].val)
    ensures forall v :: v in Vals(es) ==> Encodable(v)
    ensures !AnyValue(es) ==> forall i :: 0 <= i < |es| ==> es[i].val == Null
  {
  }
}
