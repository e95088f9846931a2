/** Decoding a file into a map the way the bindings do it: collect the keys depth first, then
    match values to keys by sorting the keys. It inverts encoding. */
module BindingDecoder {
  import opened Bits
  import opened Results
  import opened Varint
  import opened BitStream
  import opened Keys
  import opened KeySets
  import opened Values
  import opened Trie
  import opened TrieBuild
  import opened Dictionary
  import opened IterateAll
  import opened DepthFirst
  import opened EntryOrder
  import opened SymbolTable
  import opened FileFormat
  import opened FileContents

  /** Tags past the known ones are errors here. */
  function ReadKnownValue(s: seq<bool>, pos: nat): Result<(Value, nat)> {
    var v :- ReadValue(s, pos);
    if v.0.Reserved? then Err(InvalidParam) else Ok(v)
  }

  /** The values from pos on, one a key in the order given. */
  function Refill(s: seq<bool>, pos: nat, ks: seq<Key>, m: map<Key, Value>): Result<map<Key, Value>>
    decreases |ks|
  {
    if ks == [] then Ok(m) else
      var v :- ReadKnownValue(s, pos);
      Refill(s, v.1, ks[1..], m[ks[0] := v.0])
  }

  function NullMap(ks: seq<Key>): map<Key, Value> {
    map k | k in ks :: Null
  }

  /** A big-endian field of the header. */
  function Field32(buf: seq<byte>, at: nat): (v: nat)
    requires at + 4 <= |buf|
    ensures v < 0x1_0000_0000
  {
    (((buf[at] as int * 0x100) + buf[at + 1]) * 0x100 + buf[at + 2]) * 0x100 + buf[at + 3]
  }

  /** Big-endian flags. */
  function Field16(buf: seq<byte>, at: nat): nat
    requires at + 2 <= |buf|
  {
    buf[at] as int * 0x100 + buf[at + 1]
  }

  /** The trie and the values of a buffer whose header and checksum are in order. */
  ghost function DecodeStream(s: seq<bool>, hasValues: bool, trieStart: nat, valueStart: nat): Result<map<Key, Value>> {
    var sym :- ParseConfig(s, DATA_START);
    var walked :- DfsWalk(sym, s, trieStart, valueStart, []);
    var m := NullMap(walked.keys);
    if hasValues then Refill(s, valueStart, SortedKeys(m.Keys), m) else Ok(m)
  }

  ghost function DecodeMap(buf: seq<byte>): Result<map<Key, Value>> {
    if |buf| < HEADER_SIZE + 4 then Err(Truncated)
    else if buf[..4] != MAGIC then Err(BadMagic)
    else if buf[4] != VERSION_MAJOR then Err(Version)
    else if buf[|buf| - 4..] != U32(Crc32(buf[..|buf| - 4])) then Err(Corrupt)
    else if Field32(buf, 8) == 0 then Ok(map[])
    else DecodeStream(Unpack(buf), HasValues(Field16(buf, 6)), DATA_START + Field32(buf, 12), DATA_START + Field32(buf, 16))
  }

  function KeysOf(es: seq<Entry>): (ks: seq<Key>)
    ensures |ks| == |es|
  {
    seq(|es|, i requires 0 <= i < |es| => es[i].key)
  }

  /** The keys a walk collects need not come sorted for this: sorting them lines them up with the
      values again. */
  lemma {:induction false} RefillAt(s: seq<bool>, pos: nat, es: seq<Entry>, m: map<Key, Value>)
    requires forall i :: 0 <= i < |es| ==> Encodable(es[i].val)
    requires At(s, pos, StoreBits(Vals(es), pos))
    ensures Refill(s, pos, KeysOf(es), m) == Ok(m + AsMap(es))
    decreases |es|
  {
    hide ReadValue, ValueBits, At, Encodable, AsMap;
    if es != [] {
      var e, rest := es[0], es[1..];
      assert Vals(es)[1..] == Vals(rest) && KeysOf(es)[1..] == KeysOf(rest);
      var first := ValueBits(e.val, pos);
      AtSplit(s, pos, first, StoreBits(Vals(rest), pos + |first|));
      ReadValueAt(s, pos, e.val);
      KnownValue(e.val);
      RefillAt(s, pos + |first|, rest, m[e.key := e.val]);
      assert es == [e] + rest;
      AsMapFront(e, rest);
      MapShift(m, e.key, e.val, AsMap(rest));
    } else {
      EmptyMap(es);
      assert m + map[] == m;
    }
  }

  lemma EmptyMap(es: seq<Entry>)
    requires es == []
    ensures AsMap(es) == map[]
  {
  }

  lemma KnownValue(v: Value)
    requires Encodable(v)
    ensures !v.Reserved?
  {
  }

  lemma MapShift(m: map<Key, Value>, k: Key, v: Value, rest: map<Key, Value>)
    ensures m[k := v] + rest == m + (map[k := v] + rest)
  {
  }

  lemma FieldOf(buf: seq<byte>, at: nat, v: nat)
    requires at + 4 <= |buf| && buf[at..at + 4] == U32(v) && v < 0x1_0000_0000
    ensures Field32(buf, at) == v
  {
    assert buf[at] == U32(v)[0] && buf[at + 1] == U32(v)[1] && buf[at + 2] == U32(v)[2] && buf[at + 3] == U32(v)[3];
    Reassemble(v);
  }

  lemma Reassemble(v: nat)
    requires v < 0x1_0000_0000
    ensures (((v / 0x100_0000 % 0x100) * 0x100 + v / 0x1_0000 % 0x100) * 0x100 + v / 0x100 % 0x100) * 0x100 + v % 0x100 == v
  {
    var q := v / 0x100;
    var p := q / 0x100;
    Digits(v, p / 0x100, p % 0x100, q % 0x100, v % 0x100);
  }

  /** Where the header keeps its fields. */
  lemma HeaderFields(h: Header, rest: seq<byte>)
    requires Small(h)
    ensures var f := HeaderBytes(h) + rest;
            && f[..4] == MAGIC && f[4] == VERSION_MAJOR && Field16(f, 6) == h.flags
            && Field32(f, 8) == h.numKeys && Field32(f, 12) == h.trieOffset && Field32(f, 16) == h.valueOffset
  {
    hide U32, Field32;
    var f := HeaderBytes(h) + rest;
    assert f[8..12] == U32(h.numKeys) && f[12..16] == U32(h.trieOffset) && f[16..20] == U32(h.valueOffset);
    FieldOf(f, 8, h.numKeys);
    FieldOf(f, 12, h.trieOffset);
    FieldOf(f, 16, h.valueOffset);
    assert f[6] == U16(h.flags)[0] && f[7] == U16(h.flags)[1];
  }

  lemma NullMapOf(es: seq<Entry>)
    requires Sorted(es)
    ensures NullMap(KeysOf(es)).Keys == AsMap(es).Keys
    ensures (forall i :: 0 <= i < |es| ==> es[i].val == Null) ==> NullMap(KeysOf(es)) == AsMap(es)
  {
    hide AsMap, Sorted;
    var m := NullMap(KeysOf(es));
    SortedMap(es, []);
    forall k: Key ensures k in m <==> k in AsMap(es) {
      KeyInMap(es, k);
    }
  }

  lemma KeyInMap(es: seq<Entry>, k: Key)
    requires Sorted(es)
    ensures k in NullMap(KeysOf(es)) <==> k in AsMap(es)
  {
    hide AsMap, Sorted;
    SortedMap(es, k);
    if k in AsMap(es) {
      var i :| 0 <= i < |es| && es[i].key == k;
      assert KeysOf(es)[i] == k;
    }
  }

  lemma SortedKeysOf(es: seq<Entry>)
    requires Sorted(es)
    ensures SortedKeys(NullMap(KeysOf(es)).Keys) == KeysOf(es)
  {
    AscendingUnique(SortedKeys(NullMap(KeysOf(es)).Keys), KeysOf(es));
  }

  lemma NullMapAbsorbed(es: seq<Entry>)
    requires Sorted(es)
    ensures NullMap(KeysOf(es)) + AsMap(es) == AsMap(es)
  {
    NullMapOf(es);
    assert (NullMap(KeysOf(es)) + AsMap(es)).Keys == AsMap(es).Keys;
  }

  /** The depth-first walk over a file collects the keys of its entries. */
  lemma WalkFile(es: seq<Entry>)
    requires Writable(es) && es != []
    ensures DfsWalk(TableFor(es), Unpack(FileOf(es)), TrieStart(es), ValueStart(es), []) == Ok(Walked(KeysOf(es), ValueStart(es)))
  {
    hide TableOf, Sorted, Unpack, FileOf, TrieOf, Holds, DfsWalk, Items, Writable, Encodes;
    var hasValues := AnyValue(es);
    FileEncodes(es);
    EncodedHeld(es);
    var t := TrieOf(es, hasValues, 0, |es|, 0);
    DfsNode(TableFor(es), Unpack(FileOf(es)), TrieStart(es), ValueStart(es), [], t, 0);
    TrieItems(es, hasValues, 0, |es|, 0, 0);
    assert es[0].key[..0] == [];
    ExpectedKeys(es, hasValues);
  }

  lemma EncodedHeld(es: seq<Entry>)
    requires Sorted(es) && Shaped(TableFor(es)) && Encodes(DictOf(es), es) && es != []
    ensures Range(es, 0, |es|, 0)
    ensures Holds(TableFor(es), Unpack(FileOf(es)), TrieStart(es), ValueStart(es), TrieOf(es, AnyValue(es), 0, |es|, 0), 0)
  {
    hide TableOf, TableFor, Sorted, Unpack, FileOf, TrieOf, Holds, StoreBits, At, Canonical, TrieBits, TrieStart, ValueStart, AnyValue, Vals, Encodable;
  }

  lemma ExpectedKeys(es: seq<Entry>, hasValues: bool)
    ensures ItemKeys(Expected(es, hasValues, 0, |es|, 0)) == KeysOf(es)
  {
  }

  lemma DecodeStreamOf(es: seq<Entry>)
    requires Writable(es) && es != []
    ensures DecodeStream(Unpack(FileOf(es)), AnyValue(es), TrieStart(es), ValueStart(es)) == Ok(AsMap(es))
  {
    hide TableOf, Sorted, Unpack, FileOf, DfsWalk, StoreBits, At, ParseConfig, Encodable, ConfigBits, TrieBits;
    var s := Unpack(FileOf(es));
    StreamParts(es);
    ParseFile(es);
    WalkFile(es);
    if AnyValue(es) {
      SortedKeysOf(es);
      RefillAt(s, ValueStart(es), es, NullMap(KeysOf(es)));
      NullMapAbsorbed(es);
    } else {
      ValsEncodable(es);
      NullMapOf(es);
    }
  }

  lemma ParseFile(es: seq<Entry>)
    requires Writable(es)
    ensures ParseConfig(Unpack(FileOf(es)), DATA_START) == Ok(TableFor(es))
  {
    hide TableOf, Sorted, Unpack, FileOf, At, ParseConfig, Encodable, ConfigBits, TrieBits, ValuesBits;
    FileBits(es);
    AtSplit(Unpack(FileOf(es)), DATA_START, ConfigBits(TableFor(es)), TrieBits(es) + ValuesBits(es));
    AlphabetDistinct(es);
    ParseConfigAt(Unpack(FileOf(es)), DATA_START, UsedFrom(es, 0));
  }

  ghost predicate InOrder(buf: seq<byte>, numKeys: nat, hasValues: bool, trieStart: nat, valueStart: nat) {
    && |buf| >= HEADER_SIZE + 4 && buf[..4] == MAGIC && buf[4] == VERSION_MAJOR
    && buf[|buf| - 4..] == U32(Crc32(buf[..|buf| - 4]))
    && Field32(buf, 8) == numKeys && HasValues(Field16(buf, 6)) == hasValues
    && DATA_START + Field32(buf, 12) == trieStart && DATA_START + Field32(buf, 16) == valueStart
  }

  lemma DecodeInOrder(buf: seq<byte>, numKeys: nat, hasValues: bool, trieStart: nat, valueStart: nat)
    requires InOrder(buf, numKeys, hasValues, trieStart, valueStart)
    ensures DecodeMap(buf) == if numKeys == 0 then Ok(map[]) else DecodeStream(Unpack(buf), hasValues, trieStart, valueStart)
  {
    hide U32, Crc32, Field32, Field16, DecodeStream, Unpack;
  }

  /** What the decoder checks at byte level holds behind every header with a checksum at the end. */
  lemma HeaderInOrder(h: Header, data: seq<byte>)
    requires Small(h)
    ensures InOrder(WithChecksum(HeaderBytes(h) + data), h.numKeys, HasValues(h.flags), DATA_START + h.trieOffset, DATA_START + h.valueOffset)
  {
    hide U32, Crc32, HeaderBytes, Field32, Field16;
    var crc := U32(Crc32(HeaderBytes(h) + data));
    Associative8(HeaderBytes(h), data, crc);
    HeaderFields(h, data + crc);
    ChecksumMatches(HeaderBytes(h) + data);
    HeaderLength(h);
  }

  lemma HeaderLength(h: Header)
    ensures |HeaderBytes(h)| == HEADER_SIZE
  {
  }

  /** In a file the offsets are as cut. */
  lemma FileHeader(es: seq<Entry>)
    requires Writable(es)
    ensures var h := CutHeader(es);
            InOrder(FileOf(es), |es|, AnyValue(es), DATA_START + h.trieOffset, DATA_START + h.valueOffset)
  {
    hide TableOf, Sorted, HeaderBytes, DataBytes, ConfigBits, TrieBits, Writable, DataBits, Low32, InOrder, WithChecksum;
    CutBytes(es);
    FewEntries(es);
    HeaderInOrder(CutHeader(es), DataBytes(es));
  }

  lemma FewEntries(es: seq<Entry>)
    requires Writable(es)
    ensures |es| < 0x1_0000_0000
  {
  }

  lemma Associative8(a: seq<byte>, b: seq<byte>, c: seq<byte>)
    ensures a + b + c == a + (b + c)
  {
  }

  lemma {:induction false} TableShort(sym: Symbols, code: nat)
    requires |sym.byteOf| == 256
    ensures |TableBits(sym, code)| <= 16 * (if code < sym.count then sym.count - code else 0)
    decreases sym.count - code
  {
    if code < sym.count {
      ByteShort(if code < 256 then sym.byteOf[code] else 0);
      TableShort(sym, code + 1);
    }
  }

  lemma ByteShort(b: byte)
    ensures |Varint.Varint(b)| <= 16
  {
    assert |Varint.Varint(b / 128)| == 8;
  }

  /** The trie always starts early enough for its field. */
  lemma TrieStartFits(es: seq<Entry>)
    requires Writable(es)
    ensures DATA_START <= TrieStart(es) < DATA_START + 10000
    ensures es == [] ==> ValueStart(es) == TrieStart(es)
  {
    hide Writable, TableOf, Sorted, ConfigBits, TrieBits;
    WritableSorted(es);
    TableCounts(es);
    ConfigShort(TableFor(es));
    if es == [] {
      assert TrieBits(es) == [] by { NoTrie(es); }
    }
  }

  lemma WritableSorted(es: seq<Entry>)
    requires Writable(es)
    ensures Sorted(es) && Shaped(TableFor(es))
  {
    hide TableOf, Sorted, DataBits, Encodable;
  }

  lemma NoTrie(es: seq<Entry>)
    requires Sorted(es) && Shaped(TableFor(es)) && es == []
    ensures TrieBits(es) == []
  {
    hide TableOf, Sorted;
  }

  lemma ConfigShort(sym: Symbols)
    requires Shaped(sym) && sym.count <= 255
    ensures |ConfigBits(sym)| < 10000
  {
    hide BitsOf, CtrlBits, TableBits;
    CtrlSize(sym.bps, sym.ctrl);
    TableShort(sym, NUM_CONTROL_CODES);
  }

  lemma TableCounts(es: seq<Entry>)
    requires Writable(es)
    ensures TableFor(es).count <= 255 && |TableFor(es).ctrl| == NUM_CONTROL_CODES && TableFor(es).bps <= 8
  {
    hide Sorted, DataBits, Encodable;
  }

  /** Refilling changes values only. */
  lemma {:induction false} RefillKeys(s: seq<bool>, pos: nat, ks: seq<Key>, m: map<Key, Value>)
    requires forall k :: k in ks ==> k in m
    ensures var r := Refill(s, pos, ks, m); r.Ok? ==> r.value.Keys == m.Keys
    decreases |ks|
  {
    hide ReadKnownValue;
    if ks != [] && ReadKnownValue(s, pos).Ok? {
      assert ks[0] in ks && forall k :: k in ks[1..] ==> k in ks;
      var v := ReadKnownValue(s, pos).value;
      RefillKeys(s, v.1, ks[1..], m[ks[0] := v.0]);
      assert m[ks[0] := v.0].Keys == m.Keys;
    }
  }

  /** With the end of the trie cut to 32 bits the walk never gets to the last key. */
  lemma WalkCut(es: seq<Entry>, stop: nat) returns (w: Walked)
    requires Writable(es) && es != [] && stop + 100 <= ValueStart(es)
    ensures DfsWalk(TableFor(es), Unpack(FileOf(es)), TrieStart(es), stop, []) == Ok(w) && w.keys < KeysOf(es)
  {
    hide TableOf, Sorted, Unpack, FileOf, TrieOf, Holds, DfsWalk, Items, Writable, Encodes;
    var hasValues := AnyValue(es);
    FileEncodes(es);
    EncodedHeld(es);
    var t := TrieOf(es, hasValues, 0, |es|, 0);
    w := DfsShort(TableFor(es), Unpack(FileOf(es)), TrieStart(es), ValueStart(es), stop, [], t, 0);
    TrieItems(es, hasValues, 0, |es|, 0, 0);
    assert es[0].key[..0] == [];
    ExpectedKeys(es, hasValues);
  }

  lemma LastKeyMissing(es: seq<Entry>, ks: seq<Key>)
    requires Sorted(es) && es != [] && ks < KeysOf(es)
    ensures var last := es[|es| - 1].key; last !in ks && last in AsMap(es)
  {
    hide AsMap;
    var last := es[|es| - 1].key;
    SortedMap(es, last);
    forall i | 0 <= i < |ks| ensures ks[i] != last {
      assert ks[i] == KeysOf(es)[i] == es[i].key;
      LessIrreflexive(last);
    }
  }

  lemma DecodeStreamCut(es: seq<Entry>, stop: nat)
    requires Writable(es) && es != [] && stop + 100 <= ValueStart(es)
    ensures DecodeStream(Unpack(FileOf(es)), AnyValue(es), TrieStart(es), stop) != Ok(AsMap(es))
  {
    hide TableOf, Sorted, Unpack, FileOf, DfsWalk, ParseConfig, Writable, ConfigBits, TrieBits, AsMap, Refill;
    var s := Unpack(FileOf(es));
    ParseFile(es);
    var w := WalkCut(es, stop);
    LastKeyMissing(es, w.keys);
    var m := NullMap(w.keys);
    RefillKeys(s, stop, SortedKeys(m.Keys), m);
    assert es[|es| - 1].key !in m.Keys;
  }

  /** The trie offset is never cut, the value offset loses at least 2^32. */
  lemma CutOffsets(es: seq<Entry>)
    requires Writable(es)
    ensures var h := CutHeader(es);
            && DATA_START + h.trieOffset == TrieStart(es)
            && (OffsetsFit(es) ==> DATA_START + h.valueOffset == ValueStart(es))
            && (!OffsetsFit(es) ==> es != [] && DATA_START + h.valueOffset + 100 <= ValueStart(es))
  {
    hide TableOf, Sorted, DataBits, Encodable, ConfigBits, TrieBits, UsedFrom;
    TrieStartFits(es);
  }

  /** Decoding inverts encoding, however deep the trie and however long the value store, if and
      only if configuration and trie together take less than 2^32 bits. */
  lemma DecodeFile(es: seq<Entry>)
    requires Writable(es)
    ensures DecodeMap(FileOf(es)) == Ok(AsMap(es)) <==> OffsetsFit(es)
  {
    hide TableOf, Sorted, DecodeStream, FileOf, Writable, OffsetsFit, TrieStart, ValueStart, AnyValue, InOrder, DecodeMap, AsMap, CutHeader, UsedFrom, Encodable;
    var h := CutHeader(es);
    FileHeader(es);
    DecodeInOrder(FileOf(es), |es|, AnyValue(es), DATA_START + h.trieOffset, DATA_START + h.valueOffset);
    CutOffsets(es);
    if es == [] {
      EmptyMap(es);
    } else if OffsetsFit(es) {
      DecodeStreamOf(es);
    } else {
      DecodeStreamCut(es, DATA_START + h.valueOffset);
    }
  }

  /** Every map is the map of a strictly sorted entry list, which is what the encoder starts from. */
  ghost function EntriesOf(m: map<Key, Value>): (es: seq<Entry>)
    ensures Sorted(es) && AsMap(es) == m
  {
    var ks := SortedKeys(m.Keys);
    var es := seq(|ks|, i requires 0 <= i < |ks| => Entry(ks[i], m[ks[i]]));
    EntriesMap(es, m, ks);
    es
  }

  lemma EntriesMap(es: seq<Entry>, m: map<Key, Value>, ks: seq<Key>)
    requires KeysAscend(ks) && (forall k :: k in ks <==> k in m.Keys)
    requires |es| == |ks| && forall i :: 0 <= i < |ks| ==> ks[i] in ks && es[i] == Entry(ks[i], m[ks[i]])
    ensures Sorted(es) && AsMap(es) == m
  {
    forall k: Key
      ensures (k in AsMap(es) <==> k in m) && (k in m ==> AsMap(es)[k] == m[k])
    {
      SortedMap(es, k);
      if k in m {
        var i :| 0 <= i < |ks| && ks[i] == k;
        assert es[i].key == k;
      }
    }
  }

  /** decode(encode(m)) == m, exactly when the offsets fit their fields. */
  lemma DecodeInvertsEncode(m: map<Key, Value>)
    requires Writable(EntriesOf(m))
    ensures DecodeMap(FileOf(EntriesOf(m))) == Ok(m) <==> OffsetsFit(EntriesOf(m))
  {
    hide Writable, DecodeMap, FileOf, TableOf;
    DecodeFile(EntriesOf(m));
  }
}
