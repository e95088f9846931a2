/** Building the file: the data stream behind a placeholder header, then the header patched with
    the final offsets and the checksum over the patched bytes. */
module FileWriter {
  import opened Bits
  import opened Results
  import opened BitStream
  import opened Values
  import opened Trie
  import opened TrieBuild
  import opened TrieWriter
  import opened TrieSize
  import opened IterateAll
  import opened EntryOrder
  import opened SymbolTable
  import opened FileFormat
  import opened FileContents
  import opened Encoder

  method HasAnyValue(es: seq<Entry>) returns (any: bool)
    ensures any == AnyValue(es)
  {
    any := false;
    var i := 0;
    while i < |es|
      invariant 0 <= i <= |es| && !any
      invariant forall k :: 0 <= k < i ==> es[k].val.Null?
    {
      if !es[i].val.Null? {
        return true;
      }
      i := i + 1;
    }
  }

  /** The header before the offsets are known. */
  ghost function Placeholder(es: seq<Entry>): Header {
    HeaderFor(es, 0, 0, 0)
  }

  lemma HeaderLayout(es: seq<Entry>, t: nat, v: nat, d: nat)
    ensures var h := HeaderFor(es, t, v, d);
            var lead := MAGIC + [VERSION_MAJOR, 0] + U16(h.flags) + U32(|es|);
            |lead| == 12 && HeaderBytes(h) == lead + U32(t) + U32(v) + U32(0) + U32(d) + U32(0)
  {
    hide U16, U32;
  }

  /** Patching the four offset fields of the placeholder gives the final header. */
  lemma PatchHeader(es: seq<Entry>, rest: seq<byte>, t: nat, v: nat, d: nat)
    ensures var h := HeaderBytes(Placeholder(es)) + rest;
            HeaderBytes(HeaderFor(es, t, v, d)) + rest
            == Replace(Replace(Replace(Replace(h, 12, U32(t)), 16, U32(v)), 20, U32(0)), 24, U32(d))
  {
    hide U16, U32, HeaderBytes, Replace;
    HeaderLayout(es, 0, 0, 0);
    HeaderLayout(es, t, v, d);
    var z := U32(0);
    var lead := MAGIC + [VERSION_MAJOR, 0] + U16(HeaderFor(es, 0, 0, 0).flags) + U32(|es|);
    ReplaceField(lead, z, z + z + z + z + rest, U32(t));
    ReplaceField(lead + U32(t), z, z + z + z + rest, U32(v));
    ReplaceField(lead + U32(t) + U32(v), z, z + z + rest, z);
    ReplaceField(lead + U32(t) + U32(v) + z, z, z + rest, U32(d));
    assert HeaderBytes(Placeholder(es)) + rest == lead + z + (z + z + z + z + rest);
    assert lead + U32(t) + (z + z + z + z + rest) == lead + U32(t) + z + (z + z + z + rest);
    assert lead + U32(t) + U32(v) + (z + z + z + rest) == lead + U32(t) + U32(v) + z + (z + z + rest);
    assert lead + U32(t) + U32(v) + z + (z + z + rest) == lead + U32(t) + U32(v) + z + z + (z + rest);
  }

  lemma ReplaceField(a: seq<byte>, b: seq<byte>, c: seq<byte>, b': seq<byte>)
    requires |b| == |b'|
    ensures |a| + |b'| <= |a + b + c| && Replace(a + b + c, |a|, b') == a + b' + c
  {
    ReplaceMiddle(a, b, c, b');
  }

  /** Placeholder header, data stream, padding and a checksum, as bits and as bytes. */
  lemma RawBytes(es: seq<Entry>, bytes: seq<byte>, crc: nat)
    requires Sorted(es) && Shaped(TableFor(es)) && |es| < 0x1_0000_0000 && crc < 0x1_0000_0000
    requires var pad := Padding(DATA_START + |DataBits(es)|);
             Unpack(bytes) == HeaderBits(Placeholder(es)) + DataBits(es) + pad + BitsOf(crc, 32)
    ensures bytes == HeaderBytes(Placeholder(es)) + DataBytes(es) + U32(crc)
  {
    hide Unpack, HeaderBytes, HeaderBits, DataBits, Padded, U32, BitsOf, Encodable, TableOf, Sorted;
    var h, data := HeaderBytes(Placeholder(es)), DataBytes(es);
    HeaderBytesBits(Placeholder(es));
    U32Bits(crc);
    UnpackConcat(h, data);
    UnpackConcat(h + data, U32(crc));
    Associative(Unpack(h), DataBits(es), Padding(DATA_START + |DataBits(es)|));
    UnpackInjective(bytes, h + data + U32(crc));
  }

  /** Alignment and a first checksum, over a header still without offsets. */
  method Detach(w: BitWriter, ghost es: seq<Entry>) returns (bytes: seq<byte>, first: nat)
    requires w.Valid() && Sorted(es) && Shaped(TableFor(es)) && |es| < 0x1_0000_0000
    requires w.Contents() == HeaderBits(Placeholder(es)) + DataBits(es)
    modifies w, w.buf
    ensures bytes == HeaderBytes(Placeholder(es)) + DataBytes(es) + U32(first)
  {
    hide Unpack, HeaderBytes, HeaderBits, DataBits, Padded, U32, BitsOf, Representable, TableOf, Sorted, Crc32;
    PlaceholderSize(es);
    w.AlignToByte();
    first := Crc32Of(w.buf[..w.pos / 8]);
    var _ := w.WriteBits(first, 32);
    NoPadding(w.pos);
    assert w.pos % 8 == 0;
    bytes := w.DetachBuffer();
    RawBytes(es, bytes, first);
  }

  lemma PlaceholderSize(es: seq<Entry>)
    ensures |HeaderBits(Placeholder(es))| == DATA_START
  {
    FieldsSizes(Placeholder(es));
  }

  /** The four offsets patched into the detached bytes. */
  method PatchOffsets(out: array<byte>, ghost es: seq<Entry>, ghost rest: seq<byte>, trieOffset: nat, valueOffset: nat, dataBits: nat)
    requires out[..] == HeaderBytes(Placeholder(es)) + rest
    modifies out
    ensures out[..] == HeaderBytes(HeaderFor(es, trieOffset, valueOffset, dataBits)) + rest
  {
    hide HeaderBytes, U32, Replace;
    PutU32(out, 12, trieOffset);
    PutU32(out, 16, valueOffset);
    PutU32(out, 20, 0);
    PutU32(out, 24, dataBits);
    PatchHeader(es, rest, trieOffset, valueOffset, dataBits);
  }

  /** The checksum over everything but the last four bytes, put there. */
  method PutChecksum(out: array<byte>, ghost body: seq<byte>, ghost last: seq<byte>)
    requires out[..] == body + last && |last| == 4
    modifies out
    ensures out[..] == WithChecksum(body)
  {
    hide U32, Replace, Crc32;
    var n := out.Length - 4;
    assert out[..n] == out[..][..n] == body;
    var crc := Crc32Of(out[..n]);
    PutU32(out, n, crc);
    assert body + last == body + last + [] && body + U32(crc) + [] == body + U32(crc);
    ReplaceMiddle(body, last, [], U32(crc));
  }

  /** The end of a build: the detached bytes with the offsets patched in and the real checksum. */
  method Finish(w: BitWriter, ghost es: seq<Entry>, trieOffset: nat, valueOffset: nat, dataBits: nat)
    returns (file: seq<byte>)
    requires w.Valid() && Sorted(es) && Shaped(TableFor(es)) && |es| < 0x1_0000_0000
    requires w.Contents() == HeaderBits(Placeholder(es)) + DataBits(es)
    requires FinalHeader(es) == HeaderFor(es, trieOffset, valueOffset, dataBits)
    modifies w, w.buf
    ensures file == FileOf(es)
  {
    hide Unpack, HeaderBytes, HeaderBits, DataBits, DataBytes, U32, BitsOf, Representable, TableOf, Sorted, FinalHeader, WithChecksum;
    var bytes, first := Detach(w, es);
    var out := new byte[|bytes|](i requires 0 <= i < |bytes| => bytes[i]);
    Associative3(HeaderBytes(Placeholder(es)), DataBytes(es), U32(first));
    assert out[..] == bytes;
    PatchOffsets(out, es, DataBytes(es) + U32(first), trieOffset, valueOffset, dataBits);
    Associative3(HeaderBytes(FinalHeader(es)), DataBytes(es), U32(first));
    PutChecksum(out, HeaderBytes(FinalHeader(es)) + DataBytes(es), U32(first));
    return out[..];
  }

  lemma Associative3(a: seq<byte>, b: seq<byte>, c: seq<byte>)
    ensures a + b + c == a + (b + c)
  {
  }

  lemma NoPadding(pos: nat)
    ensures pos % 8 == 0 ==> Padding(pos) == []
  {
  }

  /** What building from sorted, distinct entries comes to, errors in the order they are met. */
  ghost function BuildResult(es: seq<Entry>): Result<seq<byte>>
    requires Sorted(es)
  {
    if |UsedFrom(es, 0)| > MAX_ALPHABET_SIZE then Err(Alphabet)
    else
      AlphabetCovers(es);
      if !AllStorable(es) then Err(InvalidParam)
      else if |DataBits(es)| > 0xFFFF_FFFF then Err(Overflow)
      else Ok(FileOf(es))
  }

  lemma {:induction false} KeyBytesShift(s: seq<Entry>, i: nat)
    requires 1 <= i <= |s|
    ensures KeyBytes(s, i, |s|, 0) == KeyBytes(s[1..], i - 1, |s| - 1, 0)
    decreases |s| - i
  {
    if i < |s| {
      KeyBytesShift(s, i + 1);
    }
  }

  lemma {:induction false} KeyBytesKept(s: seq<Entry>)
    ensures KeyBytes(KeepLast(s), 0, |KeepLast(s)|, 0) <= KeyBytes(s, 0, |s|, 0)
  {
    if |s| > 1 {
      KeyBytesKept(s[1..]);
      KeyBytesShift(s, 1);
      if s[0].key != s[1].key {
        var kept := [s[0]] + KeepLast(s[1..]);
        KeyBytesShift(kept, 1);
        assert kept[1..] == KeepLast(s[1..]);
      }
    }
  }

  lemma {:induction false} KeptFrom(s: seq<Entry>)
    ensures forall e :: e in KeepLast(s) ==> e in s
  {
    if |s| > 1 {
      KeptFrom(s[1..]);
    }
  }

  /** The trie of all entries, if there are any. */
  method WriteTrie(w: BitWriter, sym: Symbols, es: seq<Entry>, hasValues: bool)
    requires w.Valid() && sym == TableFor(es) && Shaped(sym) && Sorted(es) && hasValues == AnyValue(es)
    requires |es| < 0x1_0000_0000 && KeyBytes(es, 0, |es|, 0) <= MAX_KEY_BYTES
    modifies w, w.buf
    ensures w.Valid() && (w.buf == old(w.buf) || fresh(w.buf))
    ensures w.Contents() == old(w.Contents()) + TrieBits(es)
  {
    hide RangeBits, TableOf, Sorted;
    if |es| > 0 {
      TrieFits(sym, es, hasValues);
      var _ := TrieWrite(w, sym, es, hasValues, 0, |es|, 0, 0);
    }
  }

  /** The values, if one of them is worth storing. */
  method WriteStore(w: BitWriter, es: seq<Entry>, hasValues: bool) returns (r: Result<()>)
    requires w.Valid() && Sorted(es) && Shaped(TableFor(es)) && hasValues == AnyValue(es) && w.pos == ValueStart(es)
    modifies w, w.buf
    ensures w.Valid() && (w.buf == old(w.buf) || fresh(w.buf))
    ensures r == if !AllStorable(es) then Err(InvalidParam) else Ok(())
    ensures r.Ok? ==> w.Contents() == old(w.Contents()) + ValuesBits(es)
  {
    hide StoreBits, TableOf, Sorted, TrieBits;
    r := Ok(());
    if hasValues {
      r := WriteValues(w, es);
    } else {
      assert AllStorable(es);
    }
  }

  lemma StreamJoined(es: seq<Entry>)
    requires Sorted(es) && Shaped(TableFor(es))
    ensures var h := HeaderBits(Placeholder(es));
            && |h| == DATA_START
            && ((h + ConfigBits(TableFor(es))) + TrieBits(es)) + ValuesBits(es) == h + DataBits(es)
            && |h + ConfigBits(TableFor(es))| == TrieStart(es)
            && |(h + ConfigBits(TableFor(es))) + TrieBits(es)| == ValueStart(es)
            && |h + DataBits(es)| == DATA_START + |DataBits(es)|
  {
    hide HeaderBits, ConfigBits, TrieBits, ValuesBits, TableOf, Sorted;
    PlaceholderSize(es);
    var h := HeaderBits(Placeholder(es));
    Associative(h, ConfigBits(TableFor(es)), TrieBits(es));
    Associative(h, ConfigBits(TableFor(es)) + TrieBits(es), ValuesBits(es));
    Associative(ConfigBits(TableFor(es)), TrieBits(es), ValuesBits(es));
  }

  lemma AllEncodable(es: seq<Entry>)
    requires forall e :: e in es ==> Typed(e.val)
    requires AllStorable(es)
    ensures forall i :: 0 <= i < |es| ==> Encodable(es[i].val)
  {
    forall i | 0 <= i < |es| ensures Encodable(es[i].val) {
      assert es[i] in es;
    }
  }

  /** The header placeholder and the data stream, and the offsets in it. */
  method WriteStream(w: BitWriter, es: seq<Entry>, sym: Symbols, hasValues: bool)
    returns (r: Result<()>, trieOffset: nat, valueOffset: nat, total: nat)
    requires w.Valid() && w.Contents() == []
    requires sym == TableFor(es) && Shaped(sym) && Sorted(es) && hasValues == AnyValue(es)
    requires |es| < 0x1_0000_0000 && KeyBytes(es, 0, |es|, 0) <= MAX_KEY_BYTES
    modifies w, w.buf
    ensures w.Valid() && (w.buf == old(w.buf) || fresh(w.buf))
    ensures r == if !AllStorable(es) then Err(InvalidParam) else Ok(())
    ensures r.Ok? ==>
              && w.Contents() == HeaderBits(Placeholder(es)) + DataBits(es)
              && trieOffset == TrieStart(es) - DATA_START && valueOffset == ValueStart(es) - DATA_START && total == |DataBits(es)|
  {
    hide HeaderBits, ConfigBits, TrieBits, ValuesBits, TableOf, Sorted, AllStorable, DataBits;
    StreamJoined(es);
    WriteHeader(w, Header(0, if hasValues then 1 else 0, |es|, 0, 0, 0, 0, 0));
    EmptyFirst(HeaderBits(Placeholder(es)));
    var dataStart := w.pos;
    WriteConfig(w, sym);
    trieOffset := w.pos - dataStart;
    WriteTrie(w, sym, es, hasValues);
    valueOffset := w.pos - dataStart;
    r := WriteStore(w, es, hasValues);
    total := if r.Ok? then w.pos - dataStart else 0;
  }

  /** Everything after sorting and deduplication. */
  method BuildFile(es: seq<Entry>) returns (r: Result<seq<byte>>)
    requires Sorted(es) && |es| < 0x1_0000_0000 && KeyBytes(es, 0, |es|, 0) <= MAX_KEY_BYTES
    requires forall e :: e in es ==> Typed(e.val)
    ensures r == BuildResult(es)
  {
    hide HeaderBits, ConfigBits, TrieBits, ValuesBits, TableOf, Sorted, FileOf, AllStorable, Typed, DataBits, Canonical, AllCovered;
    var hasValues := HasAnyValue(es);
    var sym := AnalyzeSymbols(es);
    TableCount(es);
    if sym.count > 255 {
      return Err(Alphabet);
    }
    AlphabetCovers(es);
    CanonicalShaped(sym);
    var w := new BitWriter(256, 0);
    var written, trieOffset, valueOffset, total := WriteStream(w, es, sym, hasValues);
    if written.Err? {
      return Err(written.error);
    }
    if total > 0xFFFF_FFFF || trieOffset > 0xFFFF_FFFF || valueOffset > 0xFFFF_FFFF {
      OffsetsBelow(es);
      return Err(Overflow);
    }
    AllEncodable(es);
    var file := Finish(w, es, trieOffset, valueOffset, total);
    return Ok(file);
  }

  lemma EmptyFirst(s: seq<bool>)
    ensures [] + s == s
  {
  }

  lemma CanonicalShaped(sym: Symbols)
    requires Canonical(sym)
    ensures Shaped(sym)
  {
  }

  lemma TableCount(es: seq<Entry>)
    ensures TableFor(es).count == |UsedFrom(es, 0)| + NUM_CONTROL_CODES
  {
    hide UsedFrom, AssignAll;
  }

  lemma OffsetsBelow(es: seq<Entry>)
    requires Sorted(es) && Shaped(TableFor(es))
    ensures TrieStart(es) - DATA_START <= |DataBits(es)| && ValueStart(es) - DATA_START <= |DataBits(es)|
  {
    hide ConfigBits, TrieBits, ValuesBits, TableOf, Sorted;
  }

  /** Building: sort, deduplicate, encode. The array is left sorted and without duplicates. */
  method Build(enc: Encoder, outcome: seq<Entry>) returns (r: Result<seq<byte>>)
    requires enc.Valid() && Ordered(outcome) && multiset(outcome) == multiset(enc.Added())
    requires |outcome| < 0x1_0000_0000 && KeyBytes(outcome, 0, |outcome|, 0) <= MAX_KEY_BYTES
    requires forall e :: e in outcome ==> Typed(e.val)
    modifies enc, enc.entries
    ensures enc.Valid() && enc.Added() == KeepLast(outcome)
    ensures Sorted(KeepLast(outcome)) && r == BuildResult(KeepLast(outcome))
  {
    hide KeepLast, Ordered, Sorted, BuildResult;
    enc.SortEntries(outcome);
    enc.DedupEntries();
    KeepLastSorted(outcome);
    KeyBytesKept(outcome);
    KeptFrom(outcome);
    r := BuildFile(enc.entries[..enc.count]);
  }
}
