/** Encoding a map the way the bindings do it: the child ranges of a node are listed first, then
    sized and written one by one. The file is the one the C encoder builds. */
module BindingEncoder {
  import opened Bits
  import opened Results
  import opened Varint
  import opened BitStream
  import opened Keys
  import opened KeySets
  import opened Values
  import opened Trie
  import opened TrieBuild
  import opened TrieWriter
  import opened TrieSize
  import opened Dictionary
  import opened EntryOrder
  import opened SymbolTable
  import opened FileFormat
  import opened FileContents
  import opened Encoder
  import opened FileWriter
  import opened BindingDecoder
  import opened MapDecoder

  /** The groups of entries that share byte n, from entry cs on. */
  function ChildRanges(es: seq<Entry>, lo: nat, hi: nat, cs: nat, n: nat): seq<(nat, nat)>
    requires Splits(es, lo, hi, n) && KidsStart(es, lo, n) <= cs <= hi
    decreases hi - cs
  {
    if cs == hi then [] else
      GroupIsSmaller(es, lo, hi, cs, n);
      var ce := ChildEnd(es, cs, hi, n);
      [(cs, ce)] + ChildRanges(es, lo, hi, ce, n)
  }

  lemma {:induction false} RangeCount(es: seq<Entry>, hasValues: bool, lo: nat, hi: nat, cs: nat, n: nat)
    requires Splits(es, lo, hi, n) && KidsStart(es, lo, n) <= cs <= hi
    ensures |ChildRanges(es, lo, hi, cs, n)| == Len(KidsOf(es, hasValues, lo, hi, cs, n)) <= hi - cs
    decreases hi - cs
  {
    hide TrieOf, Sorted, AllShare, ChildEnd;
    if cs < hi {
      GroupIsSmaller(es, lo, hi, cs, n);
      RangeCount(es, hasValues, lo, hi, ChildEnd(es, cs, hi, n), n);
    }
  }

  method GetChildRanges(es: seq<Entry>, lo: nat, hi: nat, n: nat) returns (ranges: seq<(nat, nat)>)
    requires Splits(es, lo, hi, n)
    ensures KidsStart(es, lo, n) <= hi && ranges == ChildRanges(es, lo, hi, KidsStart(es, lo, n), n)
  {
    hide ChildEnd, Sorted, AllShare;
    StartInside(es, lo, hi, n);
    ranges := [];
    var cs := KidsStart(es, lo, n);
    ghost var all := ChildRanges(es, lo, hi, cs, n);
    while cs < hi
      invariant KidsStart(es, lo, n) <= cs <= hi && ranges + ChildRanges(es, lo, hi, cs, n) == all
    {
      GroupIsSmaller(es, lo, hi, cs, n);
      var ce := GroupEndAt(es, cs, hi, n);
      assert (ranges + [(cs, ce)]) + ChildRanges(es, lo, hi, ce, n) == ranges + ([(cs, ce)] + ChildRanges(es, lo, hi, ce, n));
      ranges := ranges + [(cs, ce)];
      cs := ce;
    }
  }

  lemma StartInside(es: seq<Entry>, lo: nat, hi: nat, n: nat)
    requires Splits(es, lo, hi, n)
    ensures KidsStart(es, lo, n) <= hi
  {
  }

  /** The range at ci is the group that starts where the ones before it end. */
  lemma RangeAt(es: seq<Entry>, lo: nat, hi: nat, cs: nat, n: nat, ranges: seq<(nat, nat)>, ci: nat)
    requires Splits(es, lo, hi, n) && KidsStart(es, lo, n) <= cs <= hi && ci <= |ranges|
    requires ranges[ci..] == ChildRanges(es, lo, hi, cs, n)
    ensures ci < |ranges| <==> cs < hi
    ensures ci < |ranges| ==>
              && (forall i :: cs <= i < hi ==> n < |es[i].key|)
              && ranges[ci] == (cs, ChildEnd(es, cs, hi, n))
              && ranges[ci + 1..] == ChildRanges(es, lo, hi, ChildEnd(es, cs, hi, n), n)
              && (ci + 1 < |ranges| <==> ChildEnd(es, cs, hi, n) < hi)
  {
    hide Splits, ChildEnd, Sorted;
    if cs < hi {
      GroupIsSmaller(es, lo, hi, cs, n);
      assert ranges[ci..][0] == ranges[ci] && ranges[ci..][1..] == ranges[ci + 1..];
    }
  }

  /** One step of the loop over children, in bits. */
  lemma StepLength(sym: Symbols, es: seq<Entry>, hasValues: bool, lo: nat, hi: nat, cs: nat, n: nat, index: nat)
    requires Shaped(sym) && Splits(es, lo, hi, n) && KidsStart(es, lo, n) <= cs < hi
    ensures forall i :: cs <= i < hi ==> n < |es[i].key|
    ensures var ce := ChildEnd(es, cs, hi, n);
            && Range(es, cs, ce, n) && ce - cs < hi - lo
            && var size := |RangeBits(sym, es, hasValues, cs, ce, n, index)|;
            && |RestBits(sym, es, hasValues, lo, hi, cs, n, index)|
               == (if ce < hi then sym.bps + |Varint.Varint(size)| else 0) + size
                  + |RestBits(sym, es, hasValues, lo, hi, ce, n, index + (ce - cs))|
  {
    hide RangeBits, RestBits, AllShare, Sorted, SkipBits, Varint.Varint;
    RestStep(sym, es, hasValues, lo, hi, cs, n, index);
    SkipSize(sym, |RangeBits(sym, es, hasValues, cs, ChildEnd(es, cs, hi, n), n, index)|);
  }

  /** The dry run, over listed ranges. */
  method SubtreeSize(sym: Symbols, es: seq<Entry>, hasValues: bool, start: nat, end: nat, n: nat, valueIdx: nat)
    returns (bits: nat, nextIdx: nat)
    requires Shaped(sym) && Sorted(es) && Range(es, start, end, n)
    ensures bits == |RangeBits(sym, es, hasValues, start, end, n, valueIdx)|
    ensures nextIdx == valueIdx + (end - start)
    decreases end - start
  {
    hide HeadBits, RangeBits, RestBits, ForkBits, Common, KidsOf, Sorted, ChildEnd, Len, AllShare, TrieOf, ChildRanges, Varint.Varint;
    var common := CommonPrefix(es, start, end, n);
    RangeParts(sym, es, hasValues, start, end, n, valueIdx);
    bits := HeadSize(sym, es, hasValues, start, common, n, valueIdx);
    ghost var cs := KidsStart(es, start, common);
    nextIdx := valueIdx + (KidsStart(es, start, common) - start);
    var ranges := GetChildRanges(es, start, end, common);
    RangeCount(es, hasValues, start, end, cs, common);
    RestEmpty(sym, es, hasValues, start, end, common, valueIdx + (end - start));
    if |ranges| == 0 {
      return;
    }
    var width := VarintBits(|ranges|);
    bits := bits + sym.bps + width;
    ForkSize(sym, |ranges|);
    assert ranges[0..] == ranges;
    for ci := 0 to |ranges|
      invariant KidsStart(es, start, common) <= cs <= end
      invariant nextIdx == valueIdx + (cs - start)
      invariant bits + |RestBits(sym, es, hasValues, start, end, cs, common, nextIdx)|
             == |RangeBits(sym, es, hasValues, start, end, n, valueIdx)|
      invariant ranges[ci..] == ChildRanges(es, start, end, cs, common)
    {
      RangeAt(es, start, end, cs, common, ranges, ci);
      StepLength(sym, es, hasValues, start, end, cs, common, nextIdx);
      var childSize, idx := SubtreeSize(sym, es, hasValues, ranges[ci].0, ranges[ci].1, common, nextIdx);
      if ci < |ranges| - 1 {
        var skip := VarintBits(childSize);
        bits := bits + sym.bps + skip + childSize;
      } else {
        bits := bits + childSize;
      }
      nextIdx := idx;
      cs := ranges[ci].1;
    }
    RangeAt(es, start, end, cs, common, ranges, |ranges|);
  }

  method WriteSized(w: BitWriter, sym: Symbols, es: seq<Entry>, hasValues: bool, cs: nat, ce: nat, n: nat, valueIdx: nat, more: bool)
    returns (nextIdx: nat)
    requires Shaped(sym) && Sorted(es) && Range(es, cs, ce, n) && w.Valid()
    requires |RangeBits(sym, es, hasValues, cs, ce, n, valueIdx)| < 0x1_0000_0000_0000_0000
    requires valueIdx + (ce - cs) < 0x1_0000_0000_0000_0000
    modifies w, w.buf
    ensures w.Valid() && (w.buf == old(w.buf) || fresh(w.buf))
    ensures w.Contents() == old(w.Contents()) + ChildBits(sym, RangeBits(sym, es, hasValues, cs, ce, n, valueIdx), more)
    ensures nextIdx == valueIdx + (ce - cs)
    decreases ce - cs, 1
  {
    hide RangeBits, Sorted, BitsOf, Varint.Varint;
    ghost var was, child := w.Contents(), RangeBits(sym, es, hasValues, cs, ce, n, valueIdx);
    if more {
      var childSize, _ := SubtreeSize(sym, es, hasValues, cs, ce, n, valueIdx);
      WriteControl(w, sym, sym.ctrl[SKIP], childSize);
      Associative(was, SkipBits(sym, |child|), child);
    }
    nextIdx := WriteSubtree(w, sym, es, hasValues, cs, ce, n, valueIdx);
  }

  /** Writes the subtree of a range by listed ranges: the same bits as the C encoder's loop. */
  method WriteSubtree(w: BitWriter, sym: Symbols, es: seq<Entry>, hasValues: bool, start: nat, end: nat, n: nat, valueIdx: nat)
    returns (nextIdx: nat)
    requires Shaped(sym) && Sorted(es) && Range(es, start, end, n) && w.Valid()
    requires |RangeBits(sym, es, hasValues, start, end, n, valueIdx)| < 0x1_0000_0000_0000_0000
    requires valueIdx + (end - start) < 0x1_0000_0000_0000_0000
    modifies w, w.buf
    ensures w.Valid() && (w.buf == old(w.buf) || fresh(w.buf))
    ensures w.Contents() == old(w.Contents()) + RangeBits(sym, es, hasValues, start, end, n, valueIdx)
    ensures nextIdx == valueIdx + (end - start)
    decreases end - start, 0
  {
    hide HeadBits, RangeBits, RestBits, ForkBits, Common, KidsOf, Sorted, SkipBits, ChildEnd, Len, EndBits, AllShare, TrieOf, ChildBits, ChildRanges, Splits, Varint.Varint, BitsOf;
    ghost var was := w.Contents();
    ghost var all := RangeBits(sym, es, hasValues, start, end, n, valueIdx);
    var common := CommonPrefix(es, start, end, n);
    RangeParts(sym, es, hasValues, start, end, n, valueIdx);
    ghost var cs := KidsStart(es, start, common);
    var ranges := GetChildRanges(es, start, end, common);
    RangeCount(es, hasValues, start, end, cs, common);
    WriteHead(w, sym, es, hasValues, start, common, n, valueIdx);
    nextIdx := valueIdx + (KidsStart(es, start, common) - start);
    ghost var head, fork := HeadBits(sym, es, hasValues, start, common, n, valueIdx), ForkBits(sym, |ranges|);
    ghost var done := head + fork;
    WriteFork(w, sym, |ranges|);
    RestEmpty(sym, es, hasValues, start, end, common, valueIdx + (end - start));
    Associative(was, head, fork);
    Associative(head, fork, RestBits(sym, es, hasValues, start, end, cs, common, nextIdx));
    assert ranges[0..] == ranges;
    for ci := 0 to |ranges|
      invariant KidsStart(es, start, common) <= cs <= end
      invariant nextIdx == valueIdx + (cs - start)
      invariant w.Valid() && (w.buf == old(w.buf) || fresh(w.buf))
      invariant w.Contents() == was + done
      invariant done + RestBits(sym, es, hasValues, start, end, cs, common, nextIdx) == all
      invariant ranges[ci..] == ChildRanges(es, start, end, cs, common)
    {
      RangeAt(es, start, end, cs, common, ranges, ci);
      RestStep(sym, es, hasValues, start, end, cs, common, nextIdx);
      var ce := ranges[ci].1;
      ghost var child := ChildBits(sym, RangeBits(sym, es, hasValues, cs, ce, common, nextIdx), ce < end);
      ChildFits(sym, es, hasValues, cs, ce, common, nextIdx, ce < end);
      nextIdx := WriteSized(w, sym, es, hasValues, ranges[ci].0, ce, common, nextIdx, ci < |ranges| - 1);
      cs := ce;
      Associative(was, done, child);
      Associative(done, child, RestBits(sym, es, hasValues, start, end, cs, common, nextIdx));
      done := done + child;
    }
    RangeAt(es, start, end, cs, common, ranges, |ranges|);
    assert done + [] == done;
  }

  /** The entries of the map, sorted by key; a map has no duplicates to drop. */
  method CollectEntries(data: map<Key, Value>) returns (es: seq<Entry>)
    ensures es == EntriesOf(data)
  {
    hide SortedKeys, Sorted, KeysAscend;
    var ks := SortKeys(data);
    es := seq(|ks|, i requires 0 <= i < |ks| && ks[i] in data => Entry(ks[i], data[ks[i]]));
    EntriesMap(es, data, ks);
    SortedUnique(es, EntriesOf(data));
  }

  /** The one error is a key alphabet that is too wide; offsets past 32 bits are cut off, which
      `FileOf` does as well. */
  ghost function Encoded(es: seq<Entry>): Result<seq<byte>>
    requires Sorted(es)
  {
    if |UsedFrom(es, 0)| > MAX_ALPHABET_SIZE then Err(Alphabet)
    else
      AlphabetCovers(es);
      Ok(FileOf(es))
  }

  /** Byte for byte the file of the C encoder wherever that one builds a file; and decoding gives
      the map back exactly when the offsets were not cut. */
  method Encode(data: map<Key, Value>) returns (r: Result<seq<byte>>)
    requires |data| < 0x1_0000_0000 && KeyBytes(EntriesOf(data), 0, |EntriesOf(data)|, 0) <= MAX_KEY_BYTES
    requires forall k :: k in data ==> Encodable(data[k])
    ensures r == Encoded(EntriesOf(data))
    ensures BuildResult(EntriesOf(data)) != Err(Overflow) ==> r == BuildResult(EntriesOf(data))
    ensures Writable(EntriesOf(data)) ==> r.Ok? && (DecodeMap(r.value) == Ok(data) <==> OffsetsFit(EntriesOf(data)))
  {
    hide TableOf, Sorted, FileOf, Encodable, DataBits, KeyBytes, Writable, OffsetsFit, DecodeMap, AllStorable, BuildResult, Encoded;
    var es := CollectEntries(data);
    MapEntries(data, es);
    r := EncodeEntries(es);
    EncodedBuilds(es);
  }

  lemma EncodedBuilds(es: seq<Entry>)
    requires Sorted(es) && |es| < 0x1_0000_0000 && forall i :: 0 <= i < |es| ==> Encodable(es[i].val)
    ensures BuildResult(es) != Err(Overflow) ==> Encoded(es) == BuildResult(es)
    ensures Writable(es) ==> Encoded(es).Ok? && (DecodeMap(Encoded(es).value) == Ok(AsMap(es)) <==> OffsetsFit(es))
  {
    hide TableOf, Sorted, FileOf, DataBits, DecodeMap, AsMap, Encodable, Canonical, AllCovered, Storable;
    AllStored(es);
    if |UsedFrom(es, 0)| <= MAX_ALPHABET_SIZE {
      AlphabetCovers(es);
      CanonicalShaped(TableFor(es));
      if Writable(es) {
        DecodeFile(es);
      }
    }
  }

  method EncodeEntries(es: seq<Entry>) returns (r: Result<seq<byte>>)
    requires Sorted(es) && |es| < 0x1_0000_0000 && KeyBytes(es, 0, |es|, 0) <= MAX_KEY_BYTES
    requires AllStorable(es)
    ensures r == Encoded(es)
  {
    hide HeaderBits, TrieStart, ValueStart, TableOf, Sorted, FileOf, DataBits, Canonical, AllCovered, KeyBytes, FinalHeader, HeaderFor, AllStorable;
    var hasValues := HasAnyValue(es);
    var sym := AnalyzeSymbols(es);
    TableCount(es);
    if sym.count > 255 {
      return Err(Alphabet);
    }
    AlphabetCovers(es);
    CanonicalShaped(sym);
    FinalOffsets(es);
    var w := new BitWriter(256, 0);
    var trieOffset, valueOffset, total := WriteData(w, es, sym, hasValues);
    var file := Finish(w, es, trieOffset, valueOffset, total);
    r := Ok(file);
  }

  /** Header placeholder, configuration, trie and values. */
  method WriteData(w: BitWriter, es: seq<Entry>, sym: Symbols, hasValues: bool)
    returns (trieOffset: nat, valueOffset: nat, total: nat)
    requires w.Valid() && w.Contents() == []
    requires sym == TableFor(es) && Shaped(sym) && Sorted(es) && hasValues == AnyValue(es) && AllStorable(es)
    requires |es| < 0x1_0000_0000 && KeyBytes(es, 0, |es|, 0) <= MAX_KEY_BYTES
    modifies w, w.buf
    ensures w.Valid() && (w.buf == old(w.buf) || fresh(w.buf))
    ensures w.Contents() == HeaderBits(Placeholder(es)) + DataBits(es)
    ensures trieOffset == TrieStart(es) - DATA_START && valueOffset == ValueStart(es) - DATA_START && total == |DataBits(es)|
  {
    hide HeaderBits, ConfigBits, TrieBits, ValuesBits, TableOf, Sorted, AllStorable, DataBits, KeyBytes;
    StreamJoined(es);
    WriteHeader(w, Header(0, if hasValues then 1 else 0, |es|, 0, 0, 0, 0, 0));
    EmptyFirst(HeaderBits(Placeholder(es)));
    var dataStart := w.pos;
    WriteConfig(w, sym);
    trieOffset := w.pos - dataStart;
    WriteEntries(w, sym, es, hasValues);
    valueOffset := w.pos - dataStart;
    var _ := WriteStore(w, es, hasValues);
    total := w.pos - dataStart;
  }

  method WriteEntries(w: BitWriter, sym: Symbols, es: seq<Entry>, hasValues: bool)
    requires w.Valid() && sym == TableFor(es) && Shaped(sym) && Sorted(es) && hasValues == AnyValue(es)
    requires |es| < 0x1_0000_0000 && KeyBytes(es, 0, |es|, 0) <= MAX_KEY_BYTES
    modifies w, w.buf
    ensures w.Valid() && (w.buf == old(w.buf) || fresh(w.buf))
    ensures w.Contents() == old(w.Contents()) + TrieBits(es)
  {
    hide RangeBits, TableOf, Sorted;
    if |es| > 0 {
      TrieFits(sym, es, hasValues);
      var _ := WriteSubtree(w, sym, es, hasValues, 0, |es|, 0, 0);
    }
  }

  lemma MapEntries(data: map<Key, Value>, es: seq<Entry>)
    requires es == EntriesOf(data) && forall k :: k in data ==> Encodable(data[k])
    ensures |es| == |data| && Sorted(es) && AllStorable(es)
    ensures forall i :: 0 <= i < |es| ==> Encodable(es[i].val)
  {
    hide Encodable, Sorted, Storable, AsMap;
    forall i | 0 <= i < |es| ensures es[i].key in data && data[es[i].key] == es[i].val {
      SortedMap(es, es[i].key);
    }
    EntriesCount(es);
    AllStored(es);
  }

  lemma {:induction false} EntriesCount(es: seq<Entry>)
    requires Sorted(es)
    ensures |AsMap(es)| == |es|
  {
    if es != [] {
      var front, last := es[..|es| - 1], es[|es| - 1];
      EntriesCount(front);
      SortedMap(front, last.key);
      if last.key in AsMap(front) {
        var i :| 0 <= i < |front| && front[i].key == last.key;
        LessIrreflexive(last.key);
      }
    }
  }

  lemma FinalOffsets(es: seq<Entry>)
    requires Sorted(es) && Shaped(TableFor(es))
    ensures FinalHeader(es) == HeaderFor(es, TrieStart(es) - DATA_START, ValueStart(es) - DATA_START, |DataBits(es)|)
  {
    hide TableOf, Sorted, DataBits, TrieBits;
  }

  lemma AllStored(es: seq<Entry>)
    requires forall i :: 0 <= i < |es| ==> Encodable(es[i].val)
    ensures AllStorable(es)
  {
  }
}
