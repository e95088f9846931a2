/** A file on which lookup finds a key that was never added: with the keys "", "a" and "aa" stored
    as null, null and one particular double, the absent key "aaa" is reported as present. */
module AbsentKey {
  import opened Bits
  import opened Results
  import opened Varint
  import opened Keys
  import opened Values
  import opened Trie
  import opened TrieBuild
  import opened Dictionary
  import opened IterateAll
  import opened Lookup
  import opened LookupPastEnd
  import opened Straying
  import opened SymbolTable
  import opened FileFormat
  import opened FileContents
  import opened Encoder
  import opened FileWriter
  import opened RoundTrip

  const A: byte := 97
  const PATTERN: word := 0x01C0_0000_0000_0000

  function Entries(): seq<Entry> {
    [Entry([], Null), Entry([A], Null), Entry([A, A], Float64(PATTERN))]
  }

  function Deepest(): Trie { Node([A], Valued, NoKids) }

  function Middle(): Trie { Node([A], Plain, Kid(Deepest(), NoKids)) }

  function Tree(): Trie { Node([], Plain, Kid(Middle(), NoKids)) }

  lemma EntriesSorted()
    ensures Sorted(Entries()) && Range(Entries(), 0, 3, 0) && Range(Entries(), 1, 3, 0) && Range(Entries(), 2, 3, 1)
  {
    assert Less([], [A]) && Less([A], [A, A]) && Less([], [A, A]);
  }

  lemma TreeOfEntries()
    ensures Sorted(Entries()) && Range(Entries(), 0, 3, 0) && TrieOf(Entries(), true, 0, 3, 0) == Tree()
  {
    EntriesSorted();
    var es := Entries();
    assert es[2].key[1..2] == [A];
    assert AllShare(es, 2, 3, 1) && !AllShare(es, 2, 3, 2) && Common(es, 2, 3, 1) == Common(es, 2, 3, 2) == 2;
    assert TrieOf(es, true, 2, 3, 1) == Deepest();
    assert es[1].key[0..1] == [A];
    assert AllShare(es, 1, 3, 0) && !AllShare(es, 1, 3, 1) && Common(es, 1, 3, 0) == Common(es, 1, 3, 1) == 1;
    assert KidsOf(es, true, 1, 3, 3, 1) == NoKids && ChildEnd(es, 2, 3, 1) == 3;
    assert TrieOf(es, true, 1, 3, 0) == Middle();
    assert !AllShare(es, 0, 3, 0) && Common(es, 0, 3, 0) == 0;
    assert KidsOf(es, true, 0, 3, 3, 0) == NoKids && ChildEnd(es, 1, 3, 0) == 3;
  }

  lemma Alphabet()
    ensures UsedFrom(Entries(), 0) == [A]
  {
    hide UsedFrom, Uses;
    UsedExactly(Entries(), 0);
    UsesOnly();
    OnlyOne(UsedFrom(Entries(), 0), A);
  }

  lemma OnlyOne(alphabet: seq<byte>, b: byte)
    requires forall c: byte :: c in alphabet <==> c == b
    requires forall i, j :: 0 <= i < j < |alphabet| ==> alphabet[i] < alphabet[j]
    ensures alphabet == [b]
  {
    assert b in alphabet;
    assert alphabet[0] in alphabet && alphabet[|alphabet| - 1] in alphabet;
  }

  lemma UsesOnly()
    ensures forall c: byte :: Uses(Entries(), c) <==> c == A
  {
    assert Entries()[1].key[0] == A;
  }

  /** Three bits a symbol, and code 6 for the only byte. */
  lemma Table()
    ensures var sym := TableFor(Entries());
            Canonical(sym) && Covers(sym, A) && sym.bps == 3 && sym.count == 7 && sym.codeOf[A] == 6
  {
    hide UsedFrom, Width;
    Alphabet();
    SymbolTable.TableCanonical([A]);
    assert Width(7, 1) == 3 by { ThreeBits(); }
    var blank := Blank(3, 7, [0, 1, 2, 3, 4, 5]);
    assert [A][1..] == [];
    assert AssignAll(blank, 6, [A]) == Assign(blank, 6, A);
  }

  lemma ThreeBits()
    ensures Width(7, 1) == 3
  {
    assert Pow2(1) == 2 && Pow2(2) == 4 && Pow2(3) == 8;
    assert Width(7, 2) == Width(7, 3) == 3;
  }

  /** The value store read as symbols: three ends of keys, a branch with one child, the symbol
      of a, and an end of key. */
  function AsSymbols(): seq<bool> {
    BitsOf(0, 3) + (BitsOf(0, 3) + (BitsOf(0, 3) + ((BitsOf(5, 3) + Varint.Varint(1)) + (BitsOf(6, 3) + (BitsOf(0, 3) + BitsOf(0, 50))))))
  }

  /** The store is the same wherever it starts. */
  lemma StoreAsSymbols(pos: nat)
    ensures StoreBits(Vals(Entries()), pos) == AsSymbols() && |AsSymbols()| == 76
  {
    hide BitsOf, StoreBits;
    Tags();
    Pattern();
    StoreParts(pos);
    var tags, rest := BitsOf(0, 3) + BitsOf(0, 3) + BitsOf(0, 3) + BitsOf(5, 3), BitsOf(6, 3) + (BitsOf(0, 3) + BitsOf(0, 50));
    assert AsSymbols() == tags + (Varint.Varint(1) + rest);
  }

  lemma Tags()
    ensures BitsOf(0, 4) + BitsOf(0, 4) + BitsOf(5, 4) == BitsOf(0, 3) + BitsOf(0, 3) + BitsOf(0, 3) + BitsOf(5, 3)
  {
    hide BitsOf;
    Zeros();
    Fives();
  }

  lemma Zeros()
    ensures BitsOf(0, 4) == [false, false, false, false] && BitsOf(0, 3) == [false, false, false]
  {
  }

  lemma Fives()
    ensures BitsOf(5, 4) == [false, true, false, true] && BitsOf(5, 3) == [true, false, true]
  {
    assert BitsOf(5, 3) == BitsOf(2, 2) + [true] && BitsOf(2, 2) == BitsOf(1, 1) + [false];
    assert BitsOf(5, 4) == BitsOf(2, 3) + [true] && BitsOf(2, 3) == BitsOf(1, 2) + [false];
  }

  lemma Pattern()
    ensures BitsOf(PATTERN, 64) == Varint.Varint(1) + (BitsOf(6, 3) + (BitsOf(0, 3) + BitsOf(0, 50)))
  {
    hide BitsOf;
    Powers();
    JoinBits(0, 3, 0, 50);
    JoinBits(6, 3, 0, 53);
    JoinBits(1, 8, 6 * Pow2(53), 56);
  }

  lemma Powers()
    ensures Pow2(50) > 0 && Pow2(53) == 0x20_0000_0000_0000 && Pow2(56) == 0x100_0000_0000_0000
  {
    Pow2Constants();
    Pow2Add(32, 16);
    Pow2Add(48, 5);
    Pow2Add(48, 8);
    assert Pow2(5) == 32;
  }

  lemma StoreParts(pos: nat)
    ensures StoreBits(Vals(Entries()), pos) == BitsOf(0, 4) + BitsOf(0, 4) + BitsOf(5, 4) + BitsOf(PATTERN, 64)
  {
    hide BitsOf, StoreBits;
    var vs := Vals(Entries());
    assert vs[1..][1..][1..] == [];
    StoreStep(vs, pos);
    StoreStep(vs[1..], pos + 4);
    StoreStep(vs[1..][1..], pos + 8);
    assert StoreBits([], pos + 76) == [] by { NoStore(pos + 76); }
  }

  lemma StoreStep(vs: seq<Value>, pos: nat)
    requires vs != []
    ensures var first := ValueBits(vs[0], pos);
            StoreBits(vs, pos) == first + StoreBits(vs[1..], pos + |first|)
  {
  }

  lemma NoStore(pos: nat)
    ensures StoreBits([], pos) == []
  {
  }

  lemma Sizes(sym: Symbols)
    requires Shaped(sym) && sym.bps == 3 && sym.count == 7 && |sym.ctrl| == 6
    ensures |NodeBits(sym, Tree(), 0)| < 1000 && |ConfigBits(sym)| < 1000
  {
    hide BitsOf;
    assert |Varint.Varint(1)| == 8 && |Varint.Varint(2)| == 8;
    CtrlSize(3, sym.ctrl);
    assert TableBits(sym, 7) == [];
    ShortByte(sym.byteOf[6]);
  }

  lemma ShortByte(b: byte)
    ensures |Varint.Varint(b)| <= 16
  {
    assert |Varint.Varint(b / 128)| == 8;
  }

  /** The entries fit a file. */
  lemma EntriesRepresentable()
    ensures Representable(Entries()) && AnyValue(Entries())
    ensures ValuesBits(Entries()) == AsSymbols()
  {
    hide UsedFrom, TableOf, AsSymbols, ConfigBits, NodeBits, TrieOf, StoreBits, Encodable;
    var es := Entries();
    TreeOfEntries();
    Alphabet();
    Table();
    assert es[2].val != Null;
    WholeTrie(es);
    Sizes(TableFor(es));
    StoreAsSymbols(ValueStart(es));
    AllFit();
  }

  lemma AllFit()
    ensures forall i :: 0 <= i < 3 ==> Encodable(Entries()[i].val) && Typed(Entries()[i].val)
  {
  }

  /** The walk past the greatest key, on any bits that hold the store of the example. */
  lemma ProbeStore(sym: Symbols, s: seq<bool>, p: nat)
    requires Canonical(sym) && Covers(sym, A) && sym.bps == 3 && sym.codeOf[A] == 6
    requires At(s, p, AsSymbols())
    ensures Probe(sym, s, p, [A, A, A], 2, true) == NullHit
  {
    hide BitsOf, ReadBits, ReadVarint, Varint.Varint, AsSymbols;
    StoreReads(sym, s, p);
    assert Probe(sym, s, p + 23, [A, A, A], 3, false) == NullHit;
    assert ChooseChild(sym, s, p + 20, 0, 1, A) == Ok(p + 23);
    assert Probe(sym, s, p + 9, [A, A, A], 2, true) == NullHit;
    assert Probe(sym, s, p + 6, [A, A, A], 2, true) == NullHit;
    assert Probe(sym, s, p + 3, [A, A, A], 2, true) == NullHit;
  }

  lemma StoreReads(sym: Symbols, s: seq<bool>, p: nat)
    requires Canonical(sym) && sym.bps == 3 && At(s, p, AsSymbols())
    ensures ReadBits(s, p, 3) == ReadBits(s, p + 3, 3) == ReadBits(s, p + 6, 3) == ReadBits(s, p + 23, 3) == Ok(END)
    ensures ReadBits(s, p + 9, 3) == Ok(BRANCH) && ReadVarint(s, p + 12) == Ok((1, p + 20))
    ensures ReadBits(s, p + 20, 3) == Ok(6)
  {
    hide BitsOf, ReadBits, ReadVarint, Varint.Varint;
    OneByte();
    var six, end := BitsOf(6, 3), BitsOf(0, 3) + BitsOf(0, 50);
    var branch := BitsOf(5, 3) + Varint.Varint(1);
    var r1 := branch + (six + end);
    var r2 := BitsOf(0, 3) + r1;
    var r3 := BitsOf(0, 3) + r2;
    AtSplit(s, p, BitsOf(0, 3), r3);
    AtSplit(s, p + 3, BitsOf(0, 3), r2);
    AtSplit(s, p + 6, BitsOf(0, 3), r1);
    AtSplit(s, p + 9, branch, six + end);
    AtSplit(s, p + 20, six, end);
    AtSplit(s, p + 23, BitsOf(0, 3), BitsOf(0, 50));
    ReadSymbolAt(sym, s, p, 0);
    ReadSymbolAt(sym, s, p + 3, 0);
    ReadSymbolAt(sym, s, p + 6, 0);
    ReadControlAt(sym, s, p + 9, BRANCH, 1);
    ReadSymbolAt(sym, s, p + 20, 6);
    ReadSymbolAt(sym, s, p + 23, 0);
  }

  lemma OneByte()
    ensures |Varint.Varint(1)| == 8
  {
  }

  /** The encoder builds the file, opening it gives a dictionary of exactly these entries, and
      an absent key, one that strictly extends the greatest key, is found in it. */
  lemma AbsentKeyFound(check: bool) returns (d: Dict)
    ensures Representable(Entries()) && BuildResult(Entries()) == Ok(FileOf(Entries()))
    ensures Open(FileOf(Entries()), check) == Ok(d) && Encodes(d, Entries())
    ensures Absent(Entries(), [A, A, A]) && LookupKey(d, [A, A, A]) == Ok(Null)
  {
    hide Probe, Encodes, BuildResult, UsedFrom, FileOf, At, AsSymbols, Unpack, ValuesBits, TableOf, DataBits, Open, ConfigBits, TrieBits, Encodable;
    var es := Entries();
    EntriesRepresentable();
    Table();
    AllFit();
    BuildSucceeds(es);
    RepresentableFits(es);
    OpenFile(es, check);
    FileEncodes(es);
    StreamParts(es);
    d := DictOf(es);
    ProbeStore(d.sym, d.s, d.valueStart);
    assert es[2].key == [A, A] && es[2].key < [A, A, A];
    LookupPastLast(d, es, [A, A, A]);
  }
}
