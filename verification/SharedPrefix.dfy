/** One file of the conformance corpus to the byte: the keys "abc", "abd" and "xyz" with the unsigned
    values 10, 20 and 30. */
module SharedPrefix {
  import opened Bits
  import opened Results
  import opened Varint
  import opened BitStream
  import opened Keys
  import opened Values
  import opened Trie
  import opened TrieBuild
  import opened IterateAll
  import opened SymbolTable
  import opened FileFormat
  import opened FileContents
  import opened Encoder
  import opened HexDigits
  import opened HexTrie

  function Entries(): seq<Entry> {
    [Entry([0x61, 0x62, 0x63], UInt(10)), Entry([0x61, 0x62, 0x64], UInt(20)), Entry([0x78, 0x79, 0x7A], UInt(30))]
  }

  // The trie of the three keys.

  function C(): Trie { Node([0x63], Valued, NoKids) }

  function D(): Trie { Node([0x64], Valued, NoKids) }

  function Ab(): Trie { Node([0x61, 0x62], NoKey, Kid(C(), Kid(D(), NoKids))) }

  function Xyz(): Trie { Node([0x78, 0x79, 0x7A], Valued, NoKids) }

  function Tree(): Trie { Node([], NoKey, Kid(Ab(), Kid(Xyz(), NoKids))) }

  lemma EntriesSorted()
    ensures Sorted(Entries()) && Range(Entries(), 0, 3, 0) && Range(Entries(), 0, 2, 0) && Range(Entries(), 2, 3, 0)
    ensures Range(Entries(), 0, 1, 2) && Range(Entries(), 1, 2, 2)
  {
    var es := Entries();
    LessAt(es[0].key, es[1].key, 2);
    LessAt(es[0].key, es[2].key, 0);
    LessAt(es[1].key, es[2].key, 0);
    assert es[0].key[..2] == es[1].key[..2] == [0x61, 0x62];
  }

  lemma Leaves()
    ensures Sorted(Entries()) && Range(Entries(), 0, 1, 2) && TrieOf(Entries(), true, 0, 1, 2) == C()
    ensures Range(Entries(), 1, 2, 2) && TrieOf(Entries(), true, 1, 2, 2) == D()
    ensures Range(Entries(), 2, 3, 0) && TrieOf(Entries(), true, 2, 3, 0) == Xyz()
  {
    hide Sorted, TrieOf;
    EntriesSorted();
    OneEntry(Entries(), true, 0, 2);
    OneEntry(Entries(), true, 1, 2);
    OneEntry(Entries(), true, 2, 0);
  }

  lemma TreeOfEntries()
    ensures Sorted(Entries()) && Range(Entries(), 0, 3, 0) && TrieOf(Entries(), true, 0, 3, 0) == Tree()
  {
    hide Sorted;
    EntriesSorted();
    var es := Entries();
    Leaves();
    AbOfEntries();
    assert !AllShare(es, 0, 3, 0) && Common(es, 0, 3, 0) == 0;
    assert ChildEnd(es, 0, 3, 0) == 2 && ChildEnd(es, 2, 3, 0) == 3;
    assert KidsOf(es, true, 0, 3, 3, 0) == NoKids;
    assert KidsOf(es, true, 0, 3, 2, 0) == Kid(Xyz(), NoKids);
  }

  lemma AbOfEntries()
    requires Sorted(Entries()) && Range(Entries(), 0, 2, 0) && Range(Entries(), 0, 1, 2) && Range(Entries(), 1, 2, 2)
    ensures TrieOf(Entries(), true, 0, 2, 0) == Ab()
  {
    hide Sorted;
    var es := Entries();
    Leaves();
    assert AllShare(es, 0, 2, 0) && AllShare(es, 0, 2, 1) && !AllShare(es, 0, 2, 2);
    assert Common(es, 0, 2, 1) == Common(es, 0, 2, 2) == 2;
    assert Common(es, 0, 2, 0) == 2;
    CommonRange(es, 0, 2, 0, 2);
    assert ChildEnd(es, 0, 2, 2) == 1 && ChildEnd(es, 1, 2, 2) == 2;
    assert KidsOf(es, true, 0, 2, 2, 2) == NoKids;
    assert KidsOf(es, true, 0, 2, 1, 2) == Kid(D(), NoKids);
    assert es[0].key[0..2] == [0x61, 0x62];
  }

  // The alphabet.

  function Letters(): seq<byte> { [0x61, 0x62, 0x63, 0x64, 0x78, 0x79, 0x7A] }

  lemma UsesLetters(c: byte)
    ensures Uses(Entries(), c) <==> c in Letters()
  {
    var es := Entries();
    assert es[0].key[0] == 0x61 && es[0].key[1] == 0x62 && es[0].key[2] == 0x63 && es[1].key[2] == 0x64;
    assert es[2].key[0] == 0x78 && es[2].key[1] == 0x79 && es[2].key[2] == 0x7A;
  }

  lemma Alphabet()
    ensures UsedFrom(Entries(), 0) == Letters()
  {
    hide UsedFrom, Uses, Letters;
    UsedExactly(Entries(), 0);
    forall c: byte ensures c in UsedFrom(Entries(), 0) <==> c in Letters() {
      UsesLetters(c);
    }
    LettersAscend();
    AscendingUnique(UsedFrom(Entries(), 0), Letters());
  }

  lemma LettersAscend()
    ensures Ascends(Letters()) && |Letters()| == 7 && forall b :: b in Letters() ==> b < 128
  {
  }

  lemma Table()
    ensures NibbleTable(TableFor(Entries()), Letters())
  {
    hide UsedFrom, TableOf, Letters;
    Alphabet();
    LettersAscend();
    FourBitTable(Letters());
  }

  lemma Config()
    ensures ConfigBits(TableFor(Entries())) == HexBits(ConfigDigits())
  {
    hide TableOf, UsedFrom, HexBits, Letters, ConfigDigits, Hex, NibbleTable, ConfigBits;
    Table();
    LettersAscend();
    ConfigHex(TableFor(Entries()), Letters());
    LettersHex();
  }

  function ConfigDigits(): (ns: seq<nat>)
    ensures |ns| == 23
  {
    [4, 0, 13, 0, 1, 2, 3, 4, 5, 6, 1, 6, 2, 6, 3, 6, 4, 7, 8, 7, 9, 7, 10]
  }

  lemma LettersHex()
    ensures [4] + [(6 + |Letters()|) / 16, (6 + |Letters()|) % 16] + [0, 1, 2, 3, 4, 5] + Hex(Letters()) == ConfigDigits()
  {
    hide Hex;
    HexSix(0x61, 0x62, 0x63, 0x64, 0x78, 0x79);
    LastHex();
    assert Letters() == [0x61, 0x62, 0x63, 0x64, 0x78, 0x79] + [0x7A];
    HexConcat([0x61, 0x62, 0x63, 0x64, 0x78, 0x79], [0x7A]);
  }

  lemma LastHex()
    ensures Hex([0x7A]) == [7, 10]
  {
    assert [0x7A as byte][1..] == [] && Hex([]) == [];
  }

  // The trie as digits.

  function AbDigits(): (ns: seq<nat>)
    ensures |ns| == 16
  {
    [6, 7, 5, 0, 2, 2, 1, 0, 8, 1, 0, 0, 9, 1, 0, 1]
  }

  function TrieDigits(): (ns: seq<nat>)
    ensures |ns| == 28
  {
    [5, 0, 2, 2, 4, 0, 6, 7, 5, 0, 2, 2, 1, 0, 8, 1, 0, 0, 9, 1, 0, 1, 10, 11, 12, 1, 0, 2]
  }

  lemma AbNode(sym: Symbols)
    requires Canonical(sym) && sym.bps == 4 && Codes(sym, Letters(), [6, 7, 8, 9, 10, 11, 12])
    ensures NodeBits(sym, Ab(), 0) == HexBits(AbDigits())
  {
    hide BitsOf, HexBits, RunBits, BranchBits, Canonical;
    CodesOfRuns(sym);
    Shapely(sym);
    Leaf(sym, [0x63], [8], 0);
    Leaf(sym, [0x64], [9], 1);
    assert [8 as nat] + [1, 0, 0] == [8, 1, 0, 0] && [9 as nat] + [1, 0, 1] == [9, 1, 0, 1];
    assert Count(C()) == 1;
    TwoKids(sym, C(), D(), 0, [8, 1, 0, 0], [9, 1, 0, 1]);
    RunNibbles(sym, [0x61, 0x62], [6, 7]);
    var rest: seq<nat> := [5, 0, 2] + [2, 1, 0] + [8, 1, 0, 0] + [9, 1, 0, 1];
    NibblesConcat([6, 7], rest);
    assert [6, 7] + rest == AbDigits();
    NoTerminal(sym, HexBits(rest));
  }

  lemma CodesOfRuns(sym: Symbols)
    requires Codes(sym, Letters(), [6, 7, 8, 9, 10, 11, 12])
    ensures Codes(sym, [0x63], [8]) && Codes(sym, [0x64], [9]) && Codes(sym, [0x61, 0x62], [6, 7])
    ensures Codes(sym, [0x78, 0x79, 0x7A], [10, 11, 12]) && Codes(sym, [], [])
  {
    var ls, cs := Letters(), [6, 7, 8, 9, 10, 11, 12];
    assert sym.codeOf[ls[0]] == cs[0] && sym.codeOf[ls[1]] == cs[1] && sym.codeOf[ls[2]] == cs[2] && sym.codeOf[ls[3]] == cs[3];
    assert sym.codeOf[ls[4]] == cs[4] && sym.codeOf[ls[5]] == cs[5] && sym.codeOf[ls[6]] == cs[6];
  }

  lemma WholeNode(sym: Symbols)
    requires Canonical(sym) && sym.bps == 4 && Codes(sym, Letters(), [6, 7, 8, 9, 10, 11, 12])
    ensures NodeBits(sym, Tree(), 0) == HexBits(TrieDigits())
  {
    hide BitsOf, HexBits, BranchBits, Canonical, Ab, AbDigits;
    CodesOfRuns(sym);
    Shapely(sym);
    AbNode(sym);
    TwoKeys();
    Leaf(sym, [0x78, 0x79, 0x7A], [10, 11, 12], 2);
    assert [10 as nat, 11, 12] + [1, 0, 2] == [10, 11, 12, 1, 0, 2];
    TwoKids(sym, Ab(), Xyz(), 0, AbDigits(), [10, 11, 12, 1, 0, 2]);
    TrieSpelledOut();
    RunNibbles(sym, [], []);
    NoNibbles();
    NoTerminal(sym, HexBits(TrieDigits()));
    assert [] + HexBits(TrieDigits()) == HexBits(TrieDigits());
  }

  lemma TwoKeys()
    ensures Count(Ab()) == 2
  {
    assert Count(C()) == 1 && Count(D()) == 1;
    assert KidsCount(Kid(D(), NoKids)) == 1;
  }

  lemma TrieSpelledOut()
    ensures [5, 0, 2] + [2, 4, 0] + AbDigits() + [10, 11, 12, 1, 0, 2] == TrieDigits()
  {
  }

  // The values, and the whole.

  lemma Store(pos: nat)
    ensures StoreBits(Vals(Entries()), pos) == HexBits(ValueDigits())
  {
    hide BitsOf, HexBits, StoreBits;
    var vs := Vals(Entries());
    assert vs[1..][1..][1..] == [];
    NibblesLength([3, 0, 10]);
    NibblesLength([3, 1, 4]);
    NibblesLength([3, 1, 14]);
    NextValue(vs, pos, 10);
    NextValue(vs[1..], pos + 12, 20);
    NextValue(vs[1..][1..], pos + 24, 30);
    NoValues(pos + 36);
    NoNibbles();
    Joined([3, 0, 10], [3, 1, 4], [3, 1, 14], []);
    assert [3 as nat, 0, 10] + [3, 1, 4] + [3, 1, 14] + [] == ValueDigits();
  }

  lemma NextValue(vs: seq<Value>, pos: nat, v: word)
    requires vs != [] && vs[0] == UInt(v) && v < 128
    ensures StoreBits(vs, pos) == HexBits([3, v / 16, v % 16]) + StoreBits(vs[1..], pos + 12)
  {
    hide ValueBits, HexBits;
    Unsigned(v, pos);
    NibblesLength([3, v / 16, v % 16]);
  }

  lemma NoValues(pos: nat)
    ensures StoreBits([], pos) == []
  {
  }

  lemma Unsigned(v: word, pos: nat)
    requires v < 128
    ensures ValueBits(UInt(v), pos) == HexBits([3, v / 16, v % 16])
  {
    hide BitsOf, HexBits, Varint.Varint;
    OneNibble(3);
    ShortVarint(v);
    NibblesConcat([3], [v / 16, v % 16]);
    assert [3 as nat] + [v / 16, v % 16] == [3, v / 16, v % 16];
  }

  function Head(): (b: seq<byte>)
    ensures |b| == 32
  {
    [0x54, 0x52, 0x50, 0x00, 0x01, 0x00, 0x00, 0x01]
    + [0x00, 0x00, 0x00, 0x03, 0x00, 0x00, 0x00, 0x5C]
    + [0x00, 0x00, 0x00, 0xCC, 0x00, 0x00, 0x00, 0x00]
    + [0x00, 0x00, 0x00, 0xF0, 0x00, 0x00, 0x00, 0x00]
  }

  function Data(): (b: seq<byte>)
    ensures |b| == 30
  {
    [0x40, 0xD0, 0x12, 0x34, 0x56, 0x16]
    + [0x26, 0x36, 0x47, 0x87, 0x97, 0xA5]
    + [0x02, 0x24, 0x06, 0x75, 0x02, 0x21]
    + [0x08, 0x10, 0x09, 0x10, 0x1A, 0xBC]
    + [0x10, 0x23, 0x0A, 0x31, 0x43, 0x1E]
  }

  // The digits in stretches of twelve, six bytes each.

  function Digits1(): seq<nat> { [4, 0, 13, 0, 1, 2, 3, 4, 5, 6, 1, 6] }

  function Digits2(): seq<nat> { [2, 6, 3, 6, 4, 7, 8, 7, 9, 7, 10] }

  function Digits3(): seq<nat> { [0, 2, 2, 4, 0, 6, 7, 5, 0, 2, 2, 1] }

  function Digits4(): seq<nat> { [0, 8, 1, 0, 0, 9, 1, 0, 1, 10, 11, 12] }

  function Digits5(): seq<nat> { [1, 0, 2] }

  function ValueDigits(): seq<nat> { [3, 0, 10, 3, 1, 4, 3, 1, 14] }

  lemma ConfigStretches()
    ensures ConfigDigits() == Digits1() + Digits2()
  {
  }

  lemma TrieStretches()
    ensures TrieDigits() == [5] + Digits3() + Digits4() + Digits5()
  {
  }

  lemma Stretch1()
    ensures Hex([0x40, 0xD0, 0x12, 0x34, 0x56, 0x16]) == Digits1()
  {
    hide Hex;
    HexSix(0x40, 0xD0, 0x12, 0x34, 0x56, 0x16);
  }

  lemma Stretch2()
    ensures Hex([0x26, 0x36, 0x47, 0x87, 0x97, 0xA5]) == Digits2() + [5]
  {
    hide Hex;
    HexSix(0x26, 0x36, 0x47, 0x87, 0x97, 0xA5);
  }

  lemma Stretch3()
    ensures Hex([0x02, 0x24, 0x06, 0x75, 0x02, 0x21]) == Digits3()
  {
    hide Hex;
    HexSix(0x02, 0x24, 0x06, 0x75, 0x02, 0x21);
  }

  lemma Stretch4()
    ensures Hex([0x08, 0x10, 0x09, 0x10, 0x1A, 0xBC]) == Digits4()
  {
    hide Hex;
    HexSix(0x08, 0x10, 0x09, 0x10, 0x1A, 0xBC);
  }

  lemma Stretch5()
    ensures Hex([0x10, 0x23, 0x0A, 0x31, 0x43, 0x1E]) == Digits5() + ValueDigits()
  {
    hide Hex;
    HexSix(0x10, 0x23, 0x0A, 0x31, 0x43, 0x1E);
  }

  lemma DataHex()
    ensures Hex(Data()) == ConfigDigits() + TrieDigits() + ValueDigits()
  {
    hide Hex, Digits1, Digits2, Digits3, Digits4, Digits5, ValueDigits, ConfigDigits, TrieDigits;
    ConfigStretches();
    TrieStretches();
    Stretch1();
    Stretch2();
    Stretch3();
    Stretch4();
    Stretch5();
    FiveHex([0x40, 0xD0, 0x12, 0x34, 0x56, 0x16], [0x26, 0x36, 0x47, 0x87, 0x97, 0xA5], [0x02, 0x24, 0x06, 0x75, 0x02, 0x21],
            [0x08, 0x10, 0x09, 0x10, 0x1A, 0xBC], [0x10, 0x23, 0x0A, 0x31, 0x43, 0x1E]);
    Regrouped(Digits1(), Digits2(), [5], Digits3(), Digits4(), Digits5(), ValueDigits());
  }

  lemma Regrouped(a: seq<nat>, b: seq<nat>, c: seq<nat>, d: seq<nat>, e: seq<nat>, f: seq<nat>, g: seq<nat>)
    ensures a + (b + c) + d + e + (f + g) == (a + b) + (c + d + e + f) + g
  {
  }

  lemma StreamBits()
    ensures Sorted(Entries()) && Shaped(TableFor(Entries())) && AnyValue(Entries())
    ensures TrieStart(Entries()) == 256 + 92 && ValueStart(Entries()) == 256 + 204 && |DataBits(Entries())| == 240
    ensures DataBits(Entries()) == Unpack(Data())
  {
    hide TableOf, UsedFrom, ConfigBits, TrieOf, NodeBits, StoreBits, HexBits, Unpack, ConfigDigits, TrieDigits, ValueDigits, Data, Letters, Sorted;
    var es := Entries();
    TreeOfEntries();
    Table();
    var sym := TableFor(es);
    Shapely(sym);
    assert es[0].val != Null;
    WholeTrie(es);
    Spelling();
    WholeNode(sym);
    Config();
    Store(ValueStart(es));
    NibblesLength(ConfigDigits());
    NibblesLength(TrieDigits());
    NoNibbles();
    Joined([], ConfigDigits(), TrieDigits(), ValueDigits());
    assert [] + ConfigDigits() == ConfigDigits();
    DataHex();
    BytesNibbles(Data());
  }

  lemma Spelling()
    ensures Codes(TableFor(Entries()), Letters(), [6, 7, 8, 9, 10, 11, 12])
  {
    hide TableOf, UsedFrom, Letters;
    Table();
    LettersAscend();
  }

  lemma HeadBytes(h: Header)
    requires h == Header(0, 1, 3, 92, 204, 0, 240, 0)
    ensures HeaderBytes(h) == Head()
  {
  }

  lemma Body()
    ensures Sorted(Entries()) && Shaped(TableFor(Entries()))
    ensures FileOf(Entries()) == WithChecksum(Head() + Data())
  {
    hide TableOf, TrieBits, ConfigBits, ValuesBits, DataBits, Unpack, HeaderBytes, Head, Data, WithChecksum, Sorted;
    var es := Entries();
    StreamBits();
    HeadBytes(FinalHeader(es));
    assert Padding(256 + 240) == [];
    AddNothing(DataBits(es));
    UnpackInjective(DataBytes(es), Data());
  }
}
