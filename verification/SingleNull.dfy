/** The smallest dictionary of the conformance corpus to the byte: the key "hello" without a value. */
module SingleNull {
  import opened Bits
  import opened Results
  import opened BitStream
  import opened Values
  import opened Trie
  import opened TrieBuild
  import opened SymbolTable
  import opened FileFormat
  import opened FileContents
  import opened Encoder
  import opened FileWriter
  import opened RoundTrip
  import opened Crc
  import opened ChecksumParts
  import opened HexDigits
  import opened HexTrie

  function Entries(): seq<Entry> {
    [Entry([0x68, 0x65, 0x6C, 0x6C, 0x6F], Null)]
  }

  function Letters(): seq<byte> { [0x65, 0x68, 0x6C, 0x6F] }

  lemma UsesLetters(c: byte)
    ensures Uses(Entries(), c) <==> c in Letters()
  {
    var key := Entries()[0].key;
    assert key[0] == 0x68 && key[1] == 0x65 && key[2] == 0x6C && key[4] == 0x6F;
  }

  lemma LettersAscend()
    ensures Ascends(Letters()) && |Letters()| == 4 && forall b :: b in Letters() ==> b < 128
  {
  }

  lemma Table()
    ensures UsedFrom(Entries(), 0) == Letters() && NibbleTable(TableFor(Entries()), Letters())
  {
    hide UsedFrom, Uses, TableOf, Letters;
    UsedExactly(Entries(), 0);
    forall c: byte ensures c in UsedFrom(Entries(), 0) <==> c in Letters() {
      UsesLetters(c);
    }
    LettersAscend();
    AscendingUnique(UsedFrom(Entries(), 0), Letters());
    FourBitTable(Letters());
  }

  function ConfigDigits(): (ns: seq<nat>)
    ensures |ns| == 17
  {
    [4, 0, 10, 0, 1, 2, 3, 4, 5, 6, 5, 6, 8, 6, 12, 6, 15]
  }

  function KeyDigits(): (ns: seq<nat>)
    ensures |ns| == 6
  {
    [7, 6, 8, 8, 9, 0]
  }

  lemma LettersHex()
    ensures [4] + [(6 + |Letters()|) / 16, (6 + |Letters()|) % 16] + [0, 1, 2, 3, 4, 5] + Hex(Letters()) == ConfigDigits()
  {
    hide Hex;
    HexTwo(0x65, 0x68);
    HexTwo(0x6C, 0x6F);
    assert Letters() == [0x65, 0x68] + [0x6C, 0x6F];
    HexConcat([0x65, 0x68], [0x6C, 0x6F]);
  }

  lemma Config()
    ensures ConfigBits(TableFor(Entries())) == HexBits(ConfigDigits())
  {
    hide TableOf, UsedFrom, HexBits, Letters, ConfigDigits, Hex, NibbleTable, ConfigBits;
    Table();
    LettersAscend();
    ConfigHex(TableFor(Entries()), Letters());
    LettersHex();
  }

  lemma Spelling()
    ensures Codes(TableFor(Entries()), Entries()[0].key, [7, 6, 8, 8, 9]) && Canonical(TableFor(Entries()))
  {
    hide TableOf, UsedFrom;
    Table();
    var ls, sym := Letters(), TableFor(Entries());
    assert sym.codeOf[ls[0]] == 6 && sym.codeOf[ls[1]] == 7 && sym.codeOf[ls[2]] == 8 && sym.codeOf[ls[3]] == 9;
  }

  /** One key that ends without a value, and no branch. */
  lemma OneKey()
    ensures Sorted(Entries()) && Shaped(TableFor(Entries())) && !AnyValue(Entries())
    ensures TrieBits(Entries()) == HexBits(KeyDigits())
  {
    hide TableOf, UsedFrom, NodeBits, TrieOf, HexBits, Codes, NibbleTable;
    var es := Entries();
    Table();
    Spelling();
    TableFits();
    WholeTrie(es);
    OneEntry(es, false, 0, 0);
    assert es[0].key[0..] == es[0].key;
    NullLeaf(TableFor(es), es[0].key, [7, 6, 8, 8, 9], 0);
    assert [7 as nat, 6, 8, 8, 9] + [0] == KeyDigits();
  }

  lemma TableFits()
    requires NibbleTable(TableFor(Entries()), Letters())
    ensures Shaped(TableFor(Entries())) && TableFor(Entries()).bps == 4
  {
    hide TableOf, UsedFrom;
  }

  function Head(): (b: seq<byte>)
    ensures |b| == 32
  {
    [0x54, 0x52, 0x50, 0x00, 0x01, 0x00, 0x00, 0x00]
    + [0x00, 0x00, 0x00, 0x01, 0x00, 0x00, 0x00, 0x44]
    + [0x00, 0x00, 0x00, 0x5C, 0x00, 0x00, 0x00, 0x00]
    + [0x00, 0x00, 0x00, 0x5C, 0x00, 0x00, 0x00, 0x00]
  }

  function Data(): (b: seq<byte>)
    ensures |b| == 12
  {
    [0x40, 0xA0, 0x12, 0x34, 0x56, 0x56] + [0x86, 0xC6, 0xF7, 0x68, 0x89, 0x00]
  }

  lemma DataHex()
    ensures Hex(Data()) == ConfigDigits() + KeyDigits() + [0]
  {
    hide Hex;
    HexSix(0x40, 0xA0, 0x12, 0x34, 0x56, 0x56);
    HexSix(0x86, 0xC6, 0xF7, 0x68, 0x89, 0x00);
    HexConcat([0x40, 0xA0, 0x12, 0x34, 0x56, 0x56], [0x86, 0xC6, 0xF7, 0x68, 0x89, 0x00]);
  }

  /** The stream ends within a byte, which is filled up with zero bits. */
  lemma StreamBits()
    ensures Sorted(Entries()) && Shaped(TableFor(Entries())) && !AnyValue(Entries())
    ensures TrieStart(Entries()) == 256 + 68 && ValueStart(Entries()) == 256 + 92 && |DataBits(Entries())| == 92
    ensures DataBits(Entries()) + Padding(256 + 92) == Unpack(Data())
  {
    hide TableOf, UsedFrom, ConfigBits, TrieBits, HexBits, Unpack, ConfigDigits, KeyDigits, Data, Hex;
    OneKey();
    Config();
    NibblesLength(ConfigDigits());
    NibblesLength(KeyDigits());
    DataHex();
    BytesNibbles(Data());
    NibblesConcat(ConfigDigits() + KeyDigits(), [0]);
    NibblesConcat(ConfigDigits(), KeyDigits());
    FourZeros();
    AddNothing(TrieBits(Entries()));
  }

  lemma FourZeros()
    ensures Padding(256 + 92) == HexBits([0])
  {
    assert BitsOf(0, 4) == [false, false, false, false];
    assert HexBits([0]) == BitsOf(0, 4) + [];
  }

  lemma HeadBytes(h: Header)
    requires h == Header(0, 0, 1, 68, 92, 0, 92, 0)
    ensures HeaderBytes(h) == Head()
  {
  }

  lemma Body()
    ensures Sorted(Entries()) && Shaped(TableFor(Entries()))
    ensures FileOf(Entries()) == WithChecksum(Head() + Data())
  {
    hide TableOf, TrieBits, ConfigBits, DataBits, Unpack, HeaderBytes, Head, Data, WithChecksum, Padding;
    var es := Entries();
    StreamBits();
    HeadBytes(FinalHeader(es));
    UnpackInjective(DataBytes(es), Data());
  }

  // The checksum in six parts.

  function A(): seq<byte> { [0x54, 0x52, 0x50, 0x00, 0x01, 0x00, 0x00, 0x00] }

  function B(): seq<byte> { [0x00, 0x00, 0x00, 0x01, 0x00, 0x00, 0x00, 0x44] }

  function C(): seq<byte> { [0x00, 0x00, 0x00, 0x5C, 0x00, 0x00, 0x00, 0x00] }

  function D(): seq<byte> { [0x00, 0x00, 0x00, 0x5C, 0x00, 0x00, 0x00, 0x00] }

  function E(): seq<byte> { [0x40, 0xA0, 0x12, 0x34, 0x56, 0x56] }

  function F(): seq<byte> { [0x86, 0xC6, 0xF7, 0x68, 0x89, 0x00] }

  lemma InParts()
    ensures Head() + Data() == A() + B() + C() + D() + E() + F()
  {
    hide A, B, C, D, E, F;
    assert Head() == A() + B() + C() + D() by { HeadParts(); }
    assert Data() == E() + F() by { DataParts(); }
  }

  lemma HeadParts()
    ensures Head() == A() + B() + C() + D()
  {
  }

  lemma DataParts()
    ensures Data() == E() + F()
  {
  }

  lemma AfterA()
    ensures Run(0xFFFF_FFFF, Octets(A())) == 0x4BC9_4AA6
  {
    hide Run, ByteStep;
    var d: seq<bv8> := [0x54, 0x52, 0x50, 0x00, 0x01, 0x00, 0x00, 0x00];
    assert Octets(A()) == d;
    EightBytes(0xFFFF_FFFF, d);
    StepsA();
  }

  lemma StepsA()
    ensures ByteStep(0xFFFF_FFFF, 0x54) == 0x41FB_859F
    ensures ByteStep(0x41FB_859F, 0x52) == 0xE594_4588
    ensures ByteStep(0xE594_4588, 0x50) == 0x88ED_CEA3
    ensures ByteStep(0x88ED_CEA3, 0x00) == 0x4F57_1F9C
    ensures ByteStep(0x4F57_1F9C, 0x01) == 0x8EF1_B8E6
    ensures ByteStep(0x8EF1_B8E6, 0x00) == 0x49E7_B6F5
    ensures ByteStep(0x49E7_B6F5, 0x00) == 0xCD9E_E125
    ensures ByteStep(0xCD9E_E125, 0x00) == 0x4BC9_4AA6
  {
  }

  lemma AfterB()
    ensures Run(0x4BC9_4AA6, Octets(B())) == 0xD94C_4E21
  {
    hide Run, ByteStep;
    var d: seq<bv8> := [0x00, 0x00, 0x00, 0x01, 0x00, 0x00, 0x00, 0x44];
    assert Octets(B()) == d;
    EightBytes(0x4BC9_4AA6, d);
    StepsB();
  }

  lemma StepsB()
    ensures ByteStep(0x4BC9_4AA6, 0x00) == 0x3FFE_CF97
    ensures ByteStep(0x3FFE_CF97, 0x00) == 0x6E54_F828
    ensures ByteStep(0x6E54_F828, 0x00) == 0x35DB_FC02
    ensures ByteStep(0x35DB_FC02, 0x01) == 0x993C_8A46
    ensures ByteStep(0x993C_8A46, 0x00) == 0x9F26_D82F
    ensures ByteStep(0x9F26_D82F, 0x00) == 0xAB4E_1B81
    ensures ByteStep(0xAB4E_1B81, 0x00) == 0x9A14_FDAD
    ensures ByteStep(0x9A14_FDAD, 0x44) == 0xD94C_4E21
  {
  }

  lemma AfterC()
    ensures Run(0xD94C_4E21, Octets(C())) == 0x2074_9919
  {
    hide Run, ByteStep;
    var d: seq<bv8> := [0x00, 0x00, 0x00, 0x5C, 0x00, 0x00, 0x00, 0x00];
    assert Octets(C()) == d;
    EightBytes(0xD94C_4E21, d);
    StepsC();
  }

  lemma StepsC()
    ensures ByteStep(0xD94C_4E21, 0x00) == 0x4CB0_5C10
    ensures ByteStep(0x4CB0_5C10, 0x00) == 0x1DFB_A038
    ensures ByteStep(0x1DFB_A038, 0x00) == 0x281F_433E
    ensures ByteStep(0x281F_433E, 0x5C) == 0xA394_1F37
    ensures ByteStep(0xA394_1F37, 0x00) == 0xB81E_3110
    ensures ByteStep(0xB81E_3110, 0x00) == 0x1D0F_0E55
    ensures ByteStep(0x1D0F_0E55, 0x00) == 0x1B1C_AA75
    ensures ByteStep(0x1B1C_AA75, 0x00) == 0x2074_9919
  {
  }

  lemma AfterD()
    ensures Run(0x2074_9919, Octets(D())) == 0xB535_5BF6
  {
    hide Run, ByteStep;
    var d: seq<bv8> := [0x00, 0x00, 0x00, 0x5C, 0x00, 0x00, 0x00, 0x00];
    assert Octets(D()) == d;
    EightBytes(0x2074_9919, d);
    StepsD();
  }

  lemma StepsD()
    ensures ByteStep(0x2074_9919, 0x00) == 0x644B_DC59
    ensures ByteStep(0x644B_DC59, 0x00) == 0x12D3_A28C
    ensures ByteStep(0x12D3_A28C, 0x00) == 0xE41C_1CA9
    ensures ByteStep(0xE41C_1CA9, 0x5C) == 0xCD33_1A8F
    ensures ByteStep(0xCD33_1A8F, 0x00) == 0x7DCA_ADAB
    ensures ByteStep(0x7DCA_ADAB, 0x00) == 0x4179_B0CD
    ensures ByteStep(0x4179_B0CD, 0x00) == 0xE594_C7BD
    ensures ByteStep(0xE594_C7BD, 0x00) == 0xB535_5BF6
  {
  }

  lemma AfterE()
    ensures Run(0xB535_5BF6, Octets(E())) == 0x408C_7907
  {
    hide Run, ByteStep;
    var d: seq<bv8> := [0x40, 0xA0, 0x12, 0x34, 0x56, 0x56];
    assert Octets(E()) == d;
    SixBytes(0xB535_5BF6, d);
    StepsE();
  }

  lemma StepsE()
    ensures ByteStep(0xB535_5BF6, 0x40) == 0x22B7_23E2
    ensures ByteStep(0x22B7_23E2, 0xA0) == 0x98F0_979F
    ensures ByteStep(0x98F0_979F, 0x12) == 0x9391_0F0A
    ensures ByteStep(0x9391_0F0A, 0x34) == 0xC1F2_8CA4
    ensures ByteStep(0xC1F2_8CA4, 0x56) == 0x5372_61BC
    ensures ByteStep(0x5372_61BC, 0x56) == 0x408C_7907
  {
  }

  lemma AfterF()
    ensures Run(0x408C_7907, Octets(F())) == 0x275A_4B7F
  {
    hide Run, ByteStep;
    var d: seq<bv8> := [0x86, 0xC6, 0xF7, 0x68, 0x89, 0x00];
    assert Octets(F()) == d;
    SixBytes(0x408C_7907, d);
    StepsF();
  }

  lemma StepsF()
    ensures ByteStep(0x408C_7907, 0x86) == 0x9AFF_3FCF
    ensures ByteStep(0x9AFF_3FCF, 0xC6) == 0x7946_479B
    ensures ByteStep(0x7946_479B, 0xF7) == 0x447D_6B34
    ensures ByteStep(0x447D_6B34, 0x68) == 0x6299_60B4
    ensures ByteStep(0x6299_60B4, 0x89) == 0x580A_D571
    ensures ByteStep(0x580A_D571, 0x00) == 0x275A_4B7F
  {
  }

  lemma Register()
    ensures Run(0xFFFF_FFFF, Octets(Head() + Data())) == 0x275A_4B7F
  {
    hide Run, Octets, Head, Data, A, B, C, D, E, F;
    InParts();
    RunOn(0xFFFF_FFFF, A(), B());
    RunOn(0xFFFF_FFFF, A() + B(), C());
    RunOn(0xFFFF_FFFF, A() + B() + C(), D());
    RunOn(0xFFFF_FFFF, A() + B() + C() + D(), E());
    RunOn(0xFFFF_FFFF, A() + B() + C() + D() + E(), F());
    AfterA();
    AfterB();
    AfterC();
    AfterD();
    AfterE();
    AfterF();
  }

  lemma Sum()
    ensures U32(Crc32(Head() + Data())) == [0xD8, 0xA5, 0xB4, 0x80]
  {
    hide Run, Octets, Head, Data;
    Register();
    Inverted();
  }

  lemma Inverted()
    ensures Xor(0x275A_4B7F, 0xFFFF_FFFF) as nat == 0xD8A5_B480
    ensures U32(0xD8A5_B480) == [0xD8, 0xA5, 0xB4, 0x80]
  {
  }

  /** Building the entry gives this file, byte for byte. */
  lemma FileToTheByte()
    ensures Sorted(Entries()) && BuildResult(Entries()) == Ok(Head() + Data() + [0xD8, 0xA5, 0xB4, 0x80])
  {
    hide BuildResult, FileOf, Head, Data, Crc32, U32, Encodable, Typed, UsedFrom, TableOf, DataBits, Unpack;
    StreamBits();
    Body();
    Sum();
    Table();
    LettersAscend();
    TypesFit();
    BuildSucceeds(Entries());
  }

  lemma TypesFit()
    ensures forall i :: 0 <= i < |Entries()| ==> Encodable(Entries()[i].val)
    ensures forall e :: e in Entries() ==> Typed(e.val)
  {
  }
}
