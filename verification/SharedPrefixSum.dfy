/** The checksum of that file, and the file as a whole. */
module SharedPrefixSum {
  import opened Bits
  import opened Results
  import opened TrieBuild
  import opened FileFormat
  import opened FileContents
  import opened FileWriter
  import opened RoundTrip
  import opened SharedPrefix
  import opened SymbolTable
  import opened Values
  import opened Encoder
  import opened Crc
  import opened ChecksumParts

  // The body in nine parts.

  function A(): seq<byte> { [0x54, 0x52, 0x50, 0x00, 0x01, 0x00, 0x00, 0x01] }

  function B(): seq<byte> { [0x00, 0x00, 0x00, 0x03, 0x00, 0x00, 0x00, 0x5C] }

  function C(): seq<byte> { [0x00, 0x00, 0x00, 0xCC, 0x00, 0x00, 0x00, 0x00] }

  function D(): seq<byte> { [0x00, 0x00, 0x00, 0xF0, 0x00, 0x00, 0x00, 0x00] }

  function E(): seq<byte> { [0x40, 0xD0, 0x12, 0x34, 0x56, 0x16] }

  function F(): seq<byte> { [0x26, 0x36, 0x47, 0x87, 0x97, 0xA5] }

  function G(): seq<byte> { [0x02, 0x24, 0x06, 0x75, 0x02, 0x21] }

  function H(): seq<byte> { [0x08, 0x10, 0x09, 0x10, 0x1A, 0xBC] }

  function I(): seq<byte> { [0x10, 0x23, 0x0A, 0x31, 0x43, 0x1E] }

  lemma InParts()
    ensures Head() + Data() == A() + B() + C() + D() + E() + F() + G() + H() + I()
  {
    hide A, B, C, D, E, F, G, H, I;
    assert Head() == A() + B() + C() + D() by { HeadParts(); }
    assert Data() == E() + F() + G() + H() + I() by { DataParts(); }
  }

  lemma HeadParts()
    ensures Head() == A() + B() + C() + D()
  {
  }

  lemma DataParts()
    ensures Data() == E() + F() + G() + H() + I()
  {
  }

  // The register after each part.

  lemma AfterA()
    ensures Run(0xFFFF_FFFF, Octets(A())) == 0x3CCE_7A30
  {
    hide Run, ByteStep;
    var d: seq<bv8> := [0x54, 0x52, 0x50, 0x00, 0x01, 0x00, 0x00, 0x01];
    assert Octets(A()) == d;
    EightBytes(0xFFFF_FFFF, d);
    StepsA();
  }

  lemma StepsA()
    ensures ByteStep(0xFFFF_FFFF, 0x54) == 0x41FB_859F
    ensures ByteStep(0x41FB_859F, 0x52) == 0xE594_4588
    ensures ByteStep(0xE594_4588, 0x50) == 0x88ED_CEA3
    ensures ByteStep(0x88ED_CEA3, 0x00) == 0x4F57_1F9C
    ensures ByteStep(0x4F57_1F9C, 0x01) == 0x8EF1_B8E6
    ensures ByteStep(0x8EF1_B8E6, 0x00) == 0x49E7_B6F5
    ensures ByteStep(0x49E7_B6F5, 0x00) == 0xCD9E_E125
    ensures ByteStep(0xCD9E_E125, 0x01) == 0x3CCE_7A30
  {
  }

  lemma AfterB()
    ensures Run(0x3CCE_7A30, Octets(B())) == 0xA79B_9154
  {
    hide Run, ByteStep;
    var d: seq<bv8> := [0x00, 0x00, 0x00, 0x03, 0x00, 0x00, 0x00, 0x5C];
    assert Octets(B()) == d;
    EightBytes(0x3CCE_7A30, d);
    StepsB();
  }

  lemma StepsB()
    ensures ByteStep(0x3CCE_7A30, 0x00) == 0x26E5_FED6
    ensures ByteStep(0x26E5_FED6, 0x00) == 0x6F96_921F
    ensures ByteStep(0x6F96_921F, 0x00) == 0x8D67_9B67
    ensures ByteStep(0x8D67_9B67, 0x03) == 0x4A52_C2DA
    ensures ByteStep(0x4A52_C2DA, 0x00) == 0x664C_6908
    ensures ByteStep(0x664C_6908, 0x00) == 0x0EBD_C45B
    ensures ByteStep(0x0EBD_C45B, 0x00) == 0xFCB7_35B8
    ensures ByteStep(0xFCB7_35B8, 0x5C) == 0xA79B_9154
  {
  }

  lemma AfterC()
    ensures Run(0xA79B_9154, Octets(C())) == 0x0190_2068
  {
    hide Run, ByteStep;
    var d: seq<bv8> := [0x00, 0x00, 0x00, 0xCC, 0x00, 0x00, 0x00, 0x00];
    assert Octets(C()) == d;
    EightBytes(0xA79B_9154, d);
    StepsC();
  }

  lemma StepsC()
    ensures ByteStep(0xA79B_9154, 0x00) == 0x6CA1_0E7C
    ensures ByteStep(0x6CA1_0E7C, 0x00) == 0x59DF_9C19
    ensures ByteStep(0x59DF_9C19, 0x00) == 0x6432_775C
    ensures ByteStep(0x6432_775C, 0xCC) == 0xF06B_A133
    ensures ByteStep(0xF06B_A133, 0x00) == 0xBF20_0AB7
    ensures ByteStep(0xBF20_0AB7, 0x00) == 0x55BA_0625
    ensures ByteStep(0x55BA_0625, 0x00) == 0x4B51_6E41
    ensures ByteStep(0x4B51_6E41, 0x00) == 0x0190_2068
  {
  }

  lemma AfterD()
    ensures Run(0x0190_2068, Octets(D())) == 0xA481_ED3C
  {
    hide Run, ByteStep;
    var d: seq<bv8> := [0x00, 0x00, 0x00, 0xF0, 0x00, 0x00, 0x00, 0x00];
    assert Octets(D()) == d;
    EightBytes(0x0190_2068, d);
    StepsD();
  }

  lemma StepsD()
    ensures ByteStep(0x0190_2068, 0x00) == 0x4368_794A
    ensures ByteStep(0x4368_794A, 0x00) == 0x964A_C0F7
    ensures ByteStep(0x964A_C0F7, 0x00) == 0x234F_2D7F
    ensures ByteStep(0x234F_2D7F, 0xF0) == 0x7D24_D19C
    ensures ByteStep(0x7D24_D19C, 0x00) == 0xF9C4_FBBE
    ensures ByteStep(0xF9C4_FBBE, 0x00) == 0x2C20_5A70
    ensures ByteStep(0x2C20_5A70, 0x00) == 0x5029_5166
    ensures ByteStep(0x5029_5166, 0x00) == 0xA481_ED3C
  {
  }

  lemma AfterE()
    ensures Run(0xA481_ED3C, Octets(E())) == 0x6F82_08B4
  {
    hide Run, ByteStep;
    var d: seq<bv8> := [0x40, 0xD0, 0x12, 0x34, 0x56, 0x16];
    assert Octets(E()) == d;
    SixBytes(0xA481_ED3C, d);
    StepsE();
  }

  lemma StepsE()
    ensures ByteStep(0xA481_ED3C, 0x40) == 0x5917_BCFA
    ensures ByteStep(0x5917_BCFA, 0xD0) == 0xDBE2_DE6A
    ensures ByteStep(0xDBE2_DE6A, 0x12) == 0x5E05_1BD0
    ensures ByteStep(0x5E05_1BD0, 0x34) == 0xA739_237A
    ensures ByteStep(0xA739_237A, 0x56) == 0x327F_55C0
    ensures ByteStep(0x327F_55C0, 0x16) == 0x6F82_08B4
  {
  }

  lemma AfterF()
    ensures Run(0x6F82_08B4, Octets(F())) == 0x3061_6539
  {
    hide Run, ByteStep;
    var d: seq<bv8> := [0x26, 0x36, 0x47, 0x87, 0x97, 0xA5];
    assert Octets(F()) == d;
    SixBytes(0x6F82_08B4, d);
    StepsF();
  }

  lemma StepsF()
    ensures ByteStep(0x6F82_08B4, 0x26) == 0x1E6E_7060
    ensures ByteStep(0x1E6E_7060, 0x36) == 0x8216_9AB1
    ensures ByteStep(0x8216_9AB1, 0x47) == 0x545C_41B3
    ensures ByteStep(0x545C_41B3, 0x87) == 0x21E0_A8F4
    ensures ByteStep(0x21E0_A8F4, 0x97) == 0xD49A_D04A
    ensures ByteStep(0xD49A_D04A, 0xA5) == 0x3061_6539
  {
  }

  lemma AfterG()
    ensures Run(0x3061_6539, Octets(G())) == 0xA5D1_74DA
  {
    hide Run, ByteStep;
    var d: seq<bv8> := [0x02, 0x24, 0x06, 0x75, 0x02, 0x21];
    assert Octets(G()) == d;
    SixBytes(0x3061_6539, d);
    StepsG();
  }

  lemma StepsG()
    ensures ByteStep(0x3061_6539, 0x02) == 0xB13B_8841
    ensures ByteStep(0xB13B_8841, 0x24) == 0x3D69_AE5F
    ensures ByteStep(0x3D69_AE5F, 0x06) == 0x128A_80FE
    ensures ByteStep(0x128A_80FE, 0x75) == 0x7A78_D028
    ensures ByteStep(0x7A78_D028, 0x02) == 0xDBC1_B106
    ensures ByteStep(0xDBC1_B106, 0x21) == 0xA5D1_74DA
  {
  }

  lemma AfterH()
    ensures Run(0xA5D1_74DA, Octets(H())) == 0x61CB_C458
  {
    hide Run, ByteStep;
    var d: seq<bv8> := [0x08, 0x10, 0x09, 0x10, 0x1A, 0xBC];
    assert Octets(H()) == d;
    SixBytes(0xA5D1_74DA, d);
    StepsH();
  }

  lemma StepsH()
    ensures ByteStep(0xA5D1_74DA, 0x08) == 0x6878_628C
    ensures ByteStep(0x6878_628C, 0x10) == 0xF9D1_A70D
    ensures ByteStep(0xF9D1_A70D, 0x09) == 0x0794_15BE
    ensures ByteStep(0x0794_15BE, 0x10) == 0x3169_1AFA
    ensures ByteStep(0x3169_1AFA, 0x1A) == 0xA03B_8B62
    ensures ByteStep(0xA03B_8B62, 0xBC) == 0x61CB_C458
  {
  }

  lemma AfterI()
    ensures Run(0x61CB_C458, Octets(I())) == 0xFAE9_15B8
  {
    hide Run, ByteStep;
    var d: seq<bv8> := [0x10, 0x23, 0x0A, 0x31, 0x43, 0x1E];
    assert Octets(I()) == d;
    SixBytes(0x61CB_C458, d);
    StepsI();
  }

  lemma StepsI()
    ensures ByteStep(0x61CB_C458, 0x10) == 0x7866_0266
    ensures ByteStep(0x7866_0266, 0x23) == 0x06CE_D31D
    ensures ByteStep(0x06CE_D31D, 0x0A) == 0x83D5_4B14
    ensures ByteStep(0x83D5_4B14, 0x31) == 0x4B87_010C
    ensures ByteStep(0x4B87_010C, 0x43) == 0xE628_DB00
    ensures ByteStep(0xE628_DB00, 0x1E) == 0xFAE9_15B8
  {
  }

  lemma Register()
    ensures Run(0xFFFF_FFFF, Octets(Head() + Data())) == 0xFAE9_15B8
  {
    hide Run, Octets, Head, Data, A, B, C, D, E, F, G, H, I;
    InParts();
    RunOn(0xFFFF_FFFF, A(), B());
    RunOn(0xFFFF_FFFF, A() + B(), C());
    RunOn(0xFFFF_FFFF, A() + B() + C(), D());
    RunOn(0xFFFF_FFFF, A() + B() + C() + D(), E());
    RunOn(0xFFFF_FFFF, A() + B() + C() + D() + E(), F());
    RunOn(0xFFFF_FFFF, A() + B() + C() + D() + E() + F(), G());
    RunOn(0xFFFF_FFFF, A() + B() + C() + D() + E() + F() + G(), H());
    RunOn(0xFFFF_FFFF, A() + B() + C() + D() + E() + F() + G() + H(), I());
    AfterA();
    AfterB();
    AfterC();
    AfterD();
    AfterE();
    AfterF();
    AfterG();
    AfterH();
    AfterI();
  }

  lemma Sum()
    ensures U32(Crc32(Head() + Data())) == [0x05, 0x16, 0xEA, 0x47]
  {
    hide Run, Octets, Head, Data;
    Register();
    Inverted();
  }

  lemma Inverted()
    ensures Xor(0xFAE9_15B8, 0xFFFF_FFFF) as nat == 0x0516_EA47
    ensures U32(0x0516_EA47) == [0x05, 0x16, 0xEA, 0x47]
  {
  }

  /** Building the three entries gives this file, byte for byte. */
  lemma FileToTheByte()
    ensures Sorted(Entries()) && BuildResult(Entries()) == Ok(Head() + Data() + [0x05, 0x16, 0xEA, 0x47])
  {
    hide BuildResult, FileOf, Head, Data, Crc32, U32, Encodable, Typed, UsedFrom, TableOf, DataBits, Sorted, Unpack;
    StreamBits();
    Body();
    Sum();
    SharedPrefix.Alphabet();
    LettersAscend();
    TypesFit();
    BuildSucceeds(Entries());
  }

  lemma TypesFit()
    ensures forall i :: 0 <= i < |Entries()| ==> Encodable(Entries()[i].val)
    ensures forall e :: e in Entries() ==> Typed(e.val)
  {
  }
}
