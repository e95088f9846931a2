/** CRC-32 by table, against the bitwise definition of section 8 of RFC 1952, and the errors it
    is certain to detect. */
module Crc {
  /** One bit of polynomial division, least significant bit first. */
  function BitStep(c: bv32): bv32 {
    if c & 1 == 1 then 0xEDB8_8320 ^ (c >> 1) else c >> 1
  }

  function EightSteps(c: bv32): bv32 {
    BitStep(BitStep(BitStep(BitStep(BitStep(BitStep(BitStep(BitStep(c))))))))
  }

  /** Exclusive or, as a function that proofs can keep folded. */
  function Xor(x: bv32, y: bv32): bv32 {
    x ^ y
  }

  function ByteStep(c: bv32, b: bv8): bv32 {
    EightSteps(Xor(c, b as bv32))
  }

  /** The register after the bytes of data. */
  function Run(c: bv32, data: seq<bv8>): bv32
    decreases |data|
  {
    if data == [] then c else Run(ByteStep(c, data[0]), data[1..])
  }

  function Bitwise(data: seq<bv8>): bv32 {
    Xor(Run(0xFFFF_FFFF, data), 0xFFFF_FFFF)
  }

  // The 256-entry table, sixteen rows of sixteen.

  function Row0(c: bv32): bv32 {
    if c == 0 then 0x0000_0000 else if c == 1 then 0x7707_3096 else if c == 2 then 0xEE0E_612C else if c == 3 then 0x9909_51BA else
    if c == 4 then 0x076D_C419 else if c == 5 then 0x706A_F48F else if c == 6 then 0xE963_A535 else if c == 7 then 0x9E64_95A3 else
    if c == 8 then 0x0EDB_8832 else if c == 9 then 0x79DC_B8A4 else if c == 10 then 0xE0D5_E91E else if c == 11 then 0x97D2_D988 else
    if c == 12 then 0x09B6_4C2B else if c == 13 then 0x7EB1_7CBD else if c == 14 then 0xE7B8_2D07 else 0x90BF_1D91
  }

  function Row1(c: bv32): bv32 {
    if c == 0 then 0x1DB7_1064 else if c == 1 then 0x6AB0_20F2 else if c == 2 then 0xF3B9_7148 else if c == 3 then 0x84BE_41DE else
    if c == 4 then 0x1ADA_D47D else if c == 5 then 0x6DDD_E4EB else if c == 6 then 0xF4D4_B551 else if c == 7 then 0x83D3_85C7 else
    if c == 8 then 0x136C_9856 else if c == 9 then 0x646B_A8C0 else if c == 10 then 0xFD62_F97A else if c == 11 then 0x8A65_C9EC else
    if c == 12 then 0x1401_5C4F else if c == 13 then 0x6306_6CD9 else if c == 14 then 0xFA0F_3D63 else 0x8D08_0DF5
  }

  function Row2(c: bv32): bv32 {
    if c == 0 then 0x3B6E_20C8 else if c == 1 then 0x4C69_105E else if c == 2 then 0xD560_41E4 else if c == 3 then 0xA267_7172 else
    if c == 4 then 0x3C03_E4D1 else if c == 5 then 0x4B04_D447 else if c == 6 then 0xD20D_85FD else if c == 7 then 0xA50A_B56B else
    if c == 8 then 0x35B5_A8FA else if c == 9 then 0x42B2_986C else if c == 10 then 0xDBBB_C9D6 else if c == 11 then 0xACBC_F940 else
    if c == 12 then 0x32D8_6CE3 else if c == 13 then 0x45DF_5C75 else if c == 14 then 0xDCD6_0DCF else 0xABD1_3D59
  }

  function Row3(c: bv32): bv32 {
    if c == 0 then 0x26D9_30AC else if c == 1 then 0x51DE_003A else if c == 2 then 0xC8D7_5180 else if c == 3 then 0xBFD0_6116 else
    if c == 4 then 0x21B4_F4B5 else if c == 5 then 0x56B3_C423 else if c == 6 then 0xCFBA_9599 else if c == 7 then 0xB8BD_A50F else
    if c == 8 then 0x2802_B89E else if c == 9 then 0x5F05_8808 else if c == 10 then 0xC60C_D9B2 else if c == 11 then 0xB10B_E924 else
    if c == 12 then 0x2F6F_7C87 else if c == 13 then 0x5868_4C11 else if c == 14 then 0xC161_1DAB else 0xB666_2D3D
  }

  function Row4(c: bv32): bv32 {
    if c == 0 then 0x76DC_4190 else if c == 1 then 0x01DB_7106 else if c == 2 then 0x98D2_20BC else if c == 3 then 0xEFD5_102A else
    if c == 4 then 0x71B1_8589 else if c == 5 then 0x06B6_B51F else if c == 6 then 0x9FBF_E4A5 else if c == 7 then 0xE8B8_D433 else
    if c == 8 then 0x7807_C9A2 else if c == 9 then 0x0F00_F934 else if c == 10 then 0x9609_A88E else if c == 11 then 0xE10E_9818 else
    if c == 12 then 0x7F6A_0DBB else if c == 13 then 0x086D_3D2D else if c == 14 then 0x9164_6C97 else 0xE663_5C01
  }

  function Row5(c: bv32): bv32 {
    if c == 0 then 0x6B6B_51F4 else if c == 1 then 0x1C6C_6162 else if c == 2 then 0x8565_30D8 else if c == 3 then 0xF262_004E else
    if c == 4 then 0x6C06_95ED else if c == 5 then 0x1B01_A57B else if c == 6 then 0x8208_F4C1 else if c == 7 then 0xF50F_C457 else
    if c == 8 then 0x65B0_D9C6 else if c == 9 then 0x12B7_E950 else if c == 10 then 0x8BBE_B8EA else if c == 11 then 0xFCB9_887C else
    if c == 12 then 0x62DD_1DDF else if c == 13 then 0x15DA_2D49 else if c == 14 then 0x8CD3_7CF3 else 0xFBD4_4C65
  }

  function Row6(c: bv32): bv32 {
    if c == 0 then 0x4DB2_6158 else if c == 1 then 0x3AB5_51CE else if c == 2 then 0xA3BC_0074 else if c == 3 then 0xD4BB_30E2 else
    if c == 4 then 0x4ADF_A541 else if c == 5 then 0x3DD8_95D7 else if c == 6 then 0xA4D1_C46D else if c == 7 then 0xD3D6_F4FB else
    if c == 8 then 0x4369_E96A else if c == 9 then 0x346E_D9FC else if c == 10 then 0xAD67_8846 else if c == 11 then 0xDA60_B8D0 else
    if c == 12 then 0x4404_2D73 else if c == 13 then 0x3303_1DE5 else if c == 14 then 0xAA0A_4C5F else 0xDD0D_7CC9
  }

  function Row7(c: bv32): bv32 {
    if c == 0 then 0x5005_713C else if c == 1 then 0x2702_41AA else if c == 2 then 0xBE0B_1010 else if c == 3 then 0xC90C_2086 else
    if c == 4 then 0x5768_B525 else if c == 5 then 0x206F_85B3 else if c == 6 then 0xB966_D409 else if c == 7 then 0xCE61_E49F else
    if c == 8 then 0x5EDE_F90E else if c == 9 then 0x29D9_C998 else if c == 10 then 0xB0D0_9822 else if c == 11 then 0xC7D7_A8B4 else
    if c == 12 then 0x59B3_3D17 else if c == 13 then 0x2EB4_0D81 else if c == 14 then 0xB7BD_5C3B else 0xC0BA_6CAD
  }

  function Row8(c: bv32): bv32 {
    if c == 0 then 0xEDB8_8320 else if c == 1 then 0x9ABF_B3B6 else if c == 2 then 0x03B6_E20C else if c == 3 then 0x74B1_D29A else
    if c == 4 then 0xEAD5_4739 else if c == 5 then 0x9DD2_77AF else if c == 6 then 0x04DB_2615 else if c == 7 then 0x73DC_1683 else
    if c == 8 then 0xE363_0B12 else if c == 9 then 0x9464_3B84 else if c == 10 then 0x0D6D_6A3E else if c == 11 then 0x7A6A_5AA8 else
    if c == 12 then 0xE40E_CF0B else if c == 13 then 0x9309_FF9D else if c == 14 then 0x0A00_AE27 else 0x7D07_9EB1
  }

  function Row9(c: bv32): bv32 {
    if c == 0 then 0xF00F_9344 else if c == 1 then 0x8708_A3D2 else if c == 2 then 0x1E01_F268 else if c == 3 then 0x6906_C2FE else
    if c == 4 then 0xF762_575D else if c == 5 then 0x8065_67CB else if c == 6 then 0x196C_3671 else if c == 7 then 0x6E6B_06E7 else
    if c == 8 then 0xFED4_1B76 else if c == 9 then 0x89D3_2BE0 else if c == 10 then 0x10DA_7A5A else if c == 11 then 0x67DD_4ACC else
    if c == 12 then 0xF9B9_DF6F else if c == 13 then 0x8EBE_EFF9 else if c == 14 then 0x17B7_BE43 else 0x60B0_8ED5
  }

  function Row10(c: bv32): bv32 {
    if c == 0 then 0xD6D6_A3E8 else if c == 1 then 0xA1D1_937E else if c == 2 then 0x38D8_C2C4 else if c == 3 then 0x4FDF_F252 else
    if c == 4 then 0xD1BB_67F1 else if c == 5 then 0xA6BC_5767 else if c == 6 then 0x3FB5_06DD else if c == 7 then 0x48B2_364B else
    if c == 8 then 0xD80D_2BDA else if c == 9 then 0xAF0A_1B4C else if c == 10 then 0x3603_4AF6 else if c == 11 then 0x4104_7A60 else
    if c == 12 then 0xDF60_EFC3 else if c == 13 then 0xA867_DF55 else if c == 14 then 0x316E_8EEF else 0x4669_BE79
  }

  function Row11(c: bv32): bv32 {
    if c == 0 then 0xCB61_B38C else if c == 1 then 0xBC66_831A else if c == 2 then 0x256F_D2A0 else if c == 3 then 0x5268_E236 else
    if c == 4 then 0xCC0C_7795 else if c == 5 then 0xBB0B_4703 else if c == 6 then 0x2202_16B9 else if c == 7 then 0x5505_262F else
    if c == 8 then 0xC5BA_3BBE else if c == 9 then 0xB2BD_0B28 else if c == 10 then 0x2BB4_5A92 else if c == 11 then 0x5CB3_6A04 else
    if c == 12 then 0xC2D7_FFA7 else if c == 13 then 0xB5D0_CF31 else if c == 14 then 0x2CD9_9E8B else 0x5BDE_AE1D
  }

  function Row12(c: bv32): bv32 {
    if c == 0 then 0x9B64_C2B0 else if c == 1 then 0xEC63_F226 else if c == 2 then 0x756A_A39C else if c == 3 then 0x026D_930A else
    if c == 4 then 0x9C09_06A9 else if c == 5 then 0xEB0E_363F else if c == 6 then 0x7207_6785 else if c == 7 then 0x0500_5713 else
    if c == 8 then 0x95BF_4A82 else if c == 9 then 0xE2B8_7A14 else if c == 10 then 0x7BB1_2BAE else if c == 11 then 0x0CB6_1B38 else
    if c == 12 then 0x92D2_8E9B else if c == 13 then 0xE5D5_BE0D else if c == 14 then 0x7CDC_EFB7 else 0x0BDB_DF21
  }

  function Row13(c: bv32): bv32 {
    if c == 0 then 0x86D3_D2D4 else if c == 1 then 0xF1D4_E242 else if c == 2 then 0x68DD_B3F8 else if c == 3 then 0x1FDA_836E else
    if c == 4 then 0x81BE_16CD else if c == 5 then 0xF6B9_265B else if c == 6 then 0x6FB0_77E1 else if c == 7 then 0x18B7_4777 else
    if c == 8 then 0x8808_5AE6 else if c == 9 then 0xFF0F_6A70 else if c == 10 then 0x6606_3BCA else if c == 11 then 0x1101_0B5C else
    if c == 12 then 0x8F65_9EFF else if c == 13 then 0xF862_AE69 else if c == 14 then 0x616B_FFD3 else 0x166C_CF45
  }

  function Row14(c: bv32): bv32 {
    if c == 0 then 0xA00A_E278 else if c == 1 then 0xD70D_D2EE else if c == 2 then 0x4E04_8354 else if c == 3 then 0x3903_B3C2 else
    if c == 4 then 0xA767_2661 else if c == 5 then 0xD060_16F7 else if c == 6 then 0x4969_474D else if c == 7 then 0x3E6E_77DB else
    if c == 8 then 0xAED1_6A4A else if c == 9 then 0xD9D6_5ADC else if c == 10 then 0x40DF_0B66 else if c == 11 then 0x37D8_3BF0 else
    if c == 12 then 0xA9BC_AE53 else if c == 13 then 0xDEBB_9EC5 else if c == 14 then 0x47B2_CF7F else 0x30B5_FFE9
  }

  function Row15(c: bv32): bv32 {
    if c == 0 then 0xBDBD_F21C else if c == 1 then 0xCABA_C28A else if c == 2 then 0x53B3_9330 else if c == 3 then 0x24B4_A3A6 else
    if c == 4 then 0xBAD0_3605 else if c == 5 then 0xCDD7_0693 else if c == 6 then 0x54DE_5729 else if c == 7 then 0x23D9_67BF else
    if c == 8 then 0xB366_7A2E else if c == 9 then 0xC461_4AB8 else if c == 10 then 0x5D68_1B02 else if c == 11 then 0x2A6F_2B94 else
    if c == 12 then 0xB40B_BE37 else if c == 13 then 0xC30C_8EA1 else if c == 14 then 0x5A05_DF1B else 0x2D02_EF8D
  }

  function LowRows(r: bv32, c: bv32): bv32 {
    if r == 0 then Row0(c) else if r == 1 then Row1(c) else if r == 2 then Row2(c) else if r == 3 then Row3(c) else
    if r == 4 then Row4(c) else if r == 5 then Row5(c) else if r == 6 then Row6(c) else Row7(c)
  }

  function HighRows(r: bv32, c: bv32): bv32 {
    if r == 8 then Row8(c) else if r == 9 then Row9(c) else if r == 10 then Row10(c) else if r == 11 then Row11(c) else
    if r == 12 then Row12(c) else if r == 13 then Row13(c) else if r == 14 then Row14(c) else Row15(c)
  }

  function Table(i: bv32): bv32 {
    if i < 128 then LowRows(i >> 4, i & 15) else HighRows(i >> 4, i & 15)
  }

  lemma Row1IsShifted(c: bv32)
    requires c < 16
    ensures Row1(c) == Xor(0x1DB7_1064, Row0(c))
  {
  }

  lemma Row2IsShifted(c: bv32)
    requires c < 16
    ensures Row2(c) == Xor(0x3B6E_20C8, Row0(c))
  {
  }

  lemma Row3IsShifted(c: bv32)
    requires c < 16
    ensures Row3(c) == Xor(0x26D9_30AC, Row0(c))
  {
  }

  lemma Row4IsShifted(c: bv32)
    requires c < 16
    ensures Row4(c) == Xor(0x76DC_4190, Row0(c))
  {
  }

  lemma Row5IsShifted(c: bv32)
    requires c < 16
    ensures Row5(c) == Xor(0x6B6B_51F4, Row0(c))
  {
  }

  lemma Row6IsShifted(c: bv32)
    requires c < 16
    ensures Row6(c) == Xor(0x4DB2_6158, Row0(c))
  {
  }

  lemma Row7IsShifted(c: bv32)
    requires c < 16
    ensures Row7(c) == Xor(0x5005_713C, Row0(c))
  {
  }

  lemma Row8IsShifted(c: bv32)
    requires c < 16
    ensures Row8(c) == Xor(0xEDB8_8320, Row0(c))
  {
  }

  lemma Row9IsShifted(c: bv32)
    requires c < 16
    ensures Row9(c) == Xor(0xF00F_9344, Row0(c))
  {
  }

  lemma Row10IsShifted(c: bv32)
    requires c < 16
    ensures Row10(c) == Xor(0xD6D6_A3E8, Row0(c))
  {
  }

  lemma Row11IsShifted(c: bv32)
    requires c < 16
    ensures Row11(c) == Xor(0xCB61_B38C, Row0(c))
  {
  }

  lemma Row12IsShifted(c: bv32)
    requires c < 16
    ensures Row12(c) == Xor(0x9B64_C2B0, Row0(c))
  {
  }

  lemma Row13IsShifted(c: bv32)
    requires c < 16
    ensures Row13(c) == Xor(0x86D3_D2D4, Row0(c))
  {
  }

  lemma Row14IsShifted(c: bv32)
    requires c < 16
    ensures Row14(c) == Xor(0xA00A_E278, Row0(c))
  {
  }

  lemma Row15IsShifted(c: bv32)
    requires c < 16
    ensures Row15(c) == Xor(0xBDBD_F21C, Row0(c))
  {
  }

  lemma FirstRow(c: bv32)
    requires c < 16
    ensures Row0(c) == EightSteps(c)
  {
    if c < 4 {
    } else if c < 8 {
    } else if c < 12 {
    } else {
    }
  }

  lemma Multiples()
    ensures EightSteps(0) == 0x0000_0000 && EightSteps(16) == 0x1DB7_1064 && EightSteps(32) == 0x3B6E_20C8 && EightSteps(48) == 0x26D9_30AC
    ensures EightSteps(64) == 0x76DC_4190 && EightSteps(80) == 0x6B6B_51F4 && EightSteps(96) == 0x4DB2_6158 && EightSteps(112) == 0x5005_713C
    ensures EightSteps(128) == 0xEDB8_8320 && EightSteps(144) == 0xF00F_9344 && EightSteps(160) == 0xD6D6_A3E8 && EightSteps(176) == 0xCB61_B38C
    ensures EightSteps(192) == 0x9B64_C2B0 && EightSteps(208) == 0x86D3_D2D4 && EightSteps(224) == 0xA00A_E278 && EightSteps(240) == 0xBDBD_F21C
  {
  }

  lemma CancelBoth(a: bv32, b: bv32)
    ensures (0xEDB8_8320 ^ a) ^ (0xEDB8_8320 ^ b) == a ^ b
  {
  }

  lemma CancelOne(a: bv32, b: bv32)
    ensures (0xEDB8_8320 ^ a) ^ b == a ^ (0xEDB8_8320 ^ b) == 0xEDB8_8320 ^ (a ^ b)
  {
  }

  lemma ShiftXor(x: bv32, y: bv32)
    ensures (x ^ y) >> 1 == (x >> 1) ^ (y >> 1)
  {
  }

  lemma LowBitXor(x: bv32, y: bv32)
    ensures x & 1 == 1 && y & 1 == 1 ==> (x ^ y) & 1 != 1
    ensures x & 1 == 1 && y & 1 != 1 ==> (x ^ y) & 1 == 1
    ensures x & 1 != 1 && y & 1 == 1 ==> (x ^ y) & 1 == 1
    ensures x & 1 != 1 && y & 1 != 1 ==> (x ^ y) & 1 != 1
  {
  }

  /** The division is linear. */
  lemma BitStepLinear(x: bv32, y: bv32)
    ensures BitStep(Xor(x, y)) == Xor(BitStep(x), BitStep(y))
  {
    ShiftXor(x, y);
    LowBitXor(x, y);
    CancelBoth(x >> 1, y >> 1);
    CancelOne(x >> 1, y >> 1);
  }

  lemma EightLinear(x: bv32, y: bv32)
    ensures EightSteps(Xor(x, y)) == Xor(EightSteps(x), EightSteps(y))
  {
    hide BitStep, Xor;
    var x1, y1 := BitStep(x), BitStep(y);
    var x2, y2 := BitStep(x1), BitStep(y1);
    var x3, y3 := BitStep(x2), BitStep(y2);
    var x4, y4 := BitStep(x3), BitStep(y3);
    var x5, y5 := BitStep(x4), BitStep(y4);
    var x6, y6 := BitStep(x5), BitStep(y5);
    var x7, y7 := BitStep(x6), BitStep(y6);
    BitStepLinear(x, y);
    BitStepLinear(x1, y1);
    BitStepLinear(x2, y2);
    BitStepLinear(x3, y3);
    BitStepLinear(x4, y4);
    BitStepLinear(x5, y5);
    BitStepLinear(x6, y6);
    BitStepLinear(x7, y7);
  }

  lemma LowEntry(i: bv32)
    requires 0 <= i < 128
    ensures LowRows(i >> 4, i & 15) == Xor(EightSteps(i & 0xF0), Row0(i & 15))
  {
    hide EightSteps, Xor, Row0, Row1, Row2, Row3, Row4, Row5, Row6, Row7;
    var c := i & 15;
    assert 0 <= i >> 4 < 8 && c < 16;
    Multiples();
    if i >> 4 == 0 {
      Nibble(i, 0);
      Xor0(c);
    } else if i >> 4 == 1 {
      Nibble(i, 16);
      Row1IsShifted(c);
    } else if i >> 4 == 2 {
      Nibble(i, 32);
      Row2IsShifted(c);
    } else if i >> 4 == 3 {
      Nibble(i, 48);
      Row3IsShifted(c);
    } else if i >> 4 == 4 {
      Nibble(i, 64);
      Row4IsShifted(c);
    } else if i >> 4 == 5 {
      Nibble(i, 80);
      Row5IsShifted(c);
    } else if i >> 4 == 6 {
      Nibble(i, 96);
      Row6IsShifted(c);
    } else {
      Nibble(i, 112);
      Row7IsShifted(c);
    }
  }

  lemma HighEntry(i: bv32)
    requires 128 <= i < 256
    ensures HighRows(i >> 4, i & 15) == Xor(EightSteps(i & 0xF0), Row0(i & 15))
  {
    hide EightSteps, Xor, Row8, Row9, Row10, Row11, Row12, Row13, Row14, Row15;
    var c := i & 15;
    assert 8 <= i >> 4 < 16 && c < 16;
    Multiples();
    if i >> 4 == 8 {
      Nibble(i, 128);
      Row8IsShifted(c);
    } else if i >> 4 == 9 {
      Nibble(i, 144);
      Row9IsShifted(c);
    } else if i >> 4 == 10 {
      Nibble(i, 160);
      Row10IsShifted(c);
    } else if i >> 4 == 11 {
      Nibble(i, 176);
      Row11IsShifted(c);
    } else if i >> 4 == 12 {
      Nibble(i, 192);
      Row12IsShifted(c);
    } else if i >> 4 == 13 {
      Nibble(i, 208);
      Row13IsShifted(c);
    } else if i >> 4 == 14 {
      Nibble(i, 224);
      Row14IsShifted(c);
    } else {
      Nibble(i, 240);
      Row15IsShifted(c);
    }
  }

  /** Every table entry is eight steps of the division applied to its index. */
  lemma TableEntry(i: bv32)
    requires i < 256
    ensures Table(i) == EightSteps(i)
  {
    hide EightSteps, LowRows, HighRows, Xor, Row0;
    if i < 128 {
      LowEntry(i);
    } else {
      HighEntry(i);
    }
    Nibbles(i);
    FirstRow(i & 15);
    EightLinear(i & 0xF0, i & 15);
  }

  lemma Nibble(i: bv32, high: bv32)
    requires i < 256 && i >> 4 == high >> 4 && high & 15 == 0
    ensures i & 0xF0 == high
  {
  }

  lemma Nibbles(i: bv32)
    requires i < 256
    ensures Xor(i & 0xF0, i & 15) == i && i & 15 < 16
  {
  }

  lemma Xor0(c: bv32)
    ensures Row0(c) == Xor(EightSteps(0), Row0(c))
  {
  }

  function LowByte(x: bv32): bv32 {
    x & 0xFF
  }

  function HighPart(x: bv32): bv32 {
    x >> 8
  }

  function Raise(x: bv32): bv32 {
    x << 8
  }

  lemma HighBytes(y: bv32)
    requires y < 0x100_0000
    ensures EightSteps(Raise(y)) == y
  {
  }

  lemma SplitLow(x: bv32)
    ensures x == Xor(LowByte(x), Raise(HighPart(x)))
    ensures LowByte(x) < 256 && HighPart(x) < 0x100_0000
  {
  }

  lemma ShiftPast(c: bv32, b: bv8)
    ensures HighPart(Xor(c, b as bv32)) == HighPart(c)
  {
  }

  function TableUpdate(c: bv32, b: bv8): bv32 {
    Xor(Table(LowByte(Xor(c, b as bv32))), HighPart(c))
  }

  /** Only the low byte needs the table; the rest shifts down. */
  lemma TableStep(c: bv32, b: bv8)
    ensures TableUpdate(c, b) == ByteStep(c, b)
  {
    hide Table, EightSteps, Xor, LowByte, HighPart, Raise;
    var x := Xor(c, b as bv32);
    SplitLow(x);
    ShiftPast(c, b);
    TableEntry(LowByte(x));
    EightLinear(LowByte(x), Raise(HighPart(x)));
    HighBytes(HighPart(x));
  }

  /** The table-driven loop computes the bitwise checksum. */
  method Checksum(data: seq<bv8>) returns (crc: bv32)
    ensures crc == Bitwise(data)
  {
    hide TableUpdate, ByteStep, Xor;
    crc := 0xFFFF_FFFF;
    var i := 0;
    while i < |data|
      invariant 0 <= i <= |data|
      invariant Run(crc, data[i..]) == Run(0xFFFF_FFFF, data)
    {
      TableStep(crc, data[i]);
      assert data[i..][1..] == data[i + 1..];
      crc := TableUpdate(crc, data[i]);
      i := i + 1;
    }
    crc := Xor(crc, 0xFFFF_FFFF);
  }

  lemma BitStepInjective(x: bv32, y: bv32)
    ensures BitStep(x) == BitStep(y) ==> x == y
  {
  }

  lemma Different(c: bv32, x: bv32, y: bv32)
    requires x != y
    ensures Xor(c, x) != Xor(c, y) && Xor(x, c) != Xor(y, c)
  {
  }

  function Bit(b: bool): bv32 {
    if b then 1 else 0
  }

  /** The register after single bits. */
  function RunBits(c: bv32, bits: seq<bool>): bv32
    decreases |bits|
  {
    if bits == [] then c else RunBits(BitStep(Xor(c, Bit(bits[0]))), bits[1..])
  }

  /** The bits of a byte in the order in which they enter the register: lowest first. */
  function LowFirst(b: bv8): (bits: seq<bool>)
    ensures |bits| == 8
  {
    [b & 1 != 0, b & 2 != 0, b & 4 != 0, b & 8 != 0, b & 16 != 0, b & 32 != 0, b & 64 != 0, b & 128 != 0]
  }

  function BitsIn(data: seq<bv8>): (bits: seq<bool>)
    ensures |bits| == 8 * |data|
  {
    if data == [] then [] else LowFirst(data[0]) + BitsIn(data[1..])
  }

  lemma LowFirstInjective(a: bv8, b: bv8)
    requires LowFirst(a) == LowFirst(b)
    ensures a == b
  {
    var v, w := LowFirst(a), LowFirst(b);
    assert v[0] == w[0] && v[1] == w[1] && v[2] == w[2] && v[3] == w[3];
    assert v[4] == w[4] && v[5] == w[5] && v[6] == w[6] && v[7] == w[7];
    EightBits(a, b);
  }

  lemma EightBits(a: bv8, b: bv8)
    requires (a & 1 != 0) == (b & 1 != 0) && (a & 2 != 0) == (b & 2 != 0)
    requires (a & 4 != 0) == (b & 4 != 0) && (a & 8 != 0) == (b & 8 != 0)
    requires (a & 16 != 0) == (b & 16 != 0) && (a & 32 != 0) == (b & 32 != 0)
    requires (a & 64 != 0) == (b & 64 != 0) && (a & 128 != 0) == (b & 128 != 0)
    ensures a == b
  {
  }

  lemma {:induction false} BitsInInjective(a: seq<bv8>, b: seq<bv8>)
    requires BitsIn(a) == BitsIn(b)
    ensures a == b
    decreases |a|
  {
    hide LowFirst;
    if a != [] {
      var x, y := BitsIn(a), BitsIn(b);
      assert x[..8] == LowFirst(a[0]) && y[..8] == LowFirst(b[0]);
      assert x[8..] == BitsIn(a[1..]) && y[8..] == BitsIn(b[1..]);
      LowFirstInjective(a[0], b[0]);
      BitsInInjective(a[1..], b[1..]);
      assert a == [a[0]] + a[1..] && b == [b[0]] + b[1..];
    }
  }

  /** At most 32 bits as a number, first bit lowest. */
  function Word(w: seq<bool>): bv32 {
    if w == [] then 0 else Above(w[0], Word(w[1..]))
  }

  function Above(b: bool, rest: bv32): bv32 {
    if b then (rest << 1) | 1 else rest << 1
  }

  function Steps(c: bv32, n: nat): bv32
    decreases n
  {
    if n == 0 then c else Steps(BitStep(c), n - 1)
  }

  lemma {:induction false} StepsInjective(c: bv32, d: bv32, n: nat)
    requires c != d
    ensures Steps(c, n) != Steps(d, n)
    decreases n
  {
    hide BitStep;
    if n > 0 {
      BitStepInjective(c, d);
      StepsInjective(BitStep(c), BitStep(d), n - 1);
    }
  }

  function Up(x: bv32): bv32 {
    x << 1
  }

  /** Every bit but the n lowest. */
  function High(n: nat): bv32 {
    if n == 0 then 0xFFFF_FFFF else Up(High(n - 1))
  }

  /** Every bit of y is one of x. */
  predicate Inside(y: bv32, x: bv32) {
    x | y == x
  }

  lemma UpInside(y: bv32, x: bv32)
    requires Inside(y, x)
    ensures Inside(Up(y), Up(x))
  {
  }

  lemma {:induction false} HighShrinks(n: nat)
    ensures Inside(Up(High(n)), High(n))
  {
    hide Inside, Up;
    if n == 0 {
      AllInside();
    } else {
      HighShrinks(n - 1);
      UpInside(Up(High(n - 1)), High(n - 1));
    }
  }

  lemma AllInside()
    ensures Inside(Up(0xFFFF_FFFF), 0xFFFF_FFFF)
  {
  }

  lemma TopInside(y: bv32, x: bv32)
    requires Inside(y, x) && Inside(0x8000_0000, y)
    ensures Inside(0x8000_0000, x)
  {
  }

  lemma HighOf31()
    ensures High(31) == 0x8000_0000
  {
    assert High(2) == 0xFFFF_FFFC;
    assert High(4) == 0xFFFF_FFF0;
    assert High(6) == 0xFFFF_FFC0;
    assert High(8) == 0xFFFF_FF00;
    assert High(10) == 0xFFFF_FC00;
    assert High(12) == 0xFFFF_F000;
    assert High(14) == 0xFFFF_C000;
    assert High(16) == 0xFFFF_0000;
    assert High(18) == 0xFFFC_0000;
    assert High(20) == 0xFFF0_0000;
    assert High(22) == 0xFFC0_0000;
    assert High(24) == 0xFF00_0000;
    assert High(26) == 0xFC00_0000;
    assert High(28) == 0xF000_0000;
    assert High(30) == 0xC000_0000;
  }

  /** The topmost bit is beyond 31 bits and fewer. */
  lemma {:induction false} TopIsHigh(n: nat)
    requires n < 32
    ensures Inside(0x8000_0000, High(n))
    decreases 32 - n
  {
    hide Inside, Up;
    if n == 31 {
      HighOf31();
      TopItself();
    } else {
      TopIsHigh(n + 1);
      HighShrinks(n);
      TopInside(High(n + 1), High(n));
    }
  }

  lemma TopItself()
    ensures Inside(0x8000_0000, 0x8000_0000)
  {
  }

  predicate Apart(x: bv32, high: bv32) {
    x & high == 0
  }

  /** The number has no more than n bits. */
  ghost predicate Fits(n: nat, x: bv32) {
    Apart(x, High(n))
  }

  lemma AboveApart(b: bool, rest: bv32, high: bv32)
    requires Apart(rest, high)
    ensures Apart(Above(b, rest), Up(high))
  {
    if b {
    } else {
    }
  }

  lemma NoTop(x: bv32, high: bv32)
    requires Apart(x, high) && Inside(0x8000_0000, high)
    ensures Apart(x, 0x8000_0000)
  {
  }

  lemma AboveFits(n: nat, b: bool, rest: bv32)
    requires n < 32 && Fits(n, rest)
    ensures Fits(n + 1, Above(b, rest)) && Apart(rest, 0x8000_0000)
  {
    hide Above, Inside, Apart, Up;
    TopIsHigh(n);
    NoTop(rest, High(n));
    AboveApart(b, rest, High(n));
  }

  lemma {:induction false} WordFits(w: seq<bool>)
    requires |w| <= 32
    ensures Fits(|w|, Word(w))
  {
    hide Fits, Above;
    if w == [] {
      NothingFits();
    } else {
      WordFits(w[1..]);
      AboveFits(|w| - 1, w[0], Word(w[1..]));
    }
  }

  lemma NothingFits()
    ensures Fits(0, 0)
  {
  }

  lemma AboveIsXor(c: bv32, b: bool, rest: bv32)
    ensures Xor(c, Above(b, rest)) == Xor(Xor(c, Bit(b)), rest << 1)
  {
    if b {
    } else {
    }
  }

  lemma HighBits(y: bv32)
    requires Apart(y, 0x8000_0000)
    ensures BitStep(y << 1) == y
  {
  }

  lemma BitThenRest(c: bv32, b: bool, rest: bv32)
    requires Apart(rest, 0x8000_0000)
    ensures Xor(BitStep(Xor(c, Bit(b))), rest) == BitStep(Xor(c, Above(b, rest)))
  {
    hide BitStep, Xor, Above, Bit, Apart;
    AboveIsXor(c, b, rest);
    HighBits(rest);
    BitStepLinear(Xor(c, Bit(b)), rest << 1);
  }

  lemma XorZero(c: bv32)
    ensures Xor(c, 0) == c
  {
  }

  /** Up to 32 bits enter the register like one word. */
  lemma {:induction false} RunWord(c: bv32, w: seq<bool>)
    requires |w| <= 32
    ensures RunBits(c, w) == Steps(Xor(c, Word(w)), |w|)
    decreases |w|
  {
    hide BitStep, Xor, Above, Bit, Fits, Apart;
    if w == [] {
      XorZero(c);
    } else {
      WordFits(w[1..]);
      AboveFits(|w| - 1, w[0], Word(w[1..]));
      BitThenRest(c, w[0], Word(w[1..]));
      RunWord(BitStep(Xor(c, Bit(w[0]))), w[1..]);
    }
  }

  lemma WordOfByte(b: bv8)
    ensures Word(LowFirst(b)) == b as bv32
  {
    hide Above, Word;
    WordOfEight(b & 1 != 0, b & 2 != 0, b & 4 != 0, b & 8 != 0, b & 16 != 0, b & 32 != 0, b & 64 != 0, b & 128 != 0);
    ByteOfEight(b);
  }

  lemma WordOfEight(a: bool, b: bool, c: bool, d: bool, e: bool, f: bool, g: bool, h: bool)
    ensures Word([a, b, c, d, e, f, g, h])
         == Above(a, Above(b, Above(c, Above(d, Above(e, Above(f, Above(g, Above(h, 0))))))))
  {
    hide Above;
    assert [h][1..] == [] && [g, h][1..] == [h] && [f, g, h][1..] == [g, h] && [e, f, g, h][1..] == [f, g, h];
    assert [d, e, f, g, h][1..] == [e, f, g, h] && [c, d, e, f, g, h][1..] == [d, e, f, g, h];
    assert [b, c, d, e, f, g, h][1..] == [c, d, e, f, g, h] && [a, b, c, d, e, f, g, h][1..] == [b, c, d, e, f, g, h];
    assert Word([h]) == Above(h, 0);
    assert Word([f, g, h]) == Above(f, Above(g, Word([h])));
    assert Word([d, e, f, g, h]) == Above(d, Above(e, Word([f, g, h])));
    assert Word([b, c, d, e, f, g, h]) == Above(b, Above(c, Word([d, e, f, g, h])));
  }

  lemma ByteOfEight(b: bv8)
    ensures Above(b & 1 != 0, Above(b & 2 != 0, Above(b & 4 != 0, Above(b & 8 != 0,
              Above(b & 16 != 0, Above(b & 32 != 0, Above(b & 64 != 0, Above(b & 128 != 0, 0)))))))) == b as bv32
  {
  }

  lemma EightAreSteps(c: bv32)
    ensures Steps(c, 8) == EightSteps(c)
  {
    hide BitStep;
  }

  /** Bytes enter the register bit by bit. */
  lemma {:induction false} RunIsRunBits(c: bv32, data: seq<bv8>)
    ensures Run(c, data) == RunBits(c, BitsIn(data))
    decreases |data|
  {
    hide EightSteps, Xor, LowFirst, Word, Steps, RunBits;
    if data == [] {
      NoBits(c);
    } else {
      var first := LowFirst(data[0]);
      RunWord(c, first);
      WordOfByte(data[0]);
      EightAreSteps(Xor(c, data[0] as bv32));
      RunBitsConcat(c, first, BitsIn(data[1..]));
      RunIsRunBits(ByteStep(c, data[0]), data[1..]);
    }
  }

  lemma NoBits(c: bv32)
    ensures RunBits(c, []) == c
  {
  }

  lemma {:induction false} RunBitsConcat(c: bv32, a: seq<bool>, b: seq<bool>)
    ensures RunBits(c, a + b) == RunBits(RunBits(c, a), b)
    decreases |a|
  {
    hide BitStep, Xor, Bit;
    if a == [] {
      assert a + b == b;
    } else {
      assert (a + b)[1..] == a[1..] + b;
      RunBitsConcat(BitStep(Xor(c, Bit(a[0]))), a[1..], b);
    }
  }

  /** Different registers stay different over the same bits. */
  lemma {:induction false} RunBitsInjective(c: bv32, d: bv32, bits: seq<bool>)
    requires c != d
    ensures RunBits(c, bits) != RunBits(d, bits)
    decreases |bits|
  {
    hide BitStep, Xor, Bit;
    if bits != [] {
      Different(Bit(bits[0]), c, d);
      BitStepInjective(Xor(c, Bit(bits[0])), Xor(d, Bit(bits[0])));
      RunBitsInjective(BitStep(Xor(c, Bit(bits[0]))), BitStep(Xor(d, Bit(bits[0]))), bits[1..]);
    }
  }

  lemma AboveInjective(b: bool, d: bool, x: bv32, y: bv32)
    requires Apart(x, 0x8000_0000) && Apart(y, 0x8000_0000) && Above(b, x) == Above(d, y)
    ensures b == d && x == y
  {
    if b {
    } else {
    }
  }

  lemma {:induction false} WordInjective(v: seq<bool>, w: seq<bool>)
    requires |v| == |w| <= 32 && Word(v) == Word(w)
    ensures v == w
  {
    hide Above, Fits, Apart;
    if v != [] {
      WordFits(v[1..]);
      WordFits(w[1..]);
      AboveFits(|v| - 1, v[0], Word(v[1..]));
      AboveFits(|w| - 1, w[0], Word(w[1..]));
      AboveInjective(v[0], w[0], Word(v[1..]), Word(w[1..]));
      WordInjective(v[1..], w[1..]);
      assert v == [v[0]] + v[1..] && w == [w[0]] + w[1..];
    }
  }

  /** Up to 32 different bits leave the register different, whatever surrounds them. */
  lemma BitsDetected(c: bv32, before: seq<bool>, v: seq<bool>, w: seq<bool>, after: seq<bool>)
    requires |v| == |w| <= 32 && v != w
    ensures RunBits(c, before + v + after) != RunBits(c, before + w + after)
  {
    hide RunBits, Steps, Word, Xor;
    var d := RunBits(c, before);
    RunBitsConcat(c, before, v);
    RunBitsConcat(c, before, w);
    RunBitsConcat(c, before + v, after);
    RunBitsConcat(c, before + w, after);
    RunWord(d, v);
    RunWord(d, w);
    if Word(v) == Word(w) {
      WordInjective(v, w);
    }
    Different(d, Word(v), Word(w));
    StepsInjective(Xor(d, Word(v)), Xor(d, Word(w)), |v|);
    RunBitsInjective(RunBits(d, v), RunBits(d, w), after);
  }

  lemma Parts(x: seq<bool>, lo: nat, hi: nat)
    requires lo <= hi <= |x|
    ensures x == x[..lo] + x[lo..hi] + x[hi..]
  {
  }

  lemma WindowDetected(c: bv32, x: seq<bool>, y: seq<bool>, i: nat)
    requires |x| == |y| && x != y
    requires forall k :: 0 <= k < |x| && (k < i || i + 32 <= k) ==> x[k] == y[k]
    ensures RunBits(c, x) != RunBits(c, y)
  {
    hide RunBits;
    var lo, hi := if i < |x| then i else |x|, if i + 32 < |x| then i + 32 else |x|;
    Parts(x, lo, hi);
    Parts(y, lo, hi);
    assert x[..lo] == y[..lo] && x[hi..] == y[hi..];
    BitsDetected(c, x[..lo], x[lo..hi], y[lo..hi], x[hi..]);
  }

  /** Every burst of at most 32 bits is detected: two inputs of one length whose bits differ only
      between positions i and i + 32, at any alignment, have different checksums. */
  lemma BurstDetected(a: seq<bv8>, b: seq<bv8>, i: nat)
    requires |a| == |b| && a != b
    requires forall k :: 0 <= k < 8 * |a| && (k < i || i + 32 <= k) ==> BitsIn(a)[k] == BitsIn(b)[k]
    ensures Bitwise(a) != Bitwise(b)
  {
    hide Run, RunBits, Xor, BitsIn;
    var x, y := BitsIn(a), BitsIn(b);
    RunIsRunBits(0xFFFF_FFFF, a);
    RunIsRunBits(0xFFFF_FFFF, b);
    if x == y {
      BitsInInjective(a, b);
    }
    WindowDetected(0xFFFF_FFFF, x, y, i);
    Different(0xFFFF_FFFF, Run(0xFFFF_FFFF, a), Run(0xFFFF_FFFF, b));
  }
}
