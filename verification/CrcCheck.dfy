/** Which of the many checksums that share a polynomial this one is: what it makes of a message that
    ends in its own checksum, and its value on the customary nine digits. */
module CrcCheck {
  import opened Crc

  lemma {:induction false} RunConcat(c: bv32, a: seq<bv8>, b: seq<bv8>)
    ensures Run(c, a + b) == Run(Run(c, a), b)
    decreases |a|
  {
    hide ByteStep;
    if a == [] {
      assert a + b == b;
    } else {
      assert (a + b)[1..] == a[1..] + b;
      RunConcat(ByteStep(c, a[0]), a[1..], b);
    }
  }

  function Low(c: bv32): bv8 {
    (c & 0xFF) as bv8
  }

  function Down(c: bv32): bv32 {
    c >> 8
  }

  function Eighth(c: bv32): bv32 {
    c << 8
  }

  lemma LowAndRest(r: bv32, c: bv32)
    ensures Xor(r, c) == Xor(Xor(r, Low(c) as bv32), Eighth(Down(c)))
  {
  }

  predicate TopClear(x: bv32) {
    x & 0x8000_0000 == 0
  }

  lemma Lifted(d: bv32)
    requires d & 0xFF00_0000 == 0
    ensures TopClear(d) && TopClear(Up(d)) && TopClear(Up(Up(d))) && TopClear(Up(Up(Up(d))))
    ensures TopClear(Up(Up(Up(Up(d))))) && TopClear(Up(Up(Up(Up(Up(d)))))) && TopClear(Up(Up(Up(Up(Up(Up(d)))))))
    ensures TopClear(Up(Up(Up(Up(Up(Up(Up(d))))))))
    ensures Up(Up(Up(Up(Up(Up(Up(Up(d)))))))) == Eighth(d)
  {
  }

  lemma UpAndStep(x: bv32)
    requires TopClear(x)
    ensures BitStep(Up(x)) == x
  {
    HighBits(x);
  }

  lemma RestIsSmall(c: bv32)
    ensures Down(c) & 0xFF00_0000 == 0
  {
  }

  /** What does not reach the low byte is only moved. */
  lemma RestMoves(c: bv32)
    ensures EightSteps(Eighth(Down(c))) == Down(c)
  {
    hide BitStep, TopClear, Up, Down, Eighth;
    var d := Down(c);
    RestIsSmall(c);
    Lifted(d);
    UpAndStep(Up(Up(Up(Up(Up(Up(Up(d))))))));
    UpAndStep(Up(Up(Up(Up(Up(Up(d)))))));
    UpAndStep(Up(Up(Up(Up(Up(d))))));
    UpAndStep(Up(Up(Up(Up(d)))));
    UpAndStep(Up(Up(Up(d))));
    UpAndStep(Up(Up(d)));
    UpAndStep(Up(d));
    UpAndStep(d);
  }

  lemma LowByteEnters(r: bv32, c: bv32)
    ensures EightSteps(Xor(r, c)) == Xor(ByteStep(r, Low(c)), Down(c))
  {
    hide EightSteps, Xor, Low, Eighth, Down;
    LowAndRest(r, c);
    RestMoves(c);
    EightLinear(Xor(r, Low(c) as bv32), Eighth(Down(c)));
  }

  /** The four bytes of a word, lowest first. */
  function LowestFirst(c: bv32): (bytes: seq<bv8>)
    ensures |bytes| == 4
  {
    [(c & 0xFF) as bv8, ((c >> 8) & 0xFF) as bv8, ((c >> 16) & 0xFF) as bv8, ((c >> 24) & 0xFF) as bv8]
  }

  lemma LowestAre(c: bv32)
    ensures LowestFirst(c) == [Low(c), Low(Down(c)), Low(Down(Down(c))), Low(Down(Down(Down(c))))]
  {
  }

  lemma NothingLeft(r: bv32, c: bv32)
    ensures Xor(r, Down(Down(Down(Down(c))))) == r
  {
  }

  /** Four bytes enter the register like one word. */
  lemma FourSteps(r: bv32, c: bv32)
    ensures Run(r, LowestFirst(c)) == EightSteps(EightSteps(EightSteps(EightSteps(Xor(r, c)))))
  {
    hide EightSteps, Xor, ByteStep, Low, Down, LowestFirst;
    var b := LowestFirst(c);
    LowestAre(c);
    assert b[1..] == [b[1], b[2], b[3]] && b[1..][1..] == [b[2], b[3]] && b[1..][1..][1..] == [b[3]] && b[1..][1..][1..][1..] == [];
    var r1 := ByteStep(r, b[0]);
    var r2 := ByteStep(r1, b[1]);
    var r3 := ByteStep(r2, b[2]);
    var r4 := ByteStep(r3, b[3]);
    assert Run(r3, b[1..][1..][1..]) == Run(r4, []) == r4;
    assert Run(r2, b[1..][1..]) == r4;
    LowByteEnters(r, c);
    LowByteEnters(r1, Down(c));
    LowByteEnters(r2, Down(Down(c)));
    LowByteEnters(r3, Down(Down(Down(c))));
    NothingLeft(r4, c);
  }

  lemma Complement(r: bv32)
    ensures Xor(r, Xor(r, 0xFFFF_FFFF)) == 0xFFFF_FFFF
  {
  }

  lemma OnesDivided()
    ensures Xor(EightSteps(EightSteps(EightSteps(EightSteps(0xFFFF_FFFF)))), 0xFFFF_FFFF) == 0x2144_DF1C
  {
    assert EightSteps(0xFFFF_FFFF) == 0x2DFD_1072;
    assert EightSteps(0x2DFD_1072) == 0xBE26_ED00;
    assert EightSteps(0xBE26_ED00) == 0x00BE_26ED;
    assert EightSteps(0x00BE_26ED) == 0xDEBB_20E3;
  }

  /** Data followed by its own checksum, low byte first, always has the same checksum. */
  lemma Residue(data: seq<bv8>)
    ensures Bitwise(data + LowestFirst(Bitwise(data))) == 0x2144_DF1C
  {
    hide Run, EightSteps, Xor, LowestFirst;
    var r, c := Run(0xFFFF_FFFF, data), Bitwise(data);
    RunConcat(0xFFFF_FFFF, data, LowestFirst(c));
    FourSteps(r, c);
    Complement(r);
    OnesDivided();
  }

  lemma Digit1()
    ensures ByteStep(0xFFFF_FFFF, 0x31) == 0x7C23_1048
  {
    assert EightSteps(0xFFFF_FFCE) == 0x7C23_1048;
  }

  lemma Digit2()
    ensures ByteStep(0x7C23_1048, 0x32) == 0xB0AC_BB32
  {
    assert EightSteps(0x7C23_107A) == 0xB0AC_BB32;
  }

  lemma Digit3()
    ensures ByteStep(0xB0AC_BB32, 0x33) == 0x77B7_9C2D
  {
    assert EightSteps(0xB0AC_BB01) == 0x77B7_9C2D;
  }

  lemma Digit4()
    ensures ByteStep(0x77B7_9C2D, 0x34) == 0x641C_1F5C
  {
    assert EightSteps(0x77B7_9C19) == 0x641C_1F5C;
  }

  lemma Digit5()
    ensures ByteStep(0x641C_1F5C, 0x35) == 0x340A_C5E3
  {
    assert EightSteps(0x641C_1F69) == 0x340A_C5E3;
  }

  lemma Digit6()
    ensures ByteStep(0x340A_C5E3, 0x36) == 0xF68D_2C9E
  {
    assert EightSteps(0x340A_C5D5) == 0xF68D_2C9E;
  }

  lemma Digit7()
    ensures ByteStep(0xF68D_2C9E, 0x37) == 0xAFFC_9660
  {
    assert EightSteps(0xF68D_2CA9) == 0xAFFC_9660;
  }

  lemma Digit8()
    ensures ByteStep(0xAFFC_9660, 0x38) == 0x651F_2550
  {
    assert EightSteps(0xAFFC_9658) == 0x651F_2550;
  }

  lemma Digit9()
    ensures ByteStep(0x651F_2550, 0x39) == 0x340B_C6D9
  {
    assert EightSteps(0x651F_2569) == 0x340B_C6D9;
  }

  lemma LastDigits()
    ensures Run(0x641C_1F5C, [0x35, 0x36, 0x37, 0x38, 0x39]) == 0x340B_C6D9
  {
    hide ByteStep;
    Digit9();
    assert [0x39 as bv8][1..] == [];
    assert Run(0x651F_2550, [0x39]) == 0x340B_C6D9;
    Digit8();
    assert [0x38, 0x39][1..] == [0x39];
    assert Run(0xAFFC_9660, [0x38, 0x39]) == 0x340B_C6D9;
    Digit7();
    assert [0x37, 0x38, 0x39][1..] == [0x38, 0x39];
    assert Run(0xF68D_2C9E, [0x37, 0x38, 0x39]) == 0x340B_C6D9;
    Digit6();
    assert [0x36, 0x37, 0x38, 0x39][1..] == [0x37, 0x38, 0x39];
    assert Run(0x340A_C5E3, [0x36, 0x37, 0x38, 0x39]) == 0x340B_C6D9;
    Digit5();
    assert [0x35, 0x36, 0x37, 0x38, 0x39][1..] == [0x36, 0x37, 0x38, 0x39];
    assert Run(0x641C_1F5C, [0x35, 0x36, 0x37, 0x38, 0x39]) == 0x340B_C6D9;
  }

  /** The checksum of the digits 1 to 9. */
  lemma NineDigits()
    ensures Bitwise([0x31, 0x32, 0x33, 0x34, 0x35, 0x36, 0x37, 0x38, 0x39]) == 0xCBF4_3926
    ensures Bitwise([]) == 0
  {
    hide ByteStep;
    assert Run(0xFFFF_FFFF, []) == 0xFFFF_FFFF;
    LastDigits();
    Digit4();
    assert [0x34, 0x35, 0x36, 0x37, 0x38, 0x39][1..] == [0x35, 0x36, 0x37, 0x38, 0x39];
    assert Run(0x77B7_9C2D, [0x34, 0x35, 0x36, 0x37, 0x38, 0x39]) == 0x340B_C6D9;
    Digit3();
    assert [0x33, 0x34, 0x35, 0x36, 0x37, 0x38, 0x39][1..] == [0x34, 0x35, 0x36, 0x37, 0x38, 0x39];
    assert Run(0xB0AC_BB32, [0x33, 0x34, 0x35, 0x36, 0x37, 0x38, 0x39]) == 0x340B_C6D9;
    Digit2();
    assert [0x32, 0x33, 0x34, 0x35, 0x36, 0x37, 0x38, 0x39][1..] == [0x33, 0x34, 0x35, 0x36, 0x37, 0x38, 0x39];
    assert Run(0x7C23_1048, [0x32, 0x33, 0x34, 0x35, 0x36, 0x37, 0x38, 0x39]) == 0x340B_C6D9;
    Digit1();
    assert [0x31, 0x32, 0x33, 0x34, 0x35, 0x36, 0x37, 0x38, 0x39][1..] == [0x32, 0x33, 0x34, 0x35, 0x36, 0x37, 0x38, 0x39];
    assert Run(0xFFFF_FFFF, [0x31, 0x32, 0x33, 0x34, 0x35, 0x36, 0x37, 0x38, 0x39]) == 0x340B_C6D9;
  }
}
