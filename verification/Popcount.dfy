/** The portable population count: shifts, masks and one multiplication count the set bits of a
    64-bit word. */
module Popcount {
  import opened Bits
  import RankedBits

  function Shift1(x: bv64): bv64 {
    x >> 1
  }

  function Shift8(x: bv64): bv64 {
    x >> 8
  }

  function Plus(a: bv64, b: bv64): bv64 {
    a + b
  }

  function Number(x: bv64): nat {
    x as nat
  }

  /** The lowest bit. */
  function One(x: bv64): nat {
    if x & 1 == 1 then 1 else 0
  }

  /** How many of the n lowest bits are set. */
  function SetBits(x: bv64, n: nat): (k: nat)
    ensures k <= n
  {
    if n == 0 then 0 else One(x) + SetBits(Shift1(x), n - 1)
  }

  /** Every two bits hold their own count. */
  function Pairs(x: bv64): bv64 {
    x - ((x >> 1) & 0x5555_5555_5555_5555)
  }

  /** Every four bits. */
  function Nibbles(x: bv64): bv64 {
    (x & 0x3333_3333_3333_3333) + ((x >> 2) & 0x3333_3333_3333_3333)
  }

  /** Every byte. */
  function Bytes(x: bv64): bv64 {
    (x + (x >> 4)) & 0x0F0F_0F0F_0F0F_0F0F
  }

  function Counted(x: bv64): bv64 {
    Bytes(Nibbles(Pairs(x)))
  }

  function Times(x: bv64): bv64 {
    x * 0x0101_0101_0101_0101
  }

  function Top(x: bv64): bv64 {
    x >> 56
  }

  /** The sum of the bytes, in the top one. */
  function Total(x: bv64): bv64 {
    Top(Times(x))
  }

  function Fallback(x: bv64): bv64 {
    Total(Counted(x))
  }

  function Byte0(w: bv64): bv64 {
    w & 0xFF
  }

  function Byte1(w: bv64): bv64 {
    (w >> 8) & 0xFF
  }

  function Byte2(w: bv64): bv64 {
    (w >> 16) & 0xFF
  }

  function Byte3(w: bv64): bv64 {
    (w >> 24) & 0xFF
  }

  function Byte4(w: bv64): bv64 {
    (w >> 32) & 0xFF
  }

  function Byte5(w: bv64): bv64 {
    (w >> 40) & 0xFF
  }

  function Byte6(w: bv64): bv64 {
    (w >> 48) & 0xFF
  }

  function Byte7(w: bv64): bv64 {
    (w >> 56) & 0xFF
  }

  /** The set bits of the lowest byte. */
  function LowCount(x: bv64): bv64 {
    (x & 1) + ((x >> 1) & 1) + ((x >> 2) & 1) + ((x >> 3) & 1) + ((x >> 4) & 1) + ((x >> 5) & 1) + ((x >> 6) & 1) + ((x >> 7) & 1)
  }

  lemma SmallBytes(x: bv64)
    ensures Counted(x) & 0xF0F0_F0F0_F0F0_F0F0 == 0
  {
  }

  lemma CountOfByte0(x: bv64)
    ensures Byte0(Counted(x)) == LowCount(x)
  {
  }

  lemma CountOfByte1(x: bv64)
    ensures Byte1(Counted(x)) == LowCount(Shift8(x))
  {
  }

  lemma CountOfByte2(x: bv64)
    ensures Byte2(Counted(x)) == LowCount(Shift8(Shift8(x)))
  {
  }

  lemma CountOfByte3(x: bv64)
    ensures Byte3(Counted(x)) == LowCount(Shift8(Shift8(Shift8(x))))
  {
  }

  lemma CountOfByte4(x: bv64)
    ensures Byte4(Counted(x)) == LowCount(Shift8(Shift8(Shift8(Shift8(x)))))
  {
  }

  lemma CountOfByte5(x: bv64)
    ensures Byte5(Counted(x)) == LowCount(Shift8(Shift8(Shift8(Shift8(Shift8(x))))))
  {
  }

  lemma CountOfByte6(x: bv64)
    ensures Byte6(Counted(x)) == LowCount(Shift8(Shift8(Shift8(Shift8(Shift8(Shift8(x)))))))
  {
  }

  lemma CountOfByte7(x: bv64)
    ensures Byte7(Counted(x)) == LowCount(Shift8(Shift8(Shift8(Shift8(Shift8(Shift8(Shift8(x))))))))
  {
  }

  /** Holds of every word: a mark that says x is the word after the given number of doublings, on
      which the facts about the next doubling are instantiated. */
  predicate Doubled(times: nat, x: bv64) {
    true
  }

  /** Adding a word to itself one byte up adds neighbouring bytes. */
  lemma NeighboursAdded()
    ensures forall w :: Doubled(0, w) && w & 0xF0F0_F0F0_F0F0_F0F0 == 0 ==>
              var y := w + w * 0x100;
              Doubled(1, y) && Byte7(y) == Plus(Byte7(w), Byte6(w)) && Byte5(y) == Plus(Byte5(w), Byte4(w))
  {
  }

  lemma LowNeighboursAdded()
    ensures forall w :: Doubled(0, w) && w & 0xF0F0_F0F0_F0F0_F0F0 == 0 ==>
              var y := w + w * 0x100;
              Byte3(y) == Plus(Byte3(w), Byte2(w)) && Byte1(y) == Plus(Byte1(w), Byte0(w))
  {
  }

  /** No sum runs over into the next byte. */
  lemma NeighboursFit()
    ensures forall w :: Doubled(0, w) && w & 0xF0F0_F0F0_F0F0_F0F0 == 0 ==> (w + w * 0x100) & 0xE0E0_E0E0_E0E0_E0E0 == 0
  {
  }

  /** Two bytes up, then four. */
  lemma QuartersAdded()
    ensures forall y :: Doubled(1, y) && y & 0xE0E0_E0E0_E0E0_E0E0 == 0 ==>
              var z := y + y * 0x1_0000;
              Doubled(2, z) && Byte7(z) == Plus(Byte7(y), Byte5(y))
  {
  }

  lemma LowQuartersAdded()
    ensures forall y :: Doubled(1, y) && y & 0xE0E0_E0E0_E0E0_E0E0 == 0 ==>
              var z := y + y * 0x1_0000;
              Byte3(z) == Plus(Byte3(y), Byte1(y))
  {
  }

  lemma QuartersFit()
    ensures forall y :: Doubled(1, y) && y & 0xE0E0_E0E0_E0E0_E0E0 == 0 ==> (y + y * 0x1_0000) & 0xC0C0_C0C0_C0C0_C0C0 == 0
  {
  }

  lemma HalvesAdded()
    ensures forall z :: Doubled(2, z) && z & 0xC0C0_C0C0_C0C0_C0C0 == 0 ==>
              Top(z + z * 0x1_0000_0000) == Plus(Byte7(z), Byte3(z))
  {
  }

  function Sum(a: bv64, b: bv64, c: bv64, d: bv64, e: bv64, f: bv64, g: bv64, h: bv64): bv64 {
    Plus(Plus(Plus(a, b), Plus(c, d)), Plus(Plus(e, f), Plus(g, h)))
  }

  /** Together that is the multiplication. */
  lemma BytesSum(w: bv64)
    requires w & 0xF0F0_F0F0_F0F0_F0F0 == 0
    ensures Total(w) == Sum(Byte7(w), Byte6(w), Byte5(w), Byte4(w), Byte3(w), Byte2(w), Byte1(w), Byte0(w))
  {
    hide Byte0, Byte1, Byte2, Byte3, Byte4, Byte5, Byte6, Byte7, Plus, Top, Doubled;
    NeighboursAdded();
    LowNeighboursAdded();
    NeighboursFit();
    QuartersAdded();
    LowQuartersAdded();
    QuartersFit();
    HalvesAdded();
    assert Doubled(0, w) by { Marked(0, w); }
    assert Doubled(1, w + w * 0x100);
    assert Doubled(2, w * 0x0101_0101);
  }

  lemma Marked(times: nat, x: bv64)
    ensures Doubled(times, x)
  {
  }

  lemma EightShifts(x: bv64)
    ensures Shift1(Shift1(Shift1(Shift1(Shift1(Shift1(Shift1(Shift1(x)))))))) == Shift8(x)
  {
  }

  lemma LowBits(x: bv64)
    ensures LowCount(x) <= 8
    ensures Number(LowCount(x))
            == One(x) + One(Shift1(x)) + One(Shift1(Shift1(x))) + One(Shift1(Shift1(Shift1(x))))
               + One(Shift1(Shift1(Shift1(Shift1(x))))) + One(Shift1(Shift1(Shift1(Shift1(Shift1(x))))))
               + One(Shift1(Shift1(Shift1(Shift1(Shift1(Shift1(x))))))) + One(Shift1(Shift1(Shift1(Shift1(Shift1(Shift1(Shift1(x))))))))
  {
  }

  lemma EightBits(x: bv64, n: nat)
    ensures SetBits(x, n + 8)
            == One(x) + One(Shift1(x)) + One(Shift1(Shift1(x))) + One(Shift1(Shift1(Shift1(x))))
               + One(Shift1(Shift1(Shift1(Shift1(x))))) + One(Shift1(Shift1(Shift1(Shift1(Shift1(x))))))
               + One(Shift1(Shift1(Shift1(Shift1(Shift1(Shift1(x))))))) + One(Shift1(Shift1(Shift1(Shift1(Shift1(Shift1(Shift1(x)))))))) + SetBits(Shift1(Shift1(Shift1(Shift1(Shift1(Shift1(Shift1(Shift1(x)))))))), n)
  {
    hide One, Shift1, SetBits;
    var y := Shift1(Shift1(Shift1(Shift1(x))));
    TwoBits(x, n + 6);
    TwoBits(Shift1(Shift1(x)), n + 4);
    TwoBits(y, n + 2);
    TwoBits(Shift1(Shift1(y)), n);
  }

  lemma TwoBits(x: bv64, n: nat)
    ensures SetBits(x, n + 2) == One(x) + One(Shift1(x)) + SetBits(Shift1(Shift1(x)), n)
  {
    hide One, Shift1;
  }

  /** A byte further. */
  lemma ByteStep(x: bv64, n: nat)
    ensures SetBits(x, n + 8) == Number(LowCount(x)) + SetBits(Shift8(x), n)
  {
    hide LowCount, One, Shift1, Shift8, Number;
    EightShifts(x);
    LowBits(x);
    EightBits(x, n);
  }

  lemma NoBits(x: bv64)
    ensures SetBits(x, 0) == 0
  {
  }

  lemma AllBytes(x: bv64)
    ensures SetBits(x, 64) == Number(LowCount(x))
               + Number(LowCount(Shift8(x)))
               + Number(LowCount(Shift8(Shift8(x))))
               + Number(LowCount(Shift8(Shift8(Shift8(x)))))
               + Number(LowCount(Shift8(Shift8(Shift8(Shift8(x))))))
               + Number(LowCount(Shift8(Shift8(Shift8(Shift8(Shift8(x)))))))
               + Number(LowCount(Shift8(Shift8(Shift8(Shift8(Shift8(Shift8(x))))))))
               + Number(LowCount(Shift8(Shift8(Shift8(Shift8(Shift8(Shift8(Shift8(x)))))))))
  {
    hide LowCount, One, Shift1, Shift8, Number, SetBits;
    NoBits(Shift8(Shift8(Shift8(Shift8(Shift8(Shift8(Shift8(Shift8(x)))))))));
    ByteStep(x, 56);
    ByteStep(Shift8(x), 48);
    ByteStep(Shift8(Shift8(x)), 40);
    ByteStep(Shift8(Shift8(Shift8(x))), 32);
    ByteStep(Shift8(Shift8(Shift8(Shift8(x)))), 24);
    ByteStep(Shift8(Shift8(Shift8(Shift8(Shift8(x))))), 16);
    ByteStep(Shift8(Shift8(Shift8(Shift8(Shift8(Shift8(x)))))), 8);
    ByteStep(Shift8(Shift8(Shift8(Shift8(Shift8(Shift8(Shift8(x))))))), 0);
  }

  lemma SmallSum(a: bv64, b: bv64, limit: bv64)
    requires a <= limit && b <= limit && limit <= 32
    ensures Plus(a, b) <= 2 * limit && Number(Plus(a, b)) == Number(a) + Number(b)
  {
  }

  lemma SumOfEight(a: bv64, b: bv64, c: bv64, d: bv64, e: bv64, f: bv64, g: bv64, h: bv64)
    requires a <= 8 && b <= 8 && c <= 8 && d <= 8 && e <= 8 && f <= 8 && g <= 8 && h <= 8
    ensures Number(Sum(a, b, c, d, e, f, g, h))
            == Number(a) + Number(b) + Number(c) + Number(d) + Number(e) + Number(f) + Number(g) + Number(h)
  {
    hide Plus, Number;
    SmallSum(a, b, 8);
    SmallSum(c, d, 8);
    SmallSum(e, f, 8);
    SmallSum(g, h, 8);
    SmallSum(Plus(a, b), Plus(c, d), 16);
    SmallSum(Plus(e, f), Plus(g, h), 16);
    SmallSum(Plus(Plus(a, b), Plus(c, d)), Plus(Plus(e, f), Plus(g, h)), 32);
  }

  /** The fallback returns the number of set bits of every word. */
  lemma FallbackCounts(x: bv64)
    ensures Number(Fallback(x)) == SetBits(x, 64)
  {
    hide LowCount, SetBits, Total, Counted, Sum, Shift8, Number, Plus, Byte0, Byte1, Byte2, Byte3, Byte4, Byte5, Byte6, Byte7;
    SmallBytes(x);
    BytesSum(Counted(x));
    CountOfByte0(x);
    CountOfByte1(x);
    CountOfByte2(x);
    CountOfByte3(x);
    CountOfByte4(x);
    CountOfByte5(x);
    CountOfByte6(x);
    CountOfByte7(x);
    LowBits(x);
    LowBits(Shift8(x));
    LowBits(Shift8(Shift8(x)));
    LowBits(Shift8(Shift8(Shift8(x))));
    LowBits(Shift8(Shift8(Shift8(Shift8(x)))));
    LowBits(Shift8(Shift8(Shift8(Shift8(Shift8(x))))));
    LowBits(Shift8(Shift8(Shift8(Shift8(Shift8(Shift8(x)))))));
    LowBits(Shift8(Shift8(Shift8(Shift8(Shift8(Shift8(Shift8(x))))))));
    AllBytes(x);
    SumOfEight(LowCount(Shift8(Shift8(Shift8(Shift8(Shift8(Shift8(Shift8(x)))))))), LowCount(Shift8(Shift8(Shift8(Shift8(Shift8(Shift8(x))))))), LowCount(Shift8(Shift8(Shift8(Shift8(Shift8(x)))))), LowCount(Shift8(Shift8(Shift8(Shift8(x))))), LowCount(Shift8(Shift8(Shift8(x)))), LowCount(Shift8(Shift8(x))), LowCount(Shift8(x)), LowCount(x));
  }

  function Word(n: word): bv64 {
    n as bv64
  }

  function Over(n: nat, p: nat): nat
    requires p > 0
  {
    n / p
  }

  function Rest(n: nat, p: nat): nat
    requires p > 0
  {
    n % p
  }

  lemma Divides(n: nat, p: nat)
    requires p > 0
    ensures n == p * Over(n, p) + Rest(n, p) && Rest(n, p) < p
  {
  }

  lemma SameQuotient(d: nat, k: nat, r: nat, q: nat, t: nat)
    requires d * k + r == d * q + t && r < d && t < d
    ensures k == q
  {
    if k < q {
      AtLeast(d, q - k);
    } else if q < k {
      AtLeast(d, k - q);
    }
  }

  lemma AtLeast(d: nat, k: nat)
    requires k > 0
    ensures d * k >= d
  {
  }

  /** Dividing by twice as much is dividing once more by two. */
  lemma Halved(n: nat, p: nat)
    requires p > 0
    ensures Over(n, 2 * p) == Over(n, p) / 2
  {
    hide Over, Rest;
    var m := Over(n, p);
    var k, b := m / 2, m % 2;
    Divides(n, p);
    Divides(n, 2 * p);
    Regroup(p, k, b, Rest(n, p));
    SameQuotient(2 * p, k, p * b + Rest(n, p), Over(n, 2 * p), Rest(n, 2 * p));
  }

  lemma Regroup(p: nat, k: nat, b: nat, r: nat)
    requires b <= 1 && r < p
    ensures p * (2 * k + b) + r == (2 * p) * k + (p * b + r) && p * b + r < 2 * p
  {
    assert b == 0 || b == 1;
  }

  lemma PopcountHalved(n: nat, p: nat)
    requires p > 0
    ensures RankedBits.Popcount(Over(n, p)) == Over(n, p) % 2 + RankedBits.Popcount(Over(n, 2 * p))
  {
    hide Over;
    Halved(n, p);
    assert RankedBits.Popcount(0) == 0;
  }

  /** When the eight lowest bits of x are those of n from the one worth p on, they make up the
      difference between the counts before and behind them. */
  lemma ByteCounted(x: bv64, n: nat, p: nat)
    requires p > 0
    requires One(x) == Over(n, p) % 2 && One(x >> 1) == Over(n, 2 * p) % 2
    requires One(x >> 2) == Over(n, 4 * p) % 2 && One(x >> 3) == Over(n, 8 * p) % 2
    requires One(x >> 4) == Over(n, 16 * p) % 2 && One(x >> 5) == Over(n, 32 * p) % 2
    requires One(x >> 6) == Over(n, 64 * p) % 2 && One(x >> 7) == Over(n, 128 * p) % 2
    ensures RankedBits.Popcount(Over(n, p)) == Number(LowCount(x)) + RankedBits.Popcount(Over(n, 256 * p))
  {
    hide Over, One, LowCount, Number, RankedBits.Popcount;
    LowBits(x);
    Shifts(x);
    PopcountHalved(n, p);
    PopcountHalved(n, 2 * p);
    PopcountHalved(n, 4 * p);
    PopcountHalved(n, 8 * p);
    PopcountHalved(n, 16 * p);
    PopcountHalved(n, 32 * p);
    PopcountHalved(n, 64 * p);
    PopcountHalved(n, 128 * p);
  }

  lemma Shifts(x: bv64)
    ensures Shift1(x) == x >> 1 && Shift1(Shift1(x)) == x >> 2 && Shift1(Shift1(Shift1(x))) == x >> 3
    ensures Shift1(Shift1(Shift1(Shift1(x)))) == x >> 4 && Shift1(Shift1(Shift1(Shift1(Shift1(x))))) == x >> 5
    ensures Shift1(Shift1(Shift1(Shift1(Shift1(Shift1(x)))))) == x >> 6
    ensures Shift1(Shift1(Shift1(Shift1(Shift1(Shift1(Shift1(x))))))) == x >> 7
  {
  }

  lemma CountInByte0(n: word)
    ensures RankedBits.Popcount(n / 0x1) == Number(LowCount(Word(n))) + RankedBits.Popcount(n / 0x100)
  {
    hide LowCount, Number, RankedBits.Popcount;
    var x := Word(n);
    assert One(x) == n / 0x1 % 2 && One(x >> 1) == n / 0x2 % 2 && One(x >> 2) == n / 0x4 % 2 && One(x >> 3) == n / 0x8 % 2;
    assert One(x >> 4) == n / 0x10 % 2 && One(x >> 5) == n / 0x20 % 2 && One(x >> 6) == n / 0x40 % 2 && One(x >> 7) == n / 0x80 % 2;
    ByteCounted(x, n, 0x1);
  }

  lemma CountInByte1(n: word)
    ensures RankedBits.Popcount(n / 0x100) == Number(LowCount(Shift8(Word(n)))) + RankedBits.Popcount(n / 0x1_0000)
  {
    hide LowCount, Number, RankedBits.Popcount;
    var x := Shift8(Word(n));
    assert One(x) == n / 0x100 % 2 && One(x >> 1) == n / 0x200 % 2 && One(x >> 2) == n / 0x400 % 2 && One(x >> 3) == n / 0x800 % 2;
    assert One(x >> 4) == n / 0x1000 % 2 && One(x >> 5) == n / 0x2000 % 2 && One(x >> 6) == n / 0x4000 % 2 && One(x >> 7) == n / 0x8000 % 2;
    ByteCounted(x, n, 0x100);
  }

  lemma CountInByte2(n: word)
    ensures RankedBits.Popcount(n / 0x1_0000) == Number(LowCount(Shift8(Shift8(Word(n))))) + RankedBits.Popcount(n / 0x100_0000)
  {
    hide LowCount, Number, RankedBits.Popcount;
    var x := Shift8(Shift8(Word(n)));
    assert One(x) == n / 0x1_0000 % 2 && One(x >> 1) == n / 0x2_0000 % 2 && One(x >> 2) == n / 0x4_0000 % 2 && One(x >> 3) == n / 0x8_0000 % 2;
    assert One(x >> 4) == n / 0x10_0000 % 2 && One(x >> 5) == n / 0x20_0000 % 2 && One(x >> 6) == n / 0x40_0000 % 2 && One(x >> 7) == n / 0x80_0000 % 2;
    ByteCounted(x, n, 0x1_0000);
  }

  lemma CountInByte3(n: word)
    ensures RankedBits.Popcount(n / 0x100_0000) == Number(LowCount(Shift8(Shift8(Shift8(Word(n)))))) + RankedBits.Popcount(n / 0x1_0000_0000)
  {
    hide LowCount, Number, RankedBits.Popcount;
    var x := Shift8(Shift8(Shift8(Word(n))));
    assert One(x) == n / 0x100_0000 % 2 && One(x >> 1) == n / 0x200_0000 % 2 && One(x >> 2) == n / 0x400_0000 % 2 && One(x >> 3) == n / 0x800_0000 % 2;
    assert One(x >> 4) == n / 0x1000_0000 % 2 && One(x >> 5) == n / 0x2000_0000 % 2 && One(x >> 6) == n / 0x4000_0000 % 2 && One(x >> 7) == n / 0x8000_0000 % 2;
    ByteCounted(x, n, 0x100_0000);
  }

  lemma CountInByte4(n: word)
    ensures RankedBits.Popcount(n / 0x1_0000_0000) == Number(LowCount(Shift8(Shift8(Shift8(Shift8(Word(n))))))) + RankedBits.Popcount(n / 0x100_0000_0000)
  {
    hide LowCount, Number, RankedBits.Popcount;
    var x := Shift8(Shift8(Shift8(Shift8(Word(n)))));
    assert One(x) == n / 0x1_0000_0000 % 2 && One(x >> 1) == n / 0x2_0000_0000 % 2 && One(x >> 2) == n / 0x4_0000_0000 % 2 && One(x >> 3) == n / 0x8_0000_0000 % 2;
    assert One(x >> 4) == n / 0x10_0000_0000 % 2 && One(x >> 5) == n / 0x20_0000_0000 % 2 && One(x >> 6) == n / 0x40_0000_0000 % 2 && One(x >> 7) == n / 0x80_0000_0000 % 2;
    ByteCounted(x, n, 0x1_0000_0000);
  }

  lemma CountInByte5(n: word)
    ensures RankedBits.Popcount(n / 0x100_0000_0000) == Number(LowCount(Shift8(Shift8(Shift8(Shift8(Shift8(Word(n)))))))) + RankedBits.Popcount(n / 0x1_0000_0000_0000)
  {
    hide LowCount, Number, RankedBits.Popcount;
    var x := Shift8(Shift8(Shift8(Shift8(Shift8(Word(n))))));
    assert One(x) == n / 0x100_0000_0000 % 2 && One(x >> 1) == n / 0x200_0000_0000 % 2 && One(x >> 2) == n / 0x400_0000_0000 % 2 && One(x >> 3) == n / 0x800_0000_0000 % 2;
    assert One(x >> 4) == n / 0x1000_0000_0000 % 2 && One(x >> 5) == n / 0x2000_0000_0000 % 2 && One(x >> 6) == n / 0x4000_0000_0000 % 2 && One(x >> 7) == n / 0x8000_0000_0000 % 2;
    ByteCounted(x, n, 0x100_0000_0000);
  }

  lemma CountInByte6(n: word)
    ensures RankedBits.Popcount(n / 0x1_0000_0000_0000) == Number(LowCount(Shift8(Shift8(Shift8(Shift8(Shift8(Shift8(Word(n))))))))) + RankedBits.Popcount(n / 0x100_0000_0000_0000)
  {
    hide LowCount, Number, RankedBits.Popcount;
    var x := Shift8(Shift8(Shift8(Shift8(Shift8(Shift8(Word(n)))))));
    assert One(x) == n / 0x1_0000_0000_0000 % 2 && One(x >> 1) == n / 0x2_0000_0000_0000 % 2 && One(x >> 2) == n / 0x4_0000_0000_0000 % 2 && One(x >> 3) == n / 0x8_0000_0000_0000 % 2;
    assert One(x >> 4) == n / 0x10_0000_0000_0000 % 2 && One(x >> 5) == n / 0x20_0000_0000_0000 % 2 && One(x >> 6) == n / 0x40_0000_0000_0000 % 2 && One(x >> 7) == n / 0x80_0000_0000_0000 % 2;
    ByteCounted(x, n, 0x1_0000_0000_0000);
  }

  lemma CountInByte7(n: word)
    ensures RankedBits.Popcount(n / 0x100_0000_0000_0000) == Number(LowCount(Shift8(Shift8(Shift8(Shift8(Shift8(Shift8(Shift8(Word(n)))))))))) + RankedBits.Popcount(n / 0x1_0000_0000_0000_0000)
  {
    hide LowCount, Number, RankedBits.Popcount;
    var x := Shift8(Shift8(Shift8(Shift8(Shift8(Shift8(Shift8(Word(n))))))));
    assert One(x) == n / 0x100_0000_0000_0000 % 2 && One(x >> 1) == n / 0x200_0000_0000_0000 % 2 && One(x >> 2) == n / 0x400_0000_0000_0000 % 2 && One(x >> 3) == n / 0x800_0000_0000_0000 % 2;
    assert One(x >> 4) == n / 0x1000_0000_0000_0000 % 2 && One(x >> 5) == n / 0x2000_0000_0000_0000 % 2 && One(x >> 6) == n / 0x4000_0000_0000_0000 % 2 && One(x >> 7) == n / 0x8000_0000_0000_0000 % 2;
    ByteCounted(x, n, 0x100_0000_0000_0000);
  }

  lemma FallbackOfNumber(n: word)
    ensures Number(Fallback(Word(n))) == RankedBits.Popcount(n)
  {
    hide *;
    FallbackCounts(Word(n));
    AllBytes(Word(n));
    CountInByte0(n);
    CountInByte1(n);
    CountInByte2(n);
    CountInByte3(n);
    CountInByte4(n);
    CountInByte5(n);
    CountInByte6(n);
    CountInByte7(n);
    NoneSet();
  }

  lemma NoneSet()
    ensures RankedBits.Popcount(0) == 0
  {
  }

  lemma WordOfNumber(x: bv64)
    ensures Number(x) < 0x1_0000_0000_0000_0000 && Word(Number(x)) == x
  {
  }

  /** On every word the fallback is the count that the rank index adds up. */
  lemma FallbackIsPopcount(x: bv64)
    ensures Number(Fallback(x)) == RankedBits.Popcount(Number(x))
  {
    hide *;
    WordOfNumber(x);
    FallbackOfNumber(Number(x));
  }
}
