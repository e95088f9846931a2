/** Bitwise or on natural numbers, and why it adds up the groups of a varint: each of them lies
    above all bits read before it. */
module BitOr {
  import opened Bits

  function Or(a: nat, b: nat): nat {
    if a == 0 then b
    else if b == 0 then a
    else 2 * Or(a / 2, b / 2) + (if a % 2 == 1 || b % 2 == 1 then 1 else 0)
  }

  function Xor(a: nat, b: nat): nat {
    if a == 0 then b
    else if b == 0 then a
    else 2 * Xor(a / 2, b / 2) + (if a % 2 != b % 2 then 1 else 0)
  }

  lemma XorStep(a: nat, b: nat)
    ensures Xor(a, b) == 2 * Xor(a / 2, b / 2) + (if a % 2 != b % 2 then 1 else 0)
    ensures Xor(a, 0) == a
  {
  }

  /** Exclusive or with all ones is the complement. */
  lemma {:induction false} XorOnes(a: nat, n: nat)
    requires a < Pow2(n)
    ensures Xor(a, Pow2(n) - 1) == Pow2(n) - 1 - a
    decreases n
  {
    hide Xor;
    XorStep(a, Pow2(n) - 1);
    if n > 0 {
      XorOnes(a / 2, n - 1);
    } else {
      XorStep(0, 0);
    }
  }

  /** x << shift. */
  function Shifted(x: nat, shift: nat): nat {
    x * Pow2(shift)
  }

  lemma Unshifted(x: nat)
    ensures Shifted(x, 0) == x
  {
  }

  /** Bits below k and a number shifted past them do not meet. */
  lemma {:induction false} OrAbove(a: nat, x: nat, k: nat)
    requires a < Pow2(k)
    ensures Or(a, Shifted(x, k)) == a + Shifted(x, k)
    decreases k
  {
    hide Or;
    OrStep(a, Shifted(x, k));
    if k > 0 {
      var q := Shifted(x, k - 1);
      Doubled(x, Pow2(k - 1));
      OrAbove(a / 2, x, k - 1);
    } else {
      OrStep(0, Shifted(x, 0));
    }
  }

  lemma Doubled(x: nat, p: nat)
    ensures x * (2 * p) == 2 * (x * p)
  {
  }

  lemma OrStep(a: nat, b: nat)
    ensures Or(a, b) == 2 * Or(a / 2, b / 2) + (if a % 2 == 1 || b % 2 == 1 then 1 else 0)
    ensures Or(0, b) == b
  {
  }

  lemma MulMonotone(d: nat, a: nat, b: nat)
    requires a <= b
    ensures d * a <= d * b
    ensures a > 0 ==> d * a == d * (a - 1) + d
  {
  }

  lemma Euclid(v: nat, d: nat)
    requires d > 0
    ensures v == d * (v / d) + v % d && v % d < d
  {
  }

  lemma DivUnique(v: nat, d: nat, q: nat, r: nat)
    requires d > 0 && v == d * q + r && r < d
    ensures v / d == q && v % d == r
  {
    var q' := v / d;
    Euclid(v, d);
    if q < q' {
      MulMonotone(d, q + 1, q');
    } else if q' < q {
      MulMonotone(d, q' + 1, q);
    }
  }

  /** Dividing twice is dividing by the product. */
  lemma DivDiv(v: nat, a: nat, b: nat)
    requires a > 0 && b > 0
    ensures a * b > 0 && v / a / b == v / (a * b)
  {
    var q, r := v / a / b, v / a % b;
    Euclid(v, a);
    Euclid(v / a, b);
    MulMonotone(a, r + 1, b);
    Deeper(a, b, q, r);
    DivUnique(v, a * b, q, a * r + v % a);
  }

  lemma Deeper(a: nat, b: nat, q: nat, r: nat)
    ensures a * (b * q + r) == (a * b) * q + a * r
  {
  }

  /** A group of seven bits on top keeps everything below the next shift. */
  lemma GroupBelow(acc: nat, x: nat, shift: nat)
    requires acc < Pow2(shift) && x < 128
    ensures acc + Shifted(x, shift) < Pow2(shift + 7)
  {
    hide Pow2;
    Pow2Add(7, shift);
    Pow2Constants();
    MulMonotone(Pow2(shift), x + 1, 128);
  }

  /** Shifting and truncating is truncating and then shifting. */
  lemma CutShifted(x: nat, m: nat, k: nat, acc: nat)
    requires m > 0 && k > 0 && acc < m
    ensures m * k > 0 && (x * m) % (m * k) == (x % k) * m
    ensures (acc + x * m) % (m * k) == acc + (x % k) * m
  {
    var q, r := x / k, x % k;
    Euclid(x, k);
    MulMonotone(m, r + 1, k);
    MulMonotone(m, 1, k);
    Rearrange(m, k, q, r);
    DivUnique(x * m, m * k, q, r * m);
    DivUnique(acc + x * m, m * k, q, acc + r * m);
  }

  lemma Rearrange(m: nat, k: nat, q: nat, r: nat)
    ensures (k * q + r) * m == (m * k) * q + r * m
  {
  }

  /** In a 64-bit word, with bits shifted out at the top. */
  lemma OrInWord(acc: nat, x: nat, shift: nat)
    requires acc < Pow2(shift) && shift <= 64
    ensures Or(acc % 0x1_0000_0000_0000_0000, Shifted(x, shift) % 0x1_0000_0000_0000_0000)
         == (acc + Shifted(x, shift)) % 0x1_0000_0000_0000_0000
  {
    hide Pow2, Or;
    var m, k := Pow2(shift), Pow2(64 - shift);
    Pow2Add(shift, 64 - shift);
    Pow2Constants();
    CutShifted(x, m, k, acc);
    CutShifted(0, m, k, acc);
    OrAbove(acc, x % k, shift);
  }
}
