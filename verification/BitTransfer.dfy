/** Signed fields, appending a buffer, and copying bits from a reader to a writer. */
module BitTransfer {
  import opened BitOr
  import opened Bits
  import opened Results
  import opened BitStream
  import Varint

  /** An n-bit field with its top bit extended. */
  function SignExtend(raw: nat, n: nat): int
    requires n > 0
  {
    if raw >= Pow2(n - 1) then raw - Pow2(n) else raw
  }

  function ReadSigned(s: seq<bool>, pos: nat, n: nat): Result<int>
    requires n > 0
  {
    var raw :- Varint.ReadBits(s, pos, n);
    Ok(SignExtend(raw, n))
  }

  /** A field of n bits holds the low n bits of a number. */
  lemma LowBits(v: nat, n: nat)
    ensures BitsOf(v % Pow2(n), n) == BitsOf(v, n)
  {
    hide Pow2;
    var q, r := v / Pow2(n), v % Pow2(n);
    Recompose(v, Pow2(n));
    JoinBits(q, 0, r, n);
  }

  lemma Recompose(v: nat, p: nat)
    requires p > 0
    ensures v == (v / p) * p + v % p && v % p < p
  {
  }

  /** The values an n-bit signed field can hold. */
  predicate FitsSigned(v: int, n: nat)
    requires n > 0
  {
    -(Pow2(n - 1) as int) <= v < Pow2(n - 1)
  }

  /** A signed field reads back exactly when the value fits the width; otherwise its high bits are
      lost. */
  lemma SignedReadsBack(s: seq<bool>, pos: nat, v: int, n: nat)
    requires -0x8000_0000_0000_0000 <= v < 0x8000_0000_0000_0000 && 1 <= n <= 64
    requires At(s, pos, BitsOf(AsWord(v), n))
    ensures ReadSigned(s, pos, n) == Ok(v) <==> FitsSigned(v, n)
    ensures ReadSigned(s, pos, n).Ok?
  {
    hide BitsOf, Pow2;
    var raw := AsWord(v) % Pow2(n);
    LowBits(AsWord(v), n);
    Recompose(AsWord(v), Pow2(n));
    Varint.ReadBitsAt(s, pos, raw, n);
    HalfPower(n);
    Pow2Constants();
    if FitsSigned(v, n) {
      WordMod(v, n);
    }
  }

  lemma HalfPower(n: nat)
    requires n > 0
    ensures Pow2(n) == 2 * Pow2(n - 1)
  {
  }

  lemma WordMod(v: int, n: nat)
    requires 1 <= n <= 64 && FitsSigned(v, n)
    requires -0x8000_0000_0000_0000 <= v < 0x8000_0000_0000_0000
    ensures AsWord(v) % Pow2(n) == if v < 0 then v + Pow2(n) else v
  {
    hide Pow2;
    HalfPower(n);
    Pow2Constants();
    Pow2Add(64 - n, n);
    if v < 0 {
      var k := Pow2(64 - n);
      MulMonotone(Pow2(n), 1, k);
      ModUnique(AsWord(v), Pow2(n), k - 1, v + Pow2(n));
    } else {
      ModUnique(v, Pow2(n), 0, v);
    }
  }

  lemma ModUnique(v: nat, d: nat, q: nat, r: nat)
    requires d > 0 && v == d * q + r && r < d
    ensures v % d == r
  {
    DivUnique(v, d, q, r);
  }

  /** Two's complement: a negative value stands as the number 2^n above it. */
  lemma SignedBits(v: int, n: nat)
    requires -0x8000_0000_0000_0000 <= v < 0x8000_0000_0000_0000 && 1 <= n <= 64 && FitsSigned(v, n)
    ensures v >= 0 ==> BitsOf(AsWord(v), n) == BitsOf(v, n)
    ensures v < 0 ==> v + Pow2(n) >= 0 && BitsOf(AsWord(v), n) == BitsOf(v + Pow2(n), n)
  {
    hide BitsOf, Pow2;
    HalfPower(n);
    WordMod(v, n);
    LowBits(AsWord(v), n);
  }

  method WriteBitsSigned(w: BitWriter, value: int, n: nat) returns (r: Result<()>)
    requires w.Valid() && -0x8000_0000_0000_0000 <= value < 0x8000_0000_0000_0000
    modifies w, w.buf
    ensures w.Valid() && (w.buf == old(w.buf) || fresh(w.buf))
    ensures r.Ok? <==> 1 <= n <= 64
    ensures w.Contents() == old(w.Contents()) + (if r.Ok? then BitsOf(AsWord(value), n) else [])
  {
    if n == 0 || n > 64 {
      return Err(InvalidParam);
    }
    var raw := AsWord(value);
    LowBits(raw, n);
    if n < 64 {
      raw := raw % Pow2(n);
    }
    r := w.WriteBits(raw, n);
  }

  method ReadBitsSigned(r: BitReader, n: nat) returns (res: Result<int>)
    requires r.Valid()
    modifies r
    ensures r.Valid()
    ensures res == if n == 0 || n > 64 then Err(InvalidParam) else ReadSigned(r.Stream(), old(r.pos), n)
    ensures r.pos == if res.Ok? then old(r.pos) + n else old(r.pos)
  {
    var raw :- r.ReadBits(n);
    return Ok(SignExtend(raw, n));
  }

  /** Every bit of the buffer up to bitLen. */
  method AppendBuffer(w: BitWriter, bytes: seq<byte>, bitLen: nat)
    requires w.Valid() && bitLen <= 8 * |bytes|
    modifies w, w.buf
    ensures w.Valid() && (w.buf == old(w.buf) || fresh(w.buf))
    ensures w.Contents() == old(w.Contents()) + Unpack(bytes)[..bitLen]
  {
    hide Unpack, BitsOf, Pow2;
    w.EnsureCapacity(bitLen);
    ghost var was := w.Contents();
    ghost var room := w.buf;
    var i := 0;
    while i < bitLen
      invariant 0 <= i <= bitLen && w.Valid() && w.buf == room && w.pos + (bitLen - i) <= 8 * w.buf.Length
      invariant w.Contents() == was + Unpack(bytes)[..i]
    {
      UnpackedBit(bytes, i);
      w.PutBit((bytes[i / 8] / Pow2(7 - i % 8)) % 2 == 1);
      i := i + 1;
    }
  }

  lemma UnpackedBit(bytes: seq<byte>, i: nat)
    requires i < 8 * |bytes|
    ensures Unpack(bytes)[i] == ((bytes[i / 8] / Pow2(7 - i % 8)) % 2 == 1)
    ensures Unpack(bytes)[..i + 1] == Unpack(bytes)[..i] + [Unpack(bytes)[i]]
  {
    BitsOfAt(bytes[i / 8], 8, i % 8);
  }

  /** Moves bits from a reader to a writer, at any alignment of either; none when the reader has
      fewer. */
  method CopyBits(r: BitReader, w: BitWriter, n: nat) returns (res: Result<()>)
    requires r.Valid() && w.Valid()
    modifies r, w, w.buf
    ensures r.Valid() && w.Valid() && (w.buf == old(w.buf) || fresh(w.buf))
    ensures res == if old(r.pos) + n > r.bitLen then Err(Eof) else Ok(())
    ensures r.pos == if res.Ok? then old(r.pos) + n else old(r.pos)
    ensures w.Contents() == old(w.Contents()) + (if res.Ok? then r.Stream()[old(r.pos)..old(r.pos) + n] else [])
  {
    hide Unpack, BitsOf, Pow2;
    if r.pos + n > r.bitLen {
      return Err(Eof);
    }
    w.EnsureCapacity(n);
    ghost var was, s, start := w.Contents(), r.Stream(), r.pos;
    ghost var room := w.buf;
    var i := 0;
    while i < n
      invariant 0 <= i <= n && r.Valid() && r.pos == start + i
      invariant w.Valid() && w.buf == room && w.pos + (n - i) <= 8 * w.buf.Length
      invariant w.Contents() == was + s[start..start + i]
    {
      var bit := r.BitAt(r.pos);
      assert s[start..start + i + 1] == s[start..start + i] + [s[start + i]];
      w.PutBit(bit);
      r.pos := r.pos + 1;
      i := i + 1;
    }
    return Ok(());
  }
}
