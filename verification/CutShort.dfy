/** Streams that end early: what is cut short is not read as something else. */
module CutShort {
  import opened Bits
  import opened Results
  import opened Varint
  import opened BitStream
  import opened Values

  /** The stream ends within the chunk that should stand at pos. */
  predicate Cut(s: seq<bool>, pos: nat, chunk: seq<bool>) {
    pos <= |s| < pos + |chunk| && s[pos..] == chunk[..|s| - pos]
  }

  /** It ends within the first part, or that one is whole and it ends within the second. */
  lemma CutSplit(s: seq<bool>, pos: nat, a: seq<bool>, b: seq<bool>)
    requires Cut(s, pos, a + b)
    ensures Cut(s, pos, a) || (At(s, pos, a) && Cut(s, pos + |a|, b))
  {
    var n := |s| - pos;
    if n < |a| {
      assert (a + b)[..n] == a[..n];
    } else {
      assert s[pos..][..|a|] == (a + b)[..n][..|a|] == a;
      assert s[pos..pos + |a|] == s[pos..][..|a|];
      assert s[pos + |a|..] == s[pos..][|a|..] == (a + b)[..n][|a|..] == b[..n - |a|];
    }
  }

  lemma CutField(s: seq<bool>, pos: nat, chunk: seq<bool>)
    requires Cut(s, pos, chunk)
    ensures ReadBits(s, pos, |chunk|) == Err(Eof)
  {
  }

  lemma {:induction false} CutGroups(s: seq<bool>, pos: nat, v: nat, groups: nat)
    requires Cut(s, pos, Varint.Varint(v)) && v < Pow2(7 * groups) && groups > 0
    ensures ReadGroups(s, pos, groups) == Err(Eof)
    decreases groups
  {
    hide Pow2, BitsOf, Val, Cut;
    if v < 128 {
      CutField(s, pos, BitsOf(v, 8));
    } else {
      CutSplit(s, pos, BitsOf(128 + v % 128, 8), Varint.Varint(v / 128));
      if Cut(s, pos, BitsOf(128 + v % 128, 8)) {
        CutField(s, pos, BitsOf(128 + v % 128, 8));
      } else {
        Pow2Constants();
        ReadBitsAt(s, pos, 128 + v % 128, 8);
        GroupPower(groups);
        CutGroups(s, pos + 8, v / 128, groups - 1);
      }
    }
  }

  lemma CutVarint(s: seq<bool>, pos: nat, v: word)
    requires Cut(s, pos, Varint.Varint(v))
    ensures ReadVarint(s, pos) == Err(Eof)
  {
    hide Pow2, Cut, Varint.Varint, ReadGroups;
    WordFitsGroups(v);
    CutGroups(s, pos, v, MAX_GROUPS);
  }

  lemma CutBytes(s: seq<bool>, pos: nat, b: bytes)
    requires Cut(s, pos, BytesBits(b, pos))
    ensures ReadBytes(s, pos) == Err(Eof)
  {
    hide Varint.Varint, Padding, Unpack, Pack, ReadVarint;
    var len := Varint.Varint(|b|);
    CutSplit(s, pos, len, Padding(pos + |len|) + Unpack(b));
    if Cut(s, pos, len) {
      CutVarint(s, pos, |b|);
    } else {
      ReadVarintAt(s, pos, |b|);
    }
  }

  lemma CutPayload(s: seq<bool>, pos: nat, v: Value)
    requires Encodable(v) && Cut(s, pos, PayloadBits(v, pos))
    ensures ReadPayload(s, Tag(v), pos) == Err(Eof)
  {
    hide Pow2, BitsOf, Varint.Varint, ReadVarint, ReadBytes, BytesBits, Val, Zigzag;
    match v
    case Int(i) => CutVarint(s, pos, Zigzag(i));
    case UInt(u) => CutVarint(s, pos, u);
    case Str(b) => CutBytes(s, pos, b);
    case Blob(b) => CutBytes(s, pos, b);
    case _ =>
  }

  /** A value that is cut short is refused, wherever it is cut. */
  lemma CutValue(s: seq<bool>, pos: nat, v: Value)
    requires Encodable(v) && Cut(s, pos, ValueBits(v, pos))
    ensures ReadValue(s, pos) == Err(Eof)
  {
    hide BitsOf, PayloadBits, ReadPayload, Cut;
    CutSplit(s, pos, BitsOf(Tag(v), 4), PayloadBits(v, pos + 4));
    if Cut(s, pos, BitsOf(Tag(v), 4)) {
      CutField(s, pos, BitsOf(Tag(v), 4));
    } else {
      assert Pow2(4) == 16;
      ReadBitsAt(s, pos, Tag(v), 4);
      CutPayload(s, pos + 4, v);
    }
  }

  /** In a store that is cut short the values before the cut read back, and reaching for any other
      runs out of bits. */
  lemma {:induction false} CutStore(s: seq<bool>, pos: nat, vs: seq<Value>, i: nat)
    requires forall v :: v in vs ==> Encodable(v)
    requires Cut(s, pos, StoreBits(vs, pos)) && i < |vs|
    ensures if StorePos(vs, pos, i + 1) <= |s| then
              ScanValues(s, pos, i) == Ok(StorePos(vs, pos, i))
              && ReadValue(s, StorePos(vs, pos, i)) == Ok((vs[i], StorePos(vs, pos, i + 1)))
            else
              ScanValues(s, pos, i + 1) == Err(Eof)
    decreases |vs|
  {
    hide ReadValue, ValueBits, Cut;
    var first := ValueBits(vs[0], pos);
    CutSplit(s, pos, first, StoreBits(vs[1..], pos + |first|));
    if Cut(s, pos, first) {
      CutValue(s, pos, vs[0]);
      CutLength(s, pos, first);
      StoreAscends(vs, pos, i + 1);
    } else {
      ReadValueAt(s, pos, vs[0]);
      AtLength(s, pos, first);
      if i > 0 {
        CutStore(s, pos + |first|, vs[1..], i - 1);
      } else {
        assert StorePos(vs[1..], pos + |first|, 0) == pos + |first|;
        assert ScanValues(s, pos, 0) == Ok(pos);
      }
    }
  }

  lemma CutLength(s: seq<bool>, pos: nat, chunk: seq<bool>)
    requires Cut(s, pos, chunk)
    ensures pos <= |s| < pos + |chunk|
  {
  }

  lemma AtLength(s: seq<bool>, pos: nat, chunk: seq<bool>)
    requires At(s, pos, chunk)
    ensures pos + |chunk| <= |s|
  {
  }

  lemma {:induction false} StoreAscends(vs: seq<Value>, pos: nat, i: nat)
    requires i <= |vs|
    ensures pos <= StorePos(vs, pos, i)
    ensures i > 0 ==> pos + |ValueBits(vs[0], pos)| <= StorePos(vs, pos, i)
    decreases |vs|
  {
    hide ValueBits;
    if i > 0 {
      StoreAscends(vs[1..], pos + |ValueBits(vs[0], pos)|, i - 1);
    }
  }
}
