/** The encoder's two recursions over entry ranges: the dry run that sizes a subtree and the
    pass that writes it. */
module TrieWriter {
  import opened Bits
  import opened Varint
  import opened BitStream
  import opened Keys
  import opened Values
  import opened Trie
  import opened TrieBuild

  /** Bits a VarInt takes. */
  method VarintBits(val: nat) returns (bits: nat)
    ensures bits == |Varint.Varint(val)|
  {
    bits := 8;
    var v := val / 128;
    while v > 0
      invariant bits + (if v > 0 then |Varint.Varint(v)| else 0) == |Varint.Varint(val)|
    {
      bits := bits + 8;
      v := v / 128;
    }
  }

  method CommonPrefix(es: seq<Entry>, start: nat, end: nat, n: nat) returns (common: nat)
    requires Range(es, start, end, n)
    ensures common == Common(es, start, end, n)
  {
    common := n;
    while true
      invariant n <= common <= |es[start].key|
      invariant Common(es, start, end, n) == Common(es, start, end, common)
      decreases |es[start].key| - common
    {
      var allHave := true;
      var i := start;
      while i < end && allHave
        invariant start <= i <= end
        invariant allHave && start < i ==> common < |es[start].key|
        invariant allHave ==> forall k :: start <= k < i ==> common < |es[k].key| && es[k].key[common] == es[start].key[common]
        invariant !allHave ==> !AllShare(es, start, end, common)
      {
        if |es[i].key| <= common || es[i].key[common] != es[start].key[common] {
          allHave := false;
        }
        i := i + 1;
      }
      if !allHave {
        return;
      }
      common := common + 1;
    }
  }

  method GroupEndAt(es: seq<Entry>, cs: nat, end: nat, n: nat) returns (ce: nat)
    requires cs < end <= |es| && forall i :: cs <= i < end ==> n < |es[i].key|
    ensures ce == ChildEnd(es, cs, end, n)
  {
    ce := cs + 1;
    while ce < end && es[ce].key[n] == es[cs].key[n]
      invariant cs < ce <= end && AllShare(es, cs, ce, n)
      invariant GroupEnd(es, cs, ce, end, n) == ChildEnd(es, cs, end, n)
    {
      ce := ce + 1;
    }
  }

  method CountChildren(es: seq<Entry>, hasValues: bool, lo: nat, hi: nat, n: nat) returns (count: nat)
    requires Splits(es, lo, hi, n)
    ensures count == Len(KidsOf(es, hasValues, lo, hi, KidsStart(es, lo, n), n)) <= hi - lo
  {
    count := 0;
    var cs := KidsStart(es, lo, n);
    ghost var all := Len(KidsOf(es, hasValues, lo, hi, cs, n));
    while cs < hi
      invariant KidsStart(es, lo, n) <= cs <= hi
      invariant count + Len(KidsOf(es, hasValues, lo, hi, cs, n)) == all
      invariant count <= cs - lo
    {
      GroupIsSmaller(es, lo, hi, cs, n);
      cs := GroupEndAt(es, cs, hi, n);
      count := count + 1;
    }
  }

  lemma TrieCount(es: seq<Entry>, hasValues: bool, start: nat, end: nat, n: nat)
    requires Sorted(es) && Range(es, start, end, n)
    ensures Count(TrieOf(es, hasValues, start, end, n)) == end - start
  {
    TrieItems(es, hasValues, start, end, n, 0);
  }

  /** The children's bits, none when there are none. */
  ghost function Siblings(sym: Symbols, kids: Kids, index: nat): seq<bool>
    requires Shaped(sym)
  {
    if kids.NoKids? then [] else KidsBits(sym, kids, index)
  }

  /** The bits a range is written as. */
  ghost function RangeBits(sym: Symbols, es: seq<Entry>, hasValues: bool, start: nat, end: nat, n: nat, index: nat): seq<bool>
    requires Shaped(sym) && Sorted(es) && Range(es, start, end, n)
  {
    NodeBits(sym, TrieOf(es, hasValues, start, end, n), index)
  }

  /** The children from entry cs on. */
  ghost function RestBits(sym: Symbols, es: seq<Entry>, hasValues: bool, lo: nat, hi: nat, cs: nat, n: nat, index: nat): seq<bool>
    requires Shaped(sym) && Splits(es, lo, hi, n) && KidsStart(es, lo, n) <= cs <= hi
  {
    Siblings(sym, KidsOf(es, hasValues, lo, hi, cs, n), index)
  }

  /** A child and, when siblings follow, the distance over it. */
  ghost function ChildBits(sym: Symbols, child: seq<bool>, more: bool): seq<bool>
    requires Shaped(sym)
  {
    if more then SkipBits(sym, |child|) + child else child
  }

  /** One step of the loop over children. */
  lemma RestStep(sym: Symbols, es: seq<Entry>, hasValues: bool, lo: nat, hi: nat, cs: nat, n: nat, index: nat)
    requires Shaped(sym) && Splits(es, lo, hi, n) && KidsStart(es, lo, n) <= cs < hi
    ensures forall i :: cs <= i < hi ==> n < |es[i].key|
    ensures var ce := ChildEnd(es, cs, hi, n);
            && Range(es, cs, ce, n) && ce - cs < hi - lo
            && var child := RangeBits(sym, es, hasValues, cs, ce, n, index);
            && var rest := RestBits(sym, es, hasValues, lo, hi, ce, n, index + (ce - cs));
            && RestBits(sym, es, hasValues, lo, hi, cs, n, index) == ChildBits(sym, child, ce < hi) + rest
            && Len(KidsOf(es, hasValues, lo, hi, cs, n)) == 1 + Len(KidsOf(es, hasValues, lo, hi, ce, n))
            && (ce < hi <==> Len(KidsOf(es, hasValues, lo, hi, ce, n)) > 0)
  {
    hide Common, TrieOf, NodeBits, AllShare, Sorted, SkipBits, ChildEnd;
    GroupIsSmaller(es, lo, hi, cs, n);
    var ce := ChildEnd(es, cs, hi, n);
    TrieCount(es, hasValues, cs, ce, n);
    var child := RangeBits(sym, es, hasValues, cs, ce, n, index);
    Associative(SkipBits(sym, |child|), child, RestBits(sym, es, hasValues, lo, hi, ce, n, index + (ce - cs)));
    if ce == hi {
      assert child + [] == child;
    }
  }

  lemma RestEmpty(sym: Symbols, es: seq<Entry>, hasValues: bool, lo: nat, hi: nat, n: nat, index: nat)
    requires Shaped(sym) && Splits(es, lo, hi, n) && KidsStart(es, lo, n) <= hi
    ensures RestBits(sym, es, hasValues, lo, hi, hi, n, index) == []
    ensures ForkBits(sym, 0) == []
  {
  }

  /** The range's own part, before its children. */
  ghost function HeadBits(sym: Symbols, es: seq<Entry>, hasValues: bool, start: nat, c: nat, n: nat, index: nat): seq<bool>
    requires Shaped(sym) && start < |es| && n <= c <= |es[start].key|
  {
    RunBits(sym, es[start].key[n..c]) + EndBits(sym, es[start], hasValues, c, index)
  }

  /** How the first key of a range ends after c bytes. */
  ghost function EndBits(sym: Symbols, e: Entry, hasValues: bool, c: nat, index: nat): seq<bool>
    requires Shaped(sym)
  {
    TermBits(sym, if |e.key| == c then TerminalOf(hasValues, e.val) else NoKey, index)
  }

  ghost function ForkBits(sym: Symbols, count: nat): seq<bool>
    requires Shaped(sym)
  {
    if count == 0 then [] else BitsOf(sym.ctrl[BRANCH], sym.bps) + Varint.Varint(count)
  }

  lemma KidsEmpty(es: seq<Entry>, hasValues: bool, lo: nat, hi: nat, n: nat)
    requires Splits(es, lo, hi, n)
    ensures KidsOf(es, hasValues, lo, hi, KidsStart(es, lo, n), n).NoKids? <==> KidsStart(es, lo, n) == hi
  {
  }

  lemma RangeParts(sym: Symbols, es: seq<Entry>, hasValues: bool, start: nat, end: nat, n: nat, index: nat)
    requires Shaped(sym) && Sorted(es) && Range(es, start, end, n)
    ensures var c := Common(es, start, end, n);
            && Splits(es, start, end, c) && n <= c <= |es[start].key|
            && var cs := KidsStart(es, start, c);
            && cs <= end
            && var kids := KidsOf(es, hasValues, start, end, cs, c);
            && RangeBits(sym, es, hasValues, start, end, n, index)
            == HeadBits(sym, es, hasValues, start, c, n, index)
               + (ForkBits(sym, Len(kids)) + RestBits(sym, es, hasValues, start, end, cs, c, index + (cs - start)))
            && (Len(kids) == 0 <==> cs == end)
  {
    hide Common, KidsOf, KidsBits, RunBits, AllShare, Sorted, TermBits;
    var c := Common(es, start, end, n);
    CommonRange(es, start, end, n, c);
    var kids := KidsOf(es, hasValues, start, end, KidsStart(es, start, c), c);
    assert kids.NoKids? <==> KidsStart(es, start, c) == end by { KidsEmpty(es, hasValues, start, end, c); }
    var idx := index + (KidsStart(es, start, c) - start);
    var run, term := RunBits(sym, es[start].key[n..c]), EndBits(sym, es[start], hasValues, c, index);
    Associative(run, term, BranchBits(sym, kids, idx));
    if kids.Kid? {
      Associative(BitsOf(sym.ctrl[BRANCH], sym.bps), Varint.Varint(Len(kids)), KidsBits(sym, kids, idx));
    } else {
      assert ForkBits(sym, 0) + RestBits(sym, es, hasValues, start, end, end, c, idx) == [];
    }
  }

  lemma ForkSize(sym: Symbols, count: nat)
    requires Shaped(sym) && count > 0
    ensures |ForkBits(sym, count)| == sym.bps + |Varint.Varint(count)|
  {
  }

  lemma SkipSize(sym: Symbols, distance: nat)
    requires Shaped(sym)
    ensures |SkipBits(sym, distance)| == sym.bps + |Varint.Varint(distance)|
  {
  }

  /** Size of the range's own part. */
  method HeadSize(sym: Symbols, es: seq<Entry>, hasValues: bool, start: nat, common: nat, n: nat, valueIdx: nat)
    returns (bits: nat)
    requires Shaped(sym) && start < |es| && n <= common <= |es[start].key|
    ensures bits == |HeadBits(sym, es, hasValues, start, common, n, valueIdx)|
  {
    hide EndBits, RunBits, BitsOf, Varint.Varint;
    EndLength(sym, es[start], hasValues, common, valueIdx);
    assert |es[start].key[n..common]| == common - n;
    bits := (common - n) * sym.bps;
    if |es[start].key| == common {
      bits := bits + sym.bps;
      if hasValues && !es[start].val.Null? {
        var width := VarintBits(valueIdx);
        bits := bits + width;
      }
    }
  }

  lemma EndLength(sym: Symbols, e: Entry, hasValues: bool, c: nat, index: nat)
    requires Shaped(sym)
    ensures |EndBits(sym, e, hasValues, c, index)|
         == if |e.key| != c then 0
            else if hasValues && !e.val.Null? then sym.bps + |Varint.Varint(index)|
            else sym.bps
  {
    hide BitsOf, Varint.Varint;
  }

  /** The dry run: the exact number of bits TrieWrite appends for the range, and the value
      index advanced past it. */
  method TrieSubtreeSize(sym: Symbols, es: seq<Entry>, hasValues: bool, start: nat, end: nat, n: nat, valueIdx: nat)
    returns (bits: nat, nextIdx: nat)
    requires Shaped(sym) && Sorted(es) && Range(es, start, end, n)
    ensures bits == |RangeBits(sym, es, hasValues, start, end, n, valueIdx)|
    ensures nextIdx == valueIdx + (end - start)
    decreases end - start
  {
    hide HeadBits, RangeBits, RestBits, ForkBits, Common, KidsOf, Sorted, SkipBits, ChildEnd, Len, EndBits, AllShare, TrieOf;
    var common := CommonPrefix(es, start, end, n);
    RangeParts(sym, es, hasValues, start, end, n, valueIdx);
    bits := HeadSize(sym, es, hasValues, start, common, n, valueIdx);
    var cs := KidsStart(es, start, common);
    nextIdx := valueIdx + (cs - start);
    var childCount := CountChildren(es, hasValues, start, end, common);
    RestEmpty(sym, es, hasValues, start, end, common, valueIdx + (end - start));
    if childCount == 0 {
      return;
    }
    var width := VarintBits(childCount);
    bits := bits + sym.bps + width;
    ForkSize(sym, childCount);
    var i := 0;
    while cs < end
      invariant KidsStart(es, start, common) <= cs <= end
      invariant nextIdx == valueIdx + (cs - start)
      invariant bits + |RestBits(sym, es, hasValues, start, end, cs, common, nextIdx)|
             == |RangeBits(sym, es, hasValues, start, end, n, valueIdx)|
      invariant i + Len(KidsOf(es, hasValues, start, end, cs, common)) == childCount
    {
      RestStep(sym, es, hasValues, start, end, cs, common, nextIdx);
      var ce := GroupEndAt(es, cs, end, common);
      var childSize, idx := TrieSubtreeSize(sym, es, hasValues, cs, ce, common, nextIdx);
      if i < childCount - 1 {
        var skip := VarintBits(childSize);
        bits := bits + sym.bps + skip;
        SkipSize(sym, childSize);
      }
      bits := bits + childSize;
      nextIdx := idx;
      i := i + 1;
      cs := ce;
    }
  }

  method WriteRun(w: BitWriter, sym: Symbols, run: Key)
    requires Shaped(sym) && w.Valid()
    modifies w, w.buf
    ensures w.Valid() && (w.buf == old(w.buf) || fresh(w.buf))
    ensures w.Contents() == old(w.Contents()) + RunBits(sym, run)
  {
    hide BitsOf;
    ghost var was, done := w.Contents(), [];
    var i := 0;
    while i < |run|
      invariant 0 <= i <= |run|
      invariant w.Valid() && (w.buf == old(w.buf) || fresh(w.buf))
      invariant w.Contents() == was + done
      invariant done + RunBits(sym, run[i..]) == RunBits(sym, run)
    {
      ghost var symbol := BitsOf(sym.codeOf[run[i]], sym.bps);
      assert run[i..][1..] == run[i + 1..];
      Associative(done, symbol, RunBits(sym, run[i + 1..]));
      Associative(was, done, symbol);
      var _ := w.WriteBits(sym.codeOf[run[i]], sym.bps);
      done := done + symbol;
      i := i + 1;
    }
    assert done + [] == done;
  }

  method WriteEnd(w: BitWriter, sym: Symbols, e: Entry, hasValues: bool, common: nat, valueIdx: word)
    requires Shaped(sym) && w.Valid()
    modifies w, w.buf
    ensures w.Valid() && (w.buf == old(w.buf) || fresh(w.buf))
    ensures w.Contents() == old(w.Contents()) + EndBits(sym, e, hasValues, common, valueIdx)
  {
    hide BitsOf, Varint.Varint;
    ghost var was := w.Contents();
    if |e.key| == common {
      if hasValues && !e.val.Null? {
        var _ := w.WriteBits(sym.ctrl[END_VAL], sym.bps);
        w.WriteVarintU(valueIdx);
        Associative(was, BitsOf(sym.ctrl[END_VAL], sym.bps), Varint.Varint(valueIdx));
      } else {
        var _ := w.WriteBits(sym.ctrl[END], sym.bps);
      }
    }
  }

  /** A control code and its operand: a child count or a distance. */
  method WriteControl(w: BitWriter, sym: Symbols, code: nat, operand: word)
    requires Shaped(sym) && w.Valid()
    modifies w, w.buf
    ensures w.Valid() && (w.buf == old(w.buf) || fresh(w.buf))
    ensures w.Contents() == old(w.Contents()) + (BitsOf(code, sym.bps) + Varint.Varint(operand))
  {
    hide BitsOf, Varint.Varint;
    ghost var was := w.Contents();
    var _ := w.WriteBits(code, sym.bps);
    w.WriteVarintU(operand);
    Associative(was, BitsOf(code, sym.bps), Varint.Varint(operand));
  }

  method WriteHead(
    w: BitWriter, sym: Symbols, es: seq<Entry>, hasValues: bool, start: nat, common: nat, n: nat, valueIdx: word)
    requires Shaped(sym) && start < |es| && n <= common <= |es[start].key| && w.Valid()
    modifies w, w.buf
    ensures w.Valid() && (w.buf == old(w.buf) || fresh(w.buf))
    ensures w.Contents() == old(w.Contents()) + HeadBits(sym, es, hasValues, start, common, n, valueIdx)
  {
    hide EndBits, RunBits;
    ghost var was := w.Contents();
    WriteRun(w, sym, es[start].key[n..common]);
    WriteEnd(w, sym, es[start], hasValues, common, valueIdx);
    Associative(was, RunBits(sym, es[start].key[n..common]), EndBits(sym, es[start], hasValues, common, valueIdx));
  }

  method WriteFork(w: BitWriter, sym: Symbols, count: word)
    requires Shaped(sym) && w.Valid()
    modifies w, w.buf
    ensures w.Valid() && (w.buf == old(w.buf) || fresh(w.buf))
    ensures w.Contents() == old(w.Contents()) + ForkBits(sym, count)
  {
    if count > 0 {
      WriteControl(w, sym, sym.ctrl[BRANCH], count);
    }
  }

  lemma ChildFits(sym: Symbols, es: seq<Entry>, hasValues: bool, cs: nat, ce: nat, n: nat, index: nat, more: bool)
    requires Shaped(sym) && Sorted(es) && Range(es, cs, ce, n)
    ensures |RangeBits(sym, es, hasValues, cs, ce, n, index)|
         <= |ChildBits(sym, RangeBits(sym, es, hasValues, cs, ce, n, index), more)|
  {
  }

  method WriteChild(w: BitWriter, sym: Symbols, es: seq<Entry>, hasValues: bool, cs: nat, ce: nat, n: nat, valueIdx: nat, more: bool)
    returns (nextIdx: nat)
    requires Shaped(sym) && Sorted(es) && Range(es, cs, ce, n) && w.Valid()
    requires |RangeBits(sym, es, hasValues, cs, ce, n, valueIdx)| < 0x1_0000_0000_0000_0000
    requires valueIdx + (ce - cs) < 0x1_0000_0000_0000_0000
    modifies w, w.buf
    ensures w.Valid() && (w.buf == old(w.buf) || fresh(w.buf))
    ensures w.Contents() == old(w.Contents()) + ChildBits(sym, RangeBits(sym, es, hasValues, cs, ce, n, valueIdx), more)
    ensures nextIdx == valueIdx + (ce - cs)
    decreases ce - cs, 1
  {
    hide RangeBits, Sorted, BitsOf, Varint.Varint;
    ghost var was, child := w.Contents(), RangeBits(sym, es, hasValues, cs, ce, n, valueIdx);
    if more {
      var childSize, _ := TrieSubtreeSize(sym, es, hasValues, cs, ce, n, valueIdx);
      WriteControl(w, sym, sym.ctrl[SKIP], childSize);
      Associative(was, SkipBits(sym, |child|), child);
    }
    nextIdx := TrieWrite(w, sym, es, hasValues, cs, ce, n, valueIdx);
  }

  /** Appends the subtree of a range, each child but the last preceded by its dry-run size. */
  method TrieWrite(w: BitWriter, sym: Symbols, es: seq<Entry>, hasValues: bool, start: nat, end: nat, n: nat, valueIdx: nat)
    returns (nextIdx: nat)
    requires Shaped(sym) && Sorted(es) && Range(es, start, end, n) && w.Valid()
    requires |RangeBits(sym, es, hasValues, start, end, n, valueIdx)| < 0x1_0000_0000_0000_0000
    requires valueIdx + (end - start) < 0x1_0000_0000_0000_0000
    modifies w, w.buf
    ensures w.Valid() && (w.buf == old(w.buf) || fresh(w.buf))
    ensures w.Contents() == old(w.Contents()) + RangeBits(sym, es, hasValues, start, end, n, valueIdx)
    ensures nextIdx == valueIdx + (end - start)
    decreases end - start, 0
  {
    hide HeadBits, RangeBits, RestBits, ForkBits, Common, KidsOf, Sorted, SkipBits, ChildEnd, Len, EndBits, AllShare, TrieOf, ChildBits;
    ghost var was := w.Contents();
    ghost var all := RangeBits(sym, es, hasValues, start, end, n, valueIdx);
    var common := CommonPrefix(es, start, end, n);
    RangeParts(sym, es, hasValues, start, end, n, valueIdx);
    var cs := KidsStart(es, start, common);
    var childCount := CountChildren(es, hasValues, start, end, common);
    WriteHead(w, sym, es, hasValues, start, common, n, valueIdx);
    nextIdx := valueIdx + (cs - start);
    ghost var head, fork := HeadBits(sym, es, hasValues, start, common, n, valueIdx), ForkBits(sym, childCount);
    ghost var done := head + fork;
    WriteFork(w, sym, childCount);
    RestEmpty(sym, es, hasValues, start, end, common, valueIdx + (end - start));
    Associative(was, head, fork);
    Associative(head, fork, RestBits(sym, es, hasValues, start, end, cs, common, nextIdx));
    var i := 0;
    while cs < end
      invariant KidsStart(es, start, common) <= cs <= end
      invariant nextIdx == valueIdx + (cs - start)
      invariant w.Valid() && (w.buf == old(w.buf) || fresh(w.buf))
      invariant w.Contents() == was + done
      invariant done + RestBits(sym, es, hasValues, start, end, cs, common, nextIdx) == all
      invariant i + Len(KidsOf(es, hasValues, start, end, cs, common)) == childCount
    {
      RestStep(sym, es, hasValues, start, end, cs, common, nextIdx);
      var ce := GroupEndAt(es, cs, end, common);
      ghost var child := ChildBits(sym, RangeBits(sym, es, hasValues, cs, ce, common, nextIdx), ce < end);
      i := i + 1;
      ChildFits(sym, es, hasValues, cs, ce, common, nextIdx, ce < end);
      nextIdx := WriteChild(w, sym, es, hasValues, cs, ce, common, nextIdx, i < childCount);
      cs := ce;
      Associative(was, done, child);
      Associative(done, child, RestBits(sym, es, hasValues, start, end, cs, common, nextIdx));
      done := done + child;
    }
    assert done + [] == done;
  }
}
