/** Where the C and the Python readers agree: Python accepts exactly what C accepts without a wrapped
    length, and the trees differ at most by empty texts. */
module TersemlDialects {
  import opened Bits
  import opened TersemlTree
  import opened TersemlWrite
  import opened TersemlRead
  import opened TersemlPrefix

  /** The tree without its empty texts. */
  function NoEmpty(t: Node): (r: Node)
    ensures r.Element? <==> t.Element?
  {
    match t
    case Text(_) => t
    case Element(tag, attrs, kids) => Element(tag, attrs, NoEmptyAll(kids))
  }

  function NoEmptyAll(kids: seq<Node>): seq<Node> {
    if kids == [] then [] else (if kids[0] == Text([]) then [] else [NoEmpty(kids[0])]) + NoEmptyAll(kids[1..])
  }

  /** Merging drops empty texts anyway. */
  lemma {:induction false} NoEmptyNormal(t: Node)
    ensures Normal(NoEmpty(t)) == Normal(t)
  {
    if t.Element? {
      NoEmptyMerge(t.children);
    }
  }

  lemma {:induction false} NoEmptyMerge(kids: seq<Node>)
    ensures Merge(NormalAll(NoEmptyAll(kids))) == Merge(NormalAll(kids))
  {
    if kids != [] {
      NoEmptyMerge(kids[1..]);
      assert NormalAll(kids)[1..] == NormalAll(kids[1..]);
      if kids[0] == Text([]) {
        assert NoEmptyAll(kids) == NoEmptyAll(kids[1..]);
      } else {
        NoEmptyNormal(kids[0]);
        var rest := NoEmptyAll(kids[1..]);
        assert NoEmptyAll(kids)[1..] == rest;
        assert NormalAll(NoEmptyAll(kids))[1..] == NormalAll(rest);
      }
    }
  }

  /** A claim that fits what is left is below 2 to the 64th, so it does not wrap. */
  lemma CountedAgrees(s: Bytes, i: nat)
    requires Addressable(s) && ReadCounted(s, i, PYTHON).Parsed?
    ensures ReadCounted(s, i, C) == ReadCounted(s, i, PYTHON)
  {
  }

  lemma TextAgrees(s: Bytes, i: nat)
    requires Addressable(s) && ReadText(s, i, PYTHON).Parsed?
    ensures ReadText(s, i, C) == ReadText(s, i, PYTHON)
  {
    hide ReadCounted, ReadTerminated, ReadEscaped;
    if RunAt(s, i) && s[i + 1] == UPPER_B {
      CountedAgrees(s, i + 2);
    }
  }

  lemma {:induction false} KidsAgree(s: Bytes, i: nat, depth: nat)
    requires Addressable(s) && ReadKids(s, i, depth, PYTHON).Parsed?
    ensures var r := ReadKids(s, i, depth, PYTHON); ReadKids(s, i, depth, C) == Parsed(NoEmptyAll(r.value), r.end)
    decreases |s| - i, 2
  {
    hide ReadEscaped, ReadRun, ReadElement;
    var kids := ReadKids(s, i, depth, PYTHON).value;
    if s[i] == LBR {
      var el := ReadElement(s, i, depth + 1, PYTHON);
      ElementAgrees(s, i, depth + 1);
      KidsAgree(s, el.end, depth);
      assert kids[1..] == ReadKids(s, el.end, depth, PYTHON).value;
    } else if s[i] != RBR {
      TextAdvances(s, i, PYTHON);
      TextAgrees(s, i);
      var text := ReadText(s, i, PYTHON);
      KidsAgree(s, text.end, depth);
      assert kids[1..] == ReadKids(s, text.end, depth, PYTHON).value;
      DropText(text.value, kids[1..]);
      assert kids == [Text(text.value)] + kids[1..];
    }
  }

  lemma DropText(b: Bytes, rest: seq<Node>)
    ensures NoEmptyAll([Text(b)] + rest) == if b == [] then NoEmptyAll(rest) else [Text(b)] + NoEmptyAll(rest)
  {
    assert ([Text(b)] + rest)[1..] == rest;
  }

  lemma {:induction false} ElementAgrees(s: Bytes, i: nat, depth: nat)
    requires Addressable(s) && ReadElement(s, i, depth, PYTHON).Parsed?
    ensures var r := ReadElement(s, i, depth, PYTHON); ReadElement(s, i, depth, C) == Parsed(NoEmpty(r.value), r.end)
    decreases |s| - i, 1
  {
    hide ReadEscaped, ReadKids, ReadAttrs;
    var head := ReadEscaped(s, i + 1, Tag);
    if s[head.end] == RBR {
      SingletonKept(head.value);
    } else {
      var j := head.end + 1;
      if j < |s| && s[j] == LSQ {
        var attrs := ReadAttrs(s, j + 1);
        if !(attrs.end < |s| && s[attrs.end] == RBR) {
          KidsAgree(s, if attrs.end < |s| && s[attrs.end] == COM then attrs.end + 1 else attrs.end, depth);
        }
      } else {
        KidsAgree(s, j, depth);
      }
    }
  }

  lemma SingletonKept(b: Bytes)
    ensures NoEmpty(AsElement(Text(b))) == AsElement(Text(b))
  {
    var kids := AsElement(Text(b)).children;
    if kids != [] {
      assert kids == [Text(b)] && kids[1..] == [];
      assert [Text(b)] + [] == [Text(b)];
      assert NoEmptyAll(kids) == [Text(b)];
    }
  }

  /** Every document the Python reader accepts, the C reader accepts, and re-encoding either tree
      gives the same bytes. */
  lemma ReadersAgree(b: Bytes)
    requires Addressable(b) && Decoded(b, PYTHON).Parsed?
    ensures Decoded(b, C).Parsed? && Encoding(Decoded(b, C).value) == Encoding(Decoded(b, PYTHON).value)
  {
    hide ReadElement, Normal, NoEmpty, Written;
    ElementAgrees(b, 0, 0);
    NoEmptyNormal(Decoded(b, PYTHON).value);
  }

  /** Every counted run of the content, as C reads it, states a length below 2 to the 64th. */
  predicate KidsNarrow(s: Bytes, i: nat, depth: nat)
    decreases |s| - i, 2
  {
    if i >= |s| || s[i] == RBR then true
    else if s[i] == LBR then
      var el := ReadElement(s, i, depth + 1, C);
      el.Parsed? ==> ElementNarrow(s, i, depth + 1) && KidsNarrow(s, el.end, depth)
    else
      TextAdvances(s, i, C);
      var text := ReadText(s, i, C);
      (RunAt(s, i) ==> RunNarrow(s, i)) && (text.Parsed? ==> KidsNarrow(s, text.end, depth))
  }

  predicate RunNarrow(s: Bytes, i: nat)
    requires RunAt(s, i)
  {
    var n := ReadCount(s, i + 2, MAX_GROUPS);
    s[i + 1] == UPPER_B && n.Parsed? ==> n.value < 0x1_0000_0000_0000_0000
  }

  /** So it is with every content of the element at i, at any depth. */
  predicate ElementNarrow(s: Bytes, i: nat, depth: nat)
    decreases |s| - i, 1
  {
    var head := ReadEscaped(s, i + 1, Tag);
    head.Parsed? && s[head.end] == COM ==> BodyNarrow(s, head.end + 1, depth)
  }

  predicate BodyNarrow(s: Bytes, i: nat, depth: nat)
    decreases |s| - i, 3
  {
    if i < |s| && s[i] == LSQ then
      var attrs := ReadAttrs(s, i + 1);
      attrs.Rejected? || (attrs.end < |s| && s[attrs.end] == RBR)
      || KidsNarrow(s, if attrs.end < |s| && s[attrs.end] == COM then attrs.end + 1 else attrs.end, depth)
    else KidsNarrow(s, i, depth)
  }

  lemma TextExactly(s: Bytes, i: nat)
    requires Addressable(s) && ReadText(s, i, C).Parsed?
    ensures ReadText(s, i, PYTHON).Parsed? <==> (RunAt(s, i) ==> RunNarrow(s, i))
    ensures ReadText(s, i, PYTHON).Parsed? ==> ReadText(s, i, C) == ReadText(s, i, PYTHON)
  {
    hide ReadTerminated, ReadEscaped, ReadCount;
  }

  lemma {:induction false} KidsExactly(s: Bytes, i: nat, depth: nat)
    requires Addressable(s) && ReadKids(s, i, depth, C).Parsed?
    ensures ReadKids(s, i, depth, PYTHON).Parsed? <==> KidsNarrow(s, i, depth)
    decreases |s| - i, 2
  {
    hide ReadEscaped, ReadRun, ReadElement, ElementNarrow, RunNarrow;
    if s[i] == LBR {
      ElementExactly(s, i, depth + 1);
      KidsExactly(s, ReadElement(s, i, depth + 1, C).end, depth);
      if ReadElement(s, i, depth + 1, PYTHON).Parsed? {
        ElementAgrees(s, i, depth + 1);
      }
    } else if s[i] != RBR {
      TextAdvances(s, i, C);
      TextExactly(s, i);
      KidsExactly(s, ReadText(s, i, C).end, depth);
    }
  }

  lemma {:induction false} ElementExactly(s: Bytes, i: nat, depth: nat)
    requires Addressable(s) && ReadElement(s, i, depth, C).Parsed?
    ensures ReadElement(s, i, depth, PYTHON).Parsed? <==> ElementNarrow(s, i, depth)
    decreases |s| - i, 1
  {
    hide ReadEscaped, ReadKids, ReadAttrs, KidsNarrow;
    var head := ReadEscaped(s, i + 1, Tag);
    if s[head.end] != RBR {
      var j := head.end + 1;
      if j < |s| && s[j] == LSQ {
        var attrs := ReadAttrs(s, j + 1);
        if !(attrs.end < |s| && s[attrs.end] == RBR) {
          KidsExactly(s, if attrs.end < |s| && s[attrs.end] == COM then attrs.end + 1 else attrs.end, depth);
        }
      } else {
        KidsExactly(s, j, depth);
      }
    }
  }

  /** What Python accepts is exactly what C accepts without a run that claims 2 to the 64th bytes
      or more; the trees then differ by the empty texts alone. */
  lemma AcceptedExactly(b: Bytes)
    requires Addressable(b)
    ensures Decoded(b, PYTHON).Parsed? <==> Decoded(b, C).Parsed? && ElementNarrow(b, 0, 0)
    ensures Decoded(b, PYTHON).Parsed? ==> Decoded(b, C).value == NoEmpty(Decoded(b, PYTHON).value)
  {
    hide ReadElement, NoEmpty, ElementNarrow;
    if ReadElement(b, 0, 0, PYTHON).Parsed? {
      ElementAgrees(b, 0, 0);
    }
    if ReadElement(b, 0, 0, C).Parsed? {
      ElementExactly(b, 0, 0);
    }
  }

  /** Groups without payload only shift the one behind them. */
  lemma {:induction false} ShiftedGroup(s: Bytes, i: nat, groups: nat)
    requires groups > 0 && i + groups <= |s| && s[i + groups - 1] < 128
    requires forall k :: i <= k < i + groups - 1 ==> s[k] == 128
    ensures ReadCount(s, i, groups) == Parsed(s[i + groups - 1] * Pow2(7 * (groups - 1)), i + groups)
    decreases groups
  {
    hide Pow2;
    Pow2Small();
    if groups > 1 {
      ShiftedGroup(s, i + 1, groups - 1);
      Pow2Constants();
      Pow2Add(7, 7 * (groups - 2));
      Carry(s[i + groups - 1], Pow2(7 * (groups - 2)));
    }
  }

  lemma Carry(x: nat, p: nat)
    ensures 128 * (x * p) == x * (128 * p)
  {
  }

  /** A claim of 2 to the 64th is nothing in C, and too much for Python. */
  lemma WrappedRun(s: Bytes, i: nat)
    requires Addressable(s) && i + 12 <= |s| && s[i] == BS && s[i + 1] == UPPER_B && s[i + 11] == 2
    requires forall k :: i + 2 <= k < i + 11 ==> s[k] == 128
    ensures ReadRun(s, i, C) == Parsed([], i + 12) && ReadRun(s, i, PYTHON) == Rejected(Malformed)
  {
    hide ReadCount, Pow2;
    ShiftedGroup(s, i + 2, MAX_GROUPS);
    Pow2Constants();
    Pow2Add(1, 63);
    Pow2Small();
    assert ReadCount(s, i + 2, MAX_GROUPS) == Parsed(0x1_0000_0000_0000_0000, i + 12);
    assert s[i + 12..i + 12] == [];
  }

  lemma Pow2Small()
    ensures Pow2(0) == 1 && Pow2(1) == 2
  {
  }

  /** Not the other way round: the counted run here claims 2 to the 64th bytes. */
  lemma WrappedClaim()
    ensures var b := [LBR, 0x70, COM, BS, UPPER_B, 128, 128, 128, 128, 128, 128, 128, 128, 128, 2, RBR];
            && Decoded(b, C) == Parsed(Element([0x70], [], []), 16) && Decoded(b, PYTHON) == Rejected(Malformed)
            && !ElementNarrow(b, 0, 0)
  {
    hide ElementNarrow, Decoded;
    var b: Bytes := [LBR, 0x70, COM, BS, UPPER_B, 128, 128, 128, 128, 128, 128, 128, 128, 128, 2, RBR];
    WrappedRead(b);
    AcceptedExactly(b);
  }

  lemma WrappedRead(b: Bytes)
    requires b == [LBR, 0x70, COM, BS, UPPER_B, 128, 128, 128, 128, 128, 128, 128, 128, 128, 2, RBR]
    ensures Decoded(b, C) == Parsed(Element([0x70], [], []), 16) && Decoded(b, PYTHON) == Rejected(Malformed)
  {
    hide ReadRun;
    WrappedRun(b, 3);
    assert [b[1]] + [] == [b[1]];
    assert ReadEscaped(b, 2, Tag) == Parsed([], 2);
    assert ReadEscaped(b, 1, Tag) == Parsed([0x70], 2);
    assert ReadKids(b, 15, 0, C) == Parsed([], 16);
    assert ReadKids(b, 3, 0, C) == Parsed([], 16);
    assert ReadKids(b, 3, 0, PYTHON) == Rejected(Malformed);
    assert ReadBody(b, 3, 0, C, [0x70]) == Parsed(Element([0x70], [], []), 16);
    assert ReadBody(b, 3, 0, PYTHON, [0x70]) == Rejected(Malformed);
    assert ReadElement(b, 0, 0, C) == ReadBody(b, 3, 0, C, [0x70]);
    assert ReadElement(b, 0, 0, PYTHON) == ReadBody(b, 3, 0, PYTHON, [0x70]);
  }
}
