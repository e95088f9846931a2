/** Reading inverts writing, whatever follows. */
module TersemlRoundTrip {
  import opened Bits
  import opened Leb128
  import opened TersemlTree
  import opened TersemlWrite
  import opened TersemlRead

  lemma {:induction false} EscapedBack(s: Bytes, i: nat, slot: Slot, b: Bytes, lead: bool)
    requires Holds(s, i, Escape(slot, b, lead))
    requires i + |Escape(slot, b, lead)| < |s| && Stops(slot, s[i + |Escape(slot, b, lead)|])
    ensures ReadEscaped(s, i, slot) == Parsed(b, i + |Escape(slot, b, lead)|)
    decreases b
  {
    hide Holds;
    if b != [] {
      var first := if Reserved(slot, b[0]) || (lead && b[0] == LSQ) then [BS, b[0]] else [b[0]];
      HoldsSplit(s, i, first, Escape(slot, b[1..], false));
      HoldsFirst(s, i, first);
      if |first| == 2 {
        HoldsFirst(s, i + 1, first[1..]);
      }
      EscapedBack(s, i + |first|, slot, b[1..], false);
      assert [b[0]] + b[1..] == b;
    }
  }

  lemma {:induction false} TerminatedBack(s: Bytes, i: nat, b: Bytes)
    requires Holds(s, i, EscapeNul(b) + [NUL])
    ensures ReadTerminated(s, i) == Parsed(b, i + |EscapeNul(b)| + 1)
    decreases b
  {
    hide Holds;
    if b == [] {
      HoldsFirst(s, i, EscapeNul(b) + [NUL]);
    } else {
      var first := if b[0] == NUL then [BS, ZERO] else if b[0] == BS then [BS, BS] else [b[0]];
      assert EscapeNul(b) + [NUL] == first + (EscapeNul(b[1..]) + [NUL]);
      HoldsSplit(s, i, first, EscapeNul(b[1..]) + [NUL]);
      HoldsFirst(s, i, first);
      if |first| == 2 {
        HoldsFirst(s, i + 1, first[1..]);
      }
      TerminatedBack(s, i + |first|, b[1..]);
      assert [b[0]] + b[1..] == b;
    }
  }

  lemma {:induction false} CountBack(s: Bytes, i: nat, n: nat, groups: nat)
    requires Holds(s, i, Leb(n)) && groups > 0 && n < Pow2(7 * groups)
    ensures ReadCount(s, i, groups) == Parsed(n, i + |Leb(n)|)
    decreases groups
  {
    hide Holds, Pow2;
    FirstByte(s, i, n);
    if n >= 128 {
      Pow2Constants();
      Pow2Add(7, 7 * groups - 7);
      assert 7 * groups - 7 == 7 * (groups - 1);
      CountBack(s, i + 1, n / 128, groups - 1);
    }
  }

  lemma CountedBack(s: Bytes, i: nat, b: Bytes, d: Dialect)
    requires Holds(s, i, Leb(|b|) + b) && Addressable(b)
    ensures ReadCounted(s, i, d) == Parsed(b, i + |Leb(|b|)| + |b|)
  {
    hide Pow2;
    HoldsSplit(s, i, Leb(|b|), b);
    Pow2Constants();
    Pow2Monotone(64, 70);
    CountBack(s, i, |b|, MAX_GROUPS);
  }

  lemma RunBack(s: Bytes, i: nat, b: Bytes, form: Form, start: bool, d: Dialect)
    requires Holds(s, i, Emitted(b, form, start)) && !form.Inline? && Addressable(b)
    ensures RunAt(s, i) && ReadRun(s, i, d) == Parsed(b, i + |Emitted(b, form, start)|)
  {
    hide Holds, ReadCounted, ReadTerminated, Addressable;
    var e := Emitted(b, form, start);
    HoldsFirst(s, i, e);
    HoldsFirst(s, i + 1, e[1..]);
    if form.Counted? {
      assert e[1..][1..] == Leb(|b|) + b;
      CountedBack(s, i + 2, b, d);
    } else {
      assert e[1..][1..] == EscapeNul(b) + [NUL];
      TerminatedBack(s, i + 2, b);
    }
  }

  /** A pair never starts with a closing bracket. */
  lemma PairsFirst(attrs: seq<Attr>)
    requires attrs != []
    ensures Pairs(attrs) != [] && Pairs(attrs)[0] != RSQ
  {
    if attrs[0].key != [] {
      var key := attrs[0].key;
      assert Escape(Key, key, false)[0] == Pairs(attrs)[0];
    }
  }

  lemma {:induction false} PairsBack(s: Bytes, i: nat, attrs: seq<Attr>)
    requires attrs != [] && Holds(s, i, Pairs(attrs) + [RSQ])
    ensures ReadPairs(s, i) == Parsed(attrs, i + |Pairs(attrs)| + 1)
    decreases attrs
  {
    hide Holds, Pair, ReadPairs;
    var a, k := attrs[0], i + |Pair(attrs[0])|;
    if |attrs| == 1 {
      assert attrs == [a] && Pairs(attrs) + [RSQ] == Pair(a) + [RSQ];
      OnePairBack(s, i, a, [RSQ]);
      HoldsFirst(s, k, [RSQ]);
      LastPair(s, i, a, k);
    } else {
      var rest := Pairs(attrs[1..]) + [RSQ];
      assert Pairs(attrs) + [RSQ] == Pair(a) + ([COM] + rest);
      OnePairBack(s, i, a, [COM] + rest);
      HoldsFirst(s, k, [COM] + rest);
      assert ([COM] + rest)[1..] == rest;
      PairsFirst(attrs[1..]);
      HoldsFirst(s, k + 1, rest);
      PairsBack(s, k + 1, attrs[1..]);
      assert attrs == [a] + attrs[1..];
      NextPair(s, i, a, k);
    }
  }

  /** The pair at i reads back and ends at k. */
  ghost predicate PairReads(s: Bytes, i: nat, a: Attr, k: nat) {
    var key := ReadEscaped(s, i, Key);
    && key.Parsed? && key.value == a.key && s[key.end] == COL
    && ReadEscaped(s, key.end + 1, Value) == Parsed(a.value, k)
  }

  lemma LastPair(s: Bytes, i: nat, a: Attr, k: nat)
    requires PairReads(s, i, a, k) && k < |s| && s[k] == RSQ
    ensures ReadPairs(s, i) == Parsed([a], k + 1)
  {
    hide ReadEscaped;
  }

  lemma NextPair(s: Bytes, i: nat, a: Attr, k: nat)
    requires PairReads(s, i, a, k) && k + 1 < |s| && s[k] == COM && s[k + 1] != RSQ && ReadPairs(s, k + 1).Parsed?
    ensures ReadPairs(s, i) == Parsed([a] + ReadPairs(s, k + 1).value, ReadPairs(s, k + 1).end)
  {
    hide ReadEscaped;
  }

  lemma OnePairBack(s: Bytes, i: nat, a: Attr, more: Bytes)
    requires more != [] && (more[0] == COM || more[0] == RSQ) && Holds(s, i, Pair(a) + more)
    ensures PairReads(s, i, a, i + |Pair(a)|) && Holds(s, i + |Pair(a)|, more)
  {
    hide Holds, Escape, ReadEscaped;
    var key, value := Escape(Key, a.key, false), Escape(Value, a.value, false);
    assert Pair(a) + more == key + ([COL] + (value + more));
    HoldsSplit(s, i, key, [COL] + (value + more));
    HoldsFirst(s, i + |key|, [COL] + (value + more));
    EscapedBack(s, i, Key, a.key, false);
    assert ([COL] + (value + more))[1..] == value + more;
    HoldsSplit(s, i + |key| + 1, value, more);
    HoldsFirst(s, i + |Pair(a)|, more);
    EscapedBack(s, i + |key| + 1, Value, a.value, false);
  }

  /** A text written in place starts with none of the bytes that would end it or make it a run. */
  lemma InlineFirst(b: Bytes, start: bool)
    requires b != []
    ensures var e := Escape(Content, b, start);
            && e != [] && e[0] != LBR && e[0] != RBR && (start ==> e[0] != LSQ)
            && (e[0] == BS ==> |e| > 1 && e[1] != LOWER_B && e[1] != UPPER_B)
  {
  }

  /** One text child, followed by a brace. */
  lemma TextBack(s: Bytes, i: nat, b: Bytes, start: bool, d: Dialect)
    requires b != [] && Addressable(s) && Holds(s, i, Payload(b, start))
    requires i + |Payload(b, start)| < |s| && Stops(Content, s[i + |Payload(b, start)|])
    ensures i < |s| && s[i] != LBR && s[i] != RBR
    ensures (if RunAt(s, i) then ReadRun(s, i, d) else ReadEscaped(s, i, Content)) == Parsed(b, i + |Payload(b, start)|)
  {
    hide Holds, Escape, ReadEscaped, ReadRun;
    var form := BestForm(b, start);
    if form.Inline? {
      InlineFirst(b, start);
      var e := Escape(Content, b, start);
      HoldsFirst(s, i, e);
      if e[0] == BS {
        HoldsFirst(s, i + 1, e[1..]);
      }
      EscapedBack(s, i, Content, b, start);
    } else {
      RunBack(s, i, b, form, start, d);
    }
  }

  /** What the children start with: never a bracket that could be taken for attributes. */
  lemma KidsFirst(kids: seq<Node>, start: bool)
    requires Separated(kids)
    ensures var e := KidsWritten(kids, start) + [RBR]; start ==> e[0] != LSQ
    ensures kids != [] && kids[0].Element? ==> (KidsWritten(kids, start) + [RBR])[0] == LBR
    ensures kids == [] ==> (KidsWritten(kids, start) + [RBR])[0] == RBR
  {
    hide Written, Escape;
    if kids != [] && kids[0].Text? {
      var b := kids[0].text;
      assert b != [];
      InlineFirst(b, start);
      assert Payload(b, start)[0] == KidsWritten(kids, start)[0];
    }
  }

  lemma {:induction false} KidsBack(s: Bytes, i: nat, kids: seq<Node>, start: bool, depth: nat, d: Dialect)
    requires Addressable(s) && Holds(s, i, KidsWritten(kids, start) + [RBR])
    requires Separated(kids) && AllNormal(kids) && depth + KidsHeight(kids) <= 256
    ensures ReadKids(s, i, depth, d) == Parsed(kids, i + |KidsWritten(kids, start)| + 1)
    decreases kids, 2
  {
    hide Holds, Written, Separated, Payload, ReadRun, ReadEscaped, ReadElement, ReadKids;
    if kids == [] {
      HoldsFirst(s, i, KidsWritten(kids, start) + [RBR]);
      NoKids(s, i, depth, d);
    } else {
      var kid, rest := kids[0], KidsWritten(kids[1..], false) + [RBR];
      assert KidsWritten(kids, start) + [RBR] == KidWritten(kid, start) + rest;
      HoldsSplit(s, i, KidWritten(kid, start), rest);
      SeparatedTail(kids);
      KidsFirst(kids[1..], false);
      HoldsFirst(s, i + |KidWritten(kid, start)|, rest);
      KidsBack(s, i + |KidWritten(kid, start)|, kids[1..], false, depth, d);
      if kid.Element? {
        ElementBack(s, i, kid, depth + 1, d);
        ThenKids(s, i, kid, kids, i + |KidWritten(kid, start)|, depth, d);
      } else {
        TextBack(s, i, kid.text, start, d);
        ThenKids(s, i, kid, kids, i + |KidWritten(kid, start)|, depth, d);
      }
    }
  }

  lemma NoKids(s: Bytes, i: nat, depth: nat, d: Dialect)
    requires i < |s| && s[i] == RBR
    ensures ReadKids(s, i, depth, d) == Parsed([], i + 1)
  {
  }

  /** A child and then the others. */
  lemma ThenKids(s: Bytes, i: nat, kid: Node, kids: seq<Node>, end: nat, depth: nat, d: Dialect)
    requires kids != [] && kids[0] == kid && i < end && ReadKids(s, end, depth, d).Parsed?
    requires ReadKids(s, end, depth, d).value == kids[1..]
    requires kid.Element? ==> ReadElement(s, i, depth + 1, d) == Parsed(kid, end)
    requires kid.Text? ==> kid.text != [] && i < |s| && s[i] != LBR && s[i] != RBR
    requires kid.Text? ==> (if RunAt(s, i) then ReadRun(s, i, d) else ReadEscaped(s, i, Content)) == Parsed(kid.text, end)
    ensures ReadKids(s, i, depth, d) == Parsed(kids, ReadKids(s, end, depth, d).end)
  {
    hide ReadRun, ReadEscaped;
    assert kids == [kid] + kids[1..];
    if kid.Element? {
      ElementStarts(s, i, depth + 1, d);
    }
  }

  lemma ElementStarts(s: Bytes, i: nat, depth: nat, d: Dialect)
    requires ReadElement(s, i, depth, d).Parsed?
    ensures i < |s| && s[i] == LBR
  {
  }

  lemma {:induction false} ElementBack(s: Bytes, i: nat, t: Node, depth: nat, d: Dialect)
    requires Addressable(s) && Holds(s, i, Written(t)) && t.Element?
    requires IsNormal(t) && depth + Height(t) <= 256
    ensures ReadElement(s, i, depth, d) == Parsed(t, i + |Written(t)|)
    decreases t, 1
  {
    hide Holds, Separated, KidsWritten, ReadKids, ReadEscaped, ReadBody, Escape, AttrList;
    var kids := KidsWritten(t.children, t.attrs == []) + [RBR];
    var tag, attrs := Escape(Tag, t.tag, false), AttrList(t.attrs);
    HoldsFirst(s, i, Written(t));
    assert Written(t)[1..] == tag + (attrs + ([COM] + kids));
    HoldsSplit(s, i + 1, tag, attrs + ([COM] + kids));
    AttrsFirst(t.attrs, kids);
    HoldsFirst(s, i + 1 + |tag|, attrs + ([COM] + kids));
    EscapedBack(s, i + 1, Tag, t.tag, false);
    var at := i + 1 + |tag| + |attrs|;
    HoldsSplit(s, i + 1 + |tag|, attrs, [COM] + kids);
    HoldsFirst(s, at, [COM] + kids);
    assert ([COM] + kids)[1..] == kids;
    KidsBack(s, at + 1, t.children, t.attrs == [], depth, d);
    BodyBack(s, i + 1 + |tag|, t, depth, d);
  }

  lemma AttrsFirst(attrs: seq<Attr>, kids: Bytes)
    ensures (AttrList(attrs) + ([COM] + kids))[0] == COM
  {
  }

  /** From the comma behind the tag on. */
  lemma BodyBack(s: Bytes, i: nat, t: Node, depth: nat, d: Dialect)
    requires t.Element? && Separated(t.children)
    requires var attrs, kids := AttrList(t.attrs), KidsWritten(t.children, t.attrs == []) + [RBR];
             && Holds(s, i, attrs + ([COM] + kids))
             && ReadKids(s, i + |attrs| + 1, depth, d) == Parsed(t.children, i + |attrs| + |kids| + 1)
    ensures ReadBody(s, i + 1, depth, d, t.tag)
            == Parsed(t, i + |AttrList(t.attrs)| + |KidsWritten(t.children, t.attrs == [])| + 2)
  {
    hide Holds, Separated, ReadKids, ReadAttrs, Pairs, KidsWritten;
    var attrs, kids := AttrList(t.attrs), KidsWritten(t.children, t.attrs == []) + [RBR];
    HoldsSplit(s, i, attrs, [COM] + kids);
    HoldsFirst(s, i + |attrs|, [COM] + kids);
    assert ([COM] + kids)[1..] == kids;
    HoldsFirst(s, i + |attrs| + 1, kids);
    if t.attrs == [] {
      KidsFirst(t.children, true);
    } else {
      AttrsBack(s, i, t.attrs);
    }
  }

  lemma AttrsBack(s: Bytes, i: nat, attrs: seq<Attr>)
    requires attrs != [] && Holds(s, i, AttrList(attrs))
    ensures i + 1 < |s| && s[i + 1] == LSQ && ReadAttrs(s, i + 2) == Parsed(attrs, i + |AttrList(attrs)|)
  {
    hide Holds, Pairs, ReadPairs;
    HoldsFirst(s, i, AttrList(attrs));
    HoldsFirst(s, i + 1, AttrList(attrs)[1..]);
    assert AttrList(attrs)[1..][1..] == Pairs(attrs) + [RSQ];
    PairsFirst(attrs);
    HoldsFirst(s, i + 2, Pairs(attrs) + [RSQ]);
    PairsBack(s, i + 2, attrs);
  }

  /** A text on its own is written as the element it is read back as. */
  lemma WrittenAsElement(t: Node)
    ensures Written(AsElement(t)) == Written(t)
    ensures IsNormal(t) ==> IsNormal(AsElement(t))
    ensures Height(AsElement(t)) == Height(t)
  {
    hide Payload, Escape, KidsWritten, KidsHeight, Separated, AllNormal;
    if t.Text? {
      TagUnchanged();
      TextKids(t.text);
      NoAttrs([COM] + (Payload(t.text, true) + [RBR]));
    }
  }

  lemma NoAttrs(b: Bytes)
    ensures AttrList([]) + b == b
  {
  }

  lemma TextKids(b: Bytes)
    ensures var t := AsElement(Text(b));
            KidsWritten(t.children, true) == Payload(b, true) && IsNormal(t) && Height(t) == 0
  {
    hide Payload;
    var kids := AsElement(Text(b)).children;
    if b == [] {
      NothingInline();
      assert KidsWritten(kids, true) == Payload(b, true);
      assert KidsHeight(kids) == 0;
    } else {
      assert kids == [Text(b)] && kids[1..] == [];
      assert KidsHeight(kids[1..]) == 0 && AllNormal(kids[1..]) && KidsWritten(kids[1..], false) == [];
      assert KidWritten(kids[0], true) == Payload(b, true);
      assert KidsWritten(kids, true) == Payload(b, true);
      assert KidsHeight(kids) == 0;
      assert IsNormal(kids[0]) && AllNormal(kids) && Separated(kids);
    }
  }

  lemma NothingInline()
    ensures Payload([], true) == []
  {
  }

  lemma TagUnchanged()
    ensures Escape(Tag, IMPLICIT_TAG, false) == IMPLICIT_TAG
  {
    var t := IMPLICIT_TAG;
    assert t[1..] == [0x74, 0x65, 0x78, 0x74] && t[1..][1..] == [0x65, 0x78, 0x74];
    assert t[1..][1..][1..] == [0x78, 0x74] && t[1..][1..][1..][1..] == [0x74] && t[1..][1..][1..][1..][1..] == [];
    assert Escape(Tag, [0x74], false) == [0x74];
    assert Escape(Tag, [0x78, 0x74], false) == [0x78, 0x74];
    assert Escape(Tag, [0x65, 0x78, 0x74], false) == [0x65, 0x78, 0x74];
  }

  /** For every tree nested at most 256 deep and whatever bytes follow: reading the canonical bytes
      consumes exactly them and returns the tree with its texts merged. */
  lemma RoundTrip(t: Node, rest: Bytes, d: Dialect)
    requires Height(t) <= 256 && Addressable(Encoding(t) + rest)
    ensures ReadElement(Encoding(t) + rest, 0, 0, d) == Parsed(AsElement(Normal(t)), |Encoding(t)|)
  {
    hide Written, ReadElement;
    var s, n := Encoding(t) + rest, AsElement(Normal(t));
    NormalHolds(t);
    HeightNormal(t);
    WrittenAsElement(Normal(t));
    ElementBack(s, 0, n, 0, d);
  }

  /** Trees already in normal form are also read back from what is written without merging. */
  lemma RoundTripMerged(t: Node, rest: Bytes, d: Dialect)
    requires IsNormal(t) && Height(t) <= 256 && Addressable(Written(t) + rest)
    ensures ReadElement(Written(t) + rest, 0, 0, d) == Parsed(AsElement(t), |Written(t)|)
  {
    NormalSame(t);
    RoundTrip(t, rest, d);
  }

  /** A sequence of nodes, written one after another. */
  function Document(ts: seq<Node>): Bytes {
    if ts == [] then [] else Encoding(ts[0]) + Document(ts[1..])
  }

  function ReadBackAs(ts: seq<Node>): (r: seq<Node>) {
    if ts == [] then [] else [AsElement(Normal(ts[0]))] + ReadBackAs(ts[1..])
  }

  lemma {:induction false} DocumentBack(s: Bytes, i: nat, ts: seq<Node>, d: Dialect)
    requires Addressable(s) && i <= |s| && s[i..] == Document(ts)
    requires forall k :: 0 <= k < |ts| ==> Height(ts[k]) <= 256
    ensures ReadAll(s, i, d) == Parsed(ReadBackAs(ts), |s|)
    decreases ts
  {
    hide Written, ReadElement;
    if ts != [] {
      var n := AsElement(Normal(ts[0]));
      NormalHolds(ts[0]);
      HeightNormal(ts[0]);
      WrittenAsElement(Normal(ts[0]));
      assert s[i..i + |Encoding(ts[0])|] == s[i..][..|Encoding(ts[0])|];
      ElementBack(s, i, n, 0, d);
      assert s[i + |Encoding(ts[0])|..] == s[i..][|Encoding(ts[0])|..] == Document(ts[1..]);
      DocumentBack(s, i + |Encoding(ts[0])|, ts[1..], d);
    }
  }
}
