/** Trees nested deeper than 256: what an encoder that does not count would write is refused for its
    depth, and for nothing else. */
module TersemlDeep {
  import opened Leb128
  import opened TersemlTree
  import opened TersemlWrite
  import opened TersemlRead
  import opened TersemlRoundTrip

  lemma {:induction false} KidsDeep(s: Bytes, i: nat, kids: seq<Node>, start: bool, depth: nat, d: Dialect)
    requires Addressable(s) && Holds(s, i, KidsWritten(kids, start) + [RBR])
    requires Separated(kids) && AllNormal(kids) && depth <= 256 < depth + KidsHeight(kids)
    ensures ReadKids(s, i, depth, d) == Rejected(TooDeep)
    decreases kids, 2
  {
    hide Holds, Written, Separated, Payload, ReadRun, ReadEscaped, ReadElement, ReadKids;
    var kid, rest := kids[0], KidsWritten(kids[1..], false) + [RBR];
    assert KidsWritten(kids, start) + [RBR] == KidWritten(kid, start) + rest;
    HoldsSplit(s, i, KidWritten(kid, start), rest);
    SeparatedTail(kids);
    KidsFirst(kids[1..], false);
    HoldsFirst(s, i + |KidWritten(kid, start)|, rest);
    var end := i + |KidWritten(kid, start)|;
    if kid.Element? {
      WrittenFirst(s, i, kid);
      if depth + 1 + Height(kid) > 256 {
        ElementDeep(s, i, kid, depth + 1, d);
      } else {
        ElementBack(s, i, kid, depth + 1, d);
        KidsDeep(s, end, kids[1..], false, depth, d);
      }
      DeepKid(s, i, depth, d);
    } else {
      TextBack(s, i, kid.text, start, d);
      KidsDeep(s, end, kids[1..], false, depth, d);
      DeepBehindText(s, i, end, depth, d);
    }
  }

  lemma WrittenFirst(s: Bytes, i: nat, t: Node)
    requires Holds(s, i, Written(t))
    ensures i < |s| && s[i] == LBR
  {
    hide Written, Holds;
    HoldsFirst(s, i, Written(t));
  }

  lemma DeepKid(s: Bytes, i: nat, depth: nat, d: Dialect)
    requires i < |s| && s[i] == LBR
    requires var el := ReadElement(s, i, depth + 1, d);
             el == Rejected(TooDeep) || (el.Parsed? && ReadKids(s, el.end, depth, d) == Rejected(TooDeep))
    ensures ReadKids(s, i, depth, d) == Rejected(TooDeep)
  {
    hide ReadElement;
  }

  lemma DeepBehindText(s: Bytes, i: nat, end: nat, depth: nat, d: Dialect)
    requires i < |s| && s[i] != LBR && s[i] != RBR
    requires var text := if RunAt(s, i) then ReadRun(s, i, d) else ReadEscaped(s, i, Content);
             text.Parsed? && text.end == end && text.value != []
    requires ReadKids(s, end, depth, d) == Rejected(TooDeep)
    ensures ReadKids(s, i, depth, d) == Rejected(TooDeep)
  {
    hide ReadRun, ReadEscaped;
  }

  lemma {:induction false} ElementDeep(s: Bytes, i: nat, t: Node, depth: nat, d: Dialect)
    requires Addressable(s) && Holds(s, i, Written(t)) && t.Element?
    requires IsNormal(t) && depth + Height(t) > 256
    ensures ReadElement(s, i, depth, d) == Rejected(TooDeep)
    decreases t, 1
  {
    hide Holds, Separated, KidsWritten, ReadKids, ReadEscaped, ReadBody, Escape, AttrList;
    if depth <= 256 {
      var kids := KidsWritten(t.children, t.attrs == []) + [RBR];
      var tag, attrs := Escape(Tag, t.tag, false), AttrList(t.attrs);
      HoldsFirst(s, i, Written(t));
      assert Written(t)[1..] == tag + (attrs + ([COM] + kids));
      HoldsSplit(s, i + 1, tag, attrs + ([COM] + kids));
      AttrsFirst(t.attrs, kids);
      HoldsFirst(s, i + 1 + |tag|, attrs + ([COM] + kids));
      EscapedBack(s, i + 1, Tag, t.tag, false);
      var at := i + 1 + |tag| + |attrs|;
      HoldsSplit(s, i + 1 + |tag|, attrs, [COM] + kids);
      HoldsFirst(s, at, [COM] + kids);
      assert ([COM] + kids)[1..] == kids;
      KidsDeep(s, at + 1, t.children, t.attrs == [], depth, d);
      BodyDeep(s, i + 1 + |tag|, t, depth, d);
    }
  }

  lemma BodyDeep(s: Bytes, i: nat, t: Node, depth: nat, d: Dialect)
    requires t.Element? && Separated(t.children) && KidsHeight(t.children) > 0
    requires var attrs, kids := AttrList(t.attrs), KidsWritten(t.children, t.attrs == []) + [RBR];
             && Holds(s, i, attrs + ([COM] + kids))
             && ReadKids(s, i + |attrs| + 1, depth, d) == Rejected(TooDeep)
    ensures ReadBody(s, i + 1, depth, d, t.tag) == Rejected(TooDeep)
  {
    hide Holds, Separated, ReadKids, ReadAttrs, Pairs, KidsWritten, KidsHeight;
    var attrs, kids := AttrList(t.attrs), KidsWritten(t.children, t.attrs == []) + [RBR];
    HoldsSplit(s, i, attrs, [COM] + kids);
    HoldsFirst(s, i + |attrs|, [COM] + kids);
    assert ([COM] + kids)[1..] == kids;
    HoldsFirst(s, i + |attrs| + 1, kids);
    if t.attrs == [] {
      KidsFirst(t.children, true);
    } else {
      AttrsBack(s, i, t.attrs);
    }
  }

  /** A tree is read back from what is written for it if it nests at most 256 deep; otherwise reading
      fails, for the depth. */
  lemma DepthDecides(t: Node, rest: Bytes, d: Dialect)
    requires Addressable(Encoding(t) + rest)
    ensures var r := ReadElement(Encoding(t) + rest, 0, 0, d);
            if Height(t) <= 256 then r == Parsed(AsElement(Normal(t)), |Encoding(t)|) else r == Rejected(TooDeep)
  {
    hide Written, ReadElement;
    var s, n := Encoding(t) + rest, AsElement(Normal(t));
    if Height(t) <= 256 {
      RoundTrip(t, rest, d);
    } else {
      NormalHolds(t);
      HeightNormal(t);
      WrittenAsElement(Normal(t));
      ElementDeep(s, 0, n, 0, d);
    }
  }

  /** The opening braces from i on. */
  function Opening(s: Bytes, i: nat): nat
    decreases |s| - i
  {
    if i >= |s| then 0 else (if s[i] == LBR then 1 else 0) + Opening(s, i + 1)
  }

  lemma {:induction false} FewerLater(s: Bytes, i: nat, j: nat)
    requires i <= j
    ensures Opening(s, j) <= Opening(s, i)
    ensures i < j && i < |s| && s[i] == LBR ==> Opening(s, j) < Opening(s, i)
    decreases j - i
  {
    if i < j {
      FewerLater(s, i + 1, j);
    }
  }

  /** The depth error takes as many braces. */
  lemma {:induction false} ElementNotDeep(s: Bytes, i: nat, depth: nat, d: Dialect)
    requires ReadElement(s, i, depth, d) == Rejected(TooDeep) && (depth > 256 ==> i < |s| && s[i] == LBR)
    ensures depth + Opening(s, i) > 257
    decreases |s| - i, 1
  {
    hide ReadBody, ReadEscaped, Opening;
    if depth <= 256 {
      var head := ReadEscaped(s, i + 1, Tag);
      EscapedNotDeep(s, i + 1, Tag);
      BodyNotDeep(s, head.end + 1, depth, d, head.value);
      FewerLater(s, i, head.end + 1);
    } else {
      FewerLater(s, i, i + 1);
    }
  }

  lemma {:induction false} EscapedNotDeep(s: Bytes, i: nat, slot: Slot)
    ensures ReadEscaped(s, i, slot) != Rejected(TooDeep)
    decreases |s| - i
  {
    if i + 1 < |s| && s[i] == BS {
      EscapedNotDeep(s, i + 2, slot);
    } else if i < |s| {
      EscapedNotDeep(s, i + 1, slot);
    }
  }

  lemma {:induction false} PairsNotDeep(s: Bytes, i: nat)
    ensures ReadPairs(s, i) != Rejected(TooDeep)
    decreases |s| - i
  {
    hide ReadEscaped;
    EscapedNotDeep(s, i, Key);
    var key := ReadEscaped(s, i, Key);
    if key.Parsed? && s[key.end] == COL {
      EscapedNotDeep(s, key.end + 1, Value);
      var value := ReadEscaped(s, key.end + 1, Value);
      if value.Parsed? {
        PairsNotDeep(s, value.end + 1);
      }
    }
  }

  lemma {:induction false} TerminatedNotDeep(s: Bytes, i: nat)
    ensures ReadTerminated(s, i) != Rejected(TooDeep)
    decreases |s| - i
  {
    if i < |s| {
      TerminatedNotDeep(s, i + 1);
      if i + 1 < |s| {
        TerminatedNotDeep(s, i + 2);
      }
    }
  }

  lemma {:induction false} CountNotDeep(s: Bytes, i: nat, groups: nat)
    ensures ReadCount(s, i, groups) != Rejected(TooDeep)
    decreases groups
  {
    if groups > 0 {
      CountNotDeep(s, i + 1, groups - 1);
    }
  }

  lemma TextNotDeep(s: Bytes, i: nat, d: Dialect)
    ensures (if RunAt(s, i) then ReadRun(s, i, d) else ReadEscaped(s, i, Content)) != Rejected(TooDeep)
  {
    hide ReadEscaped, ReadTerminated, ReadCount;
    EscapedNotDeep(s, i, Content);
    TerminatedNotDeep(s, i + 2);
    CountNotDeep(s, i + 2, MAX_GROUPS);
  }

  lemma {:induction false} BodyNotDeep(s: Bytes, i: nat, depth: nat, d: Dialect, tag: Bytes)
    requires ReadBody(s, i, depth, d, tag) == Rejected(TooDeep)
    ensures depth + Opening(s, i) > 256
    decreases |s| - i, 3
  {
    hide ReadKids, ReadPairs, Opening;
    PairsNotDeep(s, i + 1);
    if i < |s| && s[i] == LSQ {
      var attrs := ReadAttrs(s, i + 1);
      var j := if attrs.end < |s| && s[attrs.end] == COM then attrs.end + 1 else attrs.end;
      KidsNotDeep(s, j, depth, d);
      FewerLater(s, i, j);
    } else {
      KidsNotDeep(s, i, depth, d);
    }
  }

  lemma {:induction false} KidsNotDeep(s: Bytes, i: nat, depth: nat, d: Dialect)
    requires ReadKids(s, i, depth, d) == Rejected(TooDeep)
    ensures depth + Opening(s, i) > 256
    decreases |s| - i, 2
  {
    hide ReadElement, ReadRun, ReadEscaped, Opening;
    if s[i] == LBR {
      var el := ReadElement(s, i, depth + 1, d);
      if el.Rejected? {
        ElementNotDeep(s, i, depth + 1, d);
      } else {
        KidsNotDeep(s, el.end, depth, d);
        FewerLater(s, i, el.end);
      }
    } else {
      TextNotDeep(s, i, d);
      var text := if RunAt(s, i) then ReadRun(s, i, d) else ReadEscaped(s, i, Content);
      TextAdvances(s, i, d);
      KidsNotDeep(s, text.end, depth, d);
      FewerLater(s, i, text.end);
    }
  }

  /** Whatever is wrong with a document that has at most 257 opening braces is reported as malformed. */
  lemma FewBraces(b: Bytes, d: Dialect)
    requires Opening(b, 0) <= 257
    ensures Decoded(b, d).Rejected? ==> Decoded(b, d) == Rejected(Malformed)
  {
    hide ReadElement, Opening;
    var r := ReadElement(b, 0, 0, d);
    assert r.Rejected? ==> r.why == Malformed || r.why == TooDeep;
    if r == Rejected(TooDeep) {
      ElementNotDeep(b, 0, 0, d);
      assert false;
    }
  }
}
