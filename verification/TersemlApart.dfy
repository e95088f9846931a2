/** When a reader returns at most one text between two elements, and what becomes of texts and
    runs that stand next to each other. */
module TersemlApart {
  import opened Bits
  import opened TersemlTree
  import opened TersemlWrite
  import opened TersemlRead
  import opened TersemlPrefix

  predicate BraceAt(s: Bytes, i: nat) {
    i < |s| && (s[i] == LBR || s[i] == RBR)
  }

  /** Behind the empty runs at i, which a dropping reader does not see. */
  function PastEmpty(s: Bytes, i: nat, d: Dialect): nat
    decreases |s| - i
  {
    if d.dropsEmpty && RunAt(s, i) && ReadRun(s, i, d).Parsed? && ReadRun(s, i, d).value == [] then
      PastEmpty(s, ReadRun(s, i, d).end, d)
    else i
  }

  /** Every run of the content says something and stands directly before a brace; what is said
      of empty runs goes for a reader that keeps them. */
  predicate KidsApart(s: Bytes, i: nat, depth: nat, d: Dialect)
    decreases |s| - i, 2
  {
    if i >= |s| || s[i] == RBR then true
    else if s[i] == LBR then
      var el := ReadElement(s, i, depth + 1, d);
      el.Parsed? ==> ElementApart(s, i, depth + 1, d) && KidsApart(s, el.end, depth, d)
    else
      TextAdvances(s, i, d);
      var text := ReadText(s, i, d);
      text.Parsed? ==>
        && (RunAt(s, i) ==> if text.value == [] then d.dropsEmpty else BraceAt(s, PastEmpty(s, text.end, d)))
        && KidsApart(s, text.end, depth, d)
  }

  /** So it is with every content of the element at i, at any depth. */
  predicate ElementApart(s: Bytes, i: nat, depth: nat, d: Dialect)
    decreases |s| - i, 1
  {
    var head := ReadEscaped(s, i + 1, Tag);
    head.Parsed? && s[head.end] == COM ==> BodyApart(s, head.end + 1, depth, d)
  }

  predicate BodyApart(s: Bytes, i: nat, depth: nat, d: Dialect)
    decreases |s| - i, 3
  {
    if i < |s| && s[i] == LSQ then
      var attrs := ReadAttrs(s, i + 1);
      attrs.Rejected? || (attrs.end < |s| && s[attrs.end] == RBR)
      || KidsApart(s, if attrs.end < |s| && s[attrs.end] == COM then attrs.end + 1 else attrs.end, depth, d)
    else KidsApart(s, i, depth, d)
  }

  lemma SeparatedFirst(kid: Node, rest: seq<Node>)
    ensures Separated([kid] + rest)
       <==> Separated(rest) && (kid.Text? ==> kid.text != [] && (rest == [] || rest[0].Element?))
    ensures AllNormal([kid] + rest) <==> IsNormal(kid) && AllNormal(rest)
  {
    var kids := [kid] + rest;
    assert kids[1..] == rest;
    assert forall i :: 0 <= i < |rest| ==> rest[i] == kids[i + 1];
    if Separated(kids) {
      SeparatedTail(kids);
    }
  }

  /** The first child is a text unless a brace comes first. */
  lemma {:induction false} FirstKid(s: Bytes, i: nat, depth: nat, d: Dialect)
    requires ReadKids(s, i, depth, d).Parsed?
    ensures var kids := ReadKids(s, i, depth, d).value;
            kids == [] || kids[0].Element? <==> BraceAt(s, PastEmpty(s, i, d))
    decreases |s| - i
  {
    hide ReadEscaped, ReadRun, ReadElement;
    if s[i] != LBR && s[i] != RBR {
      TextAdvances(s, i, d);
      var text := ReadText(s, i, d);
      if RunAt(s, i) && text.value == [] && d.dropsEmpty {
        FirstKid(s, text.end, depth, d);
      }
    }
  }

  lemma {:induction false} KidsExactly(s: Bytes, i: nat, depth: nat, d: Dialect)
    requires ReadKids(s, i, depth, d).Parsed?
    ensures var kids := ReadKids(s, i, depth, d).value;
            Separated(kids) && AllNormal(kids) <==> KidsApart(s, i, depth, d)
    decreases |s| - i, 2
  {
    hide ReadEscaped, ReadRun, ReadElement, PastEmpty, Separated, AllNormal, IsNormal, ElementApart;
    if s[i] == LBR {
      var el := ReadElement(s, i, depth + 1, d);
      ElementExactly(s, i, depth + 1, d);
      KidsExactly(s, el.end, depth, d);
      SeparatedFirst(el.value, ReadKids(s, el.end, depth, d).value);
    } else if s[i] == RBR {
      NothingApart();
    } else {
      TextAdvances(s, i, d);
      var text := ReadText(s, i, d);
      var rest := ReadKids(s, text.end, depth, d).value;
      KidsExactly(s, text.end, depth, d);
      FirstKid(s, text.end, depth, d);
      SeparatedFirst(Text(text.value), rest);
      TextNormal(text.value);
      if !RunAt(s, i) {
        StopsAtBrace(s, i, d);
      }
    }
  }

  lemma NothingApart()
    ensures Separated([]) && AllNormal([])
  {
  }

  lemma TextNormal(b: Bytes)
    ensures IsNormal(Text(b))
  {
  }

  lemma StopsAtBrace(s: Bytes, i: nat, d: Dialect)
    requires ReadEscaped(s, i, Content).Parsed?
    ensures var end := ReadEscaped(s, i, Content).end; BraceAt(s, end) && PastEmpty(s, end, d) == end
  {
  }

  lemma {:induction false} ElementExactly(s: Bytes, i: nat, depth: nat, d: Dialect)
    requires ReadElement(s, i, depth, d).Parsed?
    ensures IsNormal(ReadElement(s, i, depth, d).value) <==> ElementApart(s, i, depth, d)
    decreases |s| - i, 1
  {
    hide ReadEscaped, ReadKids, ReadAttrs, KidsApart, Separated, AllNormal;
    var head := ReadEscaped(s, i + 1, Tag);
    NothingApart();
    if s[head.end] == RBR {
      SingletonNormal(head.value);
    } else {
      var j := head.end + 1;
      if j < |s| && s[j] == LSQ {
        var attrs := ReadAttrs(s, j + 1);
        if !(attrs.end < |s| && s[attrs.end] == RBR) {
          KidsExactly(s, if attrs.end < |s| && s[attrs.end] == COM then attrs.end + 1 else attrs.end, depth, d);
        }
      } else {
        KidsExactly(s, j, depth, d);
      }
    }
  }

  lemma SingletonNormal(b: Bytes)
    ensures IsNormal(AsElement(Text(b)))
  {
    NothingApart();
    SeparatedFirst(Text(b), []);
    assert [Text(b)] + [] == [Text(b)];
  }

  /** The tree that was read is merged already, no two texts neighbours and none empty, if and
      only if every run in a content says something and stands directly before a brace. */
  lemma MergedExactly(b: Bytes, d: Dialect)
    requires Decoded(b, d).Parsed?
    ensures IsNormal(Decoded(b, d).value) <==> ElementApart(b, 0, 0, d)
    ensures Normal(Decoded(b, d).value) == Decoded(b, d).value <==> ElementApart(b, 0, 0, d)
  {
    hide ReadElement, ElementApart, IsNormal, Normal;
    var t := Decoded(b, d).value;
    ElementExactly(b, 0, 0, d);
    NormalHolds(t);
    if IsNormal(t) {
      NormalSame(t);
    }
  }

  /** A document on which it fails: a run and a text after it stay apart. */
  lemma RunThenTextStaysApart()
    ensures var b := [LBR, 0x70, COM, BS, LOWER_B, 0x62, NUL, 0x61, RBR];
            && Decoded(b, PYTHON) == Parsed(Element([0x70], [], [Text([0x62]), Text([0x61])]), 9)
            && !ElementApart(b, 0, 0, PYTHON)
  {
    hide ElementApart;
    var b := [LBR, 0x70, COM, BS, LOWER_B, 0x62, NUL, 0x61, RBR];
    RunThenTextRead(b);
    MergedExactly(b, PYTHON);
    assert Decoded(b, PYTHON).value.children[0].Text? && Decoded(b, PYTHON).value.children[1].Text?;
  }

  lemma RunThenTextRead(b: Bytes)
    requires b == [LBR, 0x70, COM, BS, LOWER_B, 0x62, NUL, 0x61, RBR]
    ensures Decoded(b, PYTHON) == Parsed(Element([0x70], [], [Text([0x62]), Text([0x61])]), 9)
  {
    assert forall x: byte :: [x] + [] == [x];
    assert ReadEscaped(b, 2, Tag) == Parsed([], 2);
    assert ReadEscaped(b, 1, Tag) == Parsed([0x70], 2);
    assert ReadTerminated(b, 6) == Parsed([], 7);
    assert ReadTerminated(b, 5) == Parsed([0x62], 7);
    assert ReadRun(b, 3, PYTHON) == Parsed([0x62], 7);
    assert ReadEscaped(b, 8, Content) == Parsed([], 8);
    assert ReadEscaped(b, 7, Content) == Parsed([0x61], 8);
    assert forall t: Node :: [t] + [] == [t];
    assert [Text([0x62])] + [Text([0x61])] == [Text([0x62]), Text([0x61])];
    assert ReadKids(b, 8, 0, PYTHON) == Parsed([], 9);
    assert ReadKids(b, 7, 0, PYTHON) == Parsed([Text([0x61])], 9);
    assert ReadKids(b, 3, 0, PYTHON) == Parsed([Text([0x62]), Text([0x61])], 9);
    assert ReadBody(b, 3, 0, PYTHON, [0x70]) == Parsed(Element([0x70], [], [Text([0x62]), Text([0x61])]), 9);
    assert ReadElement(b, 0, 0, PYTHON) == ReadBody(b, 3, 0, PYTHON, [0x70]);
  }

  /** The grammar lets a run follow a text (section 2). A text, escapes and all, that a run
      follows is never read: the run's command letter is taken for an unknown escape. */
  lemma {:induction false} EscapedThenRun(s: Bytes, i: nat, j: nat)
    requires RunAt(s, j)
    requires var text := ReadEscaped(s[..j] + [RBR], i, Content); text.Parsed? && text.end == j
    ensures ReadEscaped(s, i, Content) == Rejected(Malformed)
    decreases j - i
  {
    var t := s[..j] + [RBR];
    if i < j {
      assert t[i] == s[i];
      if s[i] == BS {
        EscapedThenRun(s, i + 2, j);
      } else {
        EscapedThenRun(s, i + 1, j);
      }
    }
  }

  /** Every content in which a run follows a text is rejected. */
  lemma TextThenRunRejected(s: Bytes, i: nat, j: nat, depth: nat, d: Dialect)
    requires i < j && RunAt(s, j) && !RunAt(s, i)
    requires var text := ReadEscaped(s[..j] + [RBR], i, Content); text.Parsed? && text.end == j
    ensures ReadEscaped(s, i, Content).Rejected? && ReadKids(s, i, depth, d) == Rejected(Malformed)
  {
    hide ReadEscaped;
    EscapedThenRun(s, i, j);
    StartsText(s, i, j);
  }

  lemma StartsText(s: Bytes, i: nat, j: nat)
    requires i < j < |s|
    requires var text := ReadEscaped(s[..j] + [RBR], i, Content); text.Parsed? && text.end == j
    ensures s[i] != LBR && s[i] != RBR
  {
    assert (s[..j] + [RBR])[i] == s[i];
  }
}
