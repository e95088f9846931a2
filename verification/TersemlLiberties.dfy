/** What the grammar on paper and the code have in common, and that each of the six liberties in which
    they differ is one. */
module TersemlLiberties {
  import opened Bits
  import opened TersemlTree
  import opened TersemlWrite
  import opened TersemlRead
  import opened TersemlGrammar

  lemma {:induction false} PairsGrow(s: Bytes, i: nat, j: nat, r: Rules, r': Rules, attrs: seq<Attr>)
    requires (r.emptyKey ==> r'.emptyKey) && DerivesPairs(s, i, j, r, attrs)
    ensures DerivesPairs(s, i, j, r', attrs)
    decreases |attrs|
  {
    hide PairAt;
    var k, m :| i <= k < m < j && PairAt(s, i, k, m, r, attrs[0])
      && (if |attrs| == 1 then
            (s[m] == Ch(']') && j == m + 1) || (s[m] == Ch(',') && j == m + 2 && s[m + 1] == Ch(']'))
          else s[m] == Ch(',') && DerivesPairs(s, m + 1, j, r, attrs[1..]));
    PairGrows(s, i, k, m, r, r', attrs[0]);
    if |attrs| > 1 {
      PairsGrow(s, m + 1, j, r, r', attrs[1..]);
    }
  }

  lemma PairGrows(s: Bytes, i: nat, k: nat, m: nat, r: Rules, r': Rules, a: Attr)
    requires (r.emptyKey ==> r'.emptyKey) && PairAt(s, i, k, m, r, a)
    ensures PairAt(s, i, k, m, r', a) && m < |s|
  {
    hide Units;
  }

  lemma {:induction false} ContentsGrow(
    s: Bytes, i: nat, j: nat, depth: nat, slot: Slot, afterText: bool, r: Rules, r': Rules, d: Dialect, kids: seq<Node>)
    requires AtMost(r, r') && DerivesContents(s, i, j, depth, slot, afterText, r, d, kids)
    ensures DerivesContents(s, i, j, depth, slot, afterText, r', d, kids)
    decreases j - i, 3
  {
    if !(i == j && kids == []) {
      hide ElementCut, TextCut, RunCut;
      var k, v := FirstCut(s, i, j, depth, slot, afterText, r, d, kids);
      CutGrows(s, i, k, j, v, depth, slot, afterText, r, r', d, kids);
    }
  }

  lemma {:induction false} CutGrows(
    s: Bytes, i: nat, k: nat, j: nat, v: Bytes, depth: nat, slot: Slot, afterText: bool, r: Rules, r': Rules, d: Dialect,
    kids: seq<Node>)
    requires AtMost(r, r')
    requires || ElementCut(s, i, k, j, depth, slot, r, d, kids)
             || (!afterText && TextCut(s, i, k, j, depth, slot, r, d, kids))
             || ((!afterText || r.runBehindText) && RunCut(s, i, k, j, v, depth, slot, r, d, kids))
    ensures DerivesContents(s, i, j, depth, slot, afterText, r', d, kids)
    decreases j - i, 2
  {
    hide DerivesElement, DerivesContents, Units, Binary;
    if ElementCut(s, i, k, j, depth, slot, r, d, kids) {
      ElementGrows(s, i, k, depth + 1, r, r', d, kids[0]);
      ContentsGrow(s, k, j, depth, slot, false, r, r', d, kids[1..]);
    } else if !afterText && TextCut(s, i, k, j, depth, slot, r, d, kids) {
      ContentsGrow(s, k, j, depth, slot, true, r, r', d, kids[1..]);
    } else {
      ContentsGrow(s, k, j, depth, slot, false, r, r', d, if v == [] && d.dropsEmpty then kids else kids[1..]);
    }
    CutDerives(s, i, k, j, v, depth, slot, afterText, r', d, kids);
  }

  /** More liberties derive more documents, and the same trees from the old ones. */
  lemma {:induction false} ElementGrows(s: Bytes, i: nat, j: nat, depth: nat, r: Rules, r': Rules, d: Dialect, t: Node)
    requires AtMost(r, r') && DerivesElement(s, i, j, depth, r, d, t)
    ensures DerivesElement(s, i, j, depth, r', d, t)
    decreases j - i, 1
  {
    hide Units, DerivesBody, DerivesContents, Untagged, Singleton;
    if Untagged(t) && Singleton(s, i + 1, j - 1, t.children) {
    } else if r.fullSingleton && Untagged(t) && DerivesContents(s, i + 1, j - 1, depth, Tag, false, r, d, t.children) {
      ContentsGrow(s, i + 1, j - 1, depth, Tag, false, r, r', d, t.children);
    } else {
      var k :| i < k < j - 1 && Units(s, i + 1, k, Tag, t.tag) && s[k] == Ch(',') && (t.tag != [] || r.emptyTag)
               && DerivesBody(s, k + 1, j - 1, depth, r, d, t);
      BodyGrows(s, k + 1, j - 1, depth, r, r', d, t);
    }
  }

  lemma {:induction false} BodyGrows(s: Bytes, i: nat, j: nat, depth: nat, r: Rules, r': Rules, d: Dialect, t: Node)
    requires j < |s| && t.Element? && AtMost(r, r') && DerivesBody(s, i, j, depth, r, d, t)
    ensures DerivesBody(s, i, j, depth, r', d, t)
    decreases j - i, 4
  {
    hide DerivesPairs, DerivesContents;
    if i < j && s[i] == Ch('[') {
      var k :| i < k <= j && DerivesAttributes(s, i, k, r, t.attrs) && DerivesRest(s, k, j, depth, r, d, t.children);
      if t.attrs != [] {
        PairsGrow(s, i + 1, k, r, r', t.attrs);
      }
      if k < j {
        ContentsGrow(s, if s[k] == Ch(',') then k + 1 else k, j, depth, Content, false, r, r', d, t.children);
      }
      assert DerivesAttributes(s, i, k, r', t.attrs) && DerivesRest(s, k, j, depth, r', d, t.children);
    } else {
      ContentsGrow(s, i, j, depth, Content, false, r, r', d, t.children);
    }
  }

  /** A singleton that is read holds text alone, and no comma. */
  lemma SingletonMeets(s: Bytes, i: nat, j: nat, depth: nat, afterText: bool, d: Dialect, kids: seq<Node>)
    requires i <= j < |s| && s[j] == Ch('}') && DerivesContents(s, i, j, depth, Tag, afterText, PAPER, d, kids)
    requires ReadEscaped(s, i, Tag).Parsed? && s[ReadEscaped(s, i, Tag).end] != LBR
    ensures Singleton(s, i, j, kids) && (afterText ==> i == j && kids == [])
    decreases j - i
  {
    hide DerivesElement, DerivesContents, Units, Binary, ReadEscaped;
    if !(i == j && kids == []) {
      var k, v := FirstCut(s, i, j, depth, Tag, afterText, PAPER, d, kids);
      if ElementCut(s, i, k, j, depth, Tag, PAPER, d, kids) {
        NoElementAt(s, i, k, depth + 1, d, kids[0]);
        assert false;
      } else if !afterText && TextCut(s, i, k, j, depth, Tag, PAPER, d, kids) {
        UnitsFollowed(s, i, k, Tag, kids[0].text);
        SingletonMeets(s, k, j, depth, true, d, kids[1..]);
      } else {
        NoTextAtRun(s, i, k, Tag, d, v);
        assert false;
      }
    }
  }

  lemma NoElementAt(s: Bytes, i: nat, j: nat, depth: nat, d: Dialect, t: Node)
    requires DerivesElement(s, i, j, depth, PAPER, d, t)
    ensures i < |s| && s[i] == LBR && ReadEscaped(s, i, Tag) == Parsed([], i) && ReadEscaped(s, i, Content) == Parsed([], i)
  {
    hide DerivesElement;
    Characters();
    ElementBraces(s, i, j, depth, PAPER, d, t);
    StopsHere(s, i, Tag);
    StopsHere(s, i, Content);
  }

  lemma NoTextAtRun(s: Bytes, i: nat, j: nat, slot: Slot, d: Dialect, v: Bytes)
    requires Binary(s, i, j, d, v)
    ensures ReadEscaped(s, i, slot).Rejected?
  {
    hide TersemlGrammar.Counted, UpToNul;
    Characters();
  }

  /** A content on paper that is also read is read as what it derives, and uses none of the liberties. */
  lemma {:induction false} ContentsMeet(s: Bytes, i: nat, j: nat, depth: nat, afterText: bool, d: Dialect, kids: seq<Node>)
    requires i <= j < |s| && s[j] == Ch('}') && DerivesContents(s, i, j, depth, Content, afterText, PAPER, d, kids)
    requires ReadKids(s, i, depth, d).Parsed? && (afterText ==> ReadEscaped(s, i, Content).Parsed?)
    ensures DerivesContents(s, i, j, depth, Content, afterText, COMMON, d, kids)
    decreases j - i, 2
  {
    if !(i == j && kids == []) {
      hide ReadEscaped, ReadRun, ReadElement, DerivesElement, DerivesContents, Units, Binary;
      Characters();
      var k, v := FirstCut(s, i, j, depth, Content, afterText, PAPER, d, kids);
      if ElementCut(s, i, k, j, depth, Content, PAPER, d, kids) {
        NoElementAt(s, i, k, depth + 1, d, kids[0]);
        ElementMeets(s, i, k, depth + 1, d, kids[0]);
        ContentsMeet(s, k, j, depth, false, d, kids[1..]);
      } else if !afterText && TextCut(s, i, k, j, depth, Content, PAPER, d, kids) {
        TextStart(s, i, k, kids[0].text);
        UnitsFollowed(s, i, k, Content, kids[0].text);
        TextMeets(s, k, j, depth, d, kids[1..]);
        ContentsMeet(s, k, j, depth, true, d, kids[1..]);
      } else {
        NoTextAtRun(s, i, k, Content, d, v);
        RunStart(s, i, k, d, v);
        ContentsMeet(s, k, j, depth, false, d, if v == [] && d.dropsEmpty then kids else kids[1..]);
      }
      CutDerives(s, i, k, j, v, depth, Content, afterText, COMMON, d, kids);
    }
  }

  /** A text that is read ends where it ends on paper. */
  lemma TextMeets(s: Bytes, i: nat, j: nat, depth: nat, d: Dialect, kids: seq<Node>)
    requires i <= j < |s| && s[j] == Ch('}') && DerivesContents(s, i, j, depth, Content, true, PAPER, d, kids)
    requires ReadEscaped(s, i, Content).Parsed?
    ensures ReadEscaped(s, i, Content) == Parsed([], i)
  {
    hide DerivesElement, DerivesContents, Units, Binary, ReadEscaped;
    if i == j && kids == [] {
      StopsHere(s, i, Content);
    } else {
      var k, v := FirstCut(s, i, j, depth, Content, true, PAPER, d, kids);
      if ElementCut(s, i, k, j, depth, Content, PAPER, d, kids) {
        NoElementAt(s, i, k, depth + 1, d, kids[0]);
      } else {
        NoTextAtRun(s, i, k, Content, d, v);
        assert false;
      }
    }
  }

  /** An element on paper that is also read is read as what it derives, and uses none of the liberties. */
  lemma {:induction false} ElementMeets(s: Bytes, i: nat, j: nat, depth: nat, d: Dialect, t: Node)
    requires DerivesElement(s, i, j, depth, PAPER, d, t) && ReadElement(s, i, depth, d).Parsed?
    ensures DerivesElement(s, i, j, depth, COMMON, d, t) && ReadElement(s, i, depth, d) == Parsed(t, j)
    decreases j - i, 1
  {
    hide ReadEscaped, ReadBody, Units, DerivesBody, DerivesContents, Untagged, Singleton;
    ElementBraces(s, i, j, depth, PAPER, d, t);
    Characters();
    if Untagged(t) && Singleton(s, i + 1, j - 1, t.children) {
    } else if Untagged(t) && DerivesContents(s, i + 1, j - 1, depth, Tag, false, PAPER, d, t.children) {
      SingletonMeets(s, i + 1, j - 1, depth, false, d, t.children);
    } else {
      var k :| i < k < j - 1 && Units(s, i + 1, k, Tag, t.tag) && s[k] == Ch(',') && (t.tag != [] || PAPER.emptyTag)
               && DerivesBody(s, k + 1, j - 1, depth, PAPER, d, t);
      UnitsRead(s, i + 1, k, Tag, t.tag);
      BodyMeets(s, k + 1, j - 1, depth, d, t);
    }
    ElementGrows(s, i, j, depth, COMMON, CODE, d, t);
    ElementRead(s, i, j, depth, d, t);
  }

  lemma {:induction false} BodyMeets(s: Bytes, i: nat, j: nat, depth: nat, d: Dialect, t: Node)
    requires j < |s| && s[j] == Ch('}') && t.Element? && DerivesBody(s, i, j, depth, PAPER, d, t)
    requires ReadBody(s, i, depth, d, t.tag).Parsed?
    ensures DerivesBody(s, i, j, depth, COMMON, d, t)
    decreases j - i, 3
  {
    hide ReadAttrs, ReadKids, DerivesContents, DerivesAttributes;
    Characters();
    if i < j && s[i] == Ch('[') {
      var k :| i < k <= j && DerivesAttributes(s, i, k, PAPER, t.attrs) && DerivesRest(s, k, j, depth, PAPER, d, t.children);
      AttributesMeet(s, i, k, t.attrs);
      AttributesRead(s, i, k, t.attrs);
      if k < j {
        ContentsMeet(s, k + 1, j, depth, false, d, t.children);
      }
      assert DerivesRest(s, k, j, depth, COMMON, d, t.children);
    } else {
      ContentsMeet(s, i, j, depth, false, d, t.children);
    }
  }

  lemma AttributesMeet(s: Bytes, i: nat, j: nat, attrs: seq<Attr>)
    requires DerivesAttributes(s, i, j, PAPER, attrs)
    ensures DerivesAttributes(s, i, j, COMMON, attrs) && DerivesAttributes(s, i, j, CODE, attrs)
  {
    hide DerivesPairs;
    if attrs != [] {
      PairsGrow(s, i + 1, j, PAPER, COMMON, attrs);
      PairsGrow(s, i + 1, j, PAPER, CODE, attrs);
    }
  }

  /** What the code and the paper have in common is what neither needs a liberty for. A document that
      stands for a tree on paper is accepted if and only if it stands for it without any of the six,
      and then that is the tree it is read as. */
  lemma CommonGround(b: Bytes, d: Dialect, t: Node)
    ensures Decoded(b, d).Parsed? && DerivesElement(b, 0, |b|, 0, PAPER, d, t) <==> DerivesElement(b, 0, |b|, 0, COMMON, d, t)
    ensures DerivesElement(b, 0, |b|, 0, COMMON, d, t) ==> Decoded(b, d) == Parsed(t, |b|)
  {
    hide ReadElement, DerivesElement;
    if Decoded(b, d).Parsed? && DerivesElement(b, 0, |b|, 0, PAPER, d, t) {
      ElementMeets(b, 0, |b|, 0, d, t);
    }
    if DerivesElement(b, 0, |b|, 0, COMMON, d, t) {
      ElementGrows(b, 0, |b|, 0, COMMON, CODE, d, t);
      ElementGrows(b, 0, |b|, 0, COMMON, PAPER, d, t);
      ReadIsDerived(b, d, t);
    }
  }

  /** Each liberty of the code is one: an empty tag, an empty key, content without a comma. */
  lemma OnlyInCode(d: Dialect, t: Node)
    ensures Decoded(Raw("{,}"), d) == Parsed(Element([], [], []), 3) && !DerivesElement(Raw("{,}"), 0, 3, 0, PAPER, d, t)
    ensures var b := Raw("{a,[:]}");
            && Decoded(b, d) == Parsed(Element(Raw("a"), [Attr([], [])], []), 7)
            && !DerivesElement(b, 0, 7, 0, PAPER, d, t)
    ensures var b := Raw("{a,[]b}");
            && Decoded(b, d) == Parsed(Element(Raw("a"), [], [Text(Raw("b"))]), 7)
            && !DerivesElement(b, 0, 7, 0, PAPER, d, t)
  {
    hide Decoded, DerivesElement;
    EmptyTagOnly(Raw("{,}"), d, t);
    EmptyKeyOnly(Raw("{a,[:]}"), d, t);
    BareContentOnly(Raw("{a,[]b}"), d, t);
    assert Raw("a") == [Ch('a')] && Raw("b") == [Ch('b')];
  }

  lemma EmptyTagOnly(b: Bytes, d: Dialect, t: Node)
    requires b == [Ch('{'), Ch(','), Ch('}')]
    ensures Decoded(b, d) == Parsed(Element([], [], []), 3) && !DerivesElement(b, 0, 3, 0, PAPER, d, t)
  {
    hide DerivesBody, DerivesContents;
    assert ReadEscaped(b, 1, Tag) == Parsed([], 1);
    assert ReadKids(b, 2, 0, d) == Parsed([], 3);
    assert ReadBody(b, 2, 0, d, []) == Parsed(Element([], [], []), 3);
    CommonGround(b, d, t);
  }

  /** A tag of one byte, and what is behind the comma. */
  lemma TagOfOne(b: Bytes, d: Dialect)
    requires |b| > 3 && b[0] == Ch('{') && b[1] == Ch('a') && b[2] == Ch(',')
    ensures ReadEscaped(b, 1, Tag) == Parsed([Ch('a')], 2)
    ensures ReadElement(b, 0, 0, d) == ReadBody(b, 3, 0, d, [Ch('a')])
  {
    assert [b[1]] + [] == [b[1]];
    assert ReadEscaped(b, 2, Tag) == Parsed([], 2);
  }

  /** Without the liberties an element that has a tag of its own is no singleton. */
  lemma BodyBehindTag(b: Bytes, d: Dialect, t: Node)
    requires |b| > 3 && b[0] == Ch('{') && b[1] == Ch('a') && b[2] == Ch(',')
    requires DerivesElement(b, 0, |b|, 0, COMMON, d, t) && t.Element? && t.tag == [Ch('a')]
    ensures DerivesBody(b, 3, |b| - 1, 0, COMMON, d, t)
  {
    hide DerivesBody, ReadEscaped, Units;
    var k :| 0 < k < |b| - 1 && Units(b, 1, k, Tag, t.tag) && b[k] == Ch(',') && DerivesBody(b, k + 1, |b| - 1, 0, COMMON, d, t);
    UnitsRead(b, 1, k, Tag, t.tag);
    TagOfOne(b, d);
  }

  lemma EmptyKeyOnly(b: Bytes, d: Dialect, t: Node)
    requires b == [Ch('{'), Ch('a'), Ch(','), Ch('['), Ch(':'), Ch(']'), Ch('}')]
    ensures Decoded(b, d) == Parsed(Element([Ch('a')], [Attr([], [])], []), 7) && !DerivesElement(b, 0, 7, 0, PAPER, d, t)
  {
    hide DerivesElement;
    TagOfOne(b, d);
    assert ReadEscaped(b, 4, Key) == Parsed([], 4) && ReadEscaped(b, 5, Value) == Parsed([], 5);
    assert ReadPairs(b, 4) == Parsed([Attr([], [])], 6);
    assert ReadBody(b, 3, 0, d, [Ch('a')]) == Parsed(Element([Ch('a')], [Attr([], [])], []), 7);
    CommonGround(b, d, t);
    if DerivesElement(b, 0, 7, 0, COMMON, d, t) {
      BodyBehindTag(b, d, t);
      assert false;
    }
  }

  lemma BareContentOnly(b: Bytes, d: Dialect, t: Node)
    requires b == [Ch('{'), Ch('a'), Ch(','), Ch('['), Ch(']'), Ch('b'), Ch('}')]
    ensures Decoded(b, d) == Parsed(Element([Ch('a')], [], [Text([Ch('b')])]), 7) && !DerivesElement(b, 0, 7, 0, PAPER, d, t)
  {
    hide DerivesElement;
    TagOfOne(b, d);
    assert [b[5]] + [] == [b[5]];
    assert [Text([b[5]])] + [] == [Text([b[5]])];
    assert ReadEscaped(b, 6, Content) == Parsed([], 6);
    assert ReadEscaped(b, 5, Content) == Parsed([Ch('b')], 6);
    assert ReadKids(b, 6, 0, d) == Parsed([], 7);
    assert ReadKids(b, 5, 0, d) == Parsed([Text([Ch('b')])], 7);
    assert ReadBody(b, 3, 0, d, [Ch('a')]) == Parsed(Element([Ch('a')], [], [Text([Ch('b')])]), 7);
    CommonGround(b, d, t);
    if DerivesElement(b, 0, 7, 0, COMMON, d, t) {
      BodyBehindTag(b, d, t);
      assert false;
    }
  }

  /** Each liberty of the paper is one: a run behind a text, an element in a singleton, a text
      outside of elements. */
  lemma OnlyOnPaper(d: Dialect)
    ensures var b := Raw("{a,b\\bc\0}");
            && Decoded(b, d).Rejected?
            && DerivesElement(b, 0, 9, 0, PAPER, d, Element(Raw("a"), [], [Text(Raw("b")), Text(Raw("c"))]))
    ensures var inner := Element(Raw("#text"), [], [Text(Raw("a"))]);
            && Decoded(Raw("{{a}}"), d).Rejected?
            && DerivesElement(Raw("{{a}}"), 0, 5, 0, PAPER, d, Element(Raw("#text"), [], [inner]))
    ensures ReadAll(Raw("a"), 0, d).Rejected? && DerivesNodes(Raw("a"), 0, PAPER, d, [Text(Raw("a"))])
  {
    hide Decoded, DerivesElement, DerivesNodes, ReadAll;
    assert Raw("a") == [Ch('a')] && Raw("b") == [Ch('b')] && Raw("c") == [Ch('c')];
    assert Raw("#text") == [Ch('#'), Ch('t'), Ch('e'), Ch('x'), Ch('t')];
    RunBehindTextOnly(Raw("{a,b\\bc\0}"), d);
    FullSingletonOnly(Raw("{{a}}"), d);
    TextOutsideOnly(Raw("a"), d);
  }

  /** One byte of text. */
  lemma OneUnit(b: Bytes, i: nat, slot: Slot, c: byte)
    requires i < |b| && b[i] == c && c != Ch('\\') && !Ends(slot, c)
    ensures Units(b, i, i + 1, slot, [c])
  {
    assert Unit(b, i, i + 1, slot, c);
    assert Units(b, i + 1, i + 1, slot, [c][1..]);
  }

  lemma RunBehindTextOnly(b: Bytes, d: Dialect)
    requires b == [Ch('{'), Ch('a'), Ch(','), Ch('b'), Ch('\\'), Ch('b'), Ch('c'), 0, Ch('}')]
    ensures Decoded(b, d).Rejected?
    ensures DerivesElement(b, 0, 9, 0, PAPER, d, Element([Ch('a')], [], [Text([Ch('b')]), Text([Ch('c')])]))
  {
    TagOfOne(b, d);
    assert ReadEscaped(b, 4, Content).Rejected?;
    assert ReadEscaped(b, 3, Content).Rejected?;
    assert ReadKids(b, 3, 0, d).Rejected?;
    var c, kids := [Ch('c')], [Text([Ch('b')]), Text([Ch('c')])];
    assert UpToNul(b, 7, 8, c[1..]);
    assert UpToNul(b, 6, 8, c);
    assert Binary(b, 4, 8, d, c);
    assert DerivesContents(b, 8, 8, 0, Content, false, PAPER, d, kids[1..][1..]);
    assert RunCut(b, 4, 8, 8, c, 0, Content, PAPER, d, kids[1..]);
    OneUnit(b, 3, Content, Ch('b'));
    assert TextCut(b, 3, 4, 8, 0, Content, PAPER, d, kids);
    OneUnit(b, 1, Tag, Ch('a'));
    assert DerivesBody(b, 3, 8, 0, PAPER, d, Element([Ch('a')], [], kids));
  }

  lemma FullSingletonOnly(b: Bytes, d: Dialect)
    requires b == [Ch('{'), Ch('{'), Ch('a'), Ch('}'), Ch('}')]
    ensures Decoded(b, d).Rejected?
    ensures var tag := [Ch('#'), Ch('t'), Ch('e'), Ch('x'), Ch('t')];
            DerivesElement(b, 0, 5, 0, PAPER, d, Element(tag, [], [Element(tag, [], [Text([Ch('a')])])]))
  {
    hide Units;
    var tag := [Ch('#'), Ch('t'), Ch('e'), Ch('x'), Ch('t')];
    var kids := [Element(tag, [], [Text([Ch('a')])])];
    assert ReadEscaped(b, 1, Tag) == Parsed([], 1);
    OneUnit(b, 2, Tag, Ch('a'));
    assert DerivesElement(b, 1, 4, 1, PAPER, d, kids[0]);
    assert DerivesContents(b, 4, 4, 0, Tag, false, PAPER, d, kids[1..]);
    assert ElementCut(b, 1, 4, 4, 0, Tag, PAPER, d, kids);
    assert DerivesContents(b, 1, 4, 0, Tag, false, PAPER, d, kids);
  }

  lemma TextOutsideOnly(b: Bytes, d: Dialect)
    requires b == [Ch('a')]
    ensures ReadAll(b, 0, d).Rejected? && DerivesNodes(b, 0, PAPER, d, [Text([Ch('a')])])
  {
    hide DerivesElement;
    assert ReadElement(b, 0, 0, d).Rejected?;
    OneUnit(b, 0, Content, Ch('a'));
    assert DerivesNodes(b, 1, PAPER, d, [Text([Ch('a')])][1..]);
  }
}
