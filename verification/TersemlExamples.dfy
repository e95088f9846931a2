/** The syntax in plain characters: what singletons are read as, and what elements are written as. */
module TersemlExamples {
  import opened TersemlTree
  import opened TersemlWrite
  import opened TersemlRead
  import opened TersemlRoundTrip
  import opened TersemlGrammar

  /** Text between braces, without a comma, is the text of an element that has no tag of its own. */
  lemma SingletonText(b: Bytes, d: Dialect)
    ensures var s := [Ch('{')] + Escape(Tag, b, false) + [Ch('}')];
            Decoded(s, d) == Parsed(Element(Raw("#text"), [], if b == [] then [] else [Text(b)]), |s|)
  {
    hide Escape, ReadEscaped;
    Characters();
    var e := Escape(Tag, b, false);
    var s := [LBR] + e + [RBR];
    assert s[1..1 + |e|] == e;
    EscapedBack(s, 1, Tag, b, false);
    assert Raw("#text") == IMPLICIT_TAG;
  }

  /** What holds no byte that is reserved in the slot is written as it is. */
  lemma {:induction false} EscapePlain(slot: Slot, b: Bytes, lead: bool)
    requires forall i :: 0 <= i < |b| ==> !Ends(slot, b[i]) && b[i] != Ch('\\')
    requires lead && b != [] ==> b[0] != Ch('[')
    ensures Escape(slot, b, lead) == b
    decreases |b|
  {
    if b != [] {
      Characters();
      EndsStops(slot, b[0]);
      EscapePlain(slot, b[1..], false);
      assert b == [b[0]] + b[1..];
    }
  }

  /** A text is written in place when escaping adds less than the three bytes a run takes at least. */
  lemma InlineShort(b: Bytes, start: bool)
    requires |Escape(Content, b, start)| < |b| + 3
    ensures Payload(b, start) == Escape(Content, b, start)
  {
    hide Escape, EscapeNul;
    assert |Emitted(b, Counted, start)| >= |b| + 3;
    assert |Emitted(b, Terminated, start)| >= |b| + 3;
    assert |Emitted(b, Inline, start)| == |Escape(Content, b, start)|;
  }

  predicate PlainText(b: Bytes) {
    forall i :: 0 <= i < |b| ==> !Ends(Content, b[i]) && b[i] != Ch('\\')
  }

  predicate PlainTag(b: Bytes) {
    forall i :: 0 <= i < |b| ==> !Ends(Tag, b[i]) && b[i] != Ch('\\')
  }

  /** Brace, tag, comma, text, brace: commas and brackets of the text stay as they are, but a bracket
      that leads it is escaped. */
  lemma PlainElement(tag: Bytes, b: Bytes)
    requires PlainTag(tag) && PlainText(b) && b != []
    ensures Encoding(Element(tag, [], [])) == [Ch('{')] + tag + [Ch(','), Ch('}')]
    ensures Encoding(Element(tag, [], [Text(b)]))
            == [Ch('{')] + tag + [Ch(',')] + (if b[0] == Ch('[') then [Ch('\\')] + b else b) + [Ch('}')]
  {
    hide Escape, Payload;
    Characters();
    EscapePlain(Tag, tag, false);
    PlainPayload(b);
    TextAlone(tag, b);
    TextAlone(tag, []);
    NothingInline();
  }

  lemma PlainPayload(b: Bytes)
    requires PlainText(b) && b != []
    ensures Payload(b, true) == if b[0] == Ch('[') then [Ch('\\')] + b else b
  {
    Characters();
    if b[0] == LSQ {
      assert PlainText(b[1..]);
      EscapePlain(Content, b[1..], false);
      assert Escape(Content, b, true) == [BS] + b;
    } else {
      EscapePlain(Content, b, true);
    }
    InlineShort(b, true);
  }

  /** An element that holds one text, or nothing. */
  lemma TextAlone(tag: Bytes, b: Bytes)
    ensures Encoding(Element(tag, [], if b == [] then [] else [Text(b)]))
            == [Ch('{')] + Escape(Tag, tag, false) + [Ch(',')] + Payload(b, true) + [Ch('}')]
  {
    hide Escape, Payload, KidsWritten, Separated, AllNormal;
    Characters();
    var t := Element(tag, [], if b == [] then [] else [Text(b)]);
    TextKids(b);
    NormalSame(t);
    NoAttrs([COM] + (Payload(b, true) + [RBR]));
  }

  /** Attributes stand in brackets, with a colon in each and a comma between them; a comma follows
      even if no child does. */
  lemma Attributes(v: Bytes)
    requires forall i :: 0 <= i < |v| ==> !Ends(Value, v[i]) && v[i] != Ch('\\')
    ensures Encoding(Element(Raw("a"), TwoAttributes(v), [])) == Raw("{a,[k:") + v + Raw(",x:],}")
  {
    hide Escape, Pairs, TwoAttributes, Written;
    var t := Element(Raw("a"), TwoAttributes(v), []);
    TwoWritten(v);
    NormalSame(t);
    EscapePlain(Tag, Raw("a"), false);
    AttributesAlone(Raw("a"), TwoAttributes(v));
    var p := Pairs(TwoAttributes(v));
    assert [Ch('{')] + Raw("a") + [Ch(','), Ch('[')] + p + [Ch(']'), Ch(','), Ch('}')] == Raw("{a,[k:") + v + Raw(",x:],}");
  }

  lemma AttributesAlone(tag: Bytes, attrs: seq<Attr>)
    requires attrs != []
    ensures Written(Element(tag, attrs, []))
            == [Ch('{')] + Escape(Tag, tag, false) + [Ch(','), Ch('[')] + Pairs(attrs) + [Ch(']'), Ch(','), Ch('}')]
  {
    hide Escape, Pairs;
    Characters();
    assert KidsWritten([], false) == [];
  }

  function TwoAttributes(v: Bytes): (attrs: seq<Attr>)
    ensures |attrs| == 2
  {
    [Attr(Raw("k"), v), Attr(Raw("x"), [])]
  }

  lemma TwoWritten(v: Bytes)
    requires forall i :: 0 <= i < |v| ==> !Ends(Value, v[i]) && v[i] != Ch('\\')
    ensures Pairs(TwoAttributes(v)) == Raw("k:") + v + Raw(",x:")
  {
    hide Escape;
    var a := TwoAttributes(v);
    EscapePlain(Key, Raw("k"), false);
    EscapePlain(Key, Raw("x"), false);
    EscapePlain(Value, v, false);
    EscapePlain(Value, [], false);
    assert a[1..] == [a[1]];
    assert Pairs(a[1..]) == Raw("x:") + [];
  }

  function ThreeKids(): seq<Node> {
    [Text(Raw("t")), Element(Raw("b"), [], []), Text(Raw("[c]"))]
  }

  /** Children stand one after another, and a bracket that does not lead the content stays as it is. */
  lemma Children()
    ensures Encoding(Element(Raw("a"), [], ThreeKids())) == Raw("{a,t{b,}[c]}")
  {
    hide ThreeKids, Encoding, Escape, KidsWritten, Separated, AllNormal;
    ThreeNormal();
    ThreeWritten();
    OnlyChildren(Raw("a"), ThreeKids());
    EscapePlain(Tag, Raw("a"), false);
    Spelled();
  }

  lemma Spelled()
    ensures [Ch('{')] + Raw("a") + [Ch(',')] + Raw("t{b,}[c]") + [Ch('}')] == Raw("{a,t{b,}[c]}")
  {
  }

  lemma OnlyChildren(tag: Bytes, kids: seq<Node>)
    requires Separated(kids) && AllNormal(kids)
    ensures Encoding(Element(tag, [], kids)) == [Ch('{')] + Escape(Tag, tag, false) + [Ch(',')] + KidsWritten(kids, true) + [Ch('}')]
  {
    hide Escape, KidsWritten, Written, Separated, AllNormal;
    NormalSame(Element(tag, [], kids));
    WrittenNoAttrs(tag, kids);
  }

  lemma ThreeNormal()
    ensures Separated(ThreeKids()) && AllNormal(ThreeKids())
  {
    var kids := ThreeKids();
    assert kids[1..] == [kids[1], kids[2]] && kids[1..][1..] == [kids[2]] && kids[1..][1..][1..] == [];
    assert AllNormal(kids[1..][1..][1..]);
    assert AllNormal(kids[1..][1..]);
    assert AllNormal(kids[1..]);
  }

  lemma ThreeWritten()
    ensures KidsWritten(ThreeKids(), true) == Raw("t{b,}[c]")
  {
    hide Escape, Payload, Written;
    var kids := ThreeKids();
    assert kids[1..] == [kids[1], kids[2]] && kids[1..][1..] == [kids[2]] && kids[1..][1..][1..] == [];
    EscapePlain(Content, Raw("t"), true);
    InlineShort(Raw("t"), true);
    EscapePlain(Content, Raw("[c]"), false);
    InlineShort(Raw("[c]"), false);
    WrittenNoAttrs(Raw("b"), []);
    EscapePlain(Tag, Raw("b"), false);
    assert KidsWritten([], true) == [];
    assert Written(kids[1]) == Raw("{b,}");
    assert KidsWritten(kids[1..][1..], false) == Raw("[c]") + [];
    assert KidsWritten(kids[1..], false) == Raw("{b,}") + Raw("[c]");
  }

  lemma WrittenNoAttrs(tag: Bytes, kids: seq<Node>)
    ensures Written(Element(tag, [], kids)) == [Ch('{')] + Escape(Tag, tag, false) + [Ch(',')] + KidsWritten(kids, true) + [Ch('}')]
  {
    hide Escape, KidsWritten;
    Characters();
    NoAttrs([COM] + (KidsWritten(kids, true) + [RBR]));
  }
}
