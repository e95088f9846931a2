/** The written form grown from left to right, as the encoders' loops do. */
module TersemlAppend {
  import opened TersemlTree
  import opened TersemlWrite
  import opened TersemlRoundTrip

  lemma {:induction false} PairsAppend(attrs: seq<Attr>, a: Attr)
    ensures Pairs(attrs + [a]) == if attrs == [] then Pair(a) else Pairs(attrs) + ([COM] + Pair(a))
  {
    hide Pair;
    var all := attrs + [a];
    if attrs == [] {
      assert all == [a];
    } else {
      assert all[1..] == attrs[1..] + [a];
      PairsAppend(attrs[1..], a);
    }
  }

  lemma PairsNext(attrs: seq<Attr>, i: nat)
    requires i < |attrs|
    ensures Pairs(attrs[..i + 1]) == if i == 0 then Pair(attrs[0]) else Pairs(attrs[..i]) + ([COM] + Pair(attrs[i]))
  {
    assert attrs[..i + 1] == attrs[..i] + [attrs[i]];
    PairsAppend(attrs[..i], attrs[i]);
  }

  lemma {:induction false} KidsAppend(kids: seq<Node>, kid: Node, start: bool)
    ensures KidsWritten(kids + [kid], start) == KidsWritten(kids, start) + KidWritten(kid, start && kids == [])
  {
    hide KidWritten;
    var all := kids + [kid];
    if kids == [] {
      assert all == [kid] && all[1..] == [];
    } else {
      assert all[1..] == kids[1..] + [kid];
      KidsAppend(kids[1..], kid, false);
    }
  }

  lemma KidsNext(kids: seq<Node>, i: nat, start: bool)
    requires i < |kids|
    ensures KidsWritten(kids[..i + 1], start) == KidsWritten(kids[..i], start) + KidWritten(kids[i], start && i == 0)
  {
    assert kids[..i + 1] == kids[..i] + [kids[i]];
    KidsAppend(kids[..i], kids[i], start);
  }

  lemma {:induction false} HeightAppend(kids: seq<Node>, kid: Node)
    ensures var rest := if kid.Element? then 1 + Height(kid) else 0;
            KidsHeight(kids + [kid]) == if KidsHeight(kids) >= rest then KidsHeight(kids) else rest
  {
    var all := kids + [kid];
    if kids == [] {
      assert all == [kid] && all[1..] == [];
    } else {
      assert all[1..] == kids[1..] + [kid];
      HeightAppend(kids[1..], kid);
    }
  }

  lemma HeightNext(kids: seq<Node>, i: nat)
    requires i < |kids|
    ensures var rest := if kids[i].Element? then 1 + Height(kids[i]) else 0;
            KidsHeight(kids[..i + 1]) == if KidsHeight(kids[..i]) >= rest then KidsHeight(kids[..i]) else rest
  {
    assert kids[..i + 1] == kids[..i] + [kids[i]];
    HeightAppend(kids[..i], kids[i]);
  }

  lemma {:induction false} KidBelow(kids: seq<Node>, i: nat)
    requires i < |kids| && kids[i].Element?
    ensures Height(kids[i]) < KidsHeight(kids)
  {
    if i > 0 {
      KidBelow(kids[1..], i - 1);
    }
  }

  /** An element up to the comma its children follow. */
  function Opening(tag: Bytes, attrs: seq<Attr>): Bytes {
    [LBR] + Escape(Tag, tag, false) + AttrList(attrs) + [COM]
  }

  /** The pieces of an element. */
  lemma ElementPieces(t: Node)
    requires t.Element?
    ensures Written(t) == Opening(t.tag, t.attrs) + KidsWritten(t.children, t.attrs == []) + [RBR]
  {
    hide Escape, AttrList, KidsWritten;
    var tag, attrs, kids := Escape(Tag, t.tag, false), AttrList(t.attrs), KidsWritten(t.children, t.attrs == []);
    Assoc([LBR] + tag + attrs + [COM], kids, [RBR]);
    Assoc([LBR] + tag + attrs, [COM], kids + [RBR]);
    Assoc([LBR] + tag, attrs, [COM] + (kids + [RBR]));
    Assoc([LBR], tag, attrs + ([COM] + (kids + [RBR])));
  }

  lemma Assoc(a: Bytes, b: Bytes, c: Bytes)
    ensures (a + b) + c == a + (b + c)
  {
  }

  /** A text on its own encodes as an element with the implicit tag. */
  lemma TextEncoding(b: Bytes)
    ensures Encoding(Element(IMPLICIT_TAG, [], [Text(b)])) == Encoding(Text(b))
    ensures Height(Element(IMPLICIT_TAG, [], [Text(b)])) == 0
  {
    hide Written;
    var kids := [Text(b)];
    assert kids[1..] == [];
    assert NormalAll(kids) == [Text(b)];
    assert Merge(kids) == AsElement(Text(b)).children;
    assert Normal(Element(IMPLICIT_TAG, [], kids)) == AsElement(Text(b));
    WrittenAsElement(Text(b));
  }
}
