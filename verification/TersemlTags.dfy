/** When all tags of a document are nonempty, as the grammar wants them, on either side: read from
    bytes, and written from a tree. */
module TersemlTags {
  import opened TersemlTree
  import opened TersemlWrite
  import opened TersemlRead
  import opened TersemlPrefix
  import opened TersemlRoundTrip

  /** No element at any depth has an empty tag. */
  predicate Tagged(t: Node) {
    match t
    case Text(_) => true
    case Element(tag, _, kids) => tag != [] && AllTagged(kids)
  }

  predicate AllTagged(kids: seq<Node>) {
    kids == [] || (Tagged(kids[0]) && AllTagged(kids[1..]))
  }

  /** No element of the content has a comma directly behind its opening brace. */
  predicate KidsNamed(s: Bytes, i: nat, depth: nat, d: Dialect)
    decreases |s| - i, 2
  {
    if i >= |s| || s[i] == RBR then true
    else if s[i] == LBR then
      var el := ReadElement(s, i, depth + 1, d);
      el.Parsed? ==> ElementNamed(s, i, depth + 1, d) && KidsNamed(s, el.end, depth, d)
    else
      TextAdvances(s, i, d);
      var text := ReadText(s, i, d);
      text.Parsed? ==> KidsNamed(s, text.end, depth, d)
  }

  /** Nor has the element at i itself, nor any at any depth below it. */
  predicate ElementNamed(s: Bytes, i: nat, depth: nat, d: Dialect)
    decreases |s| - i, 1
  {
    var head := ReadEscaped(s, i + 1, Tag);
    head.Parsed? && s[head.end] == COM ==> s[i + 1] != COM && BodyNamed(s, head.end + 1, depth, d)
  }

  predicate BodyNamed(s: Bytes, i: nat, depth: nat, d: Dialect)
    decreases |s| - i, 3
  {
    if i < |s| && s[i] == LSQ then
      var attrs := ReadAttrs(s, i + 1);
      attrs.Rejected? || (attrs.end < |s| && s[attrs.end] == RBR)
      || KidsNamed(s, if attrs.end < |s| && s[attrs.end] == COM then attrs.end + 1 else attrs.end, depth, d)
    else KidsNamed(s, i, depth, d)
  }

  lemma TaggedFirst(kid: Node, rest: seq<Node>)
    ensures AllTagged([kid] + rest) <==> Tagged(kid) && AllTagged(rest)
  {
    assert ([kid] + rest)[1..] == rest;
  }

  lemma HeadEmpty(s: Bytes, i: nat)
    requires ReadEscaped(s, i, Tag).Parsed? && s[ReadEscaped(s, i, Tag).end] == COM
    ensures ReadEscaped(s, i, Tag).value == [] <==> s[i] == COM
  {
  }

  lemma {:induction false} KidsExactly(s: Bytes, i: nat, depth: nat, d: Dialect)
    requires ReadKids(s, i, depth, d).Parsed?
    ensures AllTagged(ReadKids(s, i, depth, d).value) <==> KidsNamed(s, i, depth, d)
    decreases |s| - i, 2
  {
    hide ReadEscaped, ReadRun, ReadElement, AllTagged, ElementNamed;
    if s[i] == LBR {
      var el := ReadElement(s, i, depth + 1, d);
      ElementExactly(s, i, depth + 1, d);
      KidsExactly(s, el.end, depth, d);
      TaggedFirst(el.value, ReadKids(s, el.end, depth, d).value);
    } else if s[i] == RBR {
      NothingTagged();
    } else {
      TextAdvances(s, i, d);
      var text := ReadText(s, i, d);
      KidsExactly(s, text.end, depth, d);
      TaggedFirst(Text(text.value), ReadKids(s, text.end, depth, d).value);
    }
  }

  lemma NothingTagged()
    ensures AllTagged([])
  {
  }

  lemma {:induction false} ElementExactly(s: Bytes, i: nat, depth: nat, d: Dialect)
    requires ReadElement(s, i, depth, d).Parsed?
    ensures Tagged(ReadElement(s, i, depth, d).value) <==> ElementNamed(s, i, depth, d)
    decreases |s| - i, 1
  {
    hide ReadEscaped, ReadKids, ReadAttrs, KidsNamed, AllTagged;
    var head := ReadEscaped(s, i + 1, Tag);
    NothingTagged();
    if s[head.end] == RBR {
      SingletonTagged(head.value);
    } else {
      HeadEmpty(s, i + 1);
      var j := head.end + 1;
      if j < |s| && s[j] == LSQ {
        var attrs := ReadAttrs(s, j + 1);
        if !(attrs.end < |s| && s[attrs.end] == RBR) {
          KidsExactly(s, if attrs.end < |s| && s[attrs.end] == COM then attrs.end + 1 else attrs.end, depth, d);
        }
      } else {
        KidsExactly(s, j, depth, d);
      }
    }
  }

  lemma SingletonTagged(b: Bytes)
    ensures Tagged(AsElement(Text(b)))
  {
    TaggedFirst(Text(b), []);
    assert [Text(b)] + [] == [Text(b)];
  }

  /** All tags of the tree that was read are nonempty if and only if no element of the document has
      a comma directly behind its opening brace. */
  lemma NamedExactly(b: Bytes, d: Dialect)
    requires Decoded(b, d).Parsed?
    ensures Tagged(Decoded(b, d).value) <==> ElementNamed(b, 0, 0, d)
  {
    hide ReadElement, ElementNamed, Tagged;
    ElementExactly(b, 0, 0, d);
  }

  lemma {:induction false} TaggedMerge(kids: seq<Node>)
    ensures AllTagged(Merge(kids)) <==> AllTagged(kids)
  {
    if kids != [] {
      var kid, rest := kids[0], Merge(kids[1..]);
      TaggedMerge(kids[1..]);
      TaggedFirst(kid, rest);
      if kid.Text? && kid.text != [] && rest != [] && rest[0].Text? {
        TaggedFirst(Text(kid.text + rest[0].text), rest[1..]);
      }
    }
  }

  lemma {:induction false} TaggedNormal(t: Node)
    ensures Tagged(Normal(t)) <==> Tagged(t)
  {
    if t.Element? {
      TaggedNormalAll(t.children);
      TaggedMerge(NormalAll(t.children));
    }
  }

  lemma {:induction false} TaggedNormalAll(kids: seq<Node>)
    ensures AllTagged(NormalAll(kids)) <==> AllTagged(kids)
  {
    if kids != [] {
      TaggedNormal(kids[0]);
      TaggedNormalAll(kids[1..]);
      TaggedFirst(Normal(kids[0]), NormalAll(kids[1..]));
    }
  }

  /** What is written has an empty tag if and only if the tree has one. */
  lemma WrittenNamed(t: Node, d: Dialect)
    requires Height(t) <= 256 && Addressable(Encoding(t))
    ensures ElementNamed(Encoding(t), 0, 0, d) <==> Tagged(t)
  {
    hide ReadElement, ElementNamed, Tagged, Encoding, Normal;
    assert Encoding(t) + [] == Encoding(t);
    RoundTrip(t, [], d);
    ElementExactly(Encoding(t), 0, 0, d);
    TaggedNormal(t);
    AsElementTagged(Normal(t));
  }

  lemma AsElementTagged(t: Node)
    ensures Tagged(AsElement(t)) <==> Tagged(t)
  {
    if t.Text? {
      SingletonTagged(t.text);
    }
  }

  /** Such a document is accepted, and such a tree is written. */
  lemma EmptyTag(d: Dialect)
    ensures Decoded([LBR, COM, RBR], d) == Parsed(Element([], [], []), 3) && !ElementNamed([LBR, COM, RBR], 0, 0, d)
    ensures Encoding(Element([], [], [])) == [LBR, COM, RBR] && !Tagged(Element([], [], []))
  {
    hide ElementNamed, Decoded;
    EmptyTagRead([LBR, COM, RBR], d);
    NamedExactly([LBR, COM, RBR], d);
    assert Escape(Tag, [], false) == [] && AttrList([]) == [] && KidsWritten([], true) == [];
    assert [] + ([COM] + ([] + [RBR])) == [COM, RBR];
  }

  lemma EmptyTagRead(b: Bytes, d: Dialect)
    requires b == [LBR, COM, RBR]
    ensures Decoded(b, d) == Parsed(Element([], [], []), 3)
  {
    assert ReadEscaped(b, 1, Tag) == Parsed([], 1);
    assert ReadKids(b, 2, 0, d) == Parsed([], 3);
    assert ReadBody(b, 2, 0, d, []) == Parsed(Element([], [], []), 3);
    assert ReadElement(b, 0, 0, d) == ReadBody(b, 2, 0, d, []);
  }
}
