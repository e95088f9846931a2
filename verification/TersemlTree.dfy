/** terseml trees: elements with a tag, attributes and children, and text. */
module TersemlTree {
  import opened Bits

  type Bytes = seq<byte>

  datatype Attr = Attr(key: Bytes, value: Bytes)

  datatype Node = Text(text: Bytes) | Element(tag: Bytes, attrs: seq<Attr>, children: seq<Node>)

  const IMPLICIT_TAG: Bytes := [0x23, 0x74, 0x65, 0x78, 0x74]

  const MAX_DEPTH: nat := 256

  /** How deep elements nest below t. */
  function Height(t: Node): nat {
    match t
    case Text(_) => 0
    case Element(_, _, kids) => KidsHeight(kids)
  }

  function KidsHeight(kids: seq<Node>): nat {
    if kids == [] then 0 else
      var first := if kids[0].Element? then 1 + Height(kids[0]) else 0;
      var rest := KidsHeight(kids[1..]);
      if first >= rest then first else rest
  }

  /** Adjacent texts become one and empty texts vanish: nothing separates texts on the wire. */
  function Merge(kids: seq<Node>): (out: seq<Node>)
    ensures |out| <= |kids|
  {
    if kids == [] then [] else Prepend(kids[0], Merge(kids[1..]))
  }

  function Prepend(kid: Node, rest: seq<Node>): (out: seq<Node>)
    ensures |out| <= 1 + |rest|
  {
    if kid.Element? then [kid] + rest
    else if kid.text == [] then rest
    else if rest != [] && rest[0].Text? then [Text(kid.text + rest[0].text)] + rest[1..]
    else [kid] + rest
  }

  /** The tree as it can be written down: texts merged all the way down. */
  function Normal(t: Node): (r: Node)
    ensures r.Element? <==> t.Element?
  {
    match t
    case Text(_) => t
    case Element(tag, attrs, kids) => Element(tag, attrs, Merge(NormalAll(kids)))
  }

  function NormalAll(kids: seq<Node>): (r: seq<Node>)
    ensures |r| == |kids|
  {
    if kids == [] then [] else [Normal(kids[0])] + NormalAll(kids[1..])
  }

  /** No text is empty or stands next to another one. */
  ghost predicate Separated(kids: seq<Node>) {
    forall i :: 0 <= i < |kids| && kids[i].Text? ==> kids[i].text != [] && (i + 1 < |kids| ==> kids[i + 1].Element?)
  }

  ghost predicate IsNormal(t: Node) {
    match t
    case Text(_) => true
    case Element(_, _, kids) => Separated(kids) && AllNormal(kids)
  }

  ghost predicate AllNormal(kids: seq<Node>) {
    kids == [] || (IsNormal(kids[0]) && AllNormal(kids[1..]))
  }

  lemma PrependSeparated(kid: Node, rest: seq<Node>)
    requires Separated(rest) && AllNormal(rest) && IsNormal(kid)
    ensures Separated(Prepend(kid, rest)) && AllNormal(Prepend(kid, rest))
  {
    var out := Prepend(kid, rest);
    if kid.Text? && kid.text != [] && rest != [] && rest[0].Text? {
      assert out[1..] == rest[1..];
    } else if out != rest {
      assert out[1..] == rest;
    }
  }

  lemma {:induction false} MergeSeparated(kids: seq<Node>)
    requires AllNormal(kids)
    ensures Separated(Merge(kids)) && AllNormal(Merge(kids))
  {
    if kids != [] {
      MergeSeparated(kids[1..]);
      PrependSeparated(kids[0], Merge(kids[1..]));
    }
  }

  lemma {:induction false} NormalHolds(t: Node)
    ensures IsNormal(Normal(t))
  {
    if t.Element? {
      NormalAllHolds(t.children);
      MergeSeparated(NormalAll(t.children));
    }
  }

  lemma {:induction false} NormalAllHolds(kids: seq<Node>)
    ensures AllNormal(NormalAll(kids))
  {
    if kids != [] {
      NormalHolds(kids[0]);
      NormalAllHolds(kids[1..]);
      assert NormalAll(kids)[1..] == NormalAll(kids[1..]);
    }
  }

  lemma SeparatedTail(kids: seq<Node>)
    requires Separated(kids) && kids != []
    ensures Separated(kids[1..])
    ensures kids[0].Text? ==> kids[0].text != [] && (kids[1..] == [] || kids[1..][0].Element?)
  {
  }

  lemma {:induction false} MergeSame(kids: seq<Node>)
    requires Separated(kids)
    ensures Merge(kids) == kids
  {
    if kids != [] {
      SeparatedTail(kids);
      MergeSame(kids[1..]);
    }
  }

  /** What is in normal form stays as it is. */
  lemma {:induction false} NormalSame(t: Node)
    requires IsNormal(t)
    ensures Normal(t) == t
  {
    if t.Element? {
      NormalAllSame(t.children);
      MergeSame(t.children);
    }
  }

  lemma {:induction false} NormalAllSame(kids: seq<Node>)
    requires AllNormal(kids)
    ensures NormalAll(kids) == kids
  {
    if kids != [] {
      NormalSame(kids[0]);
      NormalAllSame(kids[1..]);
    }
  }

  lemma HeightPrepend(kid: Node, rest: seq<Node>)
    ensures KidsHeight(Prepend(kid, rest)) == KidsHeight([kid] + rest)
  {
    assert ([kid] + rest)[1..] == rest;
    var out := Prepend(kid, rest);
    if kid.Text? && kid.text != [] && rest != [] && rest[0].Text? {
      assert out[1..] == rest[1..];
    }
  }

  lemma {:induction false} HeightMerge(kids: seq<Node>)
    ensures KidsHeight(Merge(kids)) == KidsHeight(kids)
  {
    if kids != [] {
      HeightMerge(kids[1..]);
      HeightPrepend(kids[0], Merge(kids[1..]));
      assert ([kids[0]] + Merge(kids[1..]))[1..] == Merge(kids[1..]);
    }
  }

  lemma {:induction false} HeightNormal(t: Node)
    ensures Height(Normal(t)) == Height(t)
  {
    if t.Element? {
      HeightNormalAll(t.children);
      HeightMerge(NormalAll(t.children));
    }
  }

  lemma {:induction false} HeightNormalAll(kids: seq<Node>)
    ensures KidsHeight(NormalAll(kids)) == KidsHeight(kids)
  {
    if kids != [] {
      HeightNormal(kids[0]);
      HeightNormalAll(kids[1..]);
      assert NormalAll(kids)[1..] == NormalAll(kids[1..]);
    }
  }

  /** Merging before or after the children are brought to normal form is the same. */
  lemma {:induction false} NormalMerge(kids: seq<Node>)
    ensures Merge(NormalAll(Merge(kids))) == Merge(NormalAll(kids)) == NormalAll(Merge(kids))
  {
    if kids != [] {
      var kid, rest := kids[0], Merge(kids[1..]);
      NormalMerge(kids[1..]);
      NormalPrepend(kid, rest);
      assert NormalAll(kids) == [Normal(kid)] + NormalAll(kids[1..]);
      assert NormalAll(kids)[1..] == NormalAll(kids[1..]);
      MergeSeparatedAll(kids);
    }
  }

  lemma NormalPrepend(kid: Node, rest: seq<Node>)
    ensures NormalAll(Prepend(kid, rest)) == Prepend(Normal(kid), NormalAll(rest))
  {
    assert ([kid] + rest)[1..] == rest;
    if kid.Text? && kid.text != [] && rest != [] && rest[0].Text? {
      assert Prepend(kid, rest)[1..] == rest[1..];
    }
  }

  /** Whatever is merged is separated, and bringing children to normal form keeps that. */
  lemma MergeSeparatedAll(kids: seq<Node>)
    ensures Merge(NormalAll(Merge(kids))) == NormalAll(Merge(kids))
  {
    MergeShape(kids);
    SeparatedNormalAll(Merge(kids));
    MergeSame(NormalAll(Merge(kids)));
  }

  lemma {:induction false} MergeShape(kids: seq<Node>)
    ensures Separated(Merge(kids))
  {
    if kids != [] {
      MergeShape(kids[1..]);
    }
  }

  lemma {:induction false} NormalAllAt(kids: seq<Node>, i: nat)
    requires i < |kids|
    ensures NormalAll(kids)[i] == Normal(kids[i])
  {
    if i > 0 {
      NormalAllAt(kids[1..], i - 1);
    }
  }

  lemma SeparatedNormalAll(kids: seq<Node>)
    requires Separated(kids)
    ensures Separated(NormalAll(kids))
  {
    forall i | 0 <= i < |kids| && NormalAll(kids)[i].Text?
      ensures NormalAll(kids)[i].text != [] && (i + 1 < |kids| ==> NormalAll(kids)[i + 1].Element?)
    {
      NormalAllAt(kids, i);
      if i + 1 < |kids| {
        NormalAllAt(kids, i + 1);
      }
    }
  }

  /** The element a node is read back as: a text node on its own gets the implicit tag. */
  function AsElement(t: Node): (r: Node)
    ensures r.Element?
  {
    match t
    case Text(b) => Element(IMPLICIT_TAG, [], if b == [] then [] else [t])
    case Element(_, _, _) => t
  }
}
