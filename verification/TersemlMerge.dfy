/** What merging keeps: the bytes of the texts and the elements between them, in order. It is the one
    way of keeping them in which no text is empty or stands next to another one. */
module TersemlMerge {
  import opened Bits
  import opened TersemlTree

  /** A byte of text, or an element. */
  datatype Piece = Letter(c: byte) | Whole(element: Node)

  function Letters(b: Bytes): (p: seq<Piece>)
    ensures |p| == |b|
  {
    seq(|b|, i requires 0 <= i < |b| => Letter(b[i]))
  }

  function PiecesOf(kid: Node): seq<Piece> {
    if kid.Text? then Letters(kid.text) else [Whole(kid)]
  }

  function Pieces(kids: seq<Node>): seq<Piece> {
    if kids == [] then [] else PiecesOf(kids[0]) + Pieces(kids[1..])
  }

  lemma PrependKeeps(kid: Node, rest: seq<Node>)
    ensures Pieces(Prepend(kid, rest)) == PiecesOf(kid) + Pieces(rest)
  {
    var out := Prepend(kid, rest);
    if kid.Text? && kid.text != [] && rest != [] && rest[0].Text? {
      assert out[1..] == rest[1..];
      assert Letters(kid.text + rest[0].text) == Letters(kid.text) + Letters(rest[0].text);
    } else if out != rest {
      assert out[1..] == rest;
    }
  }

  /** Merging neither loses nor reorders anything. */
  lemma {:induction false} MergeKeeps(kids: seq<Node>)
    ensures Pieces(Merge(kids)) == Pieces(kids)
  {
    if kids != [] {
      MergeKeeps(kids[1..]);
      PrependKeeps(kids[0], Merge(kids[1..]));
    }
  }

  /** In separated children a text ends where the next piece is no letter. */
  lemma TextEnds(kids: seq<Node>)
    requires Separated(kids) && kids != [] && kids[0].Text?
    ensures var n, p := |kids[0].text|, Pieces(kids);
            && n <= |p| && p[..n] == Letters(kids[0].text) && p[n..] == Pieces(kids[1..])
            && n > 0 && (n < |p| ==> p[n].Whole?)
  {
    if |kids| > 1 {
      assert kids[1].Element? && kids[1..][0] == kids[1];
    }
  }

  lemma SomePieces(kids: seq<Node>)
    requires Separated(kids) && kids != []
    ensures Pieces(kids) != [] && (Pieces(kids)[0].Letter? <==> kids[0].Text?)
    ensures kids[0].Element? ==> Pieces(kids)[0] == Whole(kids[0]) && Pieces(kids)[1..] == Pieces(kids[1..])
  {
    if kids[0].Text? {
      TextEnds(kids);
    }
  }

  lemma LettersInjective(a: Bytes, b: Bytes)
    requires Letters(a) == Letters(b)
    ensures a == b
  {
    forall i | 0 <= i < |a| && |a| == |b| ensures a[i] == b[i] {
      assert Letters(a)[i] == Letters(b)[i];
    }
    assert |Letters(a)| == |Letters(b)|;
  }

  lemma {:induction false} SeparatedUnique(a: seq<Node>, b: seq<Node>)
    requires Separated(a) && Separated(b) && Pieces(a) == Pieces(b)
    ensures a == b
    decreases |a|
  {
    hide Pieces, Separated, Letters;
    if a == [] {
      assert Pieces(a) == [] by { NoPieces(); }
      if b != [] {
        SomePieces(b);
      }
    } else if b == [] {
      assert Pieces(b) == [] by { NoPieces(); }
      SomePieces(a);
      assert false;
    } else {
      SomePieces(a);
      SomePieces(b);
      SeparatedTail(a);
      SeparatedTail(b);
      if a[0].Text? {
        TextEnds(a);
        TextEnds(b);
        SameEnd(Pieces(a), |a[0].text|, |b[0].text|, a[0].text, b[0].text);
        LettersInjective(a[0].text, b[0].text);
      }
      SeparatedUnique(a[1..], b[1..]);
      assert a == [a[0]] + a[1..] && b == [b[0]] + b[1..];
    }
  }

  lemma NoPieces()
    ensures Pieces([]) == []
  {
  }

  lemma SameEnd(p: seq<Piece>, m: nat, n: nat, x: Bytes, y: Bytes)
    requires m <= |p| && n <= |p| && p[..m] == Letters(x) && p[..n] == Letters(y)
    requires (m < |p| ==> p[m].Whole?) && (n < |p| ==> p[n].Whole?)
    ensures m == n
  {
    assert forall i :: 0 <= i < m ==> p[i] == p[..m][i] == Letters(x)[i];
    assert forall i :: 0 <= i < n ==> p[i] == p[..n][i] == Letters(y)[i];
  }

  /** The merged children are the only separated ones with the same pieces. */
  lemma MergeOnly(kids: seq<Node>, merged: seq<Node>)
    ensures merged == Merge(kids) <==> Separated(merged) && Pieces(merged) == Pieces(kids)
  {
    hide Pieces, Separated;
    MergeKeeps(kids);
    MergeShape(kids);
    if Separated(merged) && Pieces(merged) == Pieces(kids) {
      SeparatedUnique(merged, Merge(kids));
    }
  }

  /** The normal form keeps tag and attributes, and merges the normal forms of the children. */
  lemma NormalOnly(t: Node, kids: seq<Node>)
    requires t.Element?
    requires |kids| == |t.children| && forall i :: 0 <= i < |kids| ==> kids[i] == Normal(t.children[i])
    ensures Normal(t) == Element(t.tag, t.attrs, Merge(kids))
  {
    forall i | 0 <= i < |kids| ensures NormalAll(t.children)[i] == kids[i] {
      NormalAllAt(t.children, i);
    }
    assert NormalAll(t.children) == kids;
  }
}
