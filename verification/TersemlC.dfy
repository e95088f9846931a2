/** The C encoder: a growing output buffer, runs copied whole between the bytes that need escaping. */
module TersemlC {
  import opened Bits
  import opened Buffers
  import opened Leb128
  import opened TersemlTree
  import opened TersemlWrite
  import opened TersemlRead
  import opened TersemlAppend

  class Buf {
    var p: array<byte>
    var len: nat
    var oom: bool

    ghost predicate Valid()
      reads this
    {
      len <= p.Length
    }

    ghost function Contents(): Bytes
      reads this, p
      requires Valid()
    {
      p[..len]
    }

    constructor ()
      ensures Valid() && Contents() == [] && !oom && fresh(p)
    {
      p := new byte[0];
      len := 0;
      oom := false;
    }

    /** Room for n more bytes: the capacity doubles until they fit. */
    method Need(n: nat)
      requires Valid()
      modifies this`p
      ensures Valid() && Contents() == old(Contents())
      ensures !oom ==> len + n <= p.Length
      ensures p == old(p) || fresh(p)
    {
      if oom || p.Length - len >= n {
        return;
      }
      var cap := if p.Length > 0 then p.Length * 2 else 4096;
      while cap - len < n
        invariant cap > 0 && cap >= p.Length
        decreases len + n - cap
      {
        cap := cap * 2;
      }
      var g := new byte[cap](i requires 0 <= i reads this, p => if i < p.Length then p[i] else 0);
      assert g[..len] == p[..len];
      p := g;
    }

    method Put(c: byte)
      requires Valid()
      modifies this`p, this`len, p
      ensures Valid() && (p == old(p) || fresh(p))
      ensures !oom ==> Contents() == old(Contents()) + [c]
    {
      Need(1);
      if !oom {
        p[len] := c;
        len := len + 1;
      }
    }

    method Write(src: Bytes)
      requires Valid()
      modifies this`p, this`len, p
      ensures Valid() && (p == old(p) || fresh(p))
      ensures !oom ==> Contents() == old(Contents()) + src
    {
      Need(|src|);
      if !oom && src != [] {
        CopyInto(p, len, src);
        len := len + |src|;
      }
    }

    /** Copies runs between the bytes that get a backslash. */
    method WriteEscaped(slot: Slot, s: Bytes, leadBracket: bool)
      requires Valid()
      modifies this`p, this`len, p
      ensures Valid() && (p == old(p) || fresh(p))
      ensures !oom ==> Contents() == old(Contents()) + Escape(slot, s, leadBracket)
    {
      hide Escape, Reserved;
      ghost var was := Contents();
      var start, i := 0, 0;
      NothingEscaped(slot, s, leadBracket);
      while i < |s|
        invariant 0 <= start <= i <= |s| && Valid() && (p == old(p) || fresh(p))
        invariant Escape(slot, s[..i], leadBracket) == Escape(slot, s[..start], leadBracket) + s[start..i]
        invariant !oom ==> Contents() == was + Escape(slot, s[..start], leadBracket)
      {
        EscapeNext(slot, s, i, leadBracket);
        var c := s[i];
        if Reserved(slot, c) || (i == 0 && leadBracket && c == LSQ) {
          Write(s[start..i]);
          Put(BS);
          Put(c);
          Chain(was, Escape(slot, s[..start], leadBracket), s[start..i], BS, c);
          start := i + 1;
        } else {
          RunGrows(Escape(slot, s[..start], leadBracket), s, start, i);
        }
        i := i + 1;
      }
      Write(s[start..i]);
      assert s[..i] == s;
      Assoc(was, Escape(slot, s[..start], leadBracket), s[start..i]);
    }

    /** The terminated form of a run, again by runs. */
    method WriteTerminated(s: Bytes)
      requires Valid()
      modifies this`p, this`len, p
      ensures Valid() && (p == old(p) || fresh(p))
      ensures !oom ==> Contents() == old(Contents()) + (EscapeNul(s) + [NUL])
    {
      hide EscapeNul;
      ghost var was := Contents();
      var start, i := 0, 0;
      NothingTerminated(s);
      while i < |s|
        invariant 0 <= start <= i <= |s| && Valid() && (p == old(p) || fresh(p))
        invariant EscapeNul(s[..i]) == EscapeNul(s[..start]) + s[start..i]
        invariant !oom ==> Contents() == was + EscapeNul(s[..start])
      {
        EscapeNulNext(s, i);
        if s[i] == NUL || s[i] == BS {
          Write(s[start..i]);
          Put(BS);
          Put(if s[i] == NUL then ZERO else BS);
          Chain(was, EscapeNul(s[..start]), s[start..i], BS, if s[i] == NUL then ZERO else BS);
          start := i + 1;
        } else {
          RunGrows(EscapeNul(s[..start]), s, start, i);
        }
        i := i + 1;
      }
      Write(s[start..i]);
      Put(NUL);
      assert s[..i] == s;
      Assoc(was, EscapeNul(s[..start]), s[start..i]);
      Assoc(was, EscapeNul(s), [NUL]);
    }

    method VarintPut(value: nat)
      requires Valid()
      modifies this`p, this`len, p
      ensures Valid() && (p == old(p) || fresh(p))
      ensures !oom ==> Contents() == old(Contents()) + Leb(value)
    {
      hide Leb;
      ghost var was := Contents();
      var n := value;
      assert [] + Leb(n) == Leb(value);
      ghost var done: Bytes := [];
      while true
        invariant Valid() && (p == old(p) || fresh(p)) && done + Leb(n) == Leb(value)
        invariant !oom ==> Contents() == was + done
        decreases n
      {
        LebStep(n);
        var c: byte := n % 128;
        n := n / 128;
        Put(if n != 0 then c + 128 else c);
        if n == 0 {
          Assoc(was, done, [c]);
          return;
        }
        Appended(done, c + 128, Leb(n));
        Assoc(was, done, [c + 128]);
        done := done + [c + 128];
      }
    }

    method WriteBinary(s: Bytes, form: Form)
      requires Valid() && !form.Inline?
      modifies this`p, this`len, p
      ensures Valid() && (p == old(p) || fresh(p))
      ensures !oom ==> Contents() == old(Contents()) + Emitted(s, form, false)
    {
      hide EscapeNul;
      ghost var was := Contents();
      if form.Counted? {
        WriteCommand(UPPER_B);
        VarintPut(|s|);
        Write(s);
        Assoc(was, [BS, UPPER_B], Leb(|s|));
        Assoc(was, [BS, UPPER_B] + Leb(|s|), s);
      } else {
        WriteCommand(LOWER_B);
        WriteTerminated(s);
        Assoc(was, [BS, LOWER_B], EscapeNul(s) + [NUL]);
        Assoc([BS, LOWER_B], EscapeNul(s), [NUL]);
      }
    }

    method WriteCommand(letter: byte)
      requires Valid()
      modifies this`p, this`len, p
      ensures Valid() && (p == old(p) || fresh(p))
      ensures !oom ==> Contents() == old(Contents()) + [BS, letter]
    {
      Put(BS);
      Put(letter);
    }

    /** A text child in its shortest form. */
    method WriteText(s: Bytes, atStart: bool)
      requires Valid()
      modifies this`p, this`len, p
      ensures Valid() && (p == old(p) || fresh(p))
      ensures !oom ==> Contents() == old(Contents()) + Payload(s, atStart)
    {
      hide BestForm, Escape, EscapeNul;
      var f := ChooseForm(s, atStart);
      if f.Inline? {
        WriteEscaped(Content, s, atStart);
      } else {
        WriteBinary(s, f);
      }
    }

    method WriteAttrs(attrs: seq<Attr>)
      requires Valid()
      modifies this`p, this`len, p
      ensures Valid() && (p == old(p) || fresh(p))
      ensures !oom ==> Contents() == old(Contents()) + AttrList(attrs)
    {
      hide AttrList, Pairs;
      ghost var was := Contents();
      AttrsWritten(was, attrs);
      if attrs == [] {
        return;
      }
      Put(COM);
      Put(LSQ);
      WritePairs(attrs);
      Put(RSQ);
    }

    method WritePair(a: Attr)
      requires Valid()
      modifies this`p, this`len, p
      ensures Valid() && (p == old(p) || fresh(p))
      ensures !oom ==> Contents() == old(Contents()) + Pair(a)
    {
      hide Escape, Pair;
      ghost var was := Contents();
      WriteEscaped(Key, a.key, false);
      Put(COL);
      WriteEscaped(Value, a.value, false);
      PairWritten(was, a);
    }

    method WritePairs(attrs: seq<Attr>)
      requires Valid()
      modifies this`p, this`len, p
      ensures Valid() && (p == old(p) || fresh(p))
      ensures !oom ==> Contents() == old(Contents()) + Pairs(attrs)
    {
      hide Pair, Pairs;
      ghost var was := Contents();
      var i := 0;
      NothingPaired(attrs, was);
      while i < |attrs|
        invariant 0 <= i <= |attrs| && Valid() && (p == old(p) || fresh(p))
        invariant !oom ==> Contents() == was + Pairs(attrs[..i])
      {
        PairsNext(attrs, i);
        if i != 0 {
          Put(COM);
        }
        WritePair(attrs[i]);
        PairsGrow(was, attrs, i);
        i := i + 1;
      }
      assert attrs[..i] == attrs;
    }

    method WriteOpening(tag: Bytes, attrs: seq<Attr>)
      requires Valid()
      modifies this`p, this`len, p
      ensures Valid() && (p == old(p) || fresh(p))
      ensures !oom ==> Contents() == old(Contents()) + Opening(tag, attrs)
    {
      hide Escape, AttrList, Opening;
      ghost var was := Contents();
      Put(LBR);
      WriteEscaped(Tag, tag, false);
      WriteAttrs(attrs);
      Put(COM);
      OpeningWritten(was, tag, attrs);
    }

    /** A text on its own, with its tag spelled out. */
    method EncodeText(s: Bytes)
      requires Valid()
      modifies this`p, this`len, p
      ensures Valid() && (p == old(p) || fresh(p))
      ensures !oom ==> Contents() == old(Contents()) + Written(Text(s))
    {
      hide Payload, Written;
      ghost var was := Contents();
      Put(LBR);
      Write(IMPLICIT_TAG);
      Put(COM);
      WriteText(s, true);
      Put(RBR);
      TextWritten(was, s);
    }

    /** Writes one node. Nesting past the limit sets the failure flag, and nothing else does. */
    method EncodeNode(n: Node, depth: nat)
      requires Valid()
      modifies this, p
      ensures Valid() && (p == old(p) || fresh(p))
      ensures oom == (old(oom) || depth + Height(n) > 256)
      ensures !oom ==> Contents() == old(Contents()) + Written(n)
      decreases n
    {
      hide Payload, KidsWritten, Written, KidsHeight, Opening;
      if depth > MAX_DEPTH {
        oom := true;
        return;
      }
      ghost var was := Contents();
      if n.Text? {
        EncodeText(n.text);
        return;
      }
      WriteOpening(n.tag, n.attrs);
      ghost var head := Contents();
      var i := 0;
      NoneWritten(n.children, n.attrs == [], head);
      while i < |n.children|
        invariant 0 <= i <= |n.children| && Valid() && (p == old(p) || fresh(p))
        invariant oom == (old(oom) || depth + KidsHeight(n.children[..i]) > MAX_DEPTH)
        invariant !oom ==> Contents() == head + KidsWritten(n.children[..i], n.attrs == [])
      {
        var c := n.children[i];
        HeightNext(n.children, i);
        KidsNext(n.children, i, n.attrs == []);
        Assoc(head, KidsWritten(n.children[..i], n.attrs == []), KidWritten(c, n.attrs == [] && i == 0));
        if c.Element? {
          EncodeNode(c, depth + 1);
        } else {
          WriteText(c.text, i == 0 && n.attrs == []);
        }
        i := i + 1;
      }
      assert n.children[..i] == n.children;
      Put(RBR);
      ElementWritten(was, n);
    }
  }

  method VarintLen(value: nat) returns (k: nat)
    ensures k == |Leb(value)|
  {
    var n := value;
    k := 1;
    while n >= 128
      invariant k + |Leb(n)| == 1 + |Leb(value)|
    {
      n := n / 128;
      k := k + 1;
    }
  }

  /** One loop counts for both escaped forms. */
  method ChooseForm(s: Bytes, leadBracket: bool) returns (f: Form)
    ensures f == BestForm(s, leadBracket)
  {
    hide Escape, EscapeNul, Reserved;
    var n := |s|;
    var inl, term := n, n + 3;
    var digits := VarintLen(n);
    var cnt := 2 + digits + n;
    var i := 0;
    NothingEscaped(Content, s, false);
    NothingTerminated(s);
    while i < n
      invariant 0 <= i <= n && inl + i == n + |Escape(Content, s[..i], false)| && term + i == n + 3 + |EscapeNul(s[..i])|
    {
      EscapeNext(Content, s, i, false);
      EscapeNulNext(s, i);
      ReservedContent(s[i]);
      if s[i] == LBR || s[i] == RBR || s[i] == BS {
        inl := inl + 1;
      }
      if s[i] == NUL || s[i] == BS {
        term := term + 1;
      }
      i := i + 1;
    }
    assert s[..i] == s;
    LeadLength(s);
    if leadBracket && n != 0 && s[0] == LSQ {
      inl := inl + 1;
    }
    if cnt <= term && cnt <= inl {
      return Counted;
    }
    f := if term <= inl then Terminated else Inline;
  }

  /** The whole call. */
  method TsmlEncode(node: Node) returns (ok: bool, out: Bytes)
    ensures ok <==> Height(node) <= 256
    ensures ok ==> out == Written(node)
    ensures ok && IsNormal(node) ==> out == Encoding(node)
  {
    hide Written, Height, IsNormal;
    var b := new Buf();
    b.EncodeNode(node, 0);
    ok, out := !b.oom, b.p[..b.len];
    assert ok ==> out == [] + Written(node);
    if IsNormal(node) {
      NormalSame(node);
    }
  }

  lemma ReservedContent(c: byte)
    ensures Reserved(Content, c) <==> c == LBR || c == RBR || c == BS
  {
  }

  lemma LeadLength(s: Bytes)
    ensures |Escape(Content, s, true)| == |Escape(Content, s, false)| + (if s != [] && s[0] == LSQ then 1 else 0)
  {
  }

  lemma NothingEscaped(slot: Slot, s: Bytes, lead: bool)
    ensures Escape(slot, s[..0], lead) == []
  {
  }

  lemma NothingTerminated(s: Bytes)
    ensures EscapeNul(s[..0]) == []
  {
  }

  lemma {:induction false} EscapeAppend(slot: Slot, s: Bytes, c: byte, lead: bool)
    ensures Escape(slot, s + [c], lead) == Escape(slot, s, lead) +
              (if Reserved(slot, c) || (s == [] && lead && c == LSQ) then [BS, c] else [c])
  {
    hide Reserved;
    if s == [] {
      assert (s + [c])[1..] == [];
    } else {
      assert (s + [c])[1..] == s[1..] + [c];
      EscapeAppend(slot, s[1..], c, false);
    }
  }

  lemma EscapeNext(slot: Slot, s: Bytes, i: nat, lead: bool)
    requires i < |s|
    ensures Escape(slot, s[..i + 1], lead) == Escape(slot, s[..i], lead) +
              (if Reserved(slot, s[i]) || (i == 0 && lead && s[i] == LSQ) then [BS, s[i]] else [s[i]])
  {
    assert s[..i + 1] == s[..i] + [s[i]];
    EscapeAppend(slot, s[..i], s[i], lead);
  }

  lemma {:induction false} EscapeNulAppend(s: Bytes, c: byte)
    ensures EscapeNul(s + [c]) == EscapeNul(s) + (if c == NUL then [BS, ZERO] else if c == BS then [BS, BS] else [c])
  {
    if s == [] {
      assert (s + [c])[1..] == [];
    } else {
      assert (s + [c])[1..] == s[1..] + [c];
      EscapeNulAppend(s[1..], c);
    }
  }

  lemma EscapeNulNext(s: Bytes, i: nat)
    requires i < |s|
    ensures EscapeNul(s[..i + 1]) == EscapeNul(s[..i]) + (if s[i] == NUL then [BS, ZERO] else if s[i] == BS then [BS, BS] else [s[i]])
  {
    assert s[..i + 1] == s[..i] + [s[i]];
    EscapeNulAppend(s[..i], s[i]);
  }

  lemma Chain(was: Bytes, e: Bytes, run: Bytes, a: byte, c: byte)
    ensures ((was + e + run) + [a]) + [c] == was + ((e + run) + [a, c])
  {
  }

  lemma RunGrows(e: Bytes, s: Bytes, start: nat, i: nat)
    requires start <= i < |s|
    ensures (e + s[start..i]) + [s[i]] == e + s[start..i + 1]
  {
  }

  lemma NothingPaired(attrs: seq<Attr>, was: Bytes)
    ensures was + Pairs(attrs[..0]) == was
  {
  }

  lemma PairWritten(was: Bytes, a: Attr)
    ensures was + Escape(Key, a.key, false) + [COL] + Escape(Value, a.value, false) == was + Pair(a)
  {
    hide Escape;
    var key, value := Escape(Key, a.key, false), Escape(Value, a.value, false);
    Assoc(was + key, [COL], value);
    Assoc(was, key, [COL] + value);
  }

  lemma PairsGrow(was: Bytes, attrs: seq<Attr>, i: nat)
    requires i < |attrs|
    ensures i == 0 ==> was + Pairs(attrs[..i]) + Pair(attrs[i]) == was + Pairs(attrs[..i + 1])
    ensures i != 0 ==> was + Pairs(attrs[..i]) + [COM] + Pair(attrs[i]) == was + Pairs(attrs[..i + 1])
  {
    hide Pair;
    PairsNext(attrs, i);
    if i == 0 {
      assert attrs[..0] == [] && Pairs(attrs[..0]) == [];
      assert was + [] == was;
    } else {
      Assoc(was + Pairs(attrs[..i]), [COM], Pair(attrs[i]));
      Assoc(was, Pairs(attrs[..i]), [COM] + Pair(attrs[i]));
    }
  }

  lemma AttrsWritten(was: Bytes, attrs: seq<Attr>)
    ensures attrs == [] ==> was + AttrList(attrs) == was
    ensures attrs != [] ==> was + [COM] + [LSQ] + Pairs(attrs) + [RSQ] == was + AttrList(attrs)
  {
    hide Pairs;
    if attrs != [] {
      var pairs := Pairs(attrs);
      assert [COM, LSQ] + (pairs + [RSQ]) == [COM] + ([LSQ] + (pairs + [RSQ]));
      Assoc(was + [COM] + [LSQ], pairs, [RSQ]);
      Assoc(was + [COM], [LSQ], pairs + [RSQ]);
      Assoc(was, [COM], [LSQ] + (pairs + [RSQ]));
    }
  }

  lemma TextWritten(was: Bytes, s: Bytes)
    ensures was + [LBR] + IMPLICIT_TAG + [COM] + Payload(s, true) + [RBR] == was + Written(Text(s))
  {
    hide Payload;
    var pay := Payload(s, true);
    Assoc(was + [LBR] + IMPLICIT_TAG + [COM], pay, [RBR]);
    Assoc(was + [LBR] + IMPLICIT_TAG, [COM], pay + [RBR]);
    Assoc(was + [LBR], IMPLICIT_TAG, [COM] + (pay + [RBR]));
    Assoc(was, [LBR], IMPLICIT_TAG + ([COM] + (pay + [RBR])));
  }

  lemma OpeningWritten(was: Bytes, tag: Bytes, attrs: seq<Attr>)
    ensures was + [LBR] + Escape(Tag, tag, false) + AttrList(attrs) + [COM] == was + Opening(tag, attrs)
  {
    hide Escape, AttrList;
    Assoc(was, [LBR], Escape(Tag, tag, false));
    Assoc(was, [LBR] + Escape(Tag, tag, false), AttrList(attrs));
    Assoc(was, [LBR] + Escape(Tag, tag, false) + AttrList(attrs), [COM]);
  }

  lemma NoneWritten(kids: seq<Node>, start: bool, head: Bytes)
    ensures head + KidsWritten(kids[..0], start) == head && KidsHeight(kids[..0]) == 0
  {
  }

  lemma ElementWritten(was: Bytes, t: Node)
    requires t.Element?
    ensures was + Opening(t.tag, t.attrs) + KidsWritten(t.children, t.attrs == []) + [RBR] == was + Written(t)
  {
    hide Opening, KidsWritten, Written;
    ElementPieces(t);
    Assoc(was, Opening(t.tag, t.attrs), KidsWritten(t.children, t.attrs == []));
    Assoc(was, Opening(t.tag, t.attrs) + KidsWritten(t.children, t.attrs == []), [RBR]);
  }
}
