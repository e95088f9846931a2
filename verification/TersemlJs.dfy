/** The JavaScript encoder: byte by byte. */
module TersemlJs {
  import opened Leb128
  import opened TersemlTree
  import opened TersemlWrite
  import opened TersemlRead
  import opened TersemlAppend
  import TersemlC
  import TersemlPython

  method EscapeBytes(raw: Bytes, slot: Slot, escapeLeading: bool) returns (out: Bytes)
    ensures out == Escape(slot, raw, escapeLeading)
  {
    hide Escape, Reserved;
    out := [];
    TersemlC.NothingEscaped(slot, raw, escapeLeading);
    var i := 0;
    while i < |raw|
      invariant 0 <= i <= |raw| && out == Escape(slot, raw[..i], escapeLeading)
    {
      TersemlC.EscapeNext(slot, raw, i, escapeLeading);
      var b := raw[i];
      var lead := i == 0 && escapeLeading && b == LSQ;
      if Reserved(slot, b) || lead {
        out := out + [BS];
      }
      out := out + [b];
      i := i + 1;
    }
    assert raw[..i] == raw;
  }

  method SizeInline(b: Bytes) returns (n: nat)
    ensures n == |Escape(Content, b, false)|
  {
    hide Escape, Reserved;
    n := |b|;
    TersemlC.NothingEscaped(Content, b, false);
    var i := 0;
    while i < |b|
      invariant 0 <= i <= |b| && n + i == |b| + |Escape(Content, b[..i], false)|
    {
      TersemlC.EscapeNext(Content, b, i, false);
      TersemlC.ReservedContent(b[i]);
      if b[i] == LBR || b[i] == RBR || b[i] == BS {
        n := n + 1;
      }
      i := i + 1;
    }
    assert b[..i] == b;
  }

  method SizeTerminated(b: Bytes) returns (n: nat)
    ensures n == |Emitted(b, Terminated, false)|
  {
    hide EscapeNul;
    n := 2 + |b| + 1;
    TersemlC.NothingTerminated(b);
    var i := 0;
    while i < |b|
      invariant 0 <= i <= |b| && n + i == |b| + 3 + |EscapeNul(b[..i])|
    {
      TersemlC.EscapeNulNext(b, i);
      if b[i] == NUL || b[i] == BS {
        n := n + 1;
      }
      i := i + 1;
    }
    assert b[..i] == b;
  }

  method ChooseForm(payload: Bytes, leadingBracket: bool) returns (f: Form)
    ensures f == BestForm(payload, leadingBracket)
  {
    hide Escape, EscapeNul;
    var c := 2 + |Leb(|payload|)| + |payload|;
    var t := SizeTerminated(payload);
    var i := SizeInline(payload);
    TersemlC.LeadLength(payload);
    if leadingBracket && payload != [] && payload[0] == LSQ {
      i := i + 1;
    }
    var best := if c <= t && c <= i then c else if t <= i then t else i;
    f := if c == best then Counted else if t == best then Terminated else Inline;
  }

  method EncodeBinary(payload: Bytes, form: Form) returns (out: Bytes)
    requires !form.Inline?
    ensures out == Emitted(payload, form, false)
  {
    hide EscapeNul;
    if form.Counted? {
      return [BS, UPPER_B] + Leb(|payload|) + payload;
    }
    var body: Bytes := [];
    TersemlC.NothingTerminated(payload);
    var i := 0;
    while i < |payload|
      invariant 0 <= i <= |payload| && body == EscapeNul(payload[..i])
    {
      TersemlC.EscapeNulNext(payload, i);
      if payload[i] == BS {
        body := body + [BS, BS];
      } else if payload[i] == NUL {
        body := body + [BS, ZERO];
      } else {
        body := body + [payload[i]];
      }
      i := i + 1;
    }
    assert payload[..i] == payload;
    out := [BS, LOWER_B] + body + [NUL];
  }

  method EncodeText(payload: Bytes, atStart: bool) returns (out: Bytes)
    ensures out == Payload(payload, atStart)
  {
    hide BestForm, Escape, EscapeNul;
    var form := ChooseForm(payload, atStart);
    if form.Inline? {
      out := EscapeBytes(payload, Content, atStart);
    } else {
      out := EncodeBinary(payload, form);
    }
  }

  method EncodeOpening(tag: Bytes, attrs: seq<Attr>) returns (out: Bytes)
    ensures out == Opening(tag, attrs)
  {
    hide Escape, Pairs, Pair;
    var escaped := EscapeBytes(tag, Tag, false);
    out := [LBR] + escaped;
    if attrs != [] {
      var pairs := EncodePairs(attrs);
      out := out + ([COM, LSQ] + (pairs + [RSQ]));
    }
    assert [LBR] + escaped + [] == [LBR] + escaped;
    out := out + [COM];
  }

  method EncodePairs(attrs: seq<Attr>) returns (parts: Bytes)
    ensures parts == Pairs(attrs)
  {
    hide Escape, Pairs;
    parts := [];
    TersemlPython.NoPairs();
    assert attrs[..0] == [];
    var i := 0;
    while i < |attrs|
      invariant 0 <= i <= |attrs| && parts == Pairs(attrs[..i])
    {
      PairsNext(attrs, i);
      var key := EscapeBytes(attrs[i].key, Key, false);
      var value := EscapeBytes(attrs[i].value, Value, false);
      var pair := key + ([COL] + value);
      parts := if i == 0 then pair else parts + ([COM] + pair);
      i := i + 1;
    }
    assert attrs[..i] == attrs;
  }

  /** The bytes of the Python encoder and, on merged trees, of the C encoder. Merging is the same
      left-to-right loop as in Python. */
  method Encode(node: Node, depth: nat) returns (r: Outcome<Bytes>)
    ensures r == if depth + Height(node) <= 256 then Done(Encoding(node)) else Failed(TooDeep)
    ensures r.Done? && IsNormal(node) ==> r.value == Written(node)
    decreases Height(node), if node.Text? then 1 else 0
  {
    hide Encoding, KidsHeight, Merge, KidsWritten, Opening, Payload, NormalAll, Normal, Written, IsNormal;
    EncodingIfNormal(node);
    if depth > MAX_DEPTH {
      return Failed(TooDeep);
    }
    if node.Text? {
      TextEncoding(node.text);
      r := Encode(Element(IMPLICIT_TAG, [], [node]), depth);
      return;
    }
    var parts := EncodeOpening(node.tag, node.attrs);
    var children := TersemlPython.MergeText(node.children);
    HeightMerge(node.children);
    ghost var head := parts;
    ghost var kids := NormalAll(children);
    var i := 0;
    TersemlPython.NoKidsWritten(kids, children, node.attrs == []);
    while i < |children|
      invariant 0 <= i <= |children| && parts == head + KidsWritten(kids[..i], node.attrs == [])
      invariant depth + KidsHeight(children[..i]) <= MAX_DEPTH
    {
      HeightNext(children, i);
      var child := children[i];
      var part;
      if child.Element? {
        KidBelow(children, i);
        part :- Encode(child, depth + 1);
      } else {
        part := EncodeText(child.text, i == 0 && node.attrs == []);
      }
      TersemlPython.NextKid(children, i, node.attrs == [], part);
      Assoc(head, KidsWritten(kids[..i], node.attrs == []), part);
      parts := parts + part;
      i := i + 1;
    }
    assert kids[..i] == kids && children[..i] == children;
    TersemlPython.EncodedElement(node, children);
    r := Done(parts + [RBR]);
  }

  lemma EncodingIfNormal(t: Node)
    ensures IsNormal(t) ==> Encoding(t) == Written(t)
  {
    hide Written;
    if IsNormal(t) {
      NormalSame(t);
    }
  }
}
