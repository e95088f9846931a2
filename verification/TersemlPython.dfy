/** The Python implementation: bulk replacement on the way out, one regular-expression scan on the
    way in. */
module TersemlPython {
  import opened Bits
  import opened Leb128
  import opened Results
  import opened TersemlTree
  import opened TersemlWrite
  import opened TersemlRead
  import opened TersemlAppend

  /** raw.replace(needle, repl). */
  function Replace(raw: Bytes, needle: byte, repl: Bytes): Bytes {
    if raw == [] then [] else (if raw[0] == needle then repl else [raw[0]]) + Replace(raw[1..], needle, repl)
  }

  /** What is replaced for a slot, in this order: the backslash has to go first. */
  function Chain(slot: Slot): (needles: seq<byte>)
    ensures needles != [] && needles[0] == BS && forall c :: c in needles <==> Reserved(slot, c)
    ensures forall i, j :: 0 <= i < j < |needles| ==> needles[i] != needles[j]
  {
    match slot
    case Tag => [BS, COM, LBR, RBR]
    case Key => [BS, COL, COM, RSQ]
    case Value => [BS, COM, RSQ]
    case Content => [BS, LBR, RBR]
  }

  /** A backslash before each of these bytes. */
  ghost function EscapeThese(raw: Bytes, these: seq<byte>): Bytes {
    if raw == [] then [] else (if raw[0] in these then [BS, raw[0]] else [raw[0]]) + EscapeThese(raw[1..], these)
  }

  lemma {:induction false} ReplaceConcat(a: Bytes, b: Bytes, needle: byte, repl: Bytes)
    ensures Replace(a + b, needle, repl) == Replace(a, needle, repl) + Replace(b, needle, repl)
  {
    if a == [] {
      assert a + b == b;
    } else {
      assert (a + b)[1..] == a[1..] + b;
      ReplaceConcat(a[1..], b, needle, repl);
    }
  }

  lemma {:induction false} ReplaceNothing(raw: Bytes, needle: byte, repl: Bytes)
    requires needle !in raw
    ensures Replace(raw, needle, repl) == raw
  {
    if raw != [] {
      ReplaceNothing(raw[1..], needle, repl);
      assert raw == [raw[0]] + raw[1..];
    }
  }

  lemma ReplaceOne(x: Bytes, needle: byte, repl: Bytes)
    ensures |x| == 1 ==> Replace(x, needle, repl) == if x[0] == needle then repl else x
    ensures |x| == 2 && x[0] != needle && x[1] != needle ==> Replace(x, needle, repl) == x
  {
    if |x| == 1 {
      assert x[1..] == [];
      assert x == [x[0]] + [];
      assert repl + [] == repl;
    } else if |x| == 2 {
      assert x[1..] == [x[1]] && x[1..][1..] == [];
      assert Replace(x[1..], needle, repl) == if x[1] == needle then repl + [] else [x[1]] + [];
    }
  }

  /** One more replacement escapes one more byte: it leaves what the earlier ones put there alone. */
  lemma {:induction false} ReplaceStep(raw: Bytes, these: seq<byte>, c: byte)
    requires c !in these && (c != BS || these == [])
    ensures Replace(EscapeThese(raw, these), c, [BS, c]) == EscapeThese(raw, these + [c])
  {
    if raw != [] {
      var first := if raw[0] in these then [BS, raw[0]] else [raw[0]];
      ReplaceConcat(first, EscapeThese(raw[1..], these), c, [BS, c]);
      ReplaceStep(raw[1..], these, c);
      ReplaceOne(first, c, [BS, c]);
    }
  }

  lemma {:induction false} EscapeNone(raw: Bytes)
    ensures EscapeThese(raw, []) == raw
  {
    if raw != [] {
      EscapeNone(raw[1..]);
      assert raw == [raw[0]] + raw[1..];
    }
  }

  lemma {:induction false} EscapeAll(raw: Bytes, slot: Slot, these: seq<byte>)
    requires forall c :: c in these <==> Reserved(slot, c)
    ensures EscapeThese(raw, these) == TersemlWrite.Escape(slot, raw, false)
  {
    if raw != [] {
      EscapeAll(raw[1..], slot, these);
    }
  }

  lemma NextNeedle(raw: Bytes, slot: Slot, k: nat)
    requires k < |Chain(slot)|
    ensures Replace(EscapeThese(raw, Chain(slot)[..k]), Chain(slot)[k], [BS, Chain(slot)[k]]) == EscapeThese(raw, Chain(slot)[..k + 1])
  {
    var needles := Chain(slot);
    assert needles[..k + 1] == needles[..k] + [needles[k]];
    assert k > 0 ==> needles[k] != needles[0];
    ReplaceStep(raw, needles[..k], needles[k]);
  }

  lemma LeadingBracket(slot: Slot, raw: Bytes)
    ensures var e := TersemlWrite.Escape(slot, raw, false);
            TersemlWrite.Escape(slot, raw, true) == if e != [] && e[0] == LSQ then [BS] + e else e
  {
    if raw != [] && raw[0] == LSQ {
      var rest := TersemlWrite.Escape(slot, raw[1..], false);
      assert [BS, LSQ] + rest == [BS] + ([LSQ] + rest);
    }
  }

  /** Replaces the reserved bytes one after another; a leading bracket comes last. */
  method Escape(raw: Bytes, slot: Slot, escapeLeading: bool) returns (r: Bytes)
    ensures r == TersemlWrite.Escape(slot, raw, escapeLeading)
  {
    hide Chain, TersemlWrite.Escape, EscapeThese, Replace;
    var needles := Chain(slot);
    r := raw;
    EscapeNone(raw);
    assert needles[..0] == [];
    var k := 0;
    while k < |needles|
      invariant 0 <= k <= |needles| && r == EscapeThese(raw, needles[..k])
    {
      NextNeedle(raw, slot, k);
      if needles[k] in r {
        r := Replace(r, needles[k], [BS, needles[k]]);
      } else {
        ReplaceNothing(r, needles[k], [BS, needles[k]]);
      }
      k := k + 1;
    }
    assert needles[..k] == needles;
    EscapeAll(raw, slot, needles);
    LeadingBracket(slot, raw);
    if escapeLeading && r != [] && r[0] == LSQ {
      r := [BS] + r;
    }
  }

  /** sum(1 for x in b if x in these) */
  function Count(b: Bytes, these: set<byte>): (n: nat)
    ensures n <= |b|
  {
    if b == [] then 0 else (if b[0] in these then 1 else 0) + Count(b[1..], these)
  }

  function SizeInline(b: Bytes): nat {
    |b| + Count(b, {LBR, RBR, BS})
  }

  function SizeTerminated(b: Bytes): nat {
    2 + |b| + Count(b, {NUL, BS}) + 1
  }

  function SizeCounted(b: Bytes): nat {
    2 + |Leb(|b|)| + |b|
  }

  function ChooseForm(payload: Bytes, leadingBracket: bool): Form {
    var c := SizeCounted(payload);
    var t := SizeTerminated(payload);
    var i := SizeInline(payload) + (if leadingBracket && payload != [] && payload[0] == LSQ then 1 else 0);
    var best := if c <= t && c <= i then c else if t <= i then t else i;
    if c == best then Counted else if t == best then Terminated else Inline
  }

  lemma {:induction false} InlineSize(b: Bytes, lead: bool)
    ensures |TersemlWrite.Escape(Content, b, lead)| == SizeInline(b) + (if lead && b != [] && b[0] == LSQ then 1 else 0)
  {
    if b != [] {
      InlineSize(b[1..], false);
    }
  }

  lemma {:induction false} TerminatedSize(b: Bytes)
    ensures |EscapeNul(b)| + 3 == SizeTerminated(b)
  {
    if b != [] {
      TerminatedSize(b[1..]);
    }
  }

  /** The sizes are the true emitted lengths, so the form chosen is the shortest one. */
  lemma ChoosesBest(payload: Bytes, lead: bool)
    ensures ChooseForm(payload, lead) == BestForm(payload, lead)
  {
    InlineSize(payload, lead);
    TerminatedSize(payload);
  }

  function EncodeBinary(payload: Bytes, form: Form): Bytes
    requires !form.Inline?
  {
    if form.Counted? then [BS, UPPER_B] + Leb(|payload|) + payload
    else [BS, LOWER_B] + Replace(Replace(payload, BS, [BS, BS]), NUL, [BS, ZERO]) + [NUL]
  }

  /** Two bulk replacements escape a run. */
  lemma {:induction false} ReplacedTwice(b: Bytes)
    ensures Replace(Replace(b, BS, [BS, BS]), NUL, [BS, ZERO]) == EscapeNul(b)
  {
    if b != [] {
      var first := if b[0] == BS then [BS, BS] else [b[0]];
      ReplaceConcat(first, Replace(b[1..], BS, [BS, BS]), NUL, [BS, ZERO]);
      ReplacedTwice(b[1..]);
      ReplaceOne(first, NUL, [BS, ZERO]);
    }
  }

  /** [c for c in out if it is no empty text] */
  function WithoutEmpty(out: seq<Node>): seq<Node> {
    if out == [] then [] else (if out[0] == Text([]) then [] else [out[0]]) + WithoutEmpty(out[1..])
  }

  ghost predicate NoAdjacent(out: seq<Node>) {
    forall i :: 0 <= i < |out| - 1 && out[i].Text? ==> out[i + 1].Element?
  }

  lemma {:induction false} MergePrefix(p: seq<Node>, x: seq<Node>, y: seq<Node>)
    requires Merge(x) == Merge(y)
    ensures Merge(p + x) == Merge(p + y)
  {
    if p == [] {
      assert p + x == x && p + y == y;
    } else {
      assert (p + x)[1..] == p[1..] + x && (p + y)[1..] == p[1..] + y;
      MergePrefix(p[1..], x, y);
    }
  }

  lemma JoinTexts(a: Bytes, b: Bytes, rest: seq<Node>)
    ensures Merge([Text(a), Text(b)] + rest) == Merge([Text(a + b)] + rest)
  {
    var all := [Text(a), Text(b)] + rest;
    assert all[1..] == [Text(b)] + rest && all[1..][1..] == rest && ([Text(a + b)] + rest)[1..] == rest;
    var m := Merge(rest);
    assert Merge(all) == Prepend(Text(a), Prepend(Text(b), m));
    if m != [] && m[0].Text? {
      assert a + (b + m[0].text) == (a + b) + m[0].text;
    }
    assert a + [] == a && [] + b == b;
    if a != [] && b != [] {
      assert Prepend(Text(b), m)[0].Text?;
      assert Prepend(Text(b), m)[1..] == if m != [] && m[0].Text? then m[1..] else m;
    }
  }

  lemma {:induction false} NothingToMerge(out: seq<Node>)
    requires NoAdjacent(out)
    ensures Merge(out) == WithoutEmpty(out)
    ensures out != [] && out[0].Element? ==> Merge(out) != [] && Merge(out)[0].Element?
  {
    if out != [] {
      NothingToMerge(out[1..]);
      if out[0].Text? && out[1..] != [] {
        assert out[1..][0].Element?;
      }
    }
  }

  /** Appending a text to the text before it leaves what merges to the same. */
  lemma JoinInPlace(out: seq<Node>, c: Node, rest: seq<Node>)
    requires out != [] && out[|out| - 1].Text? && c.Text?
    ensures Merge(out[|out| - 1 := Text(out[|out| - 1].text + c.text)] + rest) == Merge(out + ([c] + rest))
  {
    hide Merge;
    var front, last := out[..|out| - 1], out[|out| - 1];
    var joined := Text(last.text + c.text);
    JoinTexts(last.text, c.text, rest);
    MergePrefix(front, [last, c] + rest, [joined] + rest);
    assert out == front + [last] && out[|out| - 1 := joined] == front + [joined];
    Regroup(front, last, c, rest);
    Regroup(front, joined, c, rest);
  }

  lemma Regroup(front: seq<Node>, last: Node, c: Node, rest: seq<Node>)
    ensures (front + [last]) + ([c] + rest) == front + ([last, c] + rest)
    ensures (front + [last]) + rest == front + ([last] + rest)
  {
  }

  /** Appends each text to the text before it, then drops the empty ones. */
  method MergeText(children: seq<Node>) returns (merged: seq<Node>)
    ensures merged == Merge(children)
  {
    hide Merge;
    var out: seq<Node> := [];
    var i := 0;
    assert out + children[0..] == children;
    while i < |children|
      invariant 0 <= i <= |children| && NoAdjacent(out) && Merge(out + children[i..]) == Merge(children)
    {
      var c, n := children[i], |out|;
      assert children[i..] == [c] + children[i + 1..];
      if c.Text? && n > 0 && out[n - 1].Text? {
        JoinInPlace(out, c, children[i + 1..]);
        out := out[n - 1 := Text(out[n - 1].text + c.text)];
      } else {
        assert out + children[i..] == (out + [c]) + children[i + 1..];
        out := out + [c];
      }
      i := i + 1;
    }
    assert out + children[i..] == out;
    NothingToMerge(out);
    merged := WithoutEmpty(out);
  }

  lemma BinaryEmitted(payload: Bytes, form: Form, start: bool)
    requires !form.Inline?
    ensures EncodeBinary(payload, form) == Emitted(payload, form, start)
  {
    hide Replace;
    ReplacedTwice(payload);
  }

  /** ",".join of the escaped pairs. */
  method JoinPairs(attrs: seq<Attr>) returns (r: Bytes)
    ensures r == Pairs(attrs)
  {
    hide Pairs, TersemlWrite.Escape;
    r := [];
    NoPairs();
    var i := 0;
    assert attrs[..0] == [];
    while i < |attrs|
      invariant 0 <= i <= |attrs| && r == Pairs(attrs[..i])
    {
      PairsNext(attrs, i);
      var key := Escape(attrs[i].key, Key, false);
      var value := Escape(attrs[i].value, Value, false);
      var pair := key + ([COL] + value);
      r := if i == 0 then pair else r + ([COM] + pair);
      i := i + 1;
    }
    assert attrs[..i] == attrs;
  }

  lemma NoPairs()
    ensures Pairs([]) == []
  {
  }

  method EncodeText(payload: Bytes, atStart: bool) returns (r: Bytes)
    ensures r == Payload(payload, atStart)
  {
    hide Emitted, BestForm, ChooseForm, EncodeBinary;
    var form := ChooseForm(payload, atStart);
    ChoosesBest(payload, atStart);
    if form.Inline? {
      r := Escape(payload, Content, atStart);
      InlineEmitted(payload, atStart);
    } else {
      r := EncodeBinary(payload, form);
      BinaryEmitted(payload, form, atStart);
    }
  }

  lemma InlineEmitted(payload: Bytes, start: bool)
    ensures Emitted(payload, Inline, start) == TersemlWrite.Escape(Content, payload, start)
  {
  }

  method EncodeOpening(tag: Bytes, attrs: seq<Attr>) returns (out: Bytes)
    ensures out == Opening(tag, attrs)
  {
    hide Pairs, TersemlWrite.Escape;
    var escaped := Escape(tag, Tag, false);
    out := [LBR] + escaped;
    if attrs != [] {
      var pairs := JoinPairs(attrs);
      out := out + ([COM, LSQ] + (pairs + [RSQ]));
    }
    out := out + [COM];
    assert [LBR] + escaped + [] == [LBR] + escaped;
  }

  /** Fails exactly when the tree nests too deep; otherwise writes its canonical bytes. */
  method Encode(node: Node, depth: nat) returns (r: Outcome<Bytes>)
    ensures r.Done? <==> depth + Height(node) <= 256
    ensures r == if r.Done? then Done(Encoding(node)) else Failed(TooDeep)
    decreases Height(node), if node.Text? then 1 else 0
  {
    hide Encoding, KidsHeight, Merge, KidsWritten, Opening, Payload, NormalAll, Normal;
    if depth > MAX_DEPTH {
      return Failed(TooDeep);
    }
    if node.Text? {
      TextEncoding(node.text);
      r := Encode(Element(IMPLICIT_TAG, [], [node]), depth);
      return;
    }
    var out := EncodeOpening(node.tag, node.attrs);
    var children := MergeText(node.children);
    HeightMerge(node.children);
    ghost var head := out;
    ghost var kids := NormalAll(children);
    var i := 0;
    NoKidsWritten(kids, children, node.attrs == []);
    while i < |children|
      invariant 0 <= i <= |children| && out == head + KidsWritten(kids[..i], node.attrs == [])
      invariant depth + KidsHeight(children[..i]) <= MAX_DEPTH
    {
      HeightNext(children, i);
      var child := children[i];
      var written;
      if child.Text? {
        written := EncodeText(child.text, i == 0 && node.attrs == []);
      } else {
        KidBelow(children, i);
        written :- Encode(child, depth + 1);
      }
      NextKid(children, i, node.attrs == [], written);
      Assoc(head, KidsWritten(kids[..i], node.attrs == []), written);
      out := out + written;
      i := i + 1;
    }
    assert kids[..i] == kids && children[..i] == children;
    EncodedElement(node, children);
    r := Done(out + [RBR]);
  }

  lemma NextKid(children: seq<Node>, i: nat, start: bool, written: Bytes)
    requires i < |children|
    requires written == if children[i].Text? then Payload(children[i].text, start && i == 0) else Encoding(children[i])
    ensures KidsWritten(NormalAll(children)[..i + 1], start) == KidsWritten(NormalAll(children)[..i], start) + written
  {
    hide KidsWritten, Written, Payload;
    NormalAllAt(children, i);
    KidsNext(NormalAll(children), i, start);
  }

  lemma NoKidsWritten(kids: seq<Node>, children: seq<Node>, start: bool)
    ensures KidsWritten(kids[..0], start) == [] && KidsHeight(children[..0]) == 0
  {
  }

  lemma EncodedElement(t: Node, merged: seq<Node>)
    requires t.Element? && merged == Merge(t.children)
    ensures Encoding(t) == Opening(t.tag, t.attrs) + KidsWritten(NormalAll(merged), t.attrs == []) + [RBR]
  {
    hide Written, KidsWritten, Merge, Opening;
    NormalMerge(t.children);
    ElementPieces(Normal(t));
  }
}
