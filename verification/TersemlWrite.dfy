/** What a terseml tree is written as. */
module TersemlWrite {
  import opened Bits
  import opened Leb128
  import opened TersemlTree

  const BS: byte := 0x5C
  const LBR: byte := 0x7B
  const RBR: byte := 0x7D
  const LSQ: byte := 0x5B
  const RSQ: byte := 0x5D
  const COM: byte := 0x2C
  const COL: byte := 0x3A
  const NUL: byte := 0x00
  const ZERO: byte := 0x30
  const UPPER_B: byte := 0x42
  const LOWER_B: byte := 0x62

  /** The places a byte string can stand in; each has its own reserved bytes. */
  datatype Slot = Tag | Key | Value | Content

  predicate Stops(slot: Slot, c: byte) {
    match slot
    case Tag => c == COM || c == LBR || c == RBR
    case Key => c == COL || c == COM || c == RSQ
    case Value => c == COM || c == RSQ
    case Content => c == LBR || c == RBR
  }

  predicate Reserved(slot: Slot, c: byte) {
    c == BS || Stops(slot, c)
  }

  /** A backslash before every reserved byte, and before a bracket that leads the content. */
  function Escape(slot: Slot, s: Bytes, lead: bool): (r: Bytes)
    ensures |r| >= |s|
  {
    if s == [] then [] else
      (if Reserved(slot, s[0]) || (lead && s[0] == LSQ) then [BS, s[0]] else [s[0]]) + Escape(slot, s[1..], false)
  }

  /** Inside a NUL-terminated run. */
  function EscapeNul(s: Bytes): (r: Bytes)
    ensures |r| >= |s|
  {
    if s == [] then [] else
      (if s[0] == NUL then [BS, ZERO] else if s[0] == BS then [BS, BS] else [s[0]]) + EscapeNul(s[1..])
  }

  datatype Form = Counted | Terminated | Inline

  /** A text child in each of the three forms. */
  function Emitted(s: Bytes, form: Form, start: bool): (r: Bytes)
    ensures form.Inline? ==> |r| >= |s|
    ensures !form.Inline? ==> |r| > |s|
  {
    match form
    case Counted => [BS, UPPER_B] + Leb(|s|) + s
    case Terminated => [BS, LOWER_B] + EscapeNul(s) + [NUL]
    case Inline => Escape(Content, s, start)
  }

  /** The shortest form; ties go to the counted one, then to the terminated one. */
  function BestForm(s: Bytes, start: bool): (form: Form)
    ensures forall f :: |Emitted(s, form, start)| <= |Emitted(s, f, start)|
    ensures |Emitted(s, form, start)| == |Emitted(s, Counted, start)| ==> form == Counted
    ensures |Emitted(s, form, start)| == |Emitted(s, Terminated, start)| ==> form == Counted || form == Terminated
  {
    var c, t, i := |Emitted(s, Counted, start)|, |Emitted(s, Terminated, start)|, |Emitted(s, Inline, start)|;
    if c <= t && c <= i then Counted else if t <= i then Terminated else Inline
  }

  function Payload(s: Bytes, start: bool): (r: Bytes)
    ensures |r| >= |s|
  {
    Emitted(s, BestForm(s, start), start)
  }

  function Pair(a: Attr): Bytes {
    Escape(Key, a.key, false) + ([COL] + Escape(Value, a.value, false))
  }

  function Pairs(attrs: seq<Attr>): Bytes {
    if attrs == [] then [] else
      Pair(attrs[0]) + (if |attrs| == 1 then [] else [COM] + Pairs(attrs[1..]))
  }

  /** Nothing without attributes. */
  function AttrList(attrs: seq<Attr>): Bytes {
    if attrs == [] then [] else [COM, LSQ] + (Pairs(attrs) + [RSQ])
  }

  /** One node, texts taken as they are. */
  function Written(t: Node): (r: Bytes)
    ensures r != [] && r[0] == LBR
    decreases t, 0
  {
    match t
    case Text(s) => [LBR] + (IMPLICIT_TAG + ([COM] + (Payload(s, true) + [RBR])))
    case Element(tag, attrs, kids) =>
      [LBR] + (Escape(Tag, tag, false) + (AttrList(attrs) + ([COM] + (KidsWritten(kids, attrs == []) + [RBR]))))
  }

  /** The children; start says that nothing stands before the first one. */
  function KidsWritten(kids: seq<Node>, start: bool): Bytes
    decreases kids, 2
  {
    if kids == [] then [] else KidWritten(kids[0], start) + KidsWritten(kids[1..], false)
  }

  function KidWritten(kid: Node, start: bool): Bytes
    decreases kid, 1
  {
    match kid
    case Text(s) => Payload(s, start)
    case Element(_, _, _) => Written(kid)
  }

  /** The canonical bytes of a tree. */
  function Encoding(t: Node): Bytes {
    Written(Normal(t))
  }

  /** A byte string of a length that a machine can address. */
  predicate Addressable(s: Bytes) {
    |s| < 0x1_0000_0000_0000_0000
  }
}
