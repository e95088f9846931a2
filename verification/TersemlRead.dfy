/** What a terseml document is read as, on every input. */
module TersemlRead {
  import opened Bits
  import opened TersemlTree
  import opened TersemlWrite

  datatype Reject = Malformed | TooDeep

  datatype Parsed<+T> = Parsed(value: T, end: nat) | Rejected(why: Reject)

  /** Where the implementations differ: a 64-bit count wraps around in C, and C drops empty runs. */
  datatype Dialect = Dialect(wraps: bool, dropsEmpty: bool)

  const PYTHON: Dialect := Dialect(false, false)
  const C: Dialect := Dialect(true, true)

  const MAX_GROUPS: nat := 10

  predicate ValidEscape(c: byte) {
    c == LBR || c == RBR || c == LSQ || c == RSQ || c == COM || c == COL || c == BS
  }

  /** Bytes up to the first unescaped one the slot stops on, which is not consumed. */
  function ReadEscaped(s: Bytes, i: nat, slot: Slot): (r: Parsed<Bytes>)
    ensures r.Parsed? ==> i <= r.end < |s| && Stops(slot, s[r.end])
    decreases |s| - i
  {
    if i >= |s| then Rejected(Malformed)
    else if s[i] == BS then
      if i + 1 >= |s| || !ValidEscape(s[i + 1]) then Rejected(Malformed)
      else Follow(s[i + 1], ReadEscaped(s, i + 2, slot))
    else if Stops(slot, s[i]) then Parsed([], i)
    else Follow(s[i], ReadEscaped(s, i + 1, slot))
  }

  function Follow(b: byte, r: Parsed<Bytes>): (r': Parsed<Bytes>)
    ensures r'.Parsed? <==> r.Parsed?
    ensures r'.Parsed? ==> r'.end == r.end && r'.value == [b] + r.value
  {
    if r.Parsed? then Parsed([b] + r.value, r.end) else r
  }

  /** The integer whose at most `groups` groups start at i. */
  function ReadCount(s: Bytes, i: nat, groups: nat): (r: Parsed<nat>)
    ensures r.Parsed? ==> i < r.end <= |s|
    decreases groups
  {
    if i >= |s| || groups == 0 then Rejected(Malformed)
    else if s[i] < 128 then Parsed(s[i], i + 1)
    else
      var rest := ReadCount(s, i + 1, groups - 1);
      if rest.Parsed? then Parsed(s[i] - 128 + 128 * rest.value, rest.end) else rest
  }

  /** A run up to its NUL. */
  function ReadTerminated(s: Bytes, i: nat): (r: Parsed<Bytes>)
    ensures r.Parsed? ==> i < r.end <= |s|
    decreases |s| - i
  {
    if i >= |s| then Rejected(Malformed)
    else if s[i] == NUL then Parsed([], i + 1)
    else if s[i] == BS then
      if i + 1 >= |s| then Rejected(Malformed)
      else if s[i + 1] == ZERO then Follow(NUL, ReadTerminated(s, i + 2))
      else if s[i + 1] == BS then Follow(BS, ReadTerminated(s, i + 2))
      else Rejected(Malformed)
    else Follow(s[i], ReadTerminated(s, i + 1))
  }

  /** A run of a stated length, which must not exceed what is left. */
  function ReadCounted(s: Bytes, i: nat, d: Dialect): (r: Parsed<Bytes>)
    ensures r.Parsed? ==> i < r.end <= |s|
  {
    var n := ReadCount(s, i, MAX_GROUPS);
    if n.Rejected? then Rejected(n.why)
    else
      var claim := if d.wraps then n.value % 0x1_0000_0000_0000_0000 else n.value;
      if claim > |s| - n.end then Rejected(Malformed)
      else Parsed(s[n.end..n.end + claim], n.end + claim)
  }

  /** Whether a backslash with a command letter stands at i. */
  predicate RunAt(s: Bytes, i: nat) {
    i + 1 < |s| && s[i] == BS && (s[i + 1] == LOWER_B || s[i + 1] == UPPER_B)
  }

  function ReadRun(s: Bytes, i: nat, d: Dialect): (r: Parsed<Bytes>)
    requires RunAt(s, i)
    ensures r.Parsed? ==> i < r.end <= |s|
  {
    if s[i + 1] == UPPER_B then ReadCounted(s, i + 2, d) else ReadTerminated(s, i + 2)
  }

  /** Attribute pairs up to and including the closing bracket. */
  function ReadPairs(s: Bytes, i: nat): (r: Parsed<seq<Attr>>)
    ensures r.Parsed? ==> i < r.end <= |s|
    decreases |s| - i
  {
    var key := ReadEscaped(s, i, Key);
    if key.Rejected? then Rejected(key.why)
    else if s[key.end] != COL then Rejected(Malformed)
    else
      var value := ReadEscaped(s, key.end + 1, Value);
      if value.Rejected? then Rejected(value.why)
      else
        var a := Attr(key.value, value.value);
        if s[value.end] == COM && !(value.end + 1 < |s| && s[value.end + 1] == RSQ) then
          var rest := ReadPairs(s, value.end + 1);
          if rest.Parsed? then Parsed([a] + rest.value, rest.end) else rest
        else
          Parsed([a], value.end + (if s[value.end] == COM then 2 else 1))
  }

  /** What stands between the brackets; i is behind the opening one. */
  function ReadAttrs(s: Bytes, i: nat): (r: Parsed<seq<Attr>>)
    ensures r.Parsed? ==> i < r.end <= |s|
  {
    if i >= |s| then Rejected(Malformed)
    else if s[i] == RSQ then Parsed([], i + 1)
    else ReadPairs(s, i)
  }

  /** Children up to and including the closing brace. */
  function ReadKids(s: Bytes, i: nat, depth: nat, d: Dialect): (r: Parsed<seq<Node>>)
    ensures r.Parsed? ==> i < r.end <= |s|
    decreases |s| - i, 2
  {
    if i >= |s| then Rejected(Malformed)
    else if s[i] == RBR then Parsed([], i + 1)
    else if s[i] == LBR then
      var el := ReadElement(s, i, depth + 1, d);
      if el.Rejected? then Rejected(el.why) else AddKid(el.value, ReadKids(s, el.end, depth, d))
    else
      var text := if RunAt(s, i) then ReadRun(s, i, d) else ReadEscaped(s, i, Content);
      if text.Rejected? then Rejected(text.why)
      else
        TextAdvances(s, i, d);
        var rest := ReadKids(s, text.end, depth, d);
        if text.value == [] && d.dropsEmpty then rest else AddKid(Text(text.value), rest)
  }

  function AddKid(kid: Node, r: Parsed<seq<Node>>): (r': Parsed<seq<Node>>)
    ensures r'.Parsed? <==> r.Parsed?
    ensures r'.Parsed? ==> r'.end == r.end && r'.value == [kid] + r.value
  {
    if r.Parsed? then Parsed([kid] + r.value, r.end) else r
  }

  /** A text that is no run starts with a byte the reader does not stop on. */
  lemma TextAdvances(s: Bytes, i: nat, d: Dialect)
    requires i < |s| && s[i] != LBR && s[i] != RBR
    ensures var r := ReadEscaped(s, i, Content); r.Parsed? ==> i < r.end && r.value != []
  {
  }

  /** One element from its opening brace to its closing one. */
  function ReadElement(s: Bytes, i: nat, depth: nat, d: Dialect): (r: Parsed<Node>)
    ensures r.Parsed? ==> i < r.end <= |s| && r.value.Element?
    decreases |s| - i, 1
  {
    if depth > MAX_DEPTH then Rejected(TooDeep)
    else if i >= |s| || s[i] != LBR then Rejected(Malformed)
    else
      var head := ReadEscaped(s, i + 1, Tag);
      if head.Rejected? then Rejected(head.why)
      else if s[head.end] == RBR then Parsed(AsElement(Text(head.value)), head.end + 1)
      else if s[head.end] == LBR then Rejected(Malformed)
      else ReadBody(s, head.end + 1, depth, d, head.value)
  }

  /** What follows the comma behind a tag. */
  function ReadBody(s: Bytes, i: nat, depth: nat, d: Dialect, tag: Bytes): (r: Parsed<Node>)
    ensures r.Parsed? ==> i < r.end <= |s| && r.value.Element?
    decreases |s| - i, 3
  {
    if i < |s| && s[i] == LSQ then
      var attrs := ReadAttrs(s, i + 1);
      if attrs.Rejected? then Rejected(attrs.why)
      else if attrs.end < |s| && s[attrs.end] == RBR then Parsed(Element(tag, attrs.value, []), attrs.end + 1)
      else
        var j := if attrs.end < |s| && s[attrs.end] == COM then attrs.end + 1 else attrs.end;
        Finish(tag, attrs.value, ReadKids(s, j, depth, d))
    else
      Finish(tag, [], ReadKids(s, i, depth, d))
  }

  function Finish(tag: Bytes, attrs: seq<Attr>, kids: Parsed<seq<Node>>): (r: Parsed<Node>)
    ensures r.Parsed? <==> kids.Parsed?
    ensures r.Parsed? ==> r.end == kids.end && r.value == Element(tag, attrs, kids.value)
  {
    if kids.Parsed? then Parsed(Element(tag, attrs, kids.value), kids.end) else Rejected(kids.why)
  }

  /** A whole document of one element. */
  function Decoded(s: Bytes, d: Dialect): Parsed<Node> {
    var r := ReadElement(s, 0, 0, d);
    if r.Parsed? && r.end != |s| then Rejected(Malformed) else r
  }

  /** Elements one after another up to the end. */
  function ReadAll(s: Bytes, i: nat, d: Dialect): (r: Parsed<seq<Node>>)
    decreases |s| - i
  {
    if i >= |s| then Parsed([], i)
    else
      var el := ReadElement(s, i, 0, d);
      if el.Rejected? then Rejected(el.why) else AddKid(el.value, ReadAll(s, el.end, d))
  }

  /** What a reader method reports: a value, or why it stopped. */
  datatype Outcome<+T> = Done(value: T) | Failed(why: Reject) {
    predicate IsFailure() {
      Failed?
    }

    function PropagateFailure<U>(): Outcome<U>
      requires Failed?
    {
      Failed(why)
    }

    function Extract(): T
      requires Done?
    {
      value
    }
  }

  /** A reader standing at i has done what the grammar says. */
  ghost predicate Agrees<T>(r: Outcome<T>, i: nat, p: Parsed<T>) {
    match p
    case Parsed(value, end) => r == Done(value) && i == end
    case Rejected(why) => r == Failed(why)
  }
}
