/** Depth-first iteration with an explicit stack, one key a step, on any buffer; and what it
    yields on the trie an encoder wrote. */
module Iteration {
  import opened Bits
  import opened Results
  import opened Varint
  import opened Keys
  import opened Values
  import opened Trie
  import opened Dictionary

  const MAX_DEPTH: nat := 256
  const UINT32: nat := 0x1_0000_0000

  /** One BRANCH the walk is inside. */
  datatype Frame = Frame(subtreeEnd: nat, nextChild: nat, remaining: nat, keyLen: nat)

  /** Outcome of walking down from a position without turning back. */
  datatype Step =
    | AtKey(hasIndex: bool, index: nat, pos: nat, key: Key)
    | AtBranch(count: nat, pos: nat, key: Key)
    | RanOut(key: Key)
    | Lost(error: Error)

  function ByteOf(sym: Symbols, code: nat): byte
    requires Shaped(sym)
  {
    if code < 256 then sym.byteOf[code] else 0
  }

  predicate IsControl(sym: Symbols, code: nat)
    requires Shaped(sym)
  {
    code < 256 && sym.isCtrl[code]
  }

  /** Symbols from pos on extend the key until a terminal, a branch or the subtree's end. */
  function Walk(sym: Symbols, s: seq<bool>, pos: nat, end: nat, key: Key): Step
    requires Shaped(sym)
    decreases |s| - pos
  {
    if pos >= end then RanOut(key) else
    match ReadBits(s, pos, sym.bps)
    case Err(e) => Lost(e)
    case Ok(code) =>
      var p := pos + sym.bps;
      if code == sym.ctrl[END] || code == sym.ctrl[END_VAL] then
        if code == sym.ctrl[END_VAL] then
          match ReadVarint(s, p)
          case Err(e) => Lost(e)
          case Ok(v) => AtKey(true, v.0, v.1, key)
        else AtKey(false, 0, p, key)
      else if code == sym.ctrl[BRANCH] then
        match ReadVarint(s, p)
        case Err(e) => Lost(e)
        case Ok(v) => AtBranch(v.0, v.1, key)
      else if IsControl(sym, code) then Lost(Corrupt)
      else Walk(sym, s, p, end, key + [ByteOf(sym, code)])
  }

  /** Outcome of a walk with the branch it met pushed. */
  datatype Visit =
    | Emit(hasIndex: bool, index: nat, key: Key, stack: seq<Frame>)
    | Deeper(key: Key, stack: seq<Frame>)
    | Bad(error: Error)

  function PushFrame(stack: seq<Frame>, end: nat, pos: nat, count: nat, keyLen: nat): Result<seq<Frame>> {
    if |stack| + 1 > MAX_DEPTH then Err(Overflow) else Ok(stack + [Frame(end, pos, count % UINT32, keyLen)])
  }

  function Descend(sym: Symbols, s: seq<bool>, pos: nat, end: nat, key: Key, stack: seq<Frame>): Visit
    requires Shaped(sym)
  {
    match Walk(sym, s, pos, end, key)
    case Lost(e) => Bad(e)
    case RanOut(k) => Deeper(k, stack)
    case AtBranch(n, p, k) =>
      (match PushFrame(stack, end, p, n, |k|)
       case Err(e) => Bad(e)
       case Ok(st) => Deeper(k, st))
    case AtKey(h, i, p, k) =>
      match BranchAfterKey(sym, s, p, end, |k|, stack)
      case Err(e) => Bad(e)
      case Ok(st) => Emit(h, i, k, st)
  }

  /** A BRANCH follows a terminal exactly when the subtree continues. */
  function BranchAfterKey(sym: Symbols, s: seq<bool>, pos: nat, end: nat, keyLen: nat, stack: seq<Frame>): Result<seq<Frame>>
    requires Shaped(sym)
  {
    if pos >= end then Ok(stack) else
    var code :- ReadBits(s, pos, sym.bps);
    if code != sym.ctrl[BRANCH] then Err(Corrupt) else
    var n :- ReadVarint(s, pos + sym.bps);
    PushFrame(stack, end, n.1, n.0, keyLen)
  }

  /** The next unvisited child: its bounds, its key length, and the stack with finished
      frames unwound. */
  datatype Child = Child(pos: nat, end: nat, keyLen: nat, stack: seq<Frame>)

  function Sibling(sym: Symbols, s: seq<bool>, stack: seq<Frame>): (r: Result<Child>)
    requires Shaped(sym)
    ensures r.Ok? ==> 0 < |r.value.stack| <= |stack|
  {
    if stack == [] then Err(Eof) else
    var front, f := stack[..|stack| - 1], stack[|stack| - 1];
    if f.remaining == 0 then Sibling(sym, s, front) else
    if f.nextChild > |s| then Err(InvalidPosition) else
    if f.remaining > 1 then
      var code :- ReadBits(s, f.nextChild, sym.bps);
      if code != sym.ctrl[SKIP] then Err(Corrupt) else
      var d :- ReadVarint(s, f.nextChild + sym.bps);
      Ok(Child(d.1, d.1 + d.0, f.keyLen, front + [f.(nextChild := d.1 + d.0, remaining := f.remaining - 1)]))
    else Ok(Child(f.nextChild, f.subtreeEnd, f.keyLen, front + [f.(remaining := 0)]))
  }

  function Power(n: nat): (p: nat)
    ensures p > 0
  {
    if n == 0 then 1 else UINT32 * Power(n - 1)
  }

  /** The stack read as a number in base 2^32, outermost frame first: what decreases as the
      walk goes on, whatever the bytes say. */
  ghost function Weight(stack: seq<Frame>): nat
    requires |stack| <= MAX_DEPTH
  {
    if stack == [] then 0
    else Weight(stack[..|stack| - 1]) + stack[|stack| - 1].remaining * Power(MAX_DEPTH - |stack|)
  }

  ghost function Fuel(stack: seq<Frame>): nat
    requires |stack| <= MAX_DEPTH
  {
    Weight(stack) + Power(MAX_DEPTH - |stack|)
  }

  lemma {:induction false} SiblingFuel(sym: Symbols, s: seq<bool>, stack: seq<Frame>)
    requires Shaped(sym) && |stack| <= MAX_DEPTH
    ensures match Sibling(sym, s, stack)
            case Err(_) => true
            case Ok(c) => Fuel(c.stack) <= Weight(stack)
  {
    if stack != [] {
      var front, f := stack[..|stack| - 1], stack[|stack| - 1];
      if f.remaining == 0 {
        SiblingFuel(sym, s, front);
      } else {
        var next := Sibling(sym, s, stack);
        if next.Ok? {
          assert next.value.stack[..|stack| - 1] == front;
          DigitDown(f.remaining, Power(MAX_DEPTH - |stack|));
        }
      }
    }
  }

  lemma PushFuel(stack: seq<Frame>, end: nat, pos: nat, count: nat, keyLen: nat)
    requires |stack| <= MAX_DEPTH
    ensures match PushFrame(stack, end, pos, count, keyLen)
            case Err(_) => true
            case Ok(st) => |st| <= MAX_DEPTH && Weight(st) < Fuel(stack)
  {
    var pushed := PushFrame(stack, end, pos, count, keyLen);
    if pushed.Ok? {
      assert pushed.value[..|pushed.value| - 1] == stack;
      DigitBelowBase(count % UINT32, Power(MAX_DEPTH - |stack| - 1));
    }
  }

  lemma DigitDown(digit: nat, unit: nat)
    requires digit > 0
    ensures (digit - 1) * unit + unit == digit * unit
    ensures digit == 1 ==> unit == digit * unit
  {
  }

  lemma DigitBelowBase(digit: nat, unit: nat)
    requires digit < UINT32 && unit > 0
    ensures digit * unit < UINT32 * unit
  {
  }

  lemma DescendFuel(sym: Symbols, s: seq<bool>, pos: nat, end: nat, key: Key, stack: seq<Frame>)
    requires Shaped(sym) && |stack| <= MAX_DEPTH
    ensures match Descend(sym, s, pos, end, key, stack)
            case Bad(_) => true
            case Emit(_, _, _, st) => |st| <= MAX_DEPTH
            case Deeper(_, st) => |st| <= MAX_DEPTH && Weight(st) < Fuel(stack)
  {
    var w := Walk(sym, s, pos, end, key);
    if w.AtBranch? {
      PushFuel(stack, end, w.pos, w.count, |w.key|);
    }
  }

  function Truncate(key: Key, n: nat): Key {
    if n <= |key| then key[..n] else key
  }

  /** Alternates descents and sibling moves until a key turns up. */
  function Search(sym: Symbols, s: seq<bool>, pos: nat, end: nat, key: Key, stack: seq<Frame>): (v: Visit)
    requires Shaped(sym) && |stack| <= MAX_DEPTH
    ensures v.Bad? || (v.Emit? && |v.stack| <= MAX_DEPTH)
    decreases Fuel(stack)
  {
    match Descend(sym, s, pos, end, key, stack)
    case Bad(e) => Bad(e)
    case Emit(h, i, k, st) => DescendFuel(sym, s, pos, end, key, stack); Emit(h, i, k, st)
    case Deeper(k, st) =>
      DescendFuel(sym, s, pos, end, key, stack);
      SiblingFuel(sym, s, st);
      match Sibling(sym, s, st)
      case Err(e) => Bad(e)
      case Ok(c) => Search(sym, s, c.pos, c.end, Truncate(k, c.keyLen), c.stack)
  }

  /** An iterator between two calls. */
  datatype Iter = Iter(done: bool, started: bool, key: Key, stack: seq<Frame>,
                       rootPos: nat, rootEnd: nat, rootKeyLen: nat, valuePos: nat, valueIndex: nat)

  /** The value at an index, and the cursor after it: decoded where the cursor stands when
      it stands there already, otherwise after a scan from the start. */
  function ValueAt(d: Dict, it: Iter, index: nat): Result<(Value, Iter)> {
    if !d.hasValues then Ok((Null, it)) else
    var pos :- if index != it.valueIndex then ScanFrom(d.s, d.valueStart, index) else ScanFrom(d.s, it.valuePos, 0);
    var v :- ReadValue(d.s, pos);
    Ok((v.0, it.(valuePos := v.1, valueIndex := index + 1)))
  }

  function ScanFrom(s: seq<bool>, pos: nat, n: nat): Result<nat> {
    if pos > |s| then Err(InvalidPosition) else ScanValues(s, pos, n)
  }

  datatype Outcome = Yield(key: Key, val: Value) | Stop(error: Error)

  function Start(sym: Symbols, s: seq<bool>, it: Iter): (v: Visit)
    requires Shaped(sym) && |it.stack| <= MAX_DEPTH
    ensures v.Bad? || (v.Emit? && |v.stack| <= MAX_DEPTH)
  {
    if it.started then
      match Sibling(sym, s, it.stack)
      case Err(e) => Bad(e)
      case Ok(c) => Search(sym, s, c.pos, c.end, Truncate(it.key, c.keyLen), c.stack)
    else if it.rootPos > |s| then Bad(InvalidPosition)
    else Search(sym, s, it.rootPos, it.rootEnd, Truncate(it.key, it.rootKeyLen), it.stack)
  }

  /** One call of the iterator. */
  function Next(d: Dict, it: Iter): (r: (Outcome, Iter))
    requires Shaped(d.sym) && |it.stack| <= MAX_DEPTH
    ensures |r.1.stack| <= MAX_DEPTH
  {
    if it.done then (Stop(Eof), it)
    else if d.numKeys == 0 then (Stop(Eof), it.(done := true))
    else
      match Start(d.sym, d.s, it)
      case Bad(e) => (Stop(e), it.(done := true))
      case Emit(h, i, k, st) =>
        var moved := it.(started := true, key := k, stack := st);
        if !h then (Yield(k, Null), moved) else
        match ValueAt(d, moved, i)
        case Err(e) => (Stop(e), moved.(done := true))
        case Ok(v) => (Yield(k, v.0), v.1)
  }

  /** A fresh iterator over the whole dictionary. */
  function Iterate(d: Dict): Iter {
    Iter(false, false, [], [], d.trieStart, d.valueStart, 0, d.valueStart, 0)
  }
}
