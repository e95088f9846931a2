/** Key lookup on any buffer, and its agreement with the entries of an encoded dictionary. */
module Lookup {
  import opened Bits
  import opened Results
  import opened Varint
  import opened Keys
  import opened Values
  import opened Trie
  import opened Dictionary
  import opened Iteration

  /** How a walk along the key ends. */
  datatype Hit = NullHit | ValueHit(index: nat) | Miss(error: Error)

  /** Past the symbol of the child, among those numbered c to n, that starts with byte b. */
  function ChooseChild(sym: Symbols, s: seq<bool>, pos: nat, c: nat, n: nat, b: byte): (r: Result<nat>)
    requires Shaped(sym)
    ensures r.Ok? ==> pos < r.value <= |s|
    decreases if c < n then n - c else 0, pos
  {
    if c >= n then Err(NotFound)
    else if c < n - 1 then
      var _ :- ReadBits(s, pos, sym.bps);
      var d :- ReadVarint(s, pos + sym.bps);
      var first :- ReadBits(s, d.1, sym.bps);
      if !IsControl(sym, first) && first == sym.codeOf[b] then Ok(d.1 + sym.bps)
      else if d.1 + d.0 > |s| then Err(Eof)
      else ChooseChild(sym, s, d.1 + d.0, c + 1, n, b)
    else
      var first :- ReadBits(s, pos, sym.bps);
      if !IsControl(sym, first) && first == sym.codeOf[b] then Ok(pos + sym.bps) else Err(NotFound)
  }

  /** Walks on from pos with the first bytes of the key consumed; afterKey says that the last
      symbol was a terminal, which only a BRANCH can follow. */
  function Probe(sym: Symbols, s: seq<bool>, pos: nat, key: Key, matched: nat, afterKey: bool): Hit
    requires Shaped(sym) && matched <= |key|
    decreases if pos <= |s| then |s| - pos else 0
  {
    match ReadBits(s, pos, sym.bps)
    case Err(e) => Miss(if afterKey then NotFound else e)
    case Ok(code) =>
      var p := pos + sym.bps;
      if code == sym.ctrl[END] then
        if matched == |key| then NullHit else Probe(sym, s, p, key, matched, true)
      else if code == sym.ctrl[END_VAL] then
        match ReadVarint(s, p)
        case Err(e) => Miss(e)
        case Ok(v) =>
          if matched == |key| then ValueHit(v.0 % UINT32) else Probe(sym, s, v.1, key, matched, true)
      else if code == sym.ctrl[BRANCH] then
        match ReadVarint(s, p)
        case Err(e) => Miss(e)
        case Ok(n) =>
          if matched == |key| then Miss(NotFound) else
          match ChooseChild(sym, s, n.1, 0, n.0, key[matched])
          case Err(e) => Miss(e)
          case Ok(q) => Probe(sym, s, q, key, matched + 1, false)
      else if afterKey then Miss(NotFound)
      else if IsControl(sym, code) then Miss(InvalidParam)
      else if matched == |key| || code != sym.codeOf[key[matched]] then Miss(NotFound)
      else Probe(sym, s, p, key, matched + 1, false)
  }

  function FetchValue(d: Dict, index: nat): Result<Value> {
    var pos :- ScanFrom(d.s, d.valueStart, index);
    var v :- ReadValue(d.s, pos);
    Ok(v.0)
  }

  function LookupKey(d: Dict, key: Key): Result<Value>
    requires Shaped(d.sym)
  {
    if d.numKeys == 0 then Err(NotFound)
    else if d.trieStart > |d.s| then Err(InvalidPosition)
    else
      match Probe(d.sym, d.s, d.trieStart, key, 0, false)
      case Miss(e) => Err(e)
      case NullHit => Ok(Null)
      case ValueHit(i) => if d.hasValues then FetchValue(d, i) else Ok(Null)
  }
}
