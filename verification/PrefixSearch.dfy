/** Descending to the subtree of a key prefix, on any buffer, and what it finds on the trie an
    encoder wrote. */
module PrefixSearch {
  import opened Bits
  import opened Results
  import opened Varint
  import opened Keys
  import opened Trie
  import opened Dictionary
  import opened Iteration

  /** The child, among those numbered c to n, whose first symbol is want. */
  function FindChild(sym: Symbols, s: seq<bool>, preamble: nat, end: nat, c: nat, n: nat, want: nat): (r: Result<(nat, nat)>)
    requires Shaped(sym)
    ensures r.Ok? ==> preamble <= r.value.0 <= |s|
    decreases if c < n then n - c else 0, preamble
  {
    if c >= n then Err(NotFound)
    else if preamble > |s| then Err(InvalidPosition)
    else if c + 1 < n then
      var code :- ReadBits(s, preamble, sym.bps);
      if code != sym.ctrl[SKIP] then Err(Corrupt) else
      var d :- ReadVarint(s, preamble + sym.bps);
      var first :- ReadBits(s, d.1, sym.bps);
      if first == want then Ok((d.1, d.1 + d.0))
      else FindChild(sym, s, d.1 + d.0, end, c + 1, n, want)
    else
      var first :- ReadBits(s, preamble, sym.bps);
      if first == want then Ok((preamble, end)) else Err(NotFound)
  }

  /** Start and end of the subtree that holds every key beginning with the prefix, of which
      the first bytes are matched already. */
  function DescendTo(sym: Symbols, s: seq<bool>, pos: nat, end: nat, prefix: Key, matched: nat): Result<(nat, nat)>
    requires Shaped(sym) && matched <= |prefix|
    decreases if pos <= |s| then |s| - pos else 0
  {
    if matched == |prefix| then Ok((pos, end))
    else if pos >= end then Err(NotFound)
    else if pos > |s| then Err(InvalidPosition)
    else
      var code :- ReadBits(s, pos, sym.bps);
      var p := pos + sym.bps;
      if code == sym.ctrl[END] || code == sym.ctrl[END_VAL] then
        var after :- AfterKey(sym, s, p, code);
        if after >= end then Err(NotFound) else
        var code2 :- ReadBits(s, after, sym.bps);
        if code2 != sym.ctrl[BRANCH] then Err(Corrupt) else
        var child :- BranchTo(sym, s, after + sym.bps, end, prefix[matched]);
        DescendTo(sym, s, child.0, child.1, prefix, matched)
      else if code == sym.ctrl[BRANCH] then
        var child :- BranchTo(sym, s, p, end, prefix[matched]);
        DescendTo(sym, s, child.0, child.1, prefix, matched)
      else if IsControl(sym, code) then Err(Corrupt)
      else if ByteOf(sym, code) != prefix[matched] then Err(NotFound)
      else DescendTo(sym, s, p, end, prefix, matched + 1)
  }

  function AfterKey(sym: Symbols, s: seq<bool>, pos: nat, code: nat): (r: Result<nat>)
    requires Shaped(sym)
    ensures r.Ok? ==> pos <= r.value
  {
    if code == sym.ctrl[END_VAL] then
      var v :- ReadVarint(s, pos);
      Ok(v.1)
    else Ok(pos)
  }

  /** At the operand of a BRANCH: the child to take for the next byte. */
  function BranchTo(sym: Symbols, s: seq<bool>, pos: nat, end: nat, next: byte): (r: Result<(nat, nat)>)
    requires Shaped(sym)
    ensures r.Ok? ==> pos <= r.value.0 <= |s|
  {
    var n :- ReadVarint(s, pos);
    FindChild(sym, s, n.1, end, 0, n.0, sym.codeOf[next])
  }

  /** The iterator over the keys that start with the prefix. */
  function FindPrefix(d: Dict, prefix: Key): Result<Iter>
    requires Shaped(d.sym)
  {
    var it := Iterate(d);
    if prefix == [] || d.numKeys == 0 then Ok(it)
    else
      match DescendTo(d.sym, d.s, d.trieStart, d.valueStart, prefix, 0)
      case Err(NotFound) => Ok(it.(done := true))
      case Err(e) => Err(e)
      case Ok(sub) => Ok(it.(key := prefix, rootPos := sub.0, rootEnd := sub.1, rootKeyLen := |prefix|))
  }
}
