/** Lookup and prefix search as the library runs them: one reader, a cursor, and loops. */
module Decoder {
  import opened Bits
  import opened Results
  import opened Varint
  import opened BitStream
  import opened Keys
  import opened Values
  import opened Trie
  import opened Dictionary
  import opened Iteration
  import opened PrefixSearch
  import opened Lookup
  import opened Iterators

  /** A reader over the whole buffer of an opened dictionary. */
  ghost predicate Reads(r: BitReader, d: Dict)
    reads r
  {
    r.Valid() && r.bitLen == 8 * |r.buf| && Unpack(r.buf) == d.s && Shaped(d.sym)
  }

  lemma ReadsStream(r: BitReader, d: Dict)
    requires Reads(r, d)
    ensures r.Stream() == d.s && r.pos <= r.bitLen == |d.s|
  {
    WholeStream(r);
  }

  /** The loop over the children of a branch; stops behind the symbol of the matching one. */
  method ChooseChild(r: BitReader, d: Dict, n: nat, b: byte) returns (res: Result<()>)
    requires Reads(r, d)
    modifies r
    ensures Reads(r, d)
    ensures match Lookup.ChooseChild(d.sym, d.s, old(r.pos), 0, n, b)
            case Err(e) => res == Err(e)
            case Ok(p) => res == Ok(()) && r.pos == p
  {
    hide ReadBits, ReadVarint, IsControl;
    var c := 0;
    while c < n
      invariant 0 <= c <= n && Reads(r, d)
      invariant Lookup.ChooseChild(d.sym, d.s, old(r.pos), 0, n, b) == Lookup.ChooseChild(d.sym, d.s, r.pos, c, n, b)
    {
      ReadsStream(r, d);
      var hasSkip, skip := c < n - 1, 0;
      if hasSkip {
        var _ :- r.ReadBits(d.sym.bps);
        skip :- r.ReadVarintU();
      }
      var first :- r.PeekBits(d.sym.bps);
      if !IsControl(d.sym, first) && first == d.sym.codeOf[b] {
        var _ := r.Advance(d.sym.bps);
        return Ok(());
      }
      if hasSkip {
        var _ :- r.Advance(skip);
      }
      c := c + 1;
    }
    return Err(NotFound);
  }

  /** What one symbol does to a lookup. */
  datatype Move = Done(hit: Hit) | Go(matched: nat, afterKey: bool)

  /** One turn of the lookup loop, with the first bytes of the key matched. */
  method Turn(r: BitReader, d: Dict, key: Key, matched: nat, afterKey: bool) returns (next: Move)
    requires Reads(r, d) && matched <= |key|
    modifies r
    ensures Reads(r, d)
    ensures match next
            case Done(hit) => Lookup.Probe(d.sym, d.s, old(r.pos), key, matched, afterKey) == hit
            case Go(m, a) =>
              && old(r.pos) < r.pos && m <= |key|
              && Lookup.Probe(d.sym, d.s, old(r.pos), key, matched, afterKey) == Lookup.Probe(d.sym, d.s, r.pos, key, m, a)
  {
    hide ReadBits, ReadVarint, IsControl, Lookup.ChooseChild, Unpack;
    ReadsStream(r, d);
    var read := r.ReadBits(d.sym.bps);
    if read.Err? {
      return Done(Miss(if afterKey then NotFound else read.error));
    }
    var code := read.value;
    if code == d.sym.ctrl[END] {
      return if matched == |key| then Done(NullHit) else Go(matched, true);
    }
    if code == d.sym.ctrl[END_VAL] {
      var index := r.ReadVarintU();
      if index.Err? {
        return Done(Miss(index.error));
      }
      return if matched == |key| then Done(ValueHit(index.value % UINT32)) else Go(matched, true);
    }
    if code == d.sym.ctrl[BRANCH] {
      var n := r.ReadVarintU();
      if n.Err? {
        return Done(Miss(n.error));
      }
      if matched >= |key| {
        return Done(Miss(NotFound));
      }
      var child := ChooseChild(r, d, n.value, key[matched]);
      return if child.Err? then Done(Miss(child.error)) else Go(matched + 1, false);
    }
    if afterKey {
      return Done(Miss(NotFound));
    }
    if IsControl(d.sym, code) {
      return Done(Miss(InvalidParam));
    }
    if matched >= |key| || code != d.sym.codeOf[key[matched]] {
      return Done(Miss(NotFound));
    }
    return Go(matched + 1, false);
  }

  method Probe(r: BitReader, d: Dict, key: Key) returns (hit: Hit)
    requires Reads(r, d)
    modifies r
    ensures Reads(r, d)
    ensures hit == Lookup.Probe(d.sym, d.s, old(r.pos), key, 0, false)
  {
    hide Lookup.Probe, Unpack;
    var matched, afterKey := 0, false;
    ghost var start := r.pos;
    while true
      invariant Reads(r, d) && matched <= |key|
      invariant Lookup.Probe(d.sym, d.s, start, key, 0, false) == Lookup.Probe(d.sym, d.s, r.pos, key, matched, afterKey)
      decreases r.bitLen - r.pos
    {
      var next := Turn(r, d, key, matched, afterKey);
      match next {
        case Done(h) => return h;
        case Go(m, a) => matched, afterKey := m, a;
      }
    }
  }

  /** The value at a store index, after a scan from the start of the store. */
  method Fetch(r: BitReader, d: Dict, index: nat) returns (res: Result<Value>)
    requires Reads(r, d)
    modifies r
    ensures Reads(r, d) && res == FetchValue(d, index)
  {
    hide ReadValue, Unpack;
    ReadsStream(r, d);
    var _ :- r.Seek(d.valueStart);
    var i := 0;
    while i < index
      invariant i <= index && Reads(r, d)
      invariant ScanValues(d.s, d.valueStart, index) == ScanValues(d.s, r.pos, index - i)
    {
      ReadsStream(r, d);
      var _ :- DecodeValue(r);
      i := i + 1;
    }
    ReadsStream(r, d);
    res := DecodeValue(r);
  }

  method LookupN(buf: seq<byte>, d: Dict, key: Key) returns (res: Result<Value>)
    requires Unpack(buf) == d.s && Shaped(d.sym)
    ensures res == LookupKey(d, key)
  {
    hide Lookup.Probe, FetchValue, Unpack;
    if d.numKeys == 0 {
      return Err(NotFound);
    }
    var r := new BitReader(buf, 8 * |buf|);
    ReadsStream(r, d);
    var _ :- r.Seek(d.trieStart);
    var hit := Probe(r, d, key);
    match hit {
      case Miss(e) => return Err(e);
      case NullHit => return Ok(Null);
      case ValueHit(index) =>
        if d.hasValues {
          res := Fetch(r, d, index);
          return;
        }
        return Ok(Null);
    }
  }

  /** The loop over the children of a branch in a prefix descent: bounds of the matching one. */
  method FindChild(r: BitReader, d: Dict, end: nat, n: nat, want: nat) returns (res: Result<(nat, nat)>)
    requires Reads(r, d)
    modifies r
    ensures Reads(r, d)
    ensures res == PrefixSearch.FindChild(d.sym, d.s, old(r.pos), end, 0, n, want)
  {
    hide ReadBits, ReadVarint, Unpack;
    var c: nat, preamble: nat := 0, r.pos;
    while c < n
      invariant 0 <= c <= n && Reads(r, d)
      invariant PrefixSearch.FindChild(d.sym, d.s, old(r.pos), end, 0, n, want)
             == PrefixSearch.FindChild(d.sym, d.s, preamble, end, c, n, want)
    {
      ReadsStream(r, d);
      var _ :- r.Seek(preamble);
      var childStart: nat, childEnd: nat := preamble, end;
      if c + 1 < n {
        var code :- r.ReadBits(d.sym.bps);
        if code != d.sym.ctrl[SKIP] {
          return Err(Corrupt);
        }
        var distance :- r.ReadVarintU();
        childStart, childEnd := r.pos, r.pos + distance;
        preamble := r.pos + distance;
      }
      var first :- r.PeekBits(d.sym.bps);
      if first == want {
        return Ok((childStart, childEnd));
      }
      c := c + 1;
    }
    return Err(NotFound);
  }

  /** One turn of the descent: where it stands next, and how much of the prefix is matched. */
  method DescendTurn(r: BitReader, d: Dict, pos: nat, end: nat, prefix: Key, matched: nat)
    returns (res: Result<(nat, nat, nat)>)
    requires Reads(r, d) && matched < |prefix|
    modifies r
    ensures Reads(r, d)
    ensures match res
            case Err(e) => DescendTo(d.sym, d.s, pos, end, prefix, matched) == Err(e)
            case Ok(next) =>
              && pos < next.0 <= |d.s| && next.2 <= |prefix|
              && DescendTo(d.sym, d.s, pos, end, prefix, matched) == DescendTo(d.sym, d.s, next.0, next.1, prefix, next.2)
  {
    hide ReadBits, ReadVarint, IsControl, PrefixSearch.FindChild, Unpack;
    ReadsStream(r, d);
    if pos >= end {
      return Err(NotFound);
    }
    var _ :- r.Seek(pos);
    var code :- r.ReadBits(d.sym.bps);
    var atBranch := code == d.sym.ctrl[BRANCH];
    if code == d.sym.ctrl[END] || code == d.sym.ctrl[END_VAL] {
      if code == d.sym.ctrl[END_VAL] {
        var _ :- r.ReadVarintU();
      }
      if r.pos >= end {
        return Err(NotFound);
      }
      var code2 :- r.ReadBits(d.sym.bps);
      if code2 != d.sym.ctrl[BRANCH] {
        return Err(Corrupt);
      }
      atBranch := true;
    }
    if !atBranch {
      if IsControl(d.sym, code) {
        return Err(Corrupt);
      }
      if ByteOf(d.sym, code) != prefix[matched] {
        return Err(NotFound);
      }
      return Ok((r.pos, end, matched + 1));
    }
    var n :- r.ReadVarintU();
    var child :- FindChild(r, d, end, n, d.sym.codeOf[prefix[matched]]);
    return Ok((child.0, child.1, matched));
  }

  method DescendToPrefix(buf: seq<byte>, d: Dict, prefix: Key) returns (res: Result<(nat, nat)>)
    requires Unpack(buf) == d.s && Shaped(d.sym)
    ensures res == DescendTo(d.sym, d.s, d.trieStart, d.valueStart, prefix, 0)
  {
    hide DescendTo, Unpack;
    var r := new BitReader(buf, 8 * |buf|);
    var pos: nat, end: nat, matched: nat := d.trieStart, d.valueStart, 0;
    while matched < |prefix|
      invariant Reads(r, d) && matched <= |prefix|
      invariant DescendTo(d.sym, d.s, d.trieStart, d.valueStart, prefix, 0) == DescendTo(d.sym, d.s, pos, end, prefix, matched)
      decreases if pos <= |d.s| then |d.s| - pos else 0
    {
      var next :- DescendTurn(r, d, pos, end, prefix, matched);
      pos, end, matched := next.0, next.1, next.2;
    }
    AllMatched(d.sym, d.s, pos, end, prefix);
    return Ok((pos, end));
  }

  lemma AllMatched(sym: Symbols, s: seq<bool>, pos: nat, end: nat, prefix: Key)
    requires Shaped(sym)
    ensures DescendTo(sym, s, pos, end, prefix, |prefix|) == Ok((pos, end))
  {
  }

  /** An iterator over the keys that start with the prefix. */
  method FindPrefix(buf: seq<byte>, d: Dict, prefix: Key) returns (res: Result<Iterator>)
    requires Unpack(buf) == d.s && Shaped(d.sym)
    ensures match PrefixSearch.FindPrefix(d, prefix)
            case Err(e) => res == Err(e)
            case Ok(it) => res.Ok? && fresh(res.value) && fresh(res.value.stack) && fresh(res.value.keyBuf)
                           && res.value.Valid() && res.value.d == d && res.value.Snapshot() == it
  {
    hide DescendTo, Unpack;
    var it := new Iterator(buf, d);
    if |prefix| == 0 || d.numKeys == 0 {
      return Ok(it);
    }
    var sub := DescendToPrefix(buf, d, prefix);
    match sub {
      case Err(NotFound) =>
        it.Finish();
        return Ok(it);
      case Err(e) => return Err(e);
      case Ok(bounds) =>
        it.Seed(prefix, bounds.0, bounds.1);
        return Ok(it);
    }
  }
}
