/** The bindings' decoder as an object: reader position, key stack and result map, changed in
    place by three mutually recursive methods. */
module MapDecoder {
  import opened Bits
  import opened Results
  import opened Varint
  import opened BitStream
  import opened Keys
  import opened KeySets
  import opened Values
  import opened Trie
  import opened Iteration
  import opened DepthFirst
  import opened SymbolTable
  import opened FileFormat
  import opened FileContents
  import opened BindingDecoder

  lemma NullMapFirst(m: map<Key, Value>, k: Key, ks: seq<Key>)
    ensures m[k := Null] + NullMap(ks) == m + NullMap([k] + ks)
  {
  }

  lemma NullMapConcat(m: map<Key, Value>, a: seq<Key>, b: seq<Key>)
    ensures (m + NullMap(a)) + NullMap(b) == m + NullMap(a + b)
  {
  }

  lemma NullMapEmpty(m: map<Key, Value>)
    ensures m + NullMap([]) == m
  {
  }

  class MapDecoder {
    const r: BitReader
    const sym: Symbols
    var pos: nat
    var keyStack: Key
    var result: map<Key, Value>

    ghost predicate Valid()
      reads this, r
    {
      r.Valid() && r.bitLen == 8 * |r.buf| && Shaped(sym)
    }

    ghost function Stream(): seq<bool> {
      Unpack(r.buf)
    }

    constructor (r: BitReader, sym: Symbols, start: nat)
      requires r.Valid() && r.bitLen == 8 * |r.buf| && Shaped(sym)
      ensures Valid() && this.r == r && this.sym == sym && pos == start && keyStack == [] && result == map[]
    {
      this.r, this.sym, pos, keyStack, result := r, sym, start, [], map[];
    }

    /** The position may have been set past the end, where nothing can be read. */
    method Read(n: nat) returns (res: Result<nat>)
      requires Valid() && 1 <= n <= 64
      modifies this`pos, r
      ensures Valid() && res == ReadBits(Stream(), old(pos), n)
      ensures pos == if res.Ok? then old(pos) + n else old(pos)
      ensures res.Ok? ==> pos <= |Stream()|
    {
      assert r.Stream() == Stream();
      var sought := r.Seek(pos);
      if sought.Err? {
        return Err(Eof);
      }
      res := r.ReadBits(n);
      if res.Ok? {
        pos := pos + n;
      }
    }

    method ReadVarUint() returns (res: Result<nat>)
      requires Valid()
      modifies this`pos, r
      ensures Valid()
      ensures match ReadVarint(Stream(), old(pos))
              case Ok(v) => res == Ok(v.0) && pos == v.1
              case Err(e) => res == Err(e)
    {
      assert r.Stream() == Stream();
      var sought := r.Seek(pos);
      if sought.Err? {
        return Err(Eof);
      }
      res := r.ReadVarintU();
      pos := r.pos;
    }

    method DfsWalk(end: nat) returns (res: Result<()>)
      requires Valid()
      modifies this`pos, this`keyStack, this`result, r
      ensures Valid()
      ensures match DepthFirst.DfsWalk(sym, Stream(), old(pos), end, old(keyStack))
              case Err(e) => res == Err(e)
              case Ok(w) => res == Ok(()) && pos == w.pos && result == old(result) + NullMap(w.keys) && old(keyStack) <= keyStack
      decreases Left(Stream(), pos), 1
    {
      hide ReadBits, ReadVarint, Unpack, NullMap, BranchIfPresent, DepthFirst.WalkBranch;
      ghost var s := Stream();
      ghost var goal := DepthFirst.DfsWalk(sym, s, pos, end, keyStack);
      NullMapEmpty(result);
      while pos < end
        invariant Valid() && pos >= old(pos) && old(keyStack) <= keyStack && result == old(result)
        invariant pos > old(pos) ==> pos <= |s|
        invariant goal == DepthFirst.DfsWalk(sym, s, pos, end, keyStack)
        decreases Left(s, pos)
      {
        var code :- Read(sym.bps);
        if code == sym.ctrl[END] || code == sym.ctrl[END_VAL] {
          if code != sym.ctrl[END] {
            var _ :- ReadVarUint();
          }
          result := result[keyStack := Null];
          ghost var key := keyStack;
          res := WalkBranchIfPresent(end);
          if res.Ok? {
            ghost var below := goal.value.keys[1..];
            NullMapFirst(old(result), key, below);
            assert goal.value.keys == [key] + below;
          }
          return;
        }
        if code == sym.ctrl[BRANCH] {
          var n :- ReadVarUint();
          res := WalkBranch(n, end);
          return;
        }
        keyStack := keyStack + [ByteOf(sym, code)];
      }
      return Ok(());
    }

    method WalkBranchIfPresent(end: nat) returns (res: Result<()>)
      requires Valid()
      modifies this`pos, this`keyStack, this`result, r
      ensures Valid()
      ensures match BranchIfPresent(sym, Stream(), old(pos), end, old(keyStack))
              case Err(e) => res == Err(e)
              case Ok(w) => res == Ok(()) && pos == w.pos && result == old(result) + NullMap(w.keys) && old(keyStack) <= keyStack
      decreases Left(Stream(), pos), 0
    {
      hide ReadBits, ReadVarint, Unpack, NullMap;
      NullMapEmpty(result);
      if pos >= end {
        return Ok(());
      }
      var code :- Read(sym.bps);
      if code != sym.ctrl[BRANCH] {
        return Err(InvalidParam);
      }
      var n :- ReadVarUint();
      res := WalkBranch(n, end);
    }

    /** Child c of n: its SKIP if it has one, its subtree, and on to the next child. */
    method WalkChild(c: nat, n: nat, end: nat, savedKeyLen: nat, ghost base: nat) returns (res: Result<()>, ghost keys: seq<Key>)
      requires Valid() && c < n && savedKeyLen <= |keyStack| && base <= pos
      modifies this`pos, this`keyStack, this`result, r
      ensures Valid() && (res.Ok? ==> base <= pos)
      ensures var key := old(keyStack)[..savedKeyLen];
              var rest := DepthFirst.WalkBranch(sym, Stream(), base, old(pos), end, key, c, n);
              match res
              case Err(e) => rest == Err(e)
              case Ok(_) =>
                && key <= keyStack && result == old(result) + NullMap(keys)
                && rest == Joined(keys, DepthFirst.WalkBranch(sym, Stream(), base, pos, end, key, c + 1, n))
      decreases Left(Stream(), base), 2, 0
    {
      hide ReadBits, ReadVarint, Unpack, NullMap, DepthFirst.DfsWalk;
      keys := [];
      var hasSkip, skip := c < n - 1, 0;
      if hasSkip {
        var _ :- Read(sym.bps);
        skip :- ReadVarUint();
      }
      var childStart := pos;
      keyStack := keyStack[..savedKeyLen];
      var childEnd := if hasSkip then childStart + skip else end;
      ghost var child := DepthFirst.DfsWalk(sym, Stream(), pos, childEnd, keyStack);
      var _ :- DfsWalk(childEnd);
      keys := child.value.keys;
      if hasSkip {
        pos := childStart + skip;
      } else {
        assert keys + [] == keys;
      }
      return Ok(()), keys;
    }

    method WalkBranch(n: nat, end: nat) returns (res: Result<()>)
      requires Valid()
      modifies this`pos, this`keyStack, this`result, r
      ensures Valid()
      ensures match DepthFirst.WalkBranch(sym, Stream(), old(pos), old(pos), end, old(keyStack), 0, n)
              case Err(e) => res == Err(e)
              case Ok(w) => res == Ok(()) && pos == w.pos && result == old(result) + NullMap(w.keys) && keyStack == old(keyStack)
      decreases Left(Stream(), pos), 2, 1
    {
      hide Unpack, NullMap, Shaped, DepthFirst.WalkBranch;
      ghost var s, base, key, done := Stream(), pos, keyStack, [];
      ghost var goal := DepthFirst.WalkBranch(sym, s, base, base, end, key, 0, n);
      NullMapEmpty(result);
      WalkedNothing(goal);
      var savedKeyLen, c := |keyStack|, 0;
      while c < n
        invariant Valid() && 0 <= c <= n && savedKeyLen == |key| && key <= keyStack && base <= pos
        invariant result == old(result) + NullMap(done)
        invariant Joined(done, DepthFirst.WalkBranch(sym, s, base, pos, end, key, c, n)) == goal
      {
        ghost var keys;
        assert keyStack[..savedKeyLen] == key;
        res, keys := WalkChild(c, n, end, savedKeyLen, base);
        if res.Err? {
          return;
        }
        NullMapConcat(old(result), done, keys);
        JoinedNext(done, keys, DepthFirst.WalkBranch(sym, s, base, pos, end, key, c + 1, n));
        done := done + keys;
        c := c + 1;
      }
      keyStack := keyStack[..savedKeyLen];
      BranchDone(sym, s, base, pos, end, key, n);
      assert done + [] == done;
      return Ok(());
    }
  }

  lemma BranchDone(sym: Symbols, s: seq<bool>, base: nat, pos: nat, end: nat, key: Key, n: nat)
    requires Shaped(sym) && base <= pos
    ensures DepthFirst.WalkBranch(sym, s, base, pos, end, key, n, n) == Ok(Walked([], pos))
  {
  }

  /** What is left to walk, after some keys. */
  ghost function Joined(done: seq<Key>, rest: Result<Walked>): Result<Walked> {
    if rest.Err? then rest else Ok(rest.value.(keys := done + rest.value.keys))
  }

  lemma WalkedNothing(goal: Result<Walked>)
    ensures Joined([], goal) == goal
  {
    assert goal.Ok? ==> [] + goal.value.keys == goal.value.keys;
  }

  lemma JoinedNext(done: seq<Key>, child: seq<Key>, rest: Result<Walked>)
    ensures Joined(done + child, rest) == Joined(done, Joined(child, rest))
  {
    assert rest.Ok? ==> (done + child) + rest.value.keys == done + (child + rest.value.keys);
  }

  /** The keys of the result, sorted; the map hands them out in any order. */
  method SortKeys(m: map<Key, Value>) returns (ks: seq<Key>)
    ensures ks == SortedKeys(m.Keys)
  {
    var left := m.Keys;
    ks := [];
    while left != {}
      invariant left <= m.Keys && KeysAscend(ks)
      invariant forall k :: k in ks <==> k in m.Keys && k !in left
      decreases |left|
    {
      var k :| k in left;
      InsertKeyAscends(ks, k);
      ks := InsertKey(ks, k);
      left := left - {k};
    }
    AscendingUnique(ks, SortedKeys(m.Keys));
  }

  method RefillFrom(r: BitReader, start: nat, ks: seq<Key>, m: map<Key, Value>) returns (res: Result<map<Key, Value>>)
    requires r.Valid() && r.bitLen == 8 * |r.buf|
    modifies r
    ensures res == Refill(Unpack(r.buf), start, ks, m)
  {
    hide ReadValue, Unpack;
    ghost var s := Unpack(r.buf);
    assert r.Stream() == s;
    var result, i := m, 0;
    assert ks[0..] == ks;
    var sought := r.Seek(start);
    if sought.Err? {
      if |ks| > 0 {
        NothingPastEnd(s, start);
        return Err(Eof);
      }
      return Ok(m);
    }
    while i < |ks|
      invariant 0 <= i <= |ks| && r.Valid()
      invariant Refill(s, start, ks, m) == Refill(s, r.pos, ks[i..], result)
    {
      assert ks[i..][1..] == ks[i + 1..];
      var v :- DecodeValue(r);
      if v.Reserved? {
        return Err(InvalidParam);
      }
      result := result[ks[i] := v];
      i := i + 1;
    }
    return Ok(result);
  }

  lemma NothingPastEnd(s: seq<bool>, pos: nat)
    requires pos > |s|
    ensures ReadValue(s, pos) == Err(Eof)
  {
  }

  method Decode(buf: seq<byte>) returns (res: Result<map<Key, Value>>)
    ensures res == DecodeMap(buf)
  {
    hide Unpack, Crc32, U32, Field32, Field16, ParseConfig, DepthFirst.DfsWalk, NullMap, Refill, SortedKeys;
    if |buf| < HEADER_SIZE + 4 {
      return Err(Truncated);
    }
    if buf[..4] != MAGIC {
      return Err(BadMagic);
    }
    if buf[4] != VERSION_MAJOR {
      return Err(Version);
    }
    var actual := Crc32Of(buf[..|buf| - 4]);
    if buf[|buf| - 4..] != U32(actual) {
      return Err(Corrupt);
    }
    if Field32(buf, 8) == 0 {
      return Ok(map[]);
    }
    res := DecodeData(buf, HasValues(Field16(buf, 6)), DATA_START + Field32(buf, 12), DATA_START + Field32(buf, 16));
  }

  method DecodeData(buf: seq<byte>, hasValues: bool, trieStart: nat, valueStart: nat) returns (res: Result<map<Key, Value>>)
    requires |buf| >= HEADER_SIZE
    ensures res == DecodeStream(Unpack(buf), hasValues, trieStart, valueStart)
  {
    hide Unpack, ParseConfig, DepthFirst.DfsWalk, NullMap, Refill, SortedKeys;
    var r := new BitReader(buf, 8 * |buf|);
    assert r.Stream() == Unpack(buf);
    var _ := r.Seek(DATA_START);
    var sym :- ReadConfig(r);
    var walker := new MapDecoder(r, sym, trieStart);
    NullMapOnly(walker.result);
    var _ :- walker.DfsWalk(valueStart);
    if hasValues {
      var ks := SortKeys(walker.result);
      res := RefillFrom(r, valueStart, ks, walker.result);
      return;
    }
    return Ok(walker.result);
  }

  lemma NullMapOnly(m: map<Key, Value>)
    requires m == map[]
    ensures forall ks :: m + NullMap(ks) == NullMap(ks)
  {
  }
}
