/** Streams that were cut off: whatever a reader gets from a prefix of a stream, on any bits at all, is
    what it gets from the whole stream, or an error that says that the bits ran out. */
module Truncation {
  import opened Bits
  import opened Results
  import opened Varint
  import opened BitStream
  import opened Keys
  import opened Values
  import opened Trie
  import opened Dictionary
  import opened Iteration
  import opened Lookup
  import opened PrefixSearch
  import opened DepthFirst

  predicate RanOff(e: Error) {
    e == Eof || e == InvalidPosition
  }

  /** The result on the prefix against the result on the whole. */
  predicate Short<T(==)>(part: Result<T>, whole: Result<T>) {
    part == whole || (part.Err? && RanOff(part.error))
  }

  lemma BitsShort(s: seq<bool>, t: seq<bool>, pos: nat, n: nat)
    requires s <= t
    ensures ReadBits(s, pos, n) == ReadBits(t, pos, n) || ReadBits(s, pos, n) == Err(Eof)
  {
    if pos + n <= |s| {
      assert s[pos..pos + n] == t[pos..pos + n];
    }
  }

  lemma BitsThere(s: seq<bool>, pos: nat, n: nat)
    ensures ReadBits(s, pos, n).Ok? <==> pos + n <= |s|
  {
  }

  lemma {:induction false} GroupsShort(s: seq<bool>, t: seq<bool>, pos: nat, groups: nat)
    requires s <= t
    ensures ReadGroups(s, pos, groups) == ReadGroups(t, pos, groups) || ReadGroups(s, pos, groups) == Err(Eof)
    decreases groups
  {
    hide Val;
    if groups > 0 && pos + 8 <= |s| {
      assert s[pos..pos + 8] == t[pos..pos + 8];
      GroupsShort(s, t, pos + 8, groups - 1);
    }
  }

  lemma VarintShort(s: seq<bool>, t: seq<bool>, pos: nat)
    requires s <= t
    ensures ReadVarint(s, pos) == ReadVarint(t, pos) || ReadVarint(s, pos) == Err(Eof)
  {
    hide ReadGroups;
    GroupsShort(s, t, pos, 10);
  }

  lemma BytesShort(s: seq<bool>, t: seq<bool>, pos: nat)
    requires s <= t
    ensures Short(ReadBytes(s, pos), ReadBytes(t, pos))
  {
    hide ReadVarint, Pack;
    VarintShort(s, t, pos);
    var len := ReadVarint(s, pos);
    if len.Ok? {
      var start := len.value.1 + |Padding(len.value.1)|;
      if start + 8 * len.value.0 <= |s| {
        assert s[start..start + 8 * len.value.0] == t[start..start + 8 * len.value.0];
      }
    }
  }

  lemma ValueShort(s: seq<bool>, t: seq<bool>, pos: nat)
    requires s <= t
    ensures Short(ReadValue(s, pos), ReadValue(t, pos))
  {
    hide ReadVarint, ReadBits, ReadBytes;
    BitsShort(s, t, pos, 4);
    BitsShort(s, t, pos + 4, 1);
    BitsShort(s, t, pos + 4, 32);
    BitsShort(s, t, pos + 4, 64);
    VarintShort(s, t, pos + 4);
    BytesShort(s, t, pos + 4);
  }

  lemma {:induction false} ScanShort(s: seq<bool>, t: seq<bool>, pos: nat, n: nat)
    requires s <= t
    ensures Short(ScanValues(s, pos, n), ScanValues(t, pos, n))
    decreases n
  {
    hide ReadValue;
    if n > 0 {
      ValueShort(s, t, pos);
      var v := ReadValue(s, pos);
      if v.Ok? {
        ScanShort(s, t, v.value.1, n - 1);
      }
    }
  }

  lemma {:induction false} ChildShort(sym: Symbols, s: seq<bool>, t: seq<bool>, pos: nat, c: nat, n: nat, b: byte)
    requires Shaped(sym) && s <= t
    ensures Short(ChooseChild(sym, s, pos, c, n, b), ChooseChild(sym, t, pos, c, n, b))
    decreases if c < n then n - c else 0
  {
    hide ReadBits, ReadVarint;
    BitsShort(s, t, pos, sym.bps);
    VarintShort(s, t, pos + sym.bps);
    var d := ReadVarint(s, pos + sym.bps);
    if c + 1 < n && d.Ok? {
      BitsShort(s, t, d.value.1, sym.bps);
      ChildShort(sym, s, t, d.value.1 + d.value.0, c + 1, n, b);
    }
  }

  predicate ShortHit(part: Hit, whole: Hit) {
    part == whole || (part.Miss? && (RanOff(part.error) || part.error == NotFound))
  }

  lemma {:induction false} ProbeShort(sym: Symbols, s: seq<bool>, t: seq<bool>, pos: nat, key: Key, matched: nat, afterKey: bool)
    requires Shaped(sym) && matched <= |key| && s <= t
    ensures ShortHit(Probe(sym, s, pos, key, matched, afterKey), Probe(sym, t, pos, key, matched, afterKey))
    decreases if pos <= |s| then |s| - pos else 0
  {
    hide ReadVarint, ChooseChild, IsControl;
    BitsShort(s, t, pos, sym.bps);
    if pos + sym.bps <= |s| {
      var code, p := ReadBits(s, pos, sym.bps).value, pos + sym.bps;
      VarintShort(s, t, p);
      var n := ReadVarint(s, p);
      if code == sym.ctrl[END] {
        ProbeShort(sym, s, t, p, key, matched, true);
      } else if code == sym.ctrl[END_VAL] {
        if n.Ok? {
          ProbeShort(sym, s, t, n.value.1, key, matched, true);
        }
      } else if code == sym.ctrl[BRANCH] {
        if n.Ok? && matched < |key| {
          ChildShort(sym, s, t, n.value.1, 0, n.value.0, key[matched]);
          var q := ChooseChild(sym, s, n.value.1, 0, n.value.0, key[matched]);
          if q.Ok? {
            ProbeShort(sym, s, t, q.value, key, matched + 1, false);
          }
        }
      } else if matched < |key| {
        ProbeShort(sym, s, t, p, key, matched + 1, false);
      }
    }
  }

  /** Lookup in a dictionary that was cut off answers as in the whole one, or the bits ran out, which
      behind the end of a key reads as an absent key. */
  lemma LookupShort(d: Dict, s: seq<bool>, key: Key)
    requires Shaped(d.sym) && s <= d.s
    ensures var part, whole := LookupKey(d.(s := s), key), LookupKey(d, key);
            part == whole || (part.Err? && (RanOff(part.error) || part.error == NotFound))
  {
    hide Probe, ScanValues, ReadValue;
    ProbeShort(d.sym, s, d.s, d.trieStart, key, 0, false);
    match Probe(d.sym, s, d.trieStart, key, 0, false)
    case ValueHit(i) =>
      ScanShort(s, d.s, d.valueStart, i);
      var pos := ScanValues(s, d.valueStart, i);
      if pos.Ok? {
        ValueShort(s, d.s, pos.value);
      }
    case _ =>
  }

  lemma {:induction false} WalkShort(sym: Symbols, s: seq<bool>, t: seq<bool>, pos: nat, end: nat, key: Key)
    requires Shaped(sym) && s <= t
    ensures Walk(sym, s, pos, end, key) == Walk(sym, t, pos, end, key) || Walk(sym, s, pos, end, key) == Lost(Eof)
    decreases if pos <= |s| then |s| - pos else 0
  {
    hide ReadVarint, IsControl, ByteOf;
    BitsShort(s, t, pos, sym.bps);
    if pos < end && pos + sym.bps <= |s| {
      var code, p := ReadBits(s, pos, sym.bps).value, pos + sym.bps;
      VarintShort(s, t, p);
      WalkShort(sym, s, t, p, end, key + [ByteOf(sym, code)]);
    }
  }

  lemma BranchShort(sym: Symbols, s: seq<bool>, t: seq<bool>, pos: nat, end: nat, keyLen: nat, stack: seq<Frame>)
    requires Shaped(sym) && s <= t
    ensures Short(BranchAfterKey(sym, s, pos, end, keyLen, stack), BranchAfterKey(sym, t, pos, end, keyLen, stack))
  {
    hide ReadVarint, ReadBits, PushFrame;
    BitsShort(s, t, pos, sym.bps);
    VarintShort(s, t, pos + sym.bps);
  }

  predicate ShortVisit(part: Visit, whole: Visit) {
    part == whole || (part.Bad? && RanOff(part.error))
  }

  lemma DescentShort(sym: Symbols, s: seq<bool>, t: seq<bool>, pos: nat, end: nat, key: Key, stack: seq<Frame>)
    requires Shaped(sym) && s <= t
    ensures ShortVisit(Descend(sym, s, pos, end, key, stack), Descend(sym, t, pos, end, key, stack))
  {
    hide Walk, BranchAfterKey, PushFrame;
    WalkShort(sym, s, t, pos, end, key);
    match Walk(sym, s, pos, end, key)
    case AtKey(_, _, p, k) => BranchShort(sym, s, t, p, end, |k|, stack);
    case _ =>
  }

  lemma {:induction false} SiblingShort(sym: Symbols, s: seq<bool>, t: seq<bool>, stack: seq<Frame>)
    requires Shaped(sym) && s <= t
    ensures Short(Sibling(sym, s, stack), Sibling(sym, t, stack))
    decreases |stack|
  {
    hide ReadVarint, ReadBits;
    if stack != [] {
      var f := stack[|stack| - 1];
      SiblingShort(sym, s, t, stack[..|stack| - 1]);
      BitsShort(s, t, f.nextChild, sym.bps);
      VarintShort(s, t, f.nextChild + sym.bps);
    }
  }

  lemma {:induction false} SearchShort(sym: Symbols, s: seq<bool>, t: seq<bool>, pos: nat, end: nat, key: Key, stack: seq<Frame>)
    requires Shaped(sym) && s <= t && |stack| <= 256
    ensures ShortVisit(Search(sym, s, pos, end, key, stack), Search(sym, t, pos, end, key, stack))
    decreases Fuel(stack)
  {
    hide Descend, Sibling, Weight;
    DescentShort(sym, s, t, pos, end, key, stack);
    DescendFuel(sym, s, pos, end, key, stack);
    match Descend(sym, s, pos, end, key, stack)
    case Deeper(k, st) =>
      SiblingShort(sym, s, t, st);
      SiblingFuel(sym, s, st);
      var c := Sibling(sym, s, st);
      if c.Ok? {
        SearchShort(sym, s, t, c.value.pos, c.value.end, Truncate(k, c.value.keyLen), c.value.stack);
      }
    case _ =>
  }

  lemma StartShort(sym: Symbols, s: seq<bool>, t: seq<bool>, it: Iter)
    requires Shaped(sym) && s <= t && |it.stack| <= 256
    ensures ShortVisit(Start(sym, s, it), Start(sym, t, it))
  {
    hide Search, Sibling;
    SiblingShort(sym, s, t, it.stack);
    var c := Sibling(sym, s, it.stack);
    if it.started {
      if c.Ok? {
        SearchShort(sym, s, t, c.value.pos, c.value.end, Truncate(it.key, c.value.keyLen), c.value.stack);
      }
    } else {
      SearchShort(sym, s, t, it.rootPos, it.rootEnd, Truncate(it.key, it.rootKeyLen), it.stack);
    }
  }

  lemma IndexedShort(d: Dict, s: seq<bool>, it: Iter, index: nat)
    requires s <= d.s
    ensures Short(ValueAt(d.(s := s), it, index), ValueAt(d, it, index))
  {
    hide ScanValues, ReadValue;
    ScanShort(s, d.s, d.valueStart, index);
    ScanShort(s, d.s, it.valuePos, 0);
    var pos := if index != it.valueIndex then ScanFrom(s, d.valueStart, index) else ScanFrom(s, it.valuePos, 0);
    if pos.Ok? {
      ValueShort(s, d.s, pos.value);
    }
  }

  /** One call of an iterator, in whatever state: the same entry and the same state as on the whole
      stream, or the end of the bits. */
  lemma NextShort(d: Dict, s: seq<bool>, it: Iter)
    requires Shaped(d.sym) && s <= d.s && |it.stack| <= 256
    ensures var part, whole := Next(d.(s := s), it), Next(d, it);
            part == whole || (part.0.Stop? && RanOff(part.0.error) && part.1.done)
  {
    hide Start, ValueAt;
    StartShort(d.sym, s, d.s, it);
    match Start(d.sym, s, it)
    case Emit(h, i, k, st) => IndexedShort(d, s, it.(started := true, key := k, stack := st), i);
    case _ =>
  }

  lemma {:induction false} FindShort(
    sym: Symbols, s: seq<bool>, t: seq<bool>, preamble: nat, end: nat, c: nat, n: nat, want: nat)
    requires Shaped(sym) && s <= t
    ensures Short(FindChild(sym, s, preamble, end, c, n, want), FindChild(sym, t, preamble, end, c, n, want))
    decreases if c < n then n - c else 0
  {
    hide ReadBits, ReadVarint;
    BitsShort(s, t, preamble, sym.bps);
    VarintShort(s, t, preamble + sym.bps);
    var d := ReadVarint(s, preamble + sym.bps);
    if c + 1 < n && d.Ok? {
      BitsShort(s, t, d.value.1, sym.bps);
      FindShort(sym, s, t, d.value.1 + d.value.0, end, c + 1, n, want);
    }
  }

  lemma BranchToShort(sym: Symbols, s: seq<bool>, t: seq<bool>, pos: nat, end: nat, next: byte)
    requires Shaped(sym) && s <= t
    ensures Short(BranchTo(sym, s, pos, end, next), BranchTo(sym, t, pos, end, next))
  {
    hide ReadVarint, FindChild;
    VarintShort(s, t, pos);
    var n := ReadVarint(s, pos);
    if n.Ok? {
      FindShort(sym, s, t, n.value.1, end, 0, n.value.0, sym.codeOf[next]);
    }
  }

  lemma AfterShort(sym: Symbols, s: seq<bool>, t: seq<bool>, pos: nat, code: nat)
    requires Shaped(sym) && s <= t
    ensures Short(AfterKey(sym, s, pos, code), AfterKey(sym, t, pos, code))
  {
    hide ReadVarint;
    VarintShort(s, t, pos);
  }

  lemma {:induction false} DescendToShort(sym: Symbols, s: seq<bool>, t: seq<bool>, pos: nat, end: nat, prefix: Key, matched: nat)
    requires Shaped(sym) && matched <= |prefix| && s <= t
    ensures Short(DescendTo(sym, s, pos, end, prefix, matched), DescendTo(sym, t, pos, end, prefix, matched))
    decreases if pos <= |s| then |s| - pos else 0
  {
    hide AfterKey, BranchTo, IsControl, ByteOf, ReadBits;
    BitsShort(s, t, pos, sym.bps);
    BitsThere(s, pos, sym.bps);
    if matched < |prefix| && pos + sym.bps <= |s| {
      var code, p := ReadBits(s, pos, sym.bps).value, pos + sym.bps;
      if code == sym.ctrl[END] || code == sym.ctrl[END_VAL] {
        AfterShort(sym, s, t, p, code);
        var after := AfterKey(sym, s, p, code);
        if after.Ok? {
          BitsShort(s, t, after.value, sym.bps);
          BranchToShort(sym, s, t, after.value + sym.bps, end, prefix[matched]);
          TakenShort(sym, s, t, after.value + sym.bps, pos, end, prefix, matched);
        }
      } else if code == sym.ctrl[BRANCH] {
        BranchToShort(sym, s, t, p, end, prefix[matched]);
        TakenShort(sym, s, t, p, pos, end, prefix, matched);
      } else {
        DescendToShort(sym, s, t, p, end, prefix, matched + 1);
      }
    }
  }

  lemma {:induction false} TakenShort(
    sym: Symbols, s: seq<bool>, t: seq<bool>, p: nat, pos: nat, end: nat, prefix: Key, matched: nat)
    requires Shaped(sym) && matched < |prefix| && s <= t && pos < p && pos < |s|
    ensures var child := BranchTo(sym, s, p, end, prefix[matched]);
            child.Ok? ==> Short(DescendTo(sym, s, child.value.0, child.value.1, prefix, matched),
                                DescendTo(sym, t, child.value.0, child.value.1, prefix, matched))
    decreases if pos <= |s| then |s| - pos else 0, 0
  {
    hide BranchTo;
    var child := BranchTo(sym, s, p, end, prefix[matched]);
    if child.Ok? {
      DescendToShort(sym, s, t, child.value.0, child.value.1, prefix, matched);
    }
  }

  /** The search for a prefix starts on the same subtree, or the bits ran out. */
  lemma PrefixShort(d: Dict, s: seq<bool>, prefix: Key)
    requires Shaped(d.sym) && s <= d.s
    ensures Short(FindPrefix(d.(s := s), prefix), FindPrefix(d, prefix))
  {
    hide DescendTo;
    DescendToShort(d.sym, s, d.s, d.trieStart, d.valueStart, prefix, 0);
  }

  lemma {:induction false} DfsShortened(sym: Symbols, s: seq<bool>, t: seq<bool>, pos: nat, end: nat, key: Key)
    requires Shaped(sym) && s <= t
    ensures Short(DfsWalk(sym, s, pos, end, key), DfsWalk(sym, t, pos, end, key))
    decreases Left(s, pos), 1
  {
    hide ReadVarint, BranchIfPresent, WalkBranch, ByteOf;
    BitsShort(s, t, pos, sym.bps);
    if pos < end && pos + sym.bps <= |s| {
      var code, p := ReadBits(s, pos, sym.bps).value, pos + sym.bps;
      VarintShort(s, t, p);
      var n := ReadVarint(s, p);
      if code == sym.ctrl[END] {
        BehindKeyShort(sym, s, t, p, end, key);
      } else if code == sym.ctrl[END_VAL] {
        if n.Ok? {
          BehindKeyShort(sym, s, t, n.value.1, end, key);
        }
      } else if code == sym.ctrl[BRANCH] {
        if n.Ok? {
          KidsShort(sym, s, t, n.value.1, n.value.1, end, key, 0, n.value.0);
        }
      } else {
        DfsShortened(sym, s, t, p, end, key + [ByteOf(sym, code)]);
      }
    }
  }

  lemma {:induction false} BehindKeyShort(sym: Symbols, s: seq<bool>, t: seq<bool>, pos: nat, end: nat, key: Key)
    requires Shaped(sym) && s <= t
    ensures Short(BranchIfPresent(sym, s, pos, end, key), BranchIfPresent(sym, t, pos, end, key))
    decreases Left(s, pos), 0
  {
    hide ReadVarint, WalkBranch;
    BitsShort(s, t, pos, sym.bps);
    if pos < end && pos + sym.bps <= |s| {
      VarintShort(s, t, pos + sym.bps);
      var n := ReadVarint(s, pos + sym.bps);
      if n.Ok? {
        KidsShort(sym, s, t, n.value.1, n.value.1, end, key, 0, n.value.0);
      }
    }
  }

  lemma {:induction false} KidsShort(
    sym: Symbols, s: seq<bool>, t: seq<bool>, base: nat, pos: nat, end: nat, key: Key, c: nat, n: nat)
    requires Shaped(sym) && s <= t && base <= pos
    ensures Short(WalkBranch(sym, s, base, pos, end, key, c, n), WalkBranch(sym, t, base, pos, end, key, c, n))
    decreases Left(s, base), 2, if c < n then n - c else 0
  {
    hide ReadVarint, ReadBits, DfsWalk;
    if c + 1 < n {
      BitsShort(s, t, pos, sym.bps);
      VarintShort(s, t, pos + sym.bps);
      var d := ReadVarint(s, pos + sym.bps);
      if d.Ok? {
        DfsShortened(sym, s, t, d.value.1, d.value.1 + d.value.0, key);
        KidsShort(sym, s, t, base, d.value.1 + d.value.0, end, key, c + 1, n);
      }
    } else if c < n {
      DfsShortened(sym, s, t, pos, end, key);
    }
  }
}
