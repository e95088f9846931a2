/** The resumable iterator as an object: a fixed stack of frames, a growing key buffer and a
    value cursor, updated in place by every call. */
module Iterators {
  import opened Bits
  import opened Results
  import opened Varint
  import opened BitStream
  import opened Keys
  import opened Values
  import opened Trie
  import opened Dictionary
  import opened Iteration
  import opened IterationYields

  /** Outcome of walking down, in the iterator's own terms. */
  datatype Descent = Found(hasIndex: bool, index: nat) | Continue | Failed(error: Error)

  /** What a descent makes of the terminal symbol before pos. */
  ghost function TerminalVisit(sym: Symbols, s: seq<bool>, pos: nat, end: nat, code: nat, key: Key, stack: seq<Frame>): Visit
    requires Shaped(sym)
  {
    if code == sym.ctrl[END_VAL] then
      match ReadVarint(s, pos)
      case Err(e) => Bad(e)
      case Ok(v) => KeyVisit(sym, s, v.1, end, true, v.0, key, stack)
    else KeyVisit(sym, s, pos, end, false, 0, key, stack)
  }

  ghost function KeyVisit(
    sym: Symbols, s: seq<bool>, pos: nat, end: nat, hasIndex: bool, index: nat, key: Key, stack: seq<Frame>): Visit
    requires Shaped(sym)
  {
    match BranchAfterKey(sym, s, pos, end, |key|, stack)
    case Err(e) => Bad(e)
    case Ok(st) => Emit(hasIndex, index, key, st)
  }

  ghost function BranchVisit(sym: Symbols, s: seq<bool>, pos: nat, end: nat, key: Key, stack: seq<Frame>): Visit {
    match ReadVarint(s, pos)
    case Err(e) => Bad(e)
    case Ok(n) =>
      match PushFrame(stack, end, n.1, n.0, |key|)
      case Err(e) => Bad(e)
      case Ok(st) => Deeper(key, st)
  }

  /** A descent, one symbol at a time. */
  lemma DescendStep(sym: Symbols, s: seq<bool>, pos: nat, end: nat, key: Key, stack: seq<Frame>)
    requires Shaped(sym)
    ensures Descend(sym, s, pos, end, key, stack)
         == if pos >= end then Deeper(key, stack) else
            match ReadBits(s, pos, sym.bps)
            case Err(e) => Bad(e)
            case Ok(code) =>
              var p := pos + sym.bps;
              if code == sym.ctrl[END] || code == sym.ctrl[END_VAL] then TerminalVisit(sym, s, p, end, code, key, stack)
              else if code == sym.ctrl[BRANCH] then BranchVisit(sym, s, p, end, key, stack)
              else if IsControl(sym, code) then Bad(Corrupt)
              else Descend(sym, s, p, end, key + [ByteOf(sym, code)], stack)
  {
    hide ReadBits, ReadVarint, BranchAfterKey, PushFrame, IsControl;
  }

  lemma WholeStream(r: BitReader)
    requires r.bitLen == 8 * |r.buf|
    ensures r.Stream() == Unpack(r.buf)
  {
  }

  class Iterator {
    const buf: seq<byte>
    const d: Dict
    const stack: array<Frame>
    var depth: nat
    var keyBuf: array<byte>
    var keyLen: nat
    var pos: nat
    var started: bool
    var done: bool
    var rootPos: nat
    var rootEnd: nat
    var rootKeyLen: nat
    var valuePos: nat
    var valueIndex: nat

    /** Key bytes below the root prefix are never overwritten, because every frame was pushed
        with at least that much key. */
    ghost predicate Valid()
      reads this, stack, keyBuf
      ensures Valid() ==> Shaped(d.sym) && depth <= stack.Length == MAX_DEPTH && rootKeyLen <= keyLen <= keyBuf.Length
      ensures Valid() ==> Unpack(buf) == d.s
    {
      && Unpack(buf) == d.s && Shaped(d.sym)
      && stack.Length == MAX_DEPTH && depth <= MAX_DEPTH
      && rootKeyLen <= keyLen <= keyBuf.Length
      && (forall i :: 0 <= i < depth ==> rootKeyLen <= stack[i].keyLen <= keyLen)
      && (forall i, j :: 0 <= i < j < depth ==> stack[i].keyLen <= stack[j].keyLen)
      && (!started ==> depth == 0)
    }

    ghost function Key(): Key
      reads this, keyBuf
      requires keyLen <= keyBuf.Length
    {
      keyBuf[..keyLen]
    }

    ghost function Prefix(): Key
      reads this, keyBuf
      requires rootKeyLen <= keyBuf.Length
    {
      keyBuf[..rootKeyLen]
    }

    ghost function Frames(): seq<Frame>
      reads this, stack
      requires depth <= stack.Length
    {
      stack[..depth]
    }

    ghost function Snapshot(): Iter
      reads this, stack, keyBuf
      requires Valid()
    {
      Iter(done, started, Key(), Frames(), rootPos, rootEnd, rootKeyLen, valuePos, valueIndex)
    }

    constructor (buf: seq<byte>, d: Dict)
      requires Unpack(buf) == d.s && Shaped(d.sym)
      ensures Valid() && fresh(stack) && fresh(keyBuf)
      ensures this.buf == buf && this.d == d && Snapshot() == Iterate(d)
    {
      this.buf, this.d := buf, d;
      stack := new Frame[MAX_DEPTH](_ => Frame(0, 0, 0, 0));
      keyBuf := new byte[256](_ => 0);
      depth, keyLen, pos, started, done := 0, 0, d.trieStart, false, false;
      rootPos, rootEnd, rootKeyLen := d.trieStart, d.valueStart, 0;
      valuePos, valueIndex := d.valueStart, 0;
    }

    /** Starts over, from any state: the same prefix, nothing visited. */
    method Reset()
      requires Valid()
      modifies this
      ensures Valid() && keyBuf == old(keyBuf)
      ensures Snapshot() == Iter(false, false, old(Prefix()), [], old(rootPos), old(rootEnd), old(rootKeyLen), d.valueStart, 0)
    {
      pos, done, keyLen, depth, started := rootPos, false, rootKeyLen, 0, false;
      valuePos, valueIndex := d.valueStart, 0;
    }

    /** An iterator that yields nothing. */
    method Finish()
      requires Valid()
      modifies this`done
      ensures Valid() && Snapshot() == old(Snapshot()).(done := true)
    {
      done := true;
    }

    /** Restricts a fresh iterator to a subtree below a prefix already in place. */
    method Seed(prefix: Key, subPos: nat, subEnd: nat)
      requires Valid() && Snapshot() == Iterate(d)
      modifies this, keyBuf
      ensures Valid() && (keyBuf == old(keyBuf) || fresh(keyBuf))
      ensures Snapshot() == Iterate(d).(key := prefix, rootPos := subPos, rootEnd := subEnd, rootKeyLen := |prefix|)
    {
      hide Unpack;
      Reserve(|prefix|);
      CopyPrefix(prefix);
      rootPos, rootEnd, rootKeyLen, keyLen := subPos, subEnd, |prefix|, |prefix|;
      Reset();
    }

    method CopyPrefix(prefix: Key)
      requires |prefix| <= keyBuf.Length
      modifies keyBuf
      ensures keyBuf[..|prefix|] == prefix
    {
      var i := 0;
      while i < |prefix|
        invariant 0 <= i <= |prefix| && keyBuf[..i] == prefix[..i]
      {
        keyBuf[i] := prefix[i];
        i := i + 1;
      }
    }

    /** Room for a key of the needed length; the key stays. */
    method Reserve(needed: nat)
      requires Valid()
      modifies this`keyBuf
      ensures Valid() && (keyBuf == old(keyBuf) || fresh(keyBuf))
      ensures needed <= keyBuf.Length && Key() == old(Key()) && Prefix() == old(Prefix())
    {
      if needed <= keyBuf.Length {
        return;
      }
      var cap := if keyBuf.Length > 0 then keyBuf.Length else 256;
      while cap < needed
        invariant keyBuf.Length <= cap && cap > 0
      {
        cap := 2 * cap;
      }
      var grown := new byte[cap](i requires 0 <= i reads this, keyBuf => if i < keyBuf.Length then keyBuf[i] else 0);
      assert grown[..keyBuf.Length] == keyBuf[..];
      assert grown[..keyLen] == keyBuf[..keyLen] && grown[..rootKeyLen] == keyBuf[..rootKeyLen];
      keyBuf := grown;
    }

    method PushKey(b: byte)
      requires Valid()
      modifies this`keyBuf, this`keyLen, keyBuf
      ensures Valid() && (keyBuf == old(keyBuf) || fresh(keyBuf))
      ensures Key() == old(Key()) + [b] && Prefix() == old(Prefix())
      ensures Frames() == old(Frames())
    {
      Reserve(keyLen + 1);
      keyBuf[keyLen] := b;
      keyLen := keyLen + 1;
    }

    method PushBranch(end: nat, next: nat, count: nat) returns (r: Result<()>)
      requires Valid() && started
      modifies this`depth, stack
      ensures Valid()
      ensures match PushFrame(old(Frames()), end, next, count, keyLen)
              case Err(e) => r == Err(e)
              case Ok(st) => r == Ok(()) && Frames() == st
    {
      if depth + 1 > MAX_DEPTH {
        return Err(Overflow);
      }
      stack[depth] := Frame(end, next, count % UINT32, keyLen);
      depth := depth + 1;
      assert stack[..depth - 1] == old(stack[..depth]);
      return Ok(());
    }

    /** Drops finished frames; the sibling to move to stays the same. */
    method Unwind()
      requires Valid() && started
      modifies this`depth
      ensures Valid() && depth <= old(depth)
      ensures Sibling(d.sym, d.s, Frames()) == Sibling(d.sym, d.s, old(Frames()))
      ensures depth > 0 ==> stack[depth - 1].remaining > 0
    {
      hide ReadBits, ReadVarint, Unpack;
      while depth > 0 && stack[depth - 1].remaining == 0
        invariant Valid() && Sibling(d.sym, d.s, Frames()) == Sibling(d.sym, d.s, old(Frames()))
      {
        assert stack[..depth][..depth - 1] == stack[..depth - 1];
        depth := depth - 1;
      }
    }

    /** Cuts the key back to where the innermost branch left it. */
    method Retreat()
      requires Valid() && depth > 0
      modifies this`keyLen
      ensures Valid() && keyLen == stack[depth - 1].keyLen
      ensures Key() == Truncate(old(Key()), keyLen) && Prefix() == old(Prefix()) && Frames() == old(Frames())
    {
      keyLen := stack[depth - 1].keyLen;
    }

    /** The first call starts at the root, with the prefix in place. */
    method Begin(r: BitReader) returns (res: Result<nat>)
      requires Valid() && r.Valid() && r.buf == buf && r.bitLen == 8 * |buf| && !started
      modifies this`keyLen, this`pos, this`started, r
      ensures Valid() && r.Valid() && Prefix() == old(Prefix()) && started && Frames() == old(Frames())
      ensures if rootPos > |d.s| then res == Err(InvalidPosition)
              else res == Ok(rootEnd) && pos == r.pos == rootPos && Key() == Truncate(old(Key()), rootKeyLen)
    {
      started := true;
      pos, keyLen := rootPos, rootKeyLen;
      var _ :- r.Seek(pos);
      return Ok(rootEnd);
    }

    method SetCursor(p: nat, index: nat)
      requires Valid()
      modifies this`valuePos, this`valueIndex
      ensures Valid() && Snapshot() == old(Snapshot()).(valuePos := p, valueIndex := index)
    {
      valuePos, valueIndex := p, index;
    }

    method EnterChild(p: nat, f: Frame)
      requires Valid() && depth > 0 && keyLen == f.keyLen == stack[depth - 1].keyLen
      modifies stack, this`pos
      ensures Valid() && pos == p && Frames() == old(Frames())[..depth - 1] + [f]
    {
      hide Unpack;
      pos := p;
      stack[depth - 1] := f;
      assert stack[..depth] == old(stack[..depth])[..depth - 1] + [f];
    }

    /** To the next unvisited sibling, unwinding finished frames; the result is where its
        subtree ends. */
    method MoveToSibling(r: BitReader) returns (res: Result<nat>)
      requires Valid() && r.Valid() && r.buf == buf && r.bitLen == 8 * |buf| && started
      modifies this`depth, this`keyLen, this`pos, stack, r
      ensures Valid() && r.Valid() && Prefix() == old(Prefix())
      ensures match Sibling(d.sym, d.s, old(Frames()))
              case Err(e) => res == Err(e)
              case Ok(c) => res == Ok(c.end) && pos == r.pos == c.pos && Frames() == c.stack
                            && Key() == Truncate(old(Key()), c.keyLen)
    {
      hide Valid, Unpack;
      Unwind();
      if depth == 0 {
        return Err(Eof);
      }
      Retreat();
      res := NextChild(r);
    }

    /** Into the next child of the innermost branch. */
    method NextChild(r: BitReader) returns (res: Result<nat>)
      requires Valid() && r.Valid() && r.buf == buf && r.bitLen == 8 * |buf|
      requires depth > 0 && stack[depth - 1].remaining > 0 && keyLen == stack[depth - 1].keyLen
      modifies this`pos, stack, r
      ensures Valid() && r.Valid()
      ensures match Sibling(d.sym, d.s, old(Frames()))
              case Err(e) => res == Err(e)
              case Ok(c) => res == Ok(c.end) && pos == r.pos == c.pos && Frames() == c.stack && keyLen == c.keyLen
    {
      hide Valid, ReadBits, ReadVarint, Unpack, Prefix;
      assert r.Stream() == d.s by { WholeStream(r); }
      var f := stack[depth - 1];
      assert Frames()[|Frames()| - 1] == f;
      var _ :- r.Seek(f.nextChild);
      var subtreeEnd;
      if f.remaining > 1 {
        var code :- r.ReadBits(d.sym.bps);
        if code != d.sym.ctrl[SKIP] {
          return Err(Corrupt);
        }
        var dist :- r.ReadVarintU();
        subtreeEnd := r.pos + dist;
        f := f.(nextChild := r.pos + dist);
      } else {
        subtreeEnd := f.subtreeEnd;
      }
      EnterChild(r.pos, f.(remaining := f.remaining - 1));
      return Ok(subtreeEnd);
    }

    /** Down the subtree that ends at `end` until a key or a branch turns up. */
    method WalkDown(r: BitReader, end: nat) returns (res: Descent)
      requires Valid() && r.Valid() && r.buf == buf && r.bitLen == 8 * |buf| && r.pos == pos && started
      modifies this`depth, this`keyLen, this`keyBuf, keyBuf, stack, r
      ensures Valid() && r.Valid() && (keyBuf == old(keyBuf) || fresh(keyBuf)) && Prefix() == old(Prefix())
      ensures match Descend(d.sym, d.s, pos, end, old(Key()), old(Frames()))
              case Bad(e) => res == Failed(e)
              case Emit(h, i, k, st) => res == Found(h, i) && Key() == k && Frames() == st
              case Deeper(k, st) => res == Continue && Key() == k && Frames() == st
    {
      hide Valid, Descend, Unpack, ReadBits, ReadVarint, PushFrame, TerminalVisit, IsControl;
      ghost var frames := Frames();
      ghost var goal := Descend(d.sym, d.s, pos, end, Key(), frames);
      assert r.Stream() == d.s by { WholeStream(r); }
      while r.pos < end
        invariant Valid() && r.Valid() && (keyBuf == old(keyBuf) || fresh(keyBuf)) && Prefix() == old(Prefix())
        invariant Frames() == frames
        invariant goal == Descend(d.sym, d.s, r.pos, end, Key(), frames)
        decreases r.bitLen - r.pos
      {
        DescendStep(d.sym, d.s, r.pos, end, Key(), frames);
        var read := r.ReadBits(d.sym.bps);
        if read.Err? {
          return Failed(read.error);
        }
        var code := read.value;
        if code == d.sym.ctrl[END] || code == d.sym.ctrl[END_VAL] {
          res := AtTerminal(r, end, code);
          return;
        }
        if code == d.sym.ctrl[BRANCH] {
          var n := r.ReadVarintU();
          if n.Err? {
            return Failed(n.error);
          }
          var pushed := PushBranch(end, r.pos, n.value);
          return if pushed.Err? then Failed(pushed.error) else Continue;
        }
        if IsControl(d.sym, code) {
          return Failed(Corrupt);
        }
        PushKey(ByteOf(d.sym, code));
      }
      DescendStep(d.sym, d.s, r.pos, end, Key(), frames);
      return Continue;
    }

    /** Behind the terminal symbol `code`: its index if it has one, and the branch after it. */
    method AtTerminal(r: BitReader, end: nat, code: nat) returns (res: Descent)
      requires Valid() && r.Valid() && r.buf == buf && r.bitLen == 8 * |buf| && started
      modifies this`depth, stack, r
      ensures Valid() && r.Valid()
      ensures match TerminalVisit(d.sym, d.s, old(r.pos), end, code, Key(), old(Frames()))
              case Bad(e) => res == Failed(e)
              case Emit(h, i, k, st) => res == Found(h, i) && Key() == k && Frames() == st
              case Deeper(k, st) => false
    {
      hide Valid, Unpack, ReadBits, ReadVarint, PushFrame;
      assert r.Stream() == d.s by { WholeStream(r); }
      var hasIndex := code == d.sym.ctrl[END_VAL];
      var index := 0;
      if hasIndex {
        var v := r.ReadVarintU();
        if v.Err? {
          return Failed(v.error);
        }
        index := v.value;
      }
      if r.pos < end {
        var next := r.ReadBits(d.sym.bps);
        if next.Err? {
          return Failed(next.error);
        }
        if next.value != d.sym.ctrl[BRANCH] {
          return Failed(Corrupt);
        }
        var n := r.ReadVarintU();
        if n.Err? {
          return Failed(n.error);
        }
        var pushed := PushBranch(end, r.pos, n.value);
        if pushed.Err? {
          return Failed(pushed.error);
        }
      }
      return Found(hasIndex, index);
    }

    /** The value at a store index, keeping the cursor in step. */
    method IterValueAt(index: nat) returns (res: Result<Value>)
      requires Valid()
      modifies this`valuePos, this`valueIndex
      ensures Valid()
      ensures match Iteration.ValueAt(d, old(Snapshot()), index)
              case Err(e) => res == Err(e)
              case Ok(v) => res == Ok(v.0) && Snapshot() == v.1
    {
      hide Valid, Unpack, ReadValue, Key, Frames;
      ghost var it := Snapshot();
      if !d.hasValues {
        return Ok(Null);
      }
      var r := new BitReader(buf, 8 * |buf|);
      assert r.Stream() == d.s by { WholeStream(r); }
      if index != valueIndex {
        var _ :- r.Seek(d.valueStart);
        var i := 0;
        while i < index
          invariant i <= index && Valid() && r.Valid() && Snapshot() == it
          invariant ScanValues(d.s, d.valueStart, index) == ScanValues(d.s, r.pos, index - i)
        {
          var _ :- DecodeValue(r);
          i := i + 1;
        }
        SetCursor(r.pos, index);
      }
      assert Snapshot() == it.(valuePos := valuePos, valueIndex := index);
      var _ :- r.Seek(valuePos);
      var v :- DecodeValue(r);
      SetCursor(r.pos, index + 1);
      return Ok(v);
    }

    /** Walks on to the next key. */
    method Locate(r: BitReader) returns (res: Descent)
      requires Valid() && r.Valid() && r.buf == buf && r.bitLen == 8 * |buf|
      modifies this`depth, this`keyLen, this`keyBuf, this`pos, this`started, stack, keyBuf, r
      ensures Valid() && (keyBuf == old(keyBuf) || fresh(keyBuf)) && Prefix() == old(Prefix())
      ensures !res.Continue?
      ensures match Start(d.sym, d.s, old(Snapshot()))
              case Bad(e) => res == Failed(e)
              case Emit(h, i, k, st) => res == Found(h, i) && started && Key() == k && Frames() == st
    {
      hide Valid, Search, Descend, Sibling, Unpack, Fuel, Weight;
      ghost var goal := Start(d.sym, d.s, Snapshot());
      var end;
      if !started {
        var begun := Begin(r);
        if begun.Err? {
          return Failed(begun.error);
        }
        end := begun.value;
      } else {
        var next := MoveToSibling(r);
        if next.Err? {
          return Failed(next.error);
        }
        end := next.value;
      }
      while true
        invariant Valid() && (keyBuf == old(keyBuf) || fresh(keyBuf)) && Prefix() == old(Prefix())
        invariant started && r.Valid() && r.pos == pos
        invariant goal == Search(d.sym, d.s, pos, end, Key(), Frames())
        decreases Fuel(Frames())
      {
        ghost var key, frames := Key(), Frames();
        SearchUnfold(d.sym, d.s, pos, end, key, frames);
        DescendFuel(d.sym, d.s, pos, end, key, frames);
        res := WalkDown(r, end);
        if !res.Continue? {
          return;
        }
        SiblingFuel(d.sym, d.s, Frames());
        var next := MoveToSibling(r);
        if next.Err? {
          return Failed(next.error);
        }
        end := next.value;
      }
    }

    /** A call on an iterator that has not stopped. */
    method Step() returns (out: Outcome)
      requires Valid() && !done && d.numKeys > 0
      modifies this`depth, this`keyLen, this`keyBuf, this`pos, this`started, this`valuePos, this`valueIndex, stack, keyBuf
      ensures Valid() && (keyBuf == old(keyBuf) || fresh(keyBuf)) && Prefix() == old(Prefix())
      ensures out == Iteration.Next(d, old(Snapshot())).0
      ensures out.Yield? ==> Snapshot() == Iteration.Next(d, old(Snapshot())).1
    {
      hide Valid, Start, Unpack, ValueAt;
      var r := new BitReader(buf, 8 * |buf|);
      var located := Locate(r);
      match located {
        case Failed(e) => return Stop(e);
        case Found(hasIndex, index) =>
          if hasIndex {
            var v := IterValueAt(index);
            return if v.Err? then Stop(v.error) else Yield(keyBuf[..keyLen], v.value);
          }
          return Yield(keyBuf[..keyLen], Null);
      }
    }

    /** One call: the outcome and the new state are those of the functional iterator. Once a
        call has stopped, only a reset revives the iterator. */
    method Next() returns (out: Outcome)
      requires Valid()
      modifies this, stack, keyBuf
      ensures Valid() && (keyBuf == old(keyBuf) || fresh(keyBuf)) && Prefix() == old(Prefix())
      ensures out == Iteration.Next(d, old(Snapshot())).0
      ensures if out.Yield? then Snapshot() == Iteration.Next(d, old(Snapshot())).1 else done
      ensures rootPos == old(rootPos) && rootEnd == old(rootEnd) && rootKeyLen == old(rootKeyLen)
    {
      if done {
        return Stop(Eof);
      }
      if d.numKeys == 0 {
        done := true;
        return Stop(Eof);
      }
      out := Step();
      if out.Stop? {
        done := true;
      }
    }
  }
}
