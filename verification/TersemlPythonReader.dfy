/** The Python reader: a cursor moved by one regular-expression search a run. */
module TersemlPythonReader {
  import opened BitOr
  import opened Bits
  import opened TersemlTree
  import opened TersemlWrite
  import opened TersemlRead
  import opened TersemlSteps

  /** The pieces between escapes, put together. */
  function Join(parts: seq<Bytes>): Bytes {
    if parts == [] then [] else Join(parts[..|parts| - 1]) + parts[|parts| - 1]
  }

  lemma JoinNext(parts: seq<Bytes>, part: Bytes)
    ensures Join(parts + [part]) == Join(parts) + part
  {
  }

  /** scan.search: the first reserved byte from pos on, or the end. */
  method Search(buf: Bytes, pos: nat, slot: Slot) returns (j: nat)
    requires pos <= |buf|
    ensures pos <= j <= |buf| && (j < |buf| ==> Reserved(slot, buf[j]))
    ensures forall k :: pos <= k < j ==> !Reserved(slot, buf[k])
  {
    j := pos;
    while j < |buf| && !Reserved(slot, buf[j])
      invariant pos <= j <= |buf| && forall k :: pos <= k < j ==> !Reserved(slot, buf[k])
    {
      j := j + 1;
    }
  }

  lemma NothingBefore(s: Bytes, i: nat, slot: Slot)
    ensures ReadEscaped(s, i, slot) == Prefixed(Join([]), ReadEscaped(s, i, slot))
  {
    var r := ReadEscaped(s, i, slot);
    assert r.Parsed? ==> [] + r.value == r.value;
  }

  class Reader {
    const buf: Bytes
    var i: nat

    constructor (buf: Bytes)
      ensures this.buf == buf && i == 0
    {
      this.buf := buf;
      i := 0;
    }

    method Peek() returns (r: Outcome<byte>)
      ensures r == if i < |buf| then Done(buf[i]) else Failed(Malformed)
    {
      if i >= |buf| {
        return Failed(Malformed);
      }
      return Done(buf[i]);
    }

    method Take() returns (r: Outcome<byte>)
      modifies this
      ensures r == if old(i) < |buf| then Done(buf[old(i)]) else Failed(Malformed)
      ensures i == if r.Done? then old(i) + 1 else old(i)
    {
      r := Peek();
      if r.Done? {
        i := i + 1;
      }
    }

    /** Up to the stop byte: one search and one slice when there is no escape, else the pieces
        between the escapes. */
    method ReadEscapedRun(slot: Slot) returns (r: Outcome<Bytes>)
      requires i <= |buf|
      modifies this
      ensures i <= |buf| && Agrees(r, i, ReadEscaped(buf, old(i), slot))
    {
      hide ReadEscaped, Reserved, Join;
      var start := i;
      var parts: seq<Bytes>, pos := [], start;
      NothingBefore(buf, start, slot);
      while true
        invariant start <= pos <= |buf| && i == start
        invariant ReadEscaped(buf, start, slot) == Prefixed(Join(parts), ReadEscaped(buf, pos, slot))
        decreases |buf| - pos
      {
        var j := Search(buf, pos, slot);
        PlainRun(buf, pos, j, slot);
        AtStopOrEscape(buf, j, slot);
        if j == |buf| {
          return Failed(Malformed);
        }
        ghost var joined := Join(parts);
        PrefixedTwice(joined, buf[pos..j], ReadEscaped(buf, j, slot));
        JoinNext(parts, buf[pos..j]);
        parts := parts + [buf[pos..j]];
        if buf[j] != BS {
          i := j;
          assert Join(parts) + [] == Join(parts);
          return Done(Join(parts));
        }
        if j + 1 >= |buf| || !ValidEscape(buf[j + 1]) {
          return Failed(Malformed);
        }
        PrefixedTwice(Join(parts), [buf[j + 1]], ReadEscaped(buf, j + 2, slot));
        JoinNext(parts, [buf[j + 1]]);
        parts := parts + [[buf[j + 1]]];
        pos := j + 2;
      }
    }

    /** A binary run; the backslash is under the cursor. */
    method ReadBinary() returns (r: Outcome<Bytes>)
      requires RunAt(buf, i)
      modifies this
      ensures i <= |buf| && Agrees(r, i, ReadRun(buf, old(i), PYTHON))
    {
      hide ReadTerminated, ReadCounted;
      i := i + 1;
      var kind := buf[i];
      i := i + 1;
      if kind == UPPER_B {
        r := ReadCountedRun();
      } else {
        r := ReadTerminatedRun();
      }
    }

    method ReadCountedRun() returns (r: Outcome<Bytes>)
      requires i <= |buf|
      modifies this
      ensures i <= |buf| && Agrees(r, i, ReadCounted(buf, old(i), PYTHON))
    {
      var n :- ReadVarint();
      if n > |buf| - i {
        return Failed(Malformed);
      }
      r := Done(buf[i..i + n]);
      i := i + n;
    }

    /** At most ten groups; integers do not wrap. */
    method ReadVarint() returns (r: Outcome<nat>)
      requires i <= |buf|
      modifies this
      ensures i <= |buf| && Agrees(r, i, ReadCount(buf, old(i), MAX_GROUPS))
    {
      hide Pow2, ReadCount, Shifted, Or, Weighted;
      ghost var start := i;
      var n: nat, shift: nat, groups: nat := 0, 0, 0;
      Weightless(ReadCount(buf, i, MAX_GROUPS));
      while true
        invariant start <= i <= |buf| && groups <= MAX_GROUPS && shift == 7 * groups && n < Pow2(shift)
        invariant ReadCount(buf, start, MAX_GROUPS) == Weighted(n, shift, ReadCount(buf, i, MAX_GROUPS - groups))
        decreases MAX_GROUPS - groups
      {
        CountStep(buf, i, MAX_GROUPS - groups, n, shift);
        if i >= |buf| {
          return Failed(Malformed);
        }
        groups := groups + 1;
        if groups > MAX_GROUPS {
          return Failed(Malformed);
        }
        var b := buf[i];
        i := i + 1;
        OrAbove(n, b % 128, shift);
        GroupBelow(n, b % 128, shift);
        n := Or(n, Shifted(b % 128, shift));
        shift := shift + 7;
        if b < 128 {
          return Done(n);
        }
      }
    }

    method ReadTerminatedRun() returns (r: Outcome<Bytes>)
      requires i <= |buf|
      modifies this
      ensures i <= |buf| && Agrees(r, i, ReadTerminated(buf, old(i)))
    {
      hide ReadTerminated;
      ghost var start := i;
      var out: Bytes := [];
      NothingRead(buf, i);
      while true
        invariant start <= i <= |buf|
        invariant ReadTerminated(buf, start) == Prefixed(out, ReadTerminated(buf, i))
        decreases |buf| - i
      {
        TerminatedStep(buf, i, out);
        if i >= |buf| {
          return Failed(Malformed);
        }
        var ch := buf[i];
        i := i + 1;
        if ch == NUL {
          return Done(out);
        }
        if ch == BS {
          var nxt :- Take();
          if nxt == ZERO {
            out := out + [NUL];
          } else if nxt == BS {
            out := out + [BS];
          } else {
            return Failed(Malformed);
          }
        } else {
          out := out + [ch];
        }
      }
    }

    /** Attribute pairs, from the first one to behind the closing bracket. */
    method ReadAttrPairs() returns (r: Outcome<seq<Attr>>)
      requires i <= |buf|
      modifies this
      ensures i <= |buf| && Agrees(r, i, ReadPairs(buf, old(i)))
    {
      hide ReadEscaped, ReadPairs;
      ghost var start := i;
      var attrs: seq<Attr> := [];
      NoAttrsYet(ReadPairs(buf, i));
      while true
        invariant start <= i <= |buf|
        invariant ReadPairs(buf, start) == After(attrs, ReadPairs(buf, i))
        decreases |buf| - i
      {
        ghost var at := i;
        PairStep(buf, at, attrs);
        var key :- ReadEscapedRun(Key);
        if buf[i] != COL {
          return Failed(Malformed);
        }
        i := i + 1;
        var value :- ReadEscapedRun(Value);
        attrs := attrs + [Attr(key, value)];
        if buf[i] == COM {
          i := i + 1;
          PairsEnd(buf, i);
          var next :- Peek();
          if next == RSQ {
            break;
          }
        } else {
          break;
        }
      }
      i := i + 1;
      r := Done(attrs);
    }

    /** Fails as the grammar says, on every input. */
    method DecodeElement(depth: nat) returns (r: Outcome<Node>)
      requires i <= |buf|
      modifies this
      ensures i <= |buf| && Agrees(r, i, ReadElement(buf, old(i), depth, PYTHON))
      decreases |buf| - i, 1
    {
      hide ReadEscaped, ReadAttrs, ReadKids;
      if depth > MAX_DEPTH {
        return Failed(TooDeep);
      }
      var open :- Take();
      if open != LBR {
        return Failed(Malformed);
      }
      var head :- ReadEscapedRun(Tag);
      var ch := buf[i];
      i := i + 1;
      if ch == RBR {
        return Done(Element(IMPLICIT_TAG, [], if head != [] then [Text(head)] else []));
      }
      if ch == LBR {
        return Failed(Malformed);
      }
      var attrs: seq<Attr> := [];
      if i < |buf| && buf[i] == LSQ {
        i := i + 1;
        attrs :- ReadAttrList();
        KidsNeedByte(buf, i, depth, PYTHON);
        var next :- Peek();
        if next == COM {
          i := i + 1;
        } else if next == RBR {
          i := i + 1;
          return Done(Element(head, attrs, []));
        }
      }
      var children :- ReadContent(depth);
      r := Done(Element(head, attrs, children));
    }

    method ReadAttrList() returns (r: Outcome<seq<Attr>>)
      requires i <= |buf|
      modifies this
      ensures i <= |buf| && Agrees(r, i, ReadAttrs(buf, old(i)))
    {
      hide ReadPairs;
      var first :- Peek();
      if first == RSQ {
        i := i + 1;
        return Done([]);
      }
      r := ReadAttrPairs();
    }

    /** Children up to the closing brace. */
    method ReadContent(depth: nat) returns (r: Outcome<seq<Node>>)
      requires i <= |buf|
      modifies this
      ensures i <= |buf| && Agrees(r, i, ReadKids(buf, old(i), depth, PYTHON))
      decreases |buf| - i, 2
    {
      hide ReadEscaped, ReadRun, ReadKids, ReadElement;
      ghost var start := i;
      var children: seq<Node> := [];
      NoKidsYet(ReadKids(buf, i, depth, PYTHON));
      while true
        invariant start <= i <= |buf|
        invariant ReadKids(buf, start, depth, PYTHON) == Below(children, ReadKids(buf, i, depth, PYTHON))
        decreases |buf| - i
      {
        KidStep(buf, i, depth, PYTHON, children);
        if i >= |buf| {
          return Failed(Malformed);
        }
        if buf[i] == RBR {
          i := i + 1;
          return Done(children);
        }
        if buf[i] == LBR {
          var el :- DecodeElement(depth + 1);
          children := children + [el];
        } else if i + 1 < |buf| && buf[i] == BS && (buf[i + 1] == LOWER_B || buf[i + 1] == UPPER_B) {
          var run :- ReadBinary();
          children := children + [Text(run)];
        } else {
          var text :- ReadEscapedRun(Content);
          if text != [] {
            children := children + [Text(text)];
          }
        }
      }
    }
  }

  /** One element and nothing behind it. */
  method Decode(buf: Bytes) returns (r: Outcome<Node>)
    ensures r == if Decoded(buf, PYTHON).Parsed? then Done(Decoded(buf, PYTHON).value) else Failed(Decoded(buf, PYTHON).why)
  {
    hide ReadElement;
    var reader := new Reader(buf);
    var el :- reader.DecodeElement(0);
    if reader.i < |buf| {
      return Failed(Malformed);
    }
    r := Done(el);
  }

  /** Elements one after another. */
  method DecodeDocument(buf: Bytes) returns (r: Outcome<seq<Node>>)
    ensures r == if ReadAll(buf, 0, PYTHON).Parsed? then Done(ReadAll(buf, 0, PYTHON).value) else Failed(ReadAll(buf, 0, PYTHON).why)
  {
    hide ReadElement;
    var reader := new Reader(buf);
    var out: seq<Node> := [];
    NoKidsYet(ReadAll(buf, 0, PYTHON));
    while reader.i < |buf|
      invariant reader.i <= |buf| && fresh(reader) && reader.buf == buf
      invariant ReadAll(buf, 0, PYTHON) == Below(out, ReadAll(buf, reader.i, PYTHON))
      decreases |buf| - reader.i
    {
      ghost var at := reader.i;
      var el :- reader.DecodeElement(0);
      BelowAdd(out, el, ReadAll(buf, reader.i, PYTHON));
      out := out + [el];
    }
    assert out + [] == out;
    r := Done(out);
  }
}
