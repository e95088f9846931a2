/** The C reader: escaped text is measured first and then copied into a buffer of exactly that size. */
module TersemlCReader {
  import opened BitOr
  import opened Bits
  import opened Buffers
  import opened TersemlTree
  import opened TersemlWrite
  import opened TersemlRead
  import opened TersemlSteps

  /** claim | (c & 0x7F) << shift in a 64-bit word whose set bits all lie below shift. */
  function OrShifted(claim: word, c: byte, shift: nat, ghost n: nat): (r: word)
    requires claim == n % 0x1_0000_0000_0000_0000 && n < Pow2(shift) && shift <= 64
    ensures r == (n + Shifted(c % 128, shift)) % 0x1_0000_0000_0000_0000
  {
    OrInWord(n, c % 128, shift);
    Or(claim, Shifted(c % 128, shift) % 0x1_0000_0000_0000_0000)
  }

  lemma StepOver(s: Bytes, i: nat, slot: Slot, text: Bytes)
    requires i < |s| && s[i] != BS && !Stops(slot, s[i])
    ensures Prefixed(text, ReadEscaped(s, i, slot)) == Prefixed(text + [s[i]], ReadEscaped(s, i + 1, slot))
  {
    PrefixedTwice(text, [s[i]], ReadEscaped(s, i + 1, slot));
  }

  /** The second pass over an escaped text. What the first pass measured is filled to the last byte. */
  method FillEscaped(dst: array<byte>, buf: Bytes, start: nat, end: nat, slot: Slot, ghost text: Bytes) returns (w: nat)
    requires ReadEscaped(buf, start, slot) == Parsed(text, end) && dst.Length == |text|
    modifies dst
    ensures w == dst.Length && dst[..w] == text
  {
    hide ReadEscaped, Reserved, Stops;
    var pos := start;
    w := 0;
    assert text[0..] == text;
    while pos < end
      invariant start <= pos <= end && w <= dst.Length && dst[..w] == text[..w]
      invariant ReadEscaped(buf, pos, slot) == Parsed(text[w..], end)
    {
      StillInside(buf, pos, slot);
      if buf[pos] == BS {
        dst[w] := buf[pos + 1];
        Longer(dst, w, text);
        w := w + 1;
        pos := pos + 2;
      } else {
        var run := RunEnd(buf, pos, end, slot, text, w);
        CopyInto(dst, w, buf[pos..run]);
        w := w + (run - pos);
        pos := run;
      }
    }
    StopsThere(buf, end, slot);
  }

  lemma Longer(dst: array<byte>, w: nat, text: Bytes)
    requires w < |text| == dst.Length && dst[..w] == text[..w] && dst[w] == text[w]
    ensures dst[..w + 1] == text[..w + 1] && text[w..][1..] == text[w + 1..]
  {
  }

  /** How far the bytes go on without an escape. */
  method RunEnd(buf: Bytes, pos: nat, end: nat, slot: Slot, ghost text: Bytes, ghost w: nat) returns (run: nat)
    requires w <= |text| && pos <= end && ReadEscaped(buf, pos, slot) == Parsed(text[w..], end)
    ensures pos <= run <= end < |buf| && w + (run - pos) <= |text| && text[..w] + buf[pos..run] == text[..w + (run - pos)]
    ensures pos < end && buf[pos] != BS ==> pos < run
    ensures ReadEscaped(buf, run, slot) == Parsed(text[w + (run - pos)..], end)
  {
    hide ReadEscaped, Reserved, Stops;
    run := pos;
    ghost var k := w;
    while run < end && buf[run] != BS
      invariant pos <= run <= end && k == w + (run - pos) <= |text|
      invariant ReadEscaped(buf, run, slot) == Parsed(text[k..], end)
      invariant text[..w] + buf[pos..run] == text[..k]
    {
      StillInside(buf, run, slot);
      assert text[k..][1..] == text[k + 1..] && text[k..][0] == text[k];
      OneFurther(text, w, buf, pos, run, k);
      k := k + 1;
      run := run + 1;
    }
  }

  lemma OneFurther(text: Bytes, w: nat, buf: Bytes, pos: nat, run: nat, k: nat)
    requires w <= k < |text| && pos <= run < |buf| && text[..w] + buf[pos..run] == text[..k] && buf[run] == text[k]
    ensures text[..w] + buf[pos..run + 1] == text[..k + 1]
  {
    assert buf[pos..run + 1] == buf[pos..run] + [buf[run]];
    assert text[..k + 1] == text[..k] + [text[k]];
  }

  /** Before the end of a text there is a byte of it, or an escape. */
  lemma StillInside(s: Bytes, pos: nat, slot: Slot)
    requires ReadEscaped(s, pos, slot).Parsed? && pos < ReadEscaped(s, pos, slot).end
    ensures var r := ReadEscaped(s, pos, slot);
            && r.value != [] && pos < |s|
            && (s[pos] == BS ==> pos + 1 < |s| && pos + 2 <= r.end && r.value[0] == s[pos + 1]
                                 && ReadEscaped(s, pos + 2, slot) == Parsed(r.value[1..], r.end))
            && (s[pos] != BS ==> r.value[0] == s[pos] && ReadEscaped(s, pos + 1, slot) == Parsed(r.value[1..], r.end))
  {
  }

  lemma StopsThere(s: Bytes, end: nat, slot: Slot)
    requires ReadEscaped(s, end, slot).Parsed? && ReadEscaped(s, end, slot).end == end
    ensures ReadEscaped(s, end, slot).value == []
  {
  }

  /** The same for a terminated run, byte by byte. */
  method FillTerminated(dst: array<byte>, buf: Bytes, start: nat, end: nat, ghost text: Bytes) returns (w: nat)
    requires ReadTerminated(buf, start) == Parsed(text, end) && dst.Length == |text|
    modifies dst
    ensures w == dst.Length && dst[..w] == text
  {
    hide ReadTerminated;
    var i := start;
    w := 0;
    assert text[0..] == text;
    RunHere(buf, i);
    while buf[i] != NUL
      invariant i < |buf| && w <= dst.Length && dst[..w] == text[..w]
      invariant ReadTerminated(buf, i) == Parsed(text[w..], end)
      decreases |buf| - i
    {
      RunHere(buf, i);
      if buf[i] == BS {
        dst[w] := if buf[i + 1] == ZERO then NUL else BS;
        i := i + 2;
      } else {
        dst[w] := buf[i];
        i := i + 1;
      }
      Longer(dst, w, text);
      w := w + 1;
      RunHere(buf, i);
    }
    RunHere(buf, i);
  }

  lemma RunHere(s: Bytes, i: nat)
    requires ReadTerminated(s, i).Parsed?
    ensures var r := ReadTerminated(s, i);
            && i < |s|
            && (s[i] == NUL ==> r.value == [])
            && (s[i] == BS ==> i + 1 < |s| && r.value != [] && r.value[0] == (if s[i + 1] == ZERO then NUL else BS)
                               && ReadTerminated(s, i + 2) == Parsed(r.value[1..], r.end))
            && (s[i] != NUL && s[i] != BS ==> r.value != [] && r.value[0] == s[i]
                                              && ReadTerminated(s, i + 1) == Parsed(r.value[1..], r.end))
  {
  }

  class Rdr {
    const buf: Bytes
    var i: nat

    constructor (buf: Bytes)
      ensures this.buf == buf && i == 0
    {
      this.buf := buf;
      i := 0;
    }

    method ReadEscapedText(slot: Slot) returns (r: Outcome<Bytes>)
      requires i <= |buf|
      modifies this
      ensures i <= |buf| && Agrees(r, i, ReadEscaped(buf, old(i), slot))
    {
      hide ReadEscaped, Stops;
      var start, j := i, i;
      while j < |buf| && buf[j] != BS && !Reserved(slot, buf[j])
        invariant start <= j <= |buf| && forall k :: start <= k < j ==> !Reserved(slot, buf[k])
      {
        j := j + 1;
      }
      PlainRun(buf, start, j, slot);
      AtStopOrEscape(buf, j, slot);
      if j >= |buf| {
        return Failed(Malformed);
      }
      if buf[j] != BS {
        i := j;
        assert buf[start..j] + [] == buf[start..j];
        return Done(buf[start..j]);
      }
      var found, end, nesc := MeasureEscaped(start, j, slot);
      if !found {
        return Failed(Malformed);
      }
      ghost var text := ReadEscaped(buf, start, slot).value;
      var dst := new byte[end - start - nesc];
      var w := FillEscaped(dst, buf, start, end, slot, text);
      i := end;
      r := Done(dst[..w]);
    }

    /** The first pass: the end of the text and the number of escapes in it. */
    method MeasureEscaped(start: nat, first: nat, slot: Slot) returns (found: bool, end: nat, nesc: nat)
      requires start <= first < |buf|
      requires ReadEscaped(buf, start, slot) == Prefixed(buf[start..first], ReadEscaped(buf, first, slot))
      ensures found <==> ReadEscaped(buf, start, slot).Parsed?
      ensures found ==> ReadEscaped(buf, start, slot).end == end && start + nesc <= end
                        && |ReadEscaped(buf, start, slot).value| == end - start - nesc
      ensures !found ==> ReadEscaped(buf, start, slot) == Rejected(Malformed)
    {
      hide ReadEscaped, Stops;
      end, nesc := first, 0;
      ghost var text := buf[start..first];
      while end < |buf|
        invariant start <= end <= |buf| && start + nesc <= end && |text| == end - start - nesc
        invariant ReadEscaped(buf, start, slot) == Prefixed(text, ReadEscaped(buf, end, slot))
      {
        if buf[end] == BS {
          AtEscape(buf, end, slot);
          if end + 1 >= |buf| || !ValidEscape(buf[end + 1]) {
            return false, end, nesc;
          }
          PrefixedTwice(text, [buf[end + 1]], ReadEscaped(buf, end + 2, slot));
          text := text + [buf[end + 1]];
          nesc := nesc + 1;
          end := end + 2;
        } else if Reserved(slot, buf[end]) {
          AtStop(buf, end, slot);
          return true, end, nesc;
        } else {
          StepOver(buf, end, slot, text);
          text := text + [buf[end]];
          end := end + 1;
        }
      }
      AtStop(buf, end, slot);
      found := false;
    }

    method ReadBinary() returns (r: Outcome<Bytes>)
      requires RunAt(buf, i)
      modifies this
      ensures i <= |buf| && Agrees(r, i, ReadRun(buf, old(i), C))
    {
      hide ReadTerminated, ReadCounted;
      i := i + 1;
      var kind := buf[i];
      i := i + 1;
      if kind == UPPER_B {
        r := ReadCountedRun();
      } else {
        r := ReadTerminatedRun();
      }
    }

    /** The length is a 64-bit word, checked against what is left. */
    method ReadCountedRun() returns (r: Outcome<Bytes>)
      requires i <= |buf|
      modifies this
      ensures i <= |buf| && Agrees(r, i, ReadCounted(buf, old(i), C))
    {
      hide Pow2, ReadCount, Shifted, Or, Weighted;
      ghost var start := i;
      var claim: word, shift: nat, groups: nat := 0, 0, 0;
      ghost var n: nat := 0;
      Weightless(ReadCount(buf, i, MAX_GROUPS));
      while true
        invariant start <= i <= |buf| && groups <= MAX_GROUPS && shift == 7 * groups
        invariant claim == n % 0x1_0000_0000_0000_0000 && n < Pow2(shift)
        invariant ReadCount(buf, start, MAX_GROUPS) == Weighted(n, shift, ReadCount(buf, i, MAX_GROUPS - groups))
        decreases MAX_GROUPS - groups
      {
        CountStep(buf, i, MAX_GROUPS - groups, n, shift);
        if i >= |buf| {
          return Failed(Malformed);
        }
        groups := groups + 1;
        if groups > MAX_GROUPS {
          return Failed(Malformed);
        }
        var c := buf[i];
        i := i + 1;
        claim := OrShifted(claim, c, shift, n);
        GroupBelow(n, c % 128, shift);
        n := n + Shifted(c % 128, shift);
        shift := shift + 7;
        if c < 128 {
          break;
        }
      }
      if claim > |buf| - i {
        return Failed(Malformed);
      }
      r := Done(buf[i..i + claim]);
      i := i + claim;
    }

    method ReadTerminatedRun() returns (r: Outcome<Bytes>)
      requires i <= |buf|
      modifies this
      ensures i <= |buf| && Agrees(r, i, ReadTerminated(buf, old(i)))
    {
      hide ReadTerminated;
      var start, j := i, i;
      while j < |buf| && buf[j] != NUL && buf[j] != BS
        invariant start <= j <= |buf| && forall k :: start <= k < j ==> buf[k] != NUL && buf[k] != BS
      {
        j := j + 1;
      }
      PlainTerminated(buf, start, j);
      TerminatedStep(buf, j, buf[start..j]);
      if j < |buf| && buf[j] == NUL {
        i := j + 1;
        return Done(buf[start..j]);
      }
      var found, end, nesc := MeasureTerminated(start);
      if !found {
        return Failed(Malformed);
      }
      ghost var text := ReadTerminated(buf, start).value;
      var dst := new byte[end - start - nesc];
      var w := FillTerminated(dst, buf, start, end + 1, text);
      i := end + 1;
      r := Done(dst[..w]);
    }

    /** Up to the NUL, counting escapes. */
    method MeasureTerminated(start: nat) returns (found: bool, end: nat, nesc: nat)
      requires start <= |buf|
      ensures found <==> ReadTerminated(buf, start).Parsed?
      ensures found ==> ReadTerminated(buf, start).end == end + 1 && start + nesc <= end
                        && |ReadTerminated(buf, start).value| == end - start - nesc
      ensures !found ==> ReadTerminated(buf, start) == Rejected(Malformed)
    {
      hide ReadTerminated;
      end, nesc := start, 0;
      ghost var text: Bytes := [];
      NothingRead(buf, start);
      while end < |buf| && buf[end] != NUL
        invariant start <= end <= |buf| && start + nesc <= end && |text| == end - start - nesc
        invariant ReadTerminated(buf, start) == Prefixed(text, ReadTerminated(buf, end))
      {
        TerminatedStep(buf, end, text);
        if buf[end] == BS {
          if end + 1 >= |buf| || (buf[end + 1] != ZERO && buf[end + 1] != BS) {
            return false, end, nesc;
          }
          text := text + [if buf[end + 1] == ZERO then NUL else BS];
          nesc := nesc + 1;
          end := end + 2;
        } else {
          text := text + [buf[end]];
          end := end + 1;
        }
      }
      TerminatedStep(buf, end, text);
      found := end < |buf|;
    }

    /** The cursor stands on the opening bracket. */
    method DecodeAttrs() returns (r: Outcome<seq<Attr>>)
      requires i < |buf|
      modifies this
      ensures i <= |buf| && Agrees(r, i, ReadAttrs(buf, old(i) + 1))
    {
      hide ReadEscaped, ReadPairs;
      i := i + 1;
      if i < |buf| && buf[i] != RSQ {
        r := DecodePairs();
        return;
      }
      if i >= |buf| {
        return Failed(Malformed);
      }
      i := i + 1;
      r := Done([]);
    }

    method DecodePairs() returns (r: Outcome<seq<Attr>>)
      requires i <= |buf|
      modifies this
      ensures i <= |buf| && Agrees(r, i, ReadPairs(buf, old(i)))
    {
      hide ReadEscaped, ReadPairs;
      ghost var start := i;
      var av: seq<Attr> := [];
      NoAttrsYet(ReadPairs(buf, i));
      while true
        invariant start <= i <= |buf|
        invariant ReadPairs(buf, start) == After(av, ReadPairs(buf, i))
        decreases |buf| - i
      {
        PairStep(buf, i, av);
        var key :- ReadEscapedText(Key);
        if i >= |buf| || buf[i] != COL {
          return Failed(Malformed);
        }
        i := i + 1;
        var value :- ReadEscapedText(Value);
        av := av + [Attr(key, value)];
        if i < |buf| && buf[i] == COM {
          i := i + 1;
          if i < |buf| && buf[i] == RSQ {
            break;
          }
        } else {
          break;
        }
      }
      i := i + 1;
      r := Done(av);
    }

    method DecodeChildren(depth: nat) returns (r: Outcome<seq<Node>>)
      requires i <= |buf|
      modifies this
      ensures i <= |buf| && Agrees(r, i, ReadKids(buf, old(i), depth, C))
      decreases |buf| - i, 2
    {
      hide ReadEscaped, ReadRun, ReadKids, ReadElement;
      ghost var start := i;
      var kids: seq<Node> := [];
      NoKidsYet(ReadKids(buf, i, depth, C));
      while true
        invariant start <= i <= |buf|
        invariant ReadKids(buf, start, depth, C) == Below(kids, ReadKids(buf, i, depth, C))
        decreases |buf| - i
      {
        KidStep(buf, i, depth, C, kids);
        if i >= |buf| {
          return Failed(Malformed);
        }
        var c := buf[i];
        if c == RBR {
          i := i + 1;
          return Done(kids);
        }
        if c == LBR {
          var child :- DecodeElement(depth + 1);
          kids := kids + [child];
        } else {
          var text;
          if c == BS && i + 1 < |buf| && (buf[i + 1] == LOWER_B || buf[i + 1] == UPPER_B) {
            text :- ReadBinary();
          } else {
            text :- ReadEscapedText(Content);
          }
          if text != [] {
            kids := kids + [Text(text)];
          }
        }
      }
    }

    method DecodeElement(depth: nat) returns (r: Outcome<Node>)
      requires i <= |buf|
      modifies this
      ensures i <= |buf| && Agrees(r, i, ReadElement(buf, old(i), depth, C))
      decreases |buf| - i, 1
    {
      hide ReadEscaped, ReadAttrs, ReadKids;
      if depth > MAX_DEPTH {
        return Failed(TooDeep);
      }
      if i >= |buf| || buf[i] != LBR {
        return Failed(Malformed);
      }
      i := i + 1;
      var head :- ReadEscapedText(Tag);
      if buf[i] == RBR {
        i := i + 1;
        return Done(Element(IMPLICIT_TAG, [], if head != [] then [Text(head)] else []));
      }
      if buf[i] != COM {
        return Failed(Malformed);
      }
      i := i + 1;
      var attrs: seq<Attr> := [];
      if i < |buf| && buf[i] == LSQ {
        attrs :- DecodeAttrs();
        if i < |buf| && buf[i] == COM {
          i := i + 1;
        } else if i < |buf| && buf[i] == RBR {
          i := i + 1;
          return Done(Element(head, attrs, []));
        }
      }
      var children :- DecodeChildren(depth);
      r := Done(Element(head, attrs, children));
    }
  }

  /** One element and nothing behind it. */
  method TsmlDecode(buf: Bytes) returns (r: Outcome<Node>)
    ensures r == if Decoded(buf, C).Parsed? then Done(Decoded(buf, C).value) else Failed(Decoded(buf, C).why)
  {
    hide ReadElement;
    var rdr := new Rdr(buf);
    var root :- rdr.DecodeElement(0);
    if rdr.i != |buf| {
      return Failed(Malformed);
    }
    r := Done(root);
  }

  /** Elements one after another, at least one. */
  method TsmlDecodeDocument(buf: Bytes) returns (r: Outcome<seq<Node>>)
    ensures var all := ReadAll(buf, 0, C);
            r == if all.Rejected? then Failed(all.why) else if all.value == [] then Failed(Malformed) else Done(all.value)
  {
    hide ReadElement;
    var rdr := new Rdr(buf);
    var roots: seq<Node> := [];
    NoKidsYet(ReadAll(buf, 0, C));
    while rdr.i < |buf|
      invariant rdr.i <= |buf| && fresh(rdr) && rdr.buf == buf
      invariant ReadAll(buf, 0, C) == Below(roots, ReadAll(buf, rdr.i, C))
      decreases |buf| - rdr.i
    {
      var node :- rdr.DecodeElement(0);
      BelowAdd(roots, node, ReadAll(buf, rdr.i, C));
      roots := roots + [node];
    }
    assert roots + [] == roots;
    if roots == [] {
      return Failed(Malformed);
    }
    r := Done(roots);
  }
}
