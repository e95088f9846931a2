/** The readers' loops, one step at a time: what is already read stands before what is still to come. */
module TersemlSteps {
  import opened BitOr
  import opened Bits
  import opened TersemlTree
  import opened TersemlWrite
  import opened TersemlRead

  /** What is read from some place on, with bytes already read put before it. */
  function Prefixed(b: Bytes, r: Parsed<Bytes>): Parsed<Bytes> {
    if r.Parsed? then Parsed(b + r.value, r.end) else r
  }

  lemma PrefixedTwice(a: Bytes, b: Bytes, r: Parsed<Bytes>)
    ensures Prefixed(a, Prefixed(b, r)) == Prefixed(a + b, r)
  {
    assert r.Parsed? ==> a + (b + r.value) == (a + b) + r.value;
  }

  /** Bytes that need no attention are taken as they are. */
  lemma {:induction false} PlainRun(s: Bytes, i: nat, j: nat, slot: Slot)
    requires i <= j <= |s| && forall k :: i <= k < j ==> !Reserved(slot, s[k])
    ensures ReadEscaped(s, i, slot) == Prefixed(s[i..j], ReadEscaped(s, j, slot))
    decreases j - i
  {
    if i == j {
      assert ReadEscaped(s, j, slot).Parsed? ==> s[i..j] + ReadEscaped(s, j, slot).value == ReadEscaped(s, j, slot).value;
    } else {
      PlainRun(s, i + 1, j, slot);
      assert s[i..j] == [s[i]] + s[i + 1..j];
      PrefixedTwice([s[i]], s[i + 1..j], ReadEscaped(s, j, slot));
    }
  }

  lemma {:induction false} PlainTerminated(s: Bytes, i: nat, j: nat)
    requires i <= j <= |s| && forall k :: i <= k < j ==> s[k] != NUL && s[k] != BS
    ensures ReadTerminated(s, i) == Prefixed(s[i..j], ReadTerminated(s, j))
    decreases j - i
  {
    if i == j {
      assert ReadTerminated(s, j).Parsed? ==> s[i..j] + ReadTerminated(s, j).value == ReadTerminated(s, j).value;
    } else {
      PlainTerminated(s, i + 1, j);
      assert s[i..j] == [s[i]] + s[i + 1..j];
      PrefixedTwice([s[i]], s[i + 1..j], ReadTerminated(s, j));
    }
  }

  lemma AtEscape(s: Bytes, j: nat, slot: Slot)
    requires j < |s| && s[j] == BS
    ensures ReadEscaped(s, j, slot)
            == if j + 1 < |s| && ValidEscape(s[j + 1]) then Prefixed([s[j + 1]], ReadEscaped(s, j + 2, slot)) else Rejected(Malformed)
  {
  }

  lemma AtStop(s: Bytes, j: nat, slot: Slot)
    requires j >= |s| || (s[j] != BS && Reserved(slot, s[j]))
    ensures ReadEscaped(s, j, slot) == if j < |s| then Parsed([], j) else Rejected(Malformed)
  {
  }

  lemma AtStopOrEscape(s: Bytes, j: nat, slot: Slot)
    requires j == |s| || (j < |s| && Reserved(slot, s[j]))
    ensures j == |s| ==> ReadEscaped(s, j, slot) == Rejected(Malformed)
    ensures j < |s| && s[j] != BS ==> ReadEscaped(s, j, slot) == Parsed([], j)
    ensures j < |s| && s[j] == BS ==>
              ReadEscaped(s, j, slot) == if j + 1 < |s| && ValidEscape(s[j + 1])
                                         then Prefixed([s[j + 1]], ReadEscaped(s, j + 2, slot)) else Rejected(Malformed)
  {
    if j < |s| && s[j] == BS {
      AtEscape(s, j, slot);
    } else {
      AtStop(s, j, slot);
    }
  }

  /** The groups read so far, with those still to come above them. */
  ghost function Weighted(n: nat, shift: nat, r: Parsed<nat>): Parsed<nat> {
    if r.Parsed? then Parsed(n + Shifted(r.value, shift), r.end) else r
  }

  lemma Weightless(r: Parsed<nat>)
    ensures Weighted(0, 0, r) == r
  {
  }

  lemma CountStep(s: Bytes, i: nat, groups: nat, n: nat, shift: nat)
    ensures i >= |s| || groups == 0 ==> Weighted(n, shift, ReadCount(s, i, groups)) == Rejected(Malformed)
    ensures i < |s| && groups > 0 && s[i] < 128 ==>
              Weighted(n, shift, ReadCount(s, i, groups)) == Parsed(n + Shifted(s[i] % 128, shift), i + 1)
    ensures i < |s| && groups > 0 && s[i] >= 128 ==>
              Weighted(n, shift, ReadCount(s, i, groups))
              == Weighted(n + Shifted(s[i] % 128, shift), shift + 7, ReadCount(s, i + 1, groups - 1))
  {
    hide Pow2, Shifted;
    if i < |s| && groups > 0 && s[i] >= 128 {
      var rest := ReadCount(s, i + 1, groups - 1);
      if rest.Parsed? {
        Spread(s[i] - 128, rest.value, shift);
      }
    }
  }

  lemma Spread(low: nat, high: nat, shift: nat)
    ensures Shifted(low + 128 * high, shift) == Shifted(low, shift) + Shifted(high, shift + 7)
  {
    hide Pow2;
    Pow2Constants();
    Pow2Add(7, shift);
    Distributed(low, high, Pow2(shift));
  }

  lemma Distributed(low: nat, high: nat, p: nat)
    ensures (low + 128 * high) * p == low * p + high * (128 * p)
  {
  }

  lemma NothingRead(s: Bytes, i: nat)
    ensures ReadTerminated(s, i) == Prefixed([], ReadTerminated(s, i))
  {
    var r := ReadTerminated(s, i);
    assert r.Parsed? ==> [] + r.value == r.value;
  }

  /** One byte, or one escape, of a run. */
  lemma TerminatedStep(s: Bytes, i: nat, out: Bytes)
    ensures var r := Prefixed(out, ReadTerminated(s, i));
            if i >= |s| then r == Rejected(Malformed)
            else if s[i] == NUL then r == Parsed(out, i + 1)
            else if s[i] == BS then
              if i + 1 < |s| && (s[i + 1] == ZERO || s[i + 1] == BS)
              then r == Prefixed(out + [if s[i + 1] == ZERO then NUL else BS], ReadTerminated(s, i + 2))
              else r == Rejected(Malformed)
            else r == Prefixed(out + [s[i]], ReadTerminated(s, i + 1))
  {
    assert out + [] == out;
    if i < |s| && s[i] != NUL {
      if s[i] != BS {
        PrefixedTwice(out, [s[i]], ReadTerminated(s, i + 1));
      } else if i + 1 < |s| && (s[i + 1] == ZERO || s[i + 1] == BS) {
        PrefixedTwice(out, [if s[i + 1] == ZERO then NUL else BS], ReadTerminated(s, i + 2));
      }
    }
  }

  ghost function After(attrs: seq<Attr>, r: Parsed<seq<Attr>>): Parsed<seq<Attr>> {
    if r.Parsed? then Parsed(attrs + r.value, r.end) else r
  }

  lemma NoAttrsYet(r: Parsed<seq<Attr>>)
    ensures After([], r) == r
  {
    assert r.Parsed? ==> [] + r.value == r.value;
  }

  lemma PairsEnd(s: Bytes, i: nat)
    ensures i >= |s| ==> ReadPairs(s, i) == Rejected(Malformed)
  {
  }

  /** One pair, and whether another follows. */
  lemma PairStep(s: Bytes, i: nat, attrs: seq<Attr>)
    ensures var r, key := After(attrs, ReadPairs(s, i)), ReadEscaped(s, i, Key);
            if key.Rejected? then r == Rejected(key.why)
            else if s[key.end] != COL then r == Rejected(Malformed)
            else
              var value := ReadEscaped(s, key.end + 1, Value);
              if value.Rejected? then r == Rejected(value.why)
              else
                var more := attrs + [Attr(key.value, value.value)];
                if s[value.end] != COM then r == Parsed(more, value.end + 1)
                else if value.end + 1 < |s| && s[value.end + 1] == RSQ then r == Parsed(more, value.end + 2)
                else r == After(more, ReadPairs(s, value.end + 1))
  {
    hide ReadEscaped;
    var key := ReadEscaped(s, i, Key);
    if key.Parsed? && s[key.end] == COL {
      var value := ReadEscaped(s, key.end + 1, Value);
      if value.Parsed? && s[value.end] == COM {
        var rest := ReadPairs(s, value.end + 1);
        assert rest.Parsed? ==> attrs + ([Attr(key.value, value.value)] + rest.value)
                                == (attrs + [Attr(key.value, value.value)]) + rest.value;
      }
    }
  }

  ghost function Below(kids: seq<Node>, r: Parsed<seq<Node>>): Parsed<seq<Node>> {
    if r.Parsed? then Parsed(kids + r.value, r.end) else r
  }

  lemma NoKidsYet(r: Parsed<seq<Node>>)
    ensures Below([], r) == r
  {
    assert r.Parsed? ==> [] + r.value == r.value;
  }

  lemma KidsNeedByte(s: Bytes, i: nat, depth: nat, d: Dialect)
    ensures i >= |s| ==> ReadKids(s, i, depth, d) == Rejected(Malformed)
  {
  }

  lemma BelowAdd(kids: seq<Node>, kid: Node, r: Parsed<seq<Node>>)
    ensures Below(kids, AddKid(kid, r)) == Below(kids + [kid], r)
  {
    assert r.Parsed? ==> kids + ([kid] + r.value) == (kids + [kid]) + r.value;
  }

  /** One child. */
  lemma KidStep(s: Bytes, i: nat, depth: nat, d: Dialect, kids: seq<Node>)
    ensures var r := Below(kids, ReadKids(s, i, depth, d));
            if i >= |s| then r == Rejected(Malformed)
            else if s[i] == RBR then r == Parsed(kids, i + 1)
            else if s[i] == LBR then
              var el := ReadElement(s, i, depth + 1, d);
              r == if el.Rejected? then Rejected(el.why) else Below(kids + [el.value], ReadKids(s, el.end, depth, d))
            else
              var text := if RunAt(s, i) then ReadRun(s, i, d) else ReadEscaped(s, i, Content);
              r == if text.Rejected? then Rejected(text.why)
                   else Below(if text.value == [] && d.dropsEmpty then kids else kids + [Text(text.value)],
                              ReadKids(s, text.end, depth, d))
    ensures i < |s| && s[i] != RBR && s[i] != LBR && !RunAt(s, i) ==>
              var text := ReadEscaped(s, i, Content); text.Parsed? ==> text.value != [] && text.end > i
  {
    hide ReadEscaped, ReadRun, ReadElement;
    assert kids + [] == kids;
    if i < |s| && s[i] == LBR {
      var el := ReadElement(s, i, depth + 1, d);
      if el.Parsed? {
        BelowAdd(kids, el.value, ReadKids(s, el.end, depth, d));
      }
    } else if i < |s| && s[i] != RBR {
      TextAdvances(s, i, d);
      var text := if RunAt(s, i) then ReadRun(s, i, d) else ReadEscaped(s, i, Content);
      if text.Parsed? {
        BelowAdd(kids, Text(text.value), ReadKids(s, text.end, depth, d));
      }
    }
  }
}
