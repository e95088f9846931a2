/** What the encoders write for a text is the shortest of all the ways in which the grammar lets it be
    written: they escape no byte without need, and count no run with more groups than it takes. */
module TersemlShortest {
  import opened BitOr
  import opened Bits
  import opened Leb128
  import opened TersemlTree
  import opened TersemlWrite
  import opened TersemlRead
  import opened TersemlGrammar
  import opened TersemlRoundTrip

  /** What stands for a text in a slot is no shorter than what is written for it, and of the same
      length only if it is the same. */
  lemma {:induction false} UnitsShortest(s: Bytes, i: nat, j: nat, slot: Slot, v: Bytes)
    requires Units(s, i, j, slot, v) && j <= |s|
    ensures i + |Escape(slot, v, false)| <= j
    ensures j == i + |Escape(slot, v, false)| ==> s[i..j] == Escape(slot, v, false)
    decreases |v|
  {
    if v != [] {
      hide Unit, Units, Reserved;
      var k := FirstUnit(s, i, j, slot, v);
      UnitLength(s, i, k, slot, v[0]);
      UnitsShortest(s, k, j, slot, v[1..]);
      if j == i + |Escape(slot, v, false)| {
        assert s[i..j] == s[i..k] + s[k..j];
      }
    }
  }

  lemma FirstUnit(s: Bytes, i: nat, j: nat, slot: Slot, v: Bytes) returns (k: nat)
    requires Units(s, i, j, slot, v) && v != []
    ensures i < k <= j && Unit(s, i, k, slot, v[0]) && Units(s, k, j, slot, v[1..])
  {
    hide Unit;
    k :| i < k <= j && Unit(s, i, k, slot, v[0]) && Units(s, k, j, slot, v[1..]);
  }

  lemma UnitLength(s: Bytes, i: nat, j: nat, slot: Slot, c: byte)
    requires Unit(s, i, j, slot, c)
    ensures i < j <= |s|
    ensures if Reserved(slot, c) then s[i..j] == [BS, c] else s[i..j] == [c] || |s[i..j]| == 2
  {
    Characters();
    EndsStops(slot, c);
  }

  /** Where a bracket would be taken for attributes it has to be escaped as well. */
  lemma LeadShortest(s: Bytes, i: nat, j: nat, v: Bytes)
    requires Units(s, i, j, Content, v) && j <= |s| && (i < j ==> s[i] != Ch('['))
    ensures i + |Escape(Content, v, true)| <= j
    ensures j == i + |Escape(Content, v, true)| ==> s[i..j] == Escape(Content, v, true)
  {
    UnitsShortest(s, i, j, Content, v);
    if v != [] && v[0] == LSQ {
      hide Unit, Units;
      var k := FirstUnit(s, i, j, Content, v);
      EscapedBracket(s, i, k);
      UnitsShortest(s, k, j, Content, v[1..]);
      if j == i + |Escape(Content, v, true)| {
        assert s[i..j] == s[i..k] + s[k..j];
      }
    }
  }

  lemma EscapedBracket(s: Bytes, i: nat, j: nat)
    requires Unit(s, i, j, Content, LSQ) && s[i] != Ch('[')
    ensures i < j <= |s| && s[i..j] == [BS, LSQ]
  {
    Characters();
  }

  /** A terminated run can be written in one way only. */
  lemma {:induction false} TerminatedOnly(s: Bytes, i: nat, j: nat, v: Bytes)
    requires UpToNul(s, i, j, v)
    ensures i < j <= |s| && s[i..j] == EscapeNul(v) + [NUL]
    decreases |v|
  {
    Characters();
    if v != [] {
      var k := if s[i] == BS then i + 2 else i + 1;
      TerminatedOnly(s, k, j, v[1..]);
      assert s[i..j] == s[i..k] + s[k..j];
      assert s[i..k] == if v[0] == NUL then [BS, ZERO] else if v[0] == BS then [BS, BS] else [v[0]];
    }
  }

  /** The groups written for an integer are the fewest. */
  lemma {:induction false} GroupsShortest(s: Bytes, i: nat, k: nat, groups: nat)
    requires Groups(s, i, k, groups) && k <= |s| && i <= k
    ensures i + |Leb(GroupsValue(s, i, k))| <= k
    ensures k == i + |Leb(GroupsValue(s, i, k))| ==> s[i..k] == Leb(GroupsValue(s, i, k))
    decreases groups
  {
    if s[i] < 128 {
      assert GroupsValue(s, k, k) == 0;
    } else {
      GroupsRead(s, i + 1, k, groups - 1);
      GroupsShortest(s, i + 1, k, groups - 1);
      var rest := GroupsValue(s, i + 1, k);
      DivUnique(s[i] % 128 + 128 * rest, 128, rest, s[i] % 128);
      LebAtLeast(rest);
      if k == i + |Leb(GroupsValue(s, i, k))| {
        assert s[i..k] == [s[i]] + s[i + 1..k];
      }
    }
  }

  lemma LebAtLeast(n: nat)
    ensures |Leb(n)| >= 1
  {
  }

  lemma {:induction false} LebMonotone(m: nat, n: nat)
    requires m <= n
    ensures |Leb(m)| <= |Leb(n)|
    decreases n
  {
    if m >= 128 {
      LebMonotone(m / 128, n / 128);
    }
  }

  lemma CountedShortest(s: Bytes, i: nat, j: nat, d: Dialect, v: Bytes)
    requires TersemlGrammar.Counted(s, i, j, d, v)
    ensures i + |Leb(|v|)| + |v| <= j <= |s|
    ensures !d.wraps && j == i + |Leb(|v|)| + |v| ==> s[i..j] == Leb(|v|) + v
  {
    hide Groups, GroupsValue;
    var k :| i <= k <= j <= |s| && Groups(s, i, k, 10)
             && |v| == Claim(GroupsValue(s, i, k), d) && j == k + |v| && v == s[k..j];
    GroupsShortest(s, i, k, 10);
    LebMonotone(|v|, GroupsValue(s, i, k));
    if !d.wraps && j == i + |Leb(|v|)| + |v| {
      assert s[i..j] == s[i..k] + s[k..j];
    }
  }

  /** A text child up to j: a text in place, which does not start with a bracket where that would be
      taken for attributes, or a run. */
  predicate StandsFor(s: Bytes, i: nat, j: nat, start: bool, d: Dialect, v: Bytes) {
    || (j <= |s| && Units(s, i, j, Content, v) && (start && i < j ==> s[i] != Ch('[')))
    || Binary(s, i, j, d, v)
  }

  /** No way of writing a text child is shorter than the one the encoders choose. */
  lemma PayloadShortest(s: Bytes, i: nat, j: nat, start: bool, d: Dialect, v: Bytes)
    requires StandsFor(s, i, j, start, d, v)
    ensures i + |Payload(v, start)| <= j
  {
    hide Units, Binary, Escape, EscapeNul;
    assert |Payload(v, start)| <= |Emitted(v, Form.Counted, start)|;
    assert |Payload(v, start)| <= |Emitted(v, Terminated, start)|;
    assert |Payload(v, start)| <= |Emitted(v, Inline, start)| == |Escape(Content, v, start)|;
    if Binary(s, i, j, d, v) {
      BinaryShortest(s, i, j, d, v, start);
    } else if start {
      LeadShortest(s, i, j, v);
    } else {
      UnitsShortest(s, i, j, Content, v);
    }
  }

  lemma BinaryShortest(s: Bytes, i: nat, j: nat, d: Dialect, v: Bytes, start: bool)
    requires Binary(s, i, j, d, v)
    ensures i + |Emitted(v, Form.Counted, start)| <= j || i + |Emitted(v, Terminated, start)| <= j
  {
    hide TersemlGrammar.Counted, UpToNul;
    if s[i + 1] == Ch('B') && TersemlGrammar.Counted(s, i + 2, j, d, v) {
      CountedShortest(s, i + 2, j, d, v);
    } else {
      TerminatedOnly(s, i + 2, j, v);
    }
  }

  /** And what they choose is one of the ways, wherever it is written in front of a brace. */
  lemma PayloadStands(s: Bytes, i: nat, v: Bytes, start: bool, d: Dialect)
    requires Addressable(v) && Holds(s, i, Payload(v, start))
    requires i + |Payload(v, start)| < |s| && Stops(Content, s[i + |Payload(v, start)|])
    ensures StandsFor(s, i, i + |Payload(v, start)|, start, d, v)
  {
    hide Units, Binary, Holds, ReadEscaped, ReadRun, Addressable;
    var form, j := BestForm(v, start), i + |Payload(v, start)|;
    if form.Inline? {
      EscapedBack(s, i, Content, v, start);
      ReadUnits(s, i, Content);
      if v != [] {
        Characters();
        InlineFirst(v, start);
        HoldsFirst(s, i, Payload(v, start));
      }
    } else {
      RunBack(s, i, v, form, start, d);
      BinaryRead(s, i, j, d, v);
    }
  }
}
