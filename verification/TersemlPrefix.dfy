/** No proper prefix of a document is one, and re-encoding what was read is canonical. */
module TersemlPrefix {
  import opened TersemlTree
  import opened TersemlWrite
  import opened TersemlRead
  import opened TersemlRoundTrip

  /** What is read does not depend on the bytes behind it. */
  lemma {:induction false} EscapedStays(s: Bytes, more: Bytes, i: nat, slot: Slot)
    requires s <= more && ReadEscaped(s, i, slot).Parsed?
    ensures ReadEscaped(more, i, slot) == ReadEscaped(s, i, slot)
    decreases |s| - i
  {
    if s[i] == BS {
      EscapedStays(s, more, i + 2, slot);
    } else if !Stops(slot, s[i]) {
      EscapedStays(s, more, i + 1, slot);
    }
  }

  lemma {:induction false} CountStays(s: Bytes, more: Bytes, i: nat, groups: nat)
    requires s <= more && ReadCount(s, i, groups).Parsed?
    ensures ReadCount(more, i, groups) == ReadCount(s, i, groups)
    decreases groups
  {
    if s[i] >= 128 {
      CountStays(s, more, i + 1, groups - 1);
    }
  }

  lemma {:induction false} TerminatedStays(s: Bytes, more: Bytes, i: nat)
    requires s <= more && ReadTerminated(s, i).Parsed?
    ensures ReadTerminated(more, i) == ReadTerminated(s, i)
    decreases |s| - i
  {
    if s[i] == BS {
      TerminatedStays(s, more, i + 2);
    } else if s[i] != NUL {
      TerminatedStays(s, more, i + 1);
    }
  }

  lemma RunStays(s: Bytes, more: Bytes, i: nat, d: Dialect)
    requires s <= more && RunAt(s, i) && ReadRun(s, i, d).Parsed?
    ensures ReadRun(more, i, d) == ReadRun(s, i, d)
  {
    hide ReadCounted, ReadTerminated;
    if s[i + 1] == UPPER_B {
      CountedStays(s, more, i + 2, d);
    } else {
      TerminatedStays(s, more, i + 2);
    }
  }

  lemma CountedStays(s: Bytes, more: Bytes, i: nat, d: Dialect)
    requires s <= more && ReadCounted(s, i, d).Parsed?
    ensures ReadCounted(more, i, d) == ReadCounted(s, i, d)
  {
    hide ReadCount;
    CountStays(s, more, i, MAX_GROUPS);
    var n, r := ReadCount(s, i, MAX_GROUPS).end, ReadCounted(s, i, d);
    assert more[n..r.end] == s[n..r.end];
  }

  /** The text at i of a content, whichever way it is written. */
  function ReadText(s: Bytes, i: nat, d: Dialect): Parsed<Bytes> {
    if RunAt(s, i) then ReadRun(s, i, d) else ReadEscaped(s, i, Content)
  }

  lemma TextStays(s: Bytes, more: Bytes, i: nat, d: Dialect)
    requires s <= more && ReadText(s, i, d).Parsed?
    ensures ReadText(more, i, d) == ReadText(s, i, d)
  {
    if RunAt(s, i) {
      RunStays(s, more, i, d);
    } else {
      EscapedStays(s, more, i, Content);
    }
  }

  lemma {:induction false} PairsStay(s: Bytes, more: Bytes, i: nat)
    requires s <= more && ReadPairs(s, i).Parsed?
    ensures ReadPairs(more, i) == ReadPairs(s, i)
    decreases |s| - i
  {
    hide ReadEscaped;
    EscapedStays(s, more, i, Key);
    var key := ReadEscaped(s, i, Key);
    EscapedStays(s, more, key.end + 1, Value);
    var value := ReadEscaped(s, key.end + 1, Value);
    if s[value.end] == COM && !(value.end + 1 < |s| && s[value.end + 1] == RSQ) {
      PairsReach(s, value.end + 1);
      PairsStay(s, more, value.end + 1);
    }
  }

  lemma PairsReach(s: Bytes, i: nat)
    ensures ReadPairs(s, i).Parsed? ==> i < |s|
  {
  }

  lemma {:induction false} KidsStay(s: Bytes, more: Bytes, i: nat, depth: nat, d: Dialect)
    requires s <= more && ReadKids(s, i, depth, d).Parsed?
    ensures ReadKids(more, i, depth, d) == ReadKids(s, i, depth, d)
    decreases |s| - i, 2
  {
    hide ReadEscaped, ReadRun, ReadElement;
    if s[i] == LBR {
      ElementStays(s, more, i, depth + 1, d);
      KidsStay(s, more, ReadElement(s, i, depth + 1, d).end, depth, d);
    } else if s[i] != RBR {
      TextStays(s, more, i, d);
      TextAdvances(s, i, d);
      TextAdvances(more, i, d);
      KidsStay(s, more, ReadText(s, i, d).end, depth, d);
    }
  }

  lemma {:induction false} BodyStays(s: Bytes, more: Bytes, i: nat, depth: nat, d: Dialect, tag: Bytes)
    requires s <= more && ReadBody(s, i, depth, d, tag).Parsed?
    ensures ReadBody(more, i, depth, d, tag) == ReadBody(s, i, depth, d, tag)
    decreases |s| - i, 3
  {
    hide ReadPairs, ReadKids;
    if i < |s| && s[i] == LSQ {
      if s[i + 1] != RSQ {
        PairsStay(s, more, i + 1);
      }
      var attrs := ReadAttrs(s, i + 1);
      if !(attrs.end < |s| && s[attrs.end] == RBR) {
        var j := if attrs.end < |s| && s[attrs.end] == COM then attrs.end + 1 else attrs.end;
        KidsReach(s, j, depth, d);
        KidsStay(s, more, j, depth, d);
      }
    } else {
      KidsReach(s, i, depth, d);
      KidsStay(s, more, i, depth, d);
    }
  }

  lemma KidsReach(s: Bytes, i: nat, depth: nat, d: Dialect)
    ensures ReadKids(s, i, depth, d).Parsed? ==> i < |s|
  {
  }

  lemma {:induction false} ElementStays(s: Bytes, more: Bytes, i: nat, depth: nat, d: Dialect)
    requires s <= more && ReadElement(s, i, depth, d).Parsed?
    ensures ReadElement(more, i, depth, d) == ReadElement(s, i, depth, d)
    decreases |s| - i, 1
  {
    hide ReadEscaped, ReadBody;
    EscapedStays(s, more, i + 1, Tag);
    var head := ReadEscaped(s, i + 1, Tag);
    if s[head.end] == COM {
      BodyStays(s, more, head.end + 1, depth, d, head.value);
    }
  }

  /** Truncation never looks like a document: every proper prefix of an accepted one is rejected. */
  lemma PrefixRejected(b: Bytes, p: Bytes, d: Dialect)
    requires Decoded(b, d).Parsed? && p < b
    ensures ReadElement(p, 0, 0, d).Rejected? && Decoded(p, d).Rejected?
  {
    hide ReadElement;
    if ReadElement(p, 0, 0, d).Parsed? {
      ElementStays(p, b, 0, 0, d);
    }
  }

  /** An encoding that starts another one is the same, and of the same tree. */
  lemma EncodingsPrefixFree(t: Node, u: Node)
    requires Height(t) <= 256 && Height(u) <= 256 && Addressable(Encoding(u))
    requires Encoding(t) <= Encoding(u)
    ensures Encoding(t) == Encoding(u) && AsElement(Normal(t)) == AsElement(Normal(u))
  {
    hide ReadElement, Encoding;
    var rest := Encoding(u)[|Encoding(t)|..];
    assert Encoding(u) == Encoding(t) + rest && Encoding(u) == Encoding(u) + [];
    RoundTrip(t, rest, PYTHON);
    RoundTrip(u, [], PYTHON);
  }

  /** What was read nests no deeper than it may. */
  lemma {:induction false} KidsShallow(s: Bytes, i: nat, depth: nat, d: Dialect)
    requires ReadKids(s, i, depth, d).Parsed? && depth <= 256
    ensures depth + KidsHeight(ReadKids(s, i, depth, d).value) <= 256
    decreases |s| - i, 2
  {
    hide ReadEscaped, ReadRun, ReadElement;
    var kids := ReadKids(s, i, depth, d).value;
    if s[i] == LBR {
      var el := ReadElement(s, i, depth + 1, d);
      ElementShallow(s, i, depth + 1, d);
      KidsShallow(s, el.end, depth, d);
      assert kids[1..] == ReadKids(s, el.end, depth, d).value;
    } else if s[i] != RBR {
      TextAdvances(s, i, d);
      var text := ReadText(s, i, d);
      KidsShallow(s, text.end, depth, d);
      if !(text.value == [] && d.dropsEmpty) {
        assert kids[1..] == ReadKids(s, text.end, depth, d).value;
      }
    }
  }

  lemma {:induction false} ElementShallow(s: Bytes, i: nat, depth: nat, d: Dialect)
    requires ReadElement(s, i, depth, d).Parsed?
    ensures depth + Height(ReadElement(s, i, depth, d).value) <= 256
    decreases |s| - i, 1
  {
    hide ReadEscaped, ReadKids, ReadAttrs;
    var head := ReadEscaped(s, i + 1, Tag);
    if s[head.end] == RBR {
      SingletonFlat(head.value);
    } else {
      var j := head.end + 1;
      if j < |s| && s[j] == LSQ {
        var attrs := ReadAttrs(s, j + 1);
        if !(attrs.end < |s| && s[attrs.end] == RBR) {
          KidsShallow(s, if attrs.end < |s| && s[attrs.end] == COM then attrs.end + 1 else attrs.end, depth, d);
        }
      } else {
        KidsShallow(s, j, depth, d);
      }
    }
  }

  lemma SingletonFlat(b: Bytes)
    ensures Height(AsElement(Text(b))) == 0
  {
    hide Written;
    TextKids(b);
  }

  /** Encoding what was read gives canonical bytes: they are read back as the merged tree, and
      encoding that gives the same bytes again. */
  lemma Canonical(b: Bytes, d: Dialect)
    requires Decoded(b, d).Parsed? && Addressable(Encoding(Decoded(b, d).value))
    ensures var t := Decoded(b, d).value;
            Decoded(Encoding(t), d) == Parsed(Normal(t), |Encoding(t)|) && Encoding(Normal(t)) == Encoding(t)
  {
    hide ReadElement, Written, Normal;
    var t := Decoded(b, d).value;
    ElementShallow(b, 0, 0, d);
    assert Encoding(t) + [] == Encoding(t);
    RoundTrip(t, [], d);
    NormalHolds(t);
    NormalSame(Normal(t));
  }
}
