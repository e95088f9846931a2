/** When lookup rejects every absent key. Behind the greatest key the walk reads the value store
    as symbols; whether some key makes it end in anything but "not found" depends on the bits
    alone. */
module Straying {
  import opened Bits
  import opened Results
  import opened Varint
  import opened Keys
  import opened Values
  import opened Trie
  import opened TrieBuild
  import opened Dictionary
  import opened Iteration
  import opened IterateAll
  import opened Lookup
  import opened LookupAgrees
  import opened LookupPastEnd

  function Left(s: seq<bool>, pos: nat): nat {
    if pos <= |s| then |s| - pos else 0
  }

  /** Behind a key with more bytes to match: ends of keys are read over, an operand cut short
      strays, and nothing but a branch leads further. */
  predicate Strays(sym: Symbols, s: seq<bool>, pos: nat)
    requires Shaped(sym)
    decreases Left(s, pos)
  {
    match ReadBits(s, pos, sym.bps)
    case Err(_) => false
    case Ok(code) =>
      var p := pos + sym.bps;
      if code == sym.ctrl[END] then Strays(sym, s, p)
      else if code == sym.ctrl[END_VAL] then
        match ReadVarint(s, p)
        case Err(_) => true
        case Ok(v) => Strays(sym, s, v.1)
      else code == sym.ctrl[BRANCH] && StraysBranch(sym, s, p)
  }

  /** At the operand of a branch: some byte meets an unreadable child, or enters one that strays. */
  predicate StraysBranch(sym: Symbols, s: seq<bool>, pos: nat)
    requires Shaped(sym) && pos <= |s|
    decreases Left(s, pos)
  {
    match ReadVarint(s, pos)
    case Err(_) => true
    case Ok(n) =>
      exists b: byte ::
        match ChooseChild(sym, s, n.1, 0, n.0, b)
        case Err(e) => e != NotFound
        case Ok(q) => StraysBelow(sym, s, q)
  }

  /** Inside a child every end of a key is a hit, and everything else that is neither a branch
      nor a literal is an error. */
  predicate StraysBelow(sym: Symbols, s: seq<bool>, pos: nat)
    requires Shaped(sym)
    decreases Left(s, pos)
  {
    match ReadBits(s, pos, sym.bps)
    case Err(_) => true
    case Ok(code) =>
      if code == sym.ctrl[END] || code == sym.ctrl[END_VAL] then true
      else if code == sym.ctrl[BRANCH] then StraysBranch(sym, s, pos + sym.bps)
      else IsControl(sym, code) || exists b: byte :: sym.codeOf[b] == code && StraysBelow(sym, s, pos + sym.bps)
  }

  lemma ReadErrors(s: seq<bool>, pos: nat, n: nat)
    ensures ReadBits(s, pos, n) != Err(NotFound) && ReadVarint(s, pos) != Err(NotFound)
  {
    GroupErrors(s, pos, MAX_GROUPS);
  }

  lemma {:induction false} GroupErrors(s: seq<bool>, pos: nat, groups: nat)
    ensures ReadGroups(s, pos, groups) != Err(NotFound)
    decreases groups
  {
    if groups > 0 {
      GroupErrors(s, pos + 8, groups - 1);
    }
  }

  lemma ValueErrors(s: seq<bool>, pos: nat)
    ensures ReadValue(s, pos) != Err(NotFound)
  {
    hide ReadVarint, ReadBits, Unzigzag, Pack;
    ReadErrors(s, pos, 4);
    PayloadErrors(s, ReadBits(s, pos, 4), pos + 4);
  }

  lemma PayloadErrors(s: seq<bool>, tag: Result<nat>, p: nat)
    ensures tag.Ok? ==> ReadPayload(s, tag.value, p) != Err(NotFound)
  {
    hide ReadVarint, ReadBits, Unzigzag, Pack;
    ReadErrors(s, p, 1);
    ReadErrors(s, p, 32);
    ReadErrors(s, p, 64);
  }

  lemma {:induction false} ScanErrors(s: seq<bool>, pos: nat, n: nat)
    ensures ScanValues(s, pos, n) != Err(NotFound)
    decreases n
  {
    hide ReadValue;
    ValueErrors(s, pos);
    if n > 0 && ReadValue(s, pos).Ok? {
      ScanErrors(s, ReadValue(s, pos).value.1, n - 1);
    }
  }

  /** A value that cannot be fetched is never reported as a missing key. */
  lemma FetchErrors(d: Dict, index: nat)
    ensures FetchValue(d, index) != Err(NotFound)
  {
    hide ReadValue, ScanValues;
    var r := ScanFrom(d.s, d.valueStart, index);
    ScanErrors(d.s, d.valueStart, index);
    if r.Ok? {
      ValueErrors(d.s, r.value);
    }
  }

  /** Some key that strictly extends the stem makes the walk end otherwise. */
  lemma {:induction false} StrayKey(sym: Symbols, s: seq<bool>, pos: nat, stem: Key) returns (key: Key)
    requires Shaped(sym) && Strays(sym, s, pos)
    ensures stem < key && Probe(sym, s, pos, key, |stem|, true) != Miss(NotFound)
    decreases Left(s, pos)
  {
    hide ReadBits, ReadVarint, ChooseChild, StraysBranch;
    var p := pos + sym.bps;
    ReadErrors(s, p, 0);
    var code := ReadBits(s, pos, sym.bps).value;
    InRange(s, pos, sym.bps);
    if code == sym.ctrl[END] {
      key := StrayKey(sym, s, p, stem);
    } else if code == sym.ctrl[END_VAL] {
      match ReadVarint(s, p)
      case Err(_) => key := stem + [0];
      case Ok(v) => key := StrayKey(sym, s, v.1, stem);
    } else {
      key := StrayKeyBranch(sym, s, p, stem);
    }
  }

  lemma InRange(s: seq<bool>, pos: nat, n: nat)
    ensures ReadBits(s, pos, n).Ok? ==> pos + n <= |s|
  {
  }

  ghost function AfterBranch(sym: Symbols, s: seq<bool>, pos: nat, key: Key, matched: nat): Hit
    requires Shaped(sym) && matched < |key|
  {
    match ReadVarint(s, pos)
    case Err(e) => Miss(e)
    case Ok(n) =>
      match ChooseChild(sym, s, n.1, 0, n.0, key[matched])
      case Err(e) => Miss(e)
      case Ok(q) => Probe(sym, s, q, key, matched + 1, false)
  }

  lemma {:induction false} StrayKeyBranch(sym: Symbols, s: seq<bool>, pos: nat, stem: Key) returns (key: Key)
    requires Shaped(sym) && pos <= |s| && StraysBranch(sym, s, pos)
    ensures stem < key && AfterBranch(sym, s, pos, key, |stem|) != Miss(NotFound)
    decreases Left(s, pos)
  {
    hide ReadBits, ReadVarint, ChooseChild, Probe, StraysBelow;
    ReadErrors(s, pos, 0);
    match ReadVarint(s, pos)
    case Err(_) => key := stem + [0];
    case Ok(n) =>
      var b: byte :| match ChooseChild(sym, s, n.1, 0, n.0, b)
                     case Err(e) => e != NotFound
                     case Ok(q) => StraysBelow(sym, s, q);
      match ChooseChild(sym, s, n.1, 0, n.0, b)
      case Err(e) => key := stem + [b];
      case Ok(q) => key := StrayKeyBelow(sym, s, q, stem + [b]); assert key[|stem|] == b;
  }

  lemma {:induction false} StrayKeyBelow(sym: Symbols, s: seq<bool>, pos: nat, stem: Key) returns (key: Key)
    requires Shaped(sym) && StraysBelow(sym, s, pos)
    ensures stem <= key && Probe(sym, s, pos, key, |stem|, false) != Miss(NotFound)
    decreases Left(s, pos)
  {
    hide ReadVarint, ChooseChild, StraysBranch;
    ReadErrors(s, pos + sym.bps, 0);
    key := stem;
    match ReadBits(s, pos, sym.bps)
    case Err(_) =>
    case Ok(code) =>
      if code == sym.ctrl[END] || code == sym.ctrl[END_VAL] {
      } else if code == sym.ctrl[BRANCH] {
        key := StrayKeyBranch(sym, s, pos + sym.bps, stem);
      } else if !IsControl(sym, code) {
        var b: byte :| sym.codeOf[b] == code && StraysBelow(sym, s, pos + sym.bps);
        key := StrayKeyBelow(sym, s, pos + sym.bps, stem + [b]);
        assert key[|stem|] == b;
      }
  }

  /** Without straying bits every longer key is missed. */
  lemma {:induction false} NoStray(sym: Symbols, s: seq<bool>, pos: nat, key: Key, matched: nat)
    requires Shaped(sym) && !Strays(sym, s, pos) && matched < |key|
    ensures Probe(sym, s, pos, key, matched, true) == Miss(NotFound)
    decreases Left(s, pos)
  {
    hide ReadVarint, ChooseChild, StraysBranch;
    match ReadBits(s, pos, sym.bps)
    case Err(_) =>
    case Ok(code) =>
      var p := pos + sym.bps;
      if code == sym.ctrl[END] {
        NoStray(sym, s, p, key, matched);
      } else if code == sym.ctrl[END_VAL] {
        NoStray(sym, s, ReadVarint(s, p).value.1, key, matched);
      } else if code == sym.ctrl[BRANCH] {
        NoStrayBranch(sym, s, p, key, matched);
      }
  }

  lemma {:induction false} NoStrayBranch(sym: Symbols, s: seq<bool>, pos: nat, key: Key, matched: nat)
    requires Shaped(sym) && pos <= |s| && !StraysBranch(sym, s, pos) && matched < |key|
    ensures AfterBranch(sym, s, pos, key, matched) == Miss(NotFound)
    decreases Left(s, pos)
  {
    hide ReadBits, ReadVarint, ChooseChild, Probe, StraysBelow;
    var n := ReadVarint(s, pos).value;
    var q := ChooseChild(sym, s, n.1, 0, n.0, key[matched]);
    if q.Ok? {
      NoStrayBelow(sym, s, q.value, key, matched + 1);
    }
  }

  lemma {:induction false} NoStrayBelow(sym: Symbols, s: seq<bool>, pos: nat, key: Key, matched: nat)
    requires Shaped(sym) && !StraysBelow(sym, s, pos) && matched <= |key|
    ensures Probe(sym, s, pos, key, matched, false) == Miss(NotFound)
    decreases Left(s, pos)
  {
    hide ReadVarint, ChooseChild, StraysBranch;
    var code, p := ReadBits(s, pos, sym.bps).value, pos + sym.bps;
    if code == sym.ctrl[BRANCH] {
      if matched < |key| {
        NoStrayBranch(sym, s, p, key, matched);
      } else {
        BranchReads(sym, s, p);
      }
    } else if matched < |key| && code == sym.codeOf[key[matched]] {
      NoStrayBelow(sym, s, p, key, matched + 1);
    }
  }

  lemma BranchReads(sym: Symbols, s: seq<bool>, pos: nat)
    requires Shaped(sym) && pos <= |s| && !StraysBranch(sym, s, pos)
    ensures ReadVarint(s, pos).Ok?
  {
  }

  /** The bits stray if and only if some key that strictly extends the stem is not missed. */
  lemma StraysExactly(sym: Symbols, s: seq<bool>, pos: nat, stem: Key)
    requires Shaped(sym)
    ensures Strays(sym, s, pos) <==> exists key :: stem < key && Probe(sym, s, pos, key, |stem|, true) != Miss(NotFound)
  {
    hide Strays, Probe;
    if Strays(sym, s, pos) {
      var key := StrayKey(sym, s, pos, stem);
    } else {
      forall key | stem < key ensures Probe(sym, s, pos, key, |stem|, true) == Miss(NotFound) {
        NoStray(sym, s, pos, key, |stem|);
      }
    }
  }

  ghost predicate Absent(es: seq<Entry>, key: Key) {
    forall i :: 0 <= i < |es| ==> es[i].key != key
  }

  /** Lookup rejects every absent key if and only if the bits behind the trie do not stray. */
  lemma AbsentRejected(d: Dict, es: seq<Entry>)
    requires Encodes(d, es) && es != []
    ensures (forall key :: Absent(es, key) ==> LookupKey(d, key) == Err(NotFound)) <==> !Strays(d.sym, d.s, d.valueStart)
  {
    hide Strays, Probe, LookupKey, Encodes, Sorted;
    EncodesSorted(d, es);
    var last := es[|es| - 1].key;
    StraysExactly(d.sym, d.s, d.valueStart, last);
    if Strays(d.sym, d.s, d.valueStart) {
      var key := StrayKey(d.sym, d.s, d.valueStart, last);
      PastMiss(d, es, key);
      forall i | 0 <= i < |es| ensures es[i].key != key {
        NotPastLast(es, i);
      }
      assert Absent(es, key);
    } else {
      forall key | Absent(es, key) ensures LookupKey(d, key) == Err(NotFound) {
        if last < key {
          PastMiss(d, es, key);
        } else {
          LookupAbsent(d, es, key);
        }
      }
    }
  }

  lemma EncodesSorted(d: Dict, es: seq<Entry>)
    requires Encodes(d, es)
    ensures Shaped(d.sym) && Sorted(es)
  {
  }

  lemma PastMiss(d: Dict, es: seq<Entry>, key: Key)
    requires Encodes(d, es) && es != [] && es[|es| - 1].key < key
    ensures LookupKey(d, key) == Err(NotFound)
       <==> Probe(d.sym, d.s, d.valueStart, key, |es[|es| - 1].key|, true) == Miss(NotFound)
  {
    hide Probe, FetchValue, LookupKey, Encodes, Closed;
    EncodesSorted(d, es);
    LookupPastLast(d, es, key);
    var hit := Probe(d.sym, d.s, d.valueStart, key, |es[|es| - 1].key|, true);
    if hit.ValueHit? {
      FetchErrors(d, hit.index);
    }
  }
}
