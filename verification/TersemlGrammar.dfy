/** The language the readers accept and the tree each document stands for, as a grammar of
    derivations: an interval of the document derives an element, a content, a list of pairs, if it
    can be cut up accordingly, in whatever way. The grammar on paper and the code differ in six
    liberties. */
module TersemlGrammar {
  import opened Bits
  import opened TersemlTree
  import opened TersemlWrite
  import opened TersemlRead

  /** What is allowed: an empty tag, an empty key, content behind the attributes without a comma; a
      run directly behind a text, elements and runs in a singleton, text outside of elements. */
  datatype Rules = Rules(
    emptyTag: bool, emptyKey: bool, bareContent: bool, runBehindText: bool, fullSingleton: bool, textOutside: bool)

  /** Sections 2 to 4 of the grammar; the code; and what the two have in common. */
  const PAPER: Rules := Rules(false, false, false, true, true, true)
  const CODE: Rules := Rules(true, true, true, false, false, false)
  const COMMON: Rules := Rules(false, false, false, false, false, false)

  predicate AtMost(r: Rules, r': Rules) {
    && (r.emptyTag ==> r'.emptyTag) && (r.emptyKey ==> r'.emptyKey) && (r.bareContent ==> r'.bareContent)
    && (r.runBehindText ==> r'.runBehindText) && (r.fullSingleton ==> r'.fullSingleton) && (r.textOutside ==> r'.textOutside)
  }

  /** The byte of an ASCII character. */
  function Ch(c: char): int {
    c as int
  }

  /** The bytes of a string of ASCII characters. */
  function Raw(text: string): (b: Bytes)
    ensures |b| == |text| && forall i :: 0 <= i < |text| && text[i] as int < 128 ==> b[i] == text[i] as int
  {
    seq(|text|, i requires 0 <= i < |text| => text[i] as int % 128)
  }

  predicate Ends(slot: Slot, c: byte) {
    match slot
    case Tag => c == Ch(',') || c == Ch('{') || c == Ch('}')
    case Key => c == Ch(':') || c == Ch(',') || c == Ch(']')
    case Value => c == Ch(',') || c == Ch(']')
    case Content => c == Ch('{') || c == Ch('}')
  }

  predicate Escapable(c: byte) {
    || c == Ch('{') || c == Ch('}') || c == Ch('[') || c == Ch(']')
    || c == Ch(',') || c == Ch(':') || c == Ch('\\')
  }

  /** A byte of the slot's text, as it is or escaped, from i to j. */
  predicate Unit(s: Bytes, i: nat, j: nat, slot: Slot, c: byte) {
    && i < j <= |s|
    && if s[i] == Ch('\\') then j == i + 2 && c == s[i + 1] && Escapable(c)
       else j == i + 1 && c == s[i] && !Ends(slot, c)
  }

  predicate Units(s: Bytes, i: nat, j: nat, slot: Slot, v: Bytes)
    decreases |v|
  {
    if v == [] then i == j
    else exists k :: i < k <= j && Unit(s, i, k, slot, v[0]) && Units(s, k, j, slot, v[1..])
  }

  /** Groups of seven bits, at most so many; only the last has its high bit clear. */
  predicate Groups(s: Bytes, i: nat, j: nat, groups: nat)
    decreases groups
  {
    && groups > 0 && i < |s|
    && if s[i] < 128 then j == i + 1 else Groups(s, i + 1, j, groups - 1)
  }

  /** The least significant group comes first. */
  function GroupsValue(s: Bytes, i: nat, j: nat): nat
    requires i <= j <= |s|
    decreases j - i
  {
    if i == j then 0 else s[i] % 128 + 128 * GroupsValue(s, i + 1, j)
  }

  /** A length and as many bytes; a dialect may take the length modulo 2 to the 64th. */
  predicate Counted(s: Bytes, i: nat, j: nat, d: Dialect, v: Bytes) {
    exists k :: i <= k <= j <= |s| && Groups(s, i, k, 10)
      && |v| == Claim(GroupsValue(s, i, k), d) && j == k + |v| && v == s[k..j]
  }

  function Claim(n: nat, d: Dialect): nat {
    if d.wraps then n % 0x1_0000_0000_0000_0000 else n
  }

  /** Up to a NUL; a NUL of the text is written as an escaped zero. */
  predicate UpToNul(s: Bytes, i: nat, j: nat, v: Bytes)
    decreases |v|
  {
    && i < |s|
    && if v == [] then s[i] == 0 && j == i + 1
       else if s[i] == Ch('\\') then
         && i + 1 < |s| && UpToNul(s, i + 2, j, v[1..])
         && ((s[i + 1] == Ch('0') && v[0] == 0) || (s[i + 1] == Ch('\\') && v[0] == Ch('\\')))
       else s[i] != 0 && v[0] == s[i] && UpToNul(s, i + 1, j, v[1..])
  }

  predicate Binary(s: Bytes, i: nat, j: nat, d: Dialect, v: Bytes) {
    && i + 1 < |s| && s[i] == Ch('\\')
    && ((s[i + 1] == Ch('B') && Counted(s, i + 2, j, d, v)) || (s[i + 1] == Ch('b') && UpToNul(s, i + 2, j, v)))
  }

  /** A key, a colon at k, and a value that ends before m. */
  predicate PairAt(s: Bytes, i: nat, k: nat, m: nat, r: Rules, a: Attr) {
    && i <= k < m < |s| && Units(s, i, k, Key, a.key) && Units(s, k + 1, m, Value, a.value)
    && (a.key != [] || r.emptyKey) && s[k] == Ch(':')
  }

  /** Pairs up to and including the closing bracket, a comma before it or not. */
  predicate DerivesPairs(s: Bytes, i: nat, j: nat, r: Rules, attrs: seq<Attr>)
    decreases |attrs|
  {
    && attrs != [] && j <= |s|
    && exists k, m :: i <= k < m < j && PairAt(s, i, k, m, r, attrs[0])
         && (if |attrs| == 1 then
               (s[m] == Ch(']') && j == m + 1) || (s[m] == Ch(',') && j == m + 2 && s[m + 1] == Ch(']'))
             else s[m] == Ch(',') && DerivesPairs(s, m + 1, j, r, attrs[1..]))
  }

  predicate DerivesAttributes(s: Bytes, i: nat, j: nat, r: Rules, attrs: seq<Attr>) {
    && i + 1 < j <= |s| && s[i] == Ch('[')
    && if attrs == [] then s[i + 1] == Ch(']') && j == i + 2 else DerivesPairs(s, i + 1, j, r, attrs)
  }

  /** Texts, runs and elements; afterText says that a text comes directly before. */
  ghost predicate DerivesContents(
    s: Bytes, i: nat, j: nat, depth: nat, slot: Slot, afterText: bool, r: Rules, d: Dialect, kids: seq<Node>)
    decreases j - i, 3
  {
    || (i == j && kids == [])
    || (exists k :: ElementCut(s, i, k, j, depth, slot, r, d, kids))
    || (!afterText && exists k :: TextCut(s, i, k, j, depth, slot, r, d, kids))
    || ((!afterText || r.runBehindText) && exists k, v :: RunCut(s, i, k, j, v, depth, slot, r, d, kids))
  }

  /** A content that starts with an element, which ends at k. */
  ghost predicate ElementCut(s: Bytes, i: nat, k: nat, j: nat, depth: nat, slot: Slot, r: Rules, d: Dialect, kids: seq<Node>)
    decreases j - i, 2
  {
    && i < k <= j && kids != [] && DerivesElement(s, i, k, depth + 1, r, d, kids[0])
    && DerivesContents(s, k, j, depth, slot, false, r, d, kids[1..])
  }

  /** With a text. */
  ghost predicate TextCut(s: Bytes, i: nat, k: nat, j: nat, depth: nat, slot: Slot, r: Rules, d: Dialect, kids: seq<Node>)
    decreases j - i, 2
  {
    && i < k <= j && kids != [] && kids[0].Text? && kids[0].text != [] && Units(s, i, k, slot, kids[0].text)
    && DerivesContents(s, k, j, depth, slot, true, r, d, kids[1..])
  }

  /** With a run, which is a text as well unless it is empty and the dialect drops it. */
  ghost predicate RunCut(
    s: Bytes, i: nat, k: nat, j: nat, v: Bytes, depth: nat, slot: Slot, r: Rules, d: Dialect, kids: seq<Node>)
    decreases j - i, 2
  {
    && i < k <= j && Binary(s, i, k, d, v)
    && if v == [] && d.dropsEmpty then DerivesContents(s, k, j, depth, slot, false, r, d, kids)
       else kids != [] && kids[0] == Text(v) && DerivesContents(s, k, j, depth, slot, false, r, d, kids[1..])
  }

  /** The tag of an element that has none. */
  predicate Untagged(t: Node) {
    t.Element? && t.tag == [Ch('#'), Ch('t'), Ch('e'), Ch('x'), Ch('t')] && t.attrs == []
  }

  /** Text alone between the braces, with no comma. */
  predicate Singleton(s: Bytes, i: nat, j: nat, kids: seq<Node>) {
    if kids == [] then i == j
    else |kids| == 1 && kids[0].Text? && kids[0].text != [] && Units(s, i, j, Tag, kids[0].text)
  }

  /** An element from its opening brace to its closing one: a singleton, or a tag, a comma and more. */
  ghost predicate DerivesElement(s: Bytes, i: nat, j: nat, depth: nat, r: Rules, d: Dialect, t: Node)
    decreases j - i, 1
  {
    && i + 1 < j <= |s| && depth <= 256 && s[i] == Ch('{') && s[j - 1] == Ch('}') && t.Element?
    && (|| (Untagged(t) && Singleton(s, i + 1, j - 1, t.children))
        || (r.fullSingleton && Untagged(t) && DerivesContents(s, i + 1, j - 1, depth, Tag, false, r, d, t.children))
        || (exists k :: i < k < j - 1 && Units(s, i + 1, k, Tag, t.tag)
              && s[k] == Ch(',') && (t.tag != [] || r.emptyTag) && DerivesBody(s, k + 1, j - 1, depth, r, d, t)))
  }

  /** What stands between the comma behind a tag and the closing brace. */
  ghost predicate DerivesBody(s: Bytes, i: nat, j: nat, depth: nat, r: Rules, d: Dialect, t: Node)
    requires j < |s| && t.Element?
    decreases j - i, 4
  {
    if i < j && s[i] == Ch('[') then
      exists k :: i < k <= j && DerivesAttributes(s, i, k, r, t.attrs) && DerivesRest(s, k, j, depth, r, d, t.children)
    else i <= j && t.attrs == [] && DerivesContents(s, i, j, depth, Content, false, r, d, t.children)
  }

  ghost predicate DerivesRest(s: Bytes, i: nat, j: nat, depth: nat, r: Rules, d: Dialect, kids: seq<Node>)
    requires i <= j < |s|
    decreases j - i, 4
  {
    if i == j then kids == []
    else if s[i] == Ch(',') then DerivesContents(s, i + 1, j, depth, Content, false, r, d, kids)
    else r.bareContent && DerivesContents(s, i, j, depth, Content, false, r, d, kids)
  }

  /** Elements, one after the other, up to the end. */
  ghost predicate DerivesNodes(s: Bytes, i: nat, r: Rules, d: Dialect, ts: seq<Node>)
    decreases |ts|
  {
    if ts == [] then i == |s|
    else exists k :: i < k <= |s| && DerivesNodes(s, k, r, d, ts[1..])
           && (|| DerivesElement(s, i, k, 0, r, d, ts[0])
               || (r.textOutside && ts[0].Text? && Units(s, i, k, Content, ts[0].text)))
  }

  /** A content that is not empty starts with an element, a text or a run. */
  lemma FirstCut(s: Bytes, i: nat, j: nat, depth: nat, slot: Slot, afterText: bool, r: Rules, d: Dialect, kids: seq<Node>)
    returns (k: nat, v: Bytes)
    requires DerivesContents(s, i, j, depth, slot, afterText, r, d, kids) && !(i == j && kids == [])
    ensures || ElementCut(s, i, k, j, depth, slot, r, d, kids)
            || (!afterText && TextCut(s, i, k, j, depth, slot, r, d, kids))
            || ((!afterText || r.runBehindText) && RunCut(s, i, k, j, v, depth, slot, r, d, kids))
  {
    hide ElementCut, TextCut, RunCut;
    v := [];
    if m :| ElementCut(s, i, m, j, depth, slot, r, d, kids) {
      k := m;
    } else if m :| !afterText && TextCut(s, i, m, j, depth, slot, r, d, kids) {
      k := m;
    } else {
      k, v :| RunCut(s, i, k, j, v, depth, slot, r, d, kids) && (!afterText || r.runBehindText);
    }
  }

  /** And what starts with one of the three is a content. */
  lemma CutDerives(
    s: Bytes, i: nat, k: nat, j: nat, v: Bytes, depth: nat, slot: Slot, afterText: bool, r: Rules, d: Dialect, kids: seq<Node>)
    requires || ElementCut(s, i, k, j, depth, slot, r, d, kids)
             || (!afterText && TextCut(s, i, k, j, depth, slot, r, d, kids))
             || ((!afterText || r.runBehindText) && RunCut(s, i, k, j, v, depth, slot, r, d, kids))
    ensures DerivesContents(s, i, j, depth, slot, afterText, r, d, kids)
  {
    hide ElementCut, TextCut, RunCut;
  }

  /** The characters of the grammar are those the readers look for. */
  lemma Characters()
    ensures LBR == Ch('{') && RBR == Ch('}') && LSQ == Ch('[') && RSQ == Ch(']') && COM == Ch(',') && COL == Ch(':')
    ensures BS == Ch('\\') && LOWER_B == Ch('b') && UPPER_B == Ch('B') && ZERO == Ch('0') && NUL == 0
    ensures IMPLICIT_TAG == [Ch('#'), Ch('t'), Ch('e'), Ch('x'), Ch('t')]
  {
  }

  lemma EndsStops(slot: Slot, c: byte)
    ensures Ends(slot, c) <==> Stops(slot, c)
    ensures Escapable(c) <==> ValidEscape(c)
  {
    Characters();
  }

  /** Reading one unit and going on is reading from the unit on. */
  lemma UnitRead(s: Bytes, i: nat, j: nat, slot: Slot, c: byte)
    requires Unit(s, i, j, slot, c)
    ensures ReadEscaped(s, i, slot) == Follow(c, ReadEscaped(s, j, slot))
  {
    Characters();
    EndsStops(slot, c);
  }

  /** A text and what is read behind it. */
  lemma {:induction false} UnitsFollowed(s: Bytes, i: nat, j: nat, slot: Slot, v: Bytes)
    requires Units(s, i, j, slot, v)
    ensures var r, rest := ReadEscaped(s, i, slot), ReadEscaped(s, j, slot);
            (r.Parsed? <==> rest.Parsed?) && (r.Parsed? ==> r.end == rest.end && r.value == v + rest.value)
    decreases |v|
  {
    hide Unit, ReadEscaped;
    if v != [] {
      var k :| i < k <= j && Unit(s, i, k, slot, v[0]) && Units(s, k, j, slot, v[1..]);
      UnitRead(s, i, k, slot, v[0]);
      UnitsFollowed(s, k, j, slot, v[1..]);
    }
  }

  lemma UnitsRead(s: Bytes, i: nat, j: nat, slot: Slot, v: Bytes)
    requires Units(s, i, j, slot, v) && j < |s| && Ends(slot, s[j])
    ensures ReadEscaped(s, i, slot) == Parsed(v, j)
  {
    hide Units, ReadEscaped, Ends;
    UnitsFollowed(s, i, j, slot, v);
    StopsHere(s, j, slot);
    assert v + [] == v;
  }

  lemma StopsHere(s: Bytes, i: nat, slot: Slot)
    requires i < |s| && Ends(slot, s[i])
    ensures ReadEscaped(s, i, slot) == Parsed([], i)
  {
    Characters();
    EndsStops(slot, s[i]);
  }

  /** What is read as text starts with a unit, or is empty. */
  lemma ReadUnit(s: Bytes, i: nat, slot: Slot) returns (k: nat)
    requires ReadEscaped(s, i, slot).Parsed?
    ensures var r, rest := ReadEscaped(s, i, slot), ReadEscaped(s, k, slot);
            if r.value == [] then r.end == i
            else i < k <= r.end && Unit(s, i, k, slot, r.value[0]) && rest == Parsed(r.value[1..], r.end)
  {
    Characters();
    k := if s[i] == BS then i + 2 else i + 1;
    EndsStops(slot, s[i]);
    if s[i] == BS {
      EndsStops(slot, s[i + 1]);
    }
    var r, rest := ReadEscaped(s, i, slot), ReadEscaped(s, k, slot);
    if r.value != [] {
      assert r.value[1..] == rest.value;
    }
  }

  lemma {:induction false} ReadUnits(s: Bytes, i: nat, slot: Slot)
    requires ReadEscaped(s, i, slot).Parsed?
    ensures var r := ReadEscaped(s, i, slot); r.end < |s| && Ends(slot, s[r.end]) && Units(s, i, r.end, slot, r.value)
    decreases |s| - i
  {
    hide Unit, ReadEscaped, Ends;
    var r := ReadEscaped(s, i, slot);
    var k := ReadUnit(s, i, slot);
    EndsStops(slot, s[r.end]);
    if r.value != [] {
      ReadUnits(s, k, slot);
    }
  }

  lemma {:induction false} GroupsRead(s: Bytes, i: nat, j: nat, groups: nat)
    requires Groups(s, i, j, groups)
    ensures i < j <= |s| && ReadCount(s, i, groups) == Parsed(GroupsValue(s, i, j), j)
    decreases groups
  {
    if s[i] >= 128 {
      GroupsRead(s, i + 1, j, groups - 1);
    } else {
      assert GroupsValue(s, j, j) == 0;
    }
  }

  lemma {:induction false} ReadGroups(s: Bytes, i: nat, groups: nat)
    requires ReadCount(s, i, groups).Parsed?
    ensures Groups(s, i, ReadCount(s, i, groups).end, groups)
    decreases groups
  {
    if s[i] >= 128 {
      ReadGroups(s, i + 1, groups - 1);
    }
  }

  lemma CountedRead(s: Bytes, i: nat, j: nat, d: Dialect, v: Bytes)
    ensures Counted(s, i, j, d, v) <==> ReadCounted(s, i, d) == Parsed(v, j)
  {
    hide Groups, ReadCount, GroupsValue;
    if Counted(s, i, j, d, v) {
      var k :| i <= k <= j <= |s| && Groups(s, i, k, 10)
               && |v| == Claim(GroupsValue(s, i, k), d) && j == k + |v| && v == s[k..j];
      GroupsRead(s, i, k, 10);
    }
    var n := ReadCount(s, i, MAX_GROUPS);
    if n.Parsed? {
      ReadGroups(s, i, MAX_GROUPS);
      GroupsRead(s, i, n.end, MAX_GROUPS);
    }
  }

  lemma {:induction false} UpToNulRead(s: Bytes, i: nat, j: nat, v: Bytes)
    ensures UpToNul(s, i, j, v) <==> ReadTerminated(s, i) == Parsed(v, j)
    decreases |s| - i
  {
    Characters();
    if i < |s| && s[i] != NUL {
      var next := if s[i] == BS then i + 2 else i + 1;
      if next <= |s| {
        UpToNulRead(s, next, j, if v == [] then [] else v[1..]);
      }
      if v != [] {
        assert [v[0]] + v[1..] == v;
      }
      var rest := ReadTerminated(s, next);
      if rest.Parsed? {
        assert forall c: byte :: ([c] + rest.value)[1..] == rest.value && ([c] + rest.value)[0] == c;
      }
    }
  }

  lemma BinaryRead(s: Bytes, i: nat, j: nat, d: Dialect, v: Bytes)
    ensures Binary(s, i, j, d, v) <==> RunAt(s, i) && ReadRun(s, i, d) == Parsed(v, j)
  {
    hide Counted, UpToNul, ReadCounted, ReadTerminated;
    Characters();
    CountedRead(s, i + 2, j, d, v);
    UpToNulRead(s, i + 2, j, v);
  }

  lemma NoKey(s: Bytes, i: nat)
    requires i < |s| && s[i] == Ch(']')
    ensures ReadPairs(s, i).Rejected?
  {
    Characters();
  }

  lemma PairRead(s: Bytes, i: nat, k: nat, m: nat, a: Attr)
    requires PairAt(s, i, k, m, CODE, a) && (s[m] == Ch(']') || s[m] == Ch(','))
    ensures k < m < |s| && s[k] == Ch(':')
    ensures ReadEscaped(s, i, Key) == Parsed(a.key, k) && ReadEscaped(s, k + 1, Value) == Parsed(a.value, m)
  {
    hide ReadEscaped, Units;
    UnitsRead(s, i, k, Key, a.key);
    UnitsRead(s, k + 1, m, Value, a.value);
  }

  lemma LastPairRead(s: Bytes, i: nat, k: nat, m: nat, j: nat, a: Attr)
    requires m < j <= |s| && PairAt(s, i, k, m, CODE, a)
    requires (s[m] == Ch(']') && j == m + 1) || (s[m] == Ch(',') && j == m + 2 && s[m + 1] == Ch(']'))
    ensures ReadPairs(s, i) == Parsed([a], j)
  {
    hide ReadEscaped, PairAt;
    Characters();
    PairRead(s, i, k, m, a);
    assert Attr(a.key, a.value) == a;
  }

  lemma NextPairRead(s: Bytes, i: nat, k: nat, m: nat, j: nat, a: Attr, rest: seq<Attr>)
    requires PairAt(s, i, k, m, CODE, a) && s[m] == Ch(',') && ReadPairs(s, m + 1) == Parsed(rest, j)
    ensures ReadPairs(s, i) == Parsed([a] + rest, j)
  {
    hide ReadEscaped, PairAt;
    Characters();
    PairRead(s, i, k, m, a);
    assert Attr(a.key, a.value) == a;
    if m + 1 < |s| && s[m + 1] == Ch(']') {
      NoKey(s, m + 1);
      assert false;
    }
  }

  lemma {:induction false} PairsRead(s: Bytes, i: nat, j: nat, attrs: seq<Attr>)
    requires DerivesPairs(s, i, j, CODE, attrs)
    ensures ReadPairs(s, i) == Parsed(attrs, j)
    decreases |attrs|
  {
    hide ReadPairs, PairAt;
    var k, m :| i <= k < m < j && PairAt(s, i, k, m, CODE, attrs[0])
      && (if |attrs| == 1 then
            (s[m] == Ch(']') && j == m + 1) || (s[m] == Ch(',') && j == m + 2 && s[m + 1] == Ch(']'))
          else s[m] == Ch(',') && DerivesPairs(s, m + 1, j, CODE, attrs[1..]));
    assert attrs == [attrs[0]] + attrs[1..];
    if |attrs| == 1 {
      assert attrs == [attrs[0]];
      LastPairRead(s, i, k, m, j, attrs[0]);
    } else {
      PairsRead(s, m + 1, j, attrs[1..]);
      NextPairRead(s, i, k, m, j, attrs[0], attrs[1..]);
    }
  }

  lemma PairsReach(s: Bytes, i: nat)
    ensures ReadPairs(s, i).Parsed? ==> i < |s| && ReadPairs(s, i).value != []
  {
  }

  lemma {:induction false} ReadPairsDerived(s: Bytes, i: nat)
    requires ReadPairs(s, i).Parsed?
    ensures DerivesPairs(s, i, ReadPairs(s, i).end, CODE, ReadPairs(s, i).value)
    decreases |s| - i
  {
    hide ReadEscaped, Units;
    Characters();
    var key := ReadEscaped(s, i, Key);
    var value := ReadEscaped(s, key.end + 1, Value);
    ReadUnits(s, i, Key);
    ReadUnits(s, key.end + 1, Value);
    var attrs := ReadPairs(s, i).value;
    assert PairAt(s, i, key.end, value.end, CODE, attrs[0]);
    if s[value.end] == COM && !(value.end + 1 < |s| && s[value.end + 1] == RSQ) {
      ReadPairsDerived(s, value.end + 1);
      PairsReach(s, value.end + 1);
      assert attrs[1..] == ReadPairs(s, value.end + 1).value;
    }
  }

  lemma AttributesRead(s: Bytes, i: nat, j: nat, attrs: seq<Attr>)
    requires i < |s| && s[i] == Ch('[')
    ensures DerivesAttributes(s, i, j, CODE, attrs) <==> ReadAttrs(s, i + 1) == Parsed(attrs, j)
  {
    hide DerivesPairs, ReadPairs;
    Characters();
    if DerivesAttributes(s, i, j, CODE, attrs) && attrs != [] {
      PairsRead(s, i + 1, j, attrs);
      if s[i + 1] == Ch(']') {
        NoKey(s, i + 1);
      }
    }
    if i + 1 < |s| && ReadPairs(s, i + 1).Parsed? {
      ReadPairsDerived(s, i + 1);
      PairsReach(s, i + 1);
    }
  }

  /** Behind a text comes a brace. */
  lemma AfterText(s: Bytes, i: nat, j: nat, depth: nat, d: Dialect, kids: seq<Node>)
    requires i <= j < |s| && s[j] == Ch('}') && DerivesContents(s, i, j, depth, Content, true, CODE, d, kids)
    ensures Ends(Content, s[i])
  {
    if !(i == j && kids == []) {
      hide DerivesElement, DerivesContents;
      var k, _ := FirstCut(s, i, j, depth, Content, true, CODE, d, kids);
      ElementBraces(s, i, k, depth + 1, CODE, d, kids[0]);
      Characters();
    }
  }

  lemma TextStart(s: Bytes, i: nat, j: nat, v: Bytes)
    requires Units(s, i, j, Content, v) && v != []
    ensures i < j <= |s| && s[i] != LBR && s[i] != RBR && !RunAt(s, i)
  {
    Characters();
    var k :| i < k <= j && Unit(s, i, k, Content, v[0]) && Units(s, k, j, Content, v[1..]);
    if k < j {
      UnitsBound(s, k, j, Content, v[1..]);
    }
  }

  lemma {:induction false} UnitsBound(s: Bytes, i: nat, j: nat, slot: Slot, v: Bytes)
    requires Units(s, i, j, slot, v) && i < j
    ensures j <= |s|
    decreases |v|
  {
    hide Unit;
    var k :| i < k <= j && Unit(s, i, k, slot, v[0]) && Units(s, k, j, slot, v[1..]);
    if k < j {
      UnitsBound(s, k, j, slot, v[1..]);
    } else {
      UnitBound(s, i, k, slot, v[0]);
    }
  }

  lemma UnitBound(s: Bytes, i: nat, j: nat, slot: Slot, c: byte)
    requires Unit(s, i, j, slot, c)
    ensures j <= |s|
  {
  }

  lemma RunStart(s: Bytes, i: nat, j: nat, d: Dialect, v: Bytes)
    requires Binary(s, i, j, d, v)
    ensures RunAt(s, i) && s[i] != LBR && s[i] != RBR && ReadRun(s, i, d) == Parsed(v, j)
  {
    Characters();
    BinaryRead(s, i, j, d, v);
  }

  lemma FirstAndRest(kids: seq<Node>)
    requires kids != []
    ensures [kids[0]] + kids[1..] == kids
  {
  }

  /** Derived contents are read as the children they derive. */
  lemma {:induction false} ContentsRead(s: Bytes, i: nat, j: nat, depth: nat, afterText: bool, d: Dialect, kids: seq<Node>)
    requires i <= j < |s| && s[j] == Ch('}') && DerivesContents(s, i, j, depth, Content, afterText, CODE, d, kids)
    ensures ReadKids(s, i, depth, d) == Parsed(kids, j + 1)
    decreases j - i, 2
  {
    hide ReadEscaped, ReadRun, ReadElement, DerivesElement, DerivesContents, Units, Binary;
    Characters();
    if !(i == j && kids == []) {
      var k, v := FirstCut(s, i, j, depth, Content, afterText, CODE, d, kids);
      if ElementCut(s, i, k, j, depth, Content, CODE, d, kids) {
        ElementRead(s, i, k, depth + 1, d, kids[0]);
        ElementBraces(s, i, k, depth + 1, CODE, d, kids[0]);
        ContentsRead(s, k, j, depth, false, d, kids[1..]);
        FirstAndRest(kids);
      } else if !afterText && TextCut(s, i, k, j, depth, Content, CODE, d, kids) {
        AfterText(s, k, j, depth, d, kids[1..]);
        UnitsRead(s, i, k, Content, kids[0].text);
        TextStart(s, i, k, kids[0].text);
        ContentsRead(s, k, j, depth, true, d, kids[1..]);
        FirstAndRest(kids);
      } else {
        RunStart(s, i, k, d, v);
        if v == [] && d.dropsEmpty {
          ContentsRead(s, k, j, depth, false, d, kids);
        } else {
          ContentsRead(s, k, j, depth, false, d, kids[1..]);
          FirstAndRest(kids);
        }
      }
    }
  }

  lemma ElementBraces(s: Bytes, i: nat, j: nat, depth: nat, r: Rules, d: Dialect, t: Node)
    requires DerivesElement(s, i, j, depth, r, d, t)
    ensures i + 1 < j <= |s| && depth <= MAX_DEPTH && s[i] == LBR && s[j - 1] == RBR && t.Element?
  {
    hide Units, DerivesBody, DerivesContents, Singleton;
    Characters();
  }

  lemma {:induction false} ElementRead(s: Bytes, i: nat, j: nat, depth: nat, d: Dialect, t: Node)
    requires DerivesElement(s, i, j, depth, CODE, d, t)
    ensures ReadElement(s, i, depth, d) == Parsed(t, j)
    decreases j - i, 1
  {
    hide ReadEscaped, ReadBody, Units, DerivesBody, DerivesContents, Singleton;
    Characters();
    if Untagged(t) && Singleton(s, i + 1, j - 1, t.children) {
      SingletonRead(s, i + 1, j - 1, t.children);
      assert t == Element(t.tag, t.attrs, t.children);
    } else {
      var k :| i < k < j - 1 && Units(s, i + 1, k, Tag, t.tag) && s[k] == Ch(',') && (t.tag != [] || CODE.emptyTag)
               && DerivesBody(s, k + 1, j - 1, depth, CODE, d, t);
      UnitsRead(s, i + 1, k, Tag, t.tag);
      BodyRead(s, k + 1, j - 1, depth, d, t);
    }
  }

  lemma SingletonRead(s: Bytes, i: nat, j: nat, kids: seq<Node>)
    requires j < |s| && s[j] == Ch('}') && Singleton(s, i, j, kids)
    ensures var r := ReadEscaped(s, i, Tag); r.Parsed? && r.end == j && kids == if r.value == [] then [] else [Text(r.value)]
  {
    hide ReadEscaped, Units;
    if kids == [] {
      StopsHere(s, i, Tag);
    } else {
      UnitsRead(s, i, j, Tag, kids[0].text);
      assert kids == [kids[0]];
    }
  }

  lemma {:induction false} BodyRead(s: Bytes, i: nat, j: nat, depth: nat, d: Dialect, t: Node)
    requires j < |s| && s[j] == Ch('}') && t.Element? && DerivesBody(s, i, j, depth, CODE, d, t)
    ensures ReadBody(s, i, depth, d, t.tag) == Parsed(t, j + 1)
    decreases j - i, 3
  {
    hide ReadAttrs, ReadKids, DerivesContents, DerivesAttributes;
    Characters();
    assert t == Element(t.tag, t.attrs, t.children);
    if i < j && s[i] == Ch('[') {
      var k :| i < k <= j && DerivesAttributes(s, i, k, CODE, t.attrs) && DerivesRest(s, k, j, depth, CODE, d, t.children);
      AttributesRead(s, i, k, t.attrs);
      if k < j {
        ContentsRead(s, if s[k] == Ch(',') then k + 1 else k, j, depth, false, d, t.children);
        if s[k] == Ch('}') {
          KidsAtBrace(s, k, depth, d);
          assert false;
        }
      }
    } else {
      ContentsRead(s, i, j, depth, false, d, t.children);
    }
  }

  lemma KidsAtBrace(s: Bytes, i: nat, depth: nat, d: Dialect)
    requires i < |s| && s[i] == Ch('}')
    ensures ReadKids(s, i, depth, d) == Parsed([], i + 1)
  {
    Characters();
  }

  /** At a brace it makes no difference whether a text comes before. */
  lemma AtBrace(s: Bytes, i: nat, j: nat, depth: nat, d: Dialect, kids: seq<Node>)
    requires i <= j && i < |s| && Ends(Content, s[i]) && DerivesContents(s, i, j, depth, Content, false, CODE, d, kids)
    ensures DerivesContents(s, i, j, depth, Content, true, CODE, d, kids)
  {
    if !(i == j && kids == []) {
      hide DerivesElement, DerivesContents, Units, Binary;
      Characters();
      var k, v := FirstCut(s, i, j, depth, Content, false, CODE, d, kids);
      if !ElementCut(s, i, k, j, depth, Content, CODE, d, kids) {
        if TextCut(s, i, k, j, depth, Content, CODE, d, kids) {
          TextStart(s, i, k, kids[0].text);
        } else {
          RunStart(s, i, k, d, v);
        }
        assert false;
      }
      CutDerives(s, i, k, j, v, depth, Content, true, CODE, d, kids);
    }
  }

  lemma {:induction false} KidsDerived(s: Bytes, i: nat, depth: nat, d: Dialect)
    requires ReadKids(s, i, depth, d).Parsed?
    ensures var r := ReadKids(s, i, depth, d);
            var j := r.end - 1;
            i <= j < |s| && s[j] == Ch('}') && DerivesContents(s, i, j, depth, Content, false, CODE, d, r.value)
    decreases |s| - i, 2
  {
    hide ReadEscaped, ReadRun, ReadElement, DerivesElement, Units, Binary;
    Characters();
    if s[i] != RBR {
      hide DerivesContents;
      var r := ReadKids(s, i, depth, d);
      var j, k, v := r.end - 1, 0, [];
      if s[i] == LBR {
        k := ReadElement(s, i, depth + 1, d).end;
        ElementDerived(s, i, depth + 1, d);
        KidsDerived(s, k, depth, d);
        assert r.value[1..] == ReadKids(s, k, depth, d).value;
      } else if RunAt(s, i) {
        k, v := ReadRun(s, i, d).end, ReadRun(s, i, d).value;
        BinaryRead(s, i, k, d, v);
        KidsDerived(s, k, depth, d);
        if !(v == [] && d.dropsEmpty) {
          assert r.value[1..] == ReadKids(s, k, depth, d).value;
        }
      } else {
        TextAdvances(s, i, d);
        k := ReadEscaped(s, i, Content).end;
        KidsDerived(s, k, depth, d);
        ReadUnits(s, i, Content);
        AtBrace(s, k, j, depth, d, ReadKids(s, k, depth, d).value);
        assert r.value[1..] == ReadKids(s, k, depth, d).value;
      }
      CutDerives(s, i, k, j, v, depth, Content, false, CODE, d, r.value);
    }
  }

  lemma {:induction false} ElementDerived(s: Bytes, i: nat, depth: nat, d: Dialect)
    requires ReadElement(s, i, depth, d).Parsed?
    ensures var r := ReadElement(s, i, depth, d); DerivesElement(s, i, r.end, depth, CODE, d, r.value)
    decreases |s| - i, 1
  {
    hide ReadEscaped, ReadBody, Units, DerivesBody, DerivesContents;
    Characters();
    var head := ReadEscaped(s, i + 1, Tag);
    ReadUnits(s, i + 1, Tag);
    if s[head.end] == RBR {
      HeadSingleton(s, i + 1, head.end, head.value);
    } else {
      BodyDerived(s, head.end + 1, depth, d, head.value);
    }
  }

  lemma HeadSingleton(s: Bytes, i: nat, j: nat, v: Bytes)
    requires Units(s, i, j, Tag, v)
    ensures var t := AsElement(Text(v)); Untagged(t) && Singleton(s, i, j, t.children)
  {
    hide Unit;
    Characters();
  }

  lemma {:induction false} BodyDerived(s: Bytes, i: nat, depth: nat, d: Dialect, tag: Bytes)
    requires ReadBody(s, i, depth, d, tag).Parsed?
    ensures var r := ReadBody(s, i, depth, d, tag);
            var j := r.end - 1;
            && i <= j < |s| && s[j] == Ch('}') && r.value.Element? && r.value.tag == tag
            && DerivesBody(s, i, j, depth, CODE, d, r.value)
    decreases |s| - i, 3
  {
    hide ReadAttrs, ReadKids, DerivesContents, DerivesAttributes;
    Characters();
    var r := ReadBody(s, i, depth, d, tag);
    if i < |s| && s[i] == LSQ {
      var attrs := ReadAttrs(s, i + 1);
      AttributesRead(s, i, attrs.end, attrs.value);
      if !(attrs.end < |s| && s[attrs.end] == RBR) {
        KidsDerived(s, if attrs.end < |s| && s[attrs.end] == COM then attrs.end + 1 else attrs.end, depth, d);
      }
      assert DerivesRest(s, attrs.end, r.end - 1, depth, CODE, d, r.value.children);
    } else {
      KidsDerived(s, i, depth, d);
    }
  }

  /** A document is read as a tree if and only if the grammar of the code derives that tree from it,
      one way of cutting it up being as good as any other. */
  lemma ReadIsDerived(b: Bytes, d: Dialect, t: Node)
    ensures Decoded(b, d) == Parsed(t, |b|) <==> DerivesElement(b, 0, |b|, 0, CODE, d, t)
  {
    hide ReadElement, DerivesElement;
    if ReadElement(b, 0, 0, d).Parsed? {
      ElementDerived(b, 0, 0, d);
    }
    if DerivesElement(b, 0, |b|, 0, CODE, d, t) {
      ElementRead(b, 0, |b|, 0, d, t);
    }
  }

  /** So it is accepted if and only if some tree is derived. */
  lemma AcceptedIsDerived(b: Bytes, d: Dialect)
    ensures Decoded(b, d).Parsed? <==> exists t :: DerivesElement(b, 0, |b|, 0, CODE, d, t)
    ensures Decoded(b, d).Parsed? ==> Decoded(b, d).end == |b|
  {
    hide ReadElement, DerivesElement;
    if Decoded(b, d).Parsed? {
      ReadIsDerived(b, d, Decoded(b, d).value);
    }
    forall t | DerivesElement(b, 0, |b|, 0, CODE, d, t) ensures Decoded(b, d).Parsed? {
      ReadIsDerived(b, d, t);
    }
  }

  /** So it is with documents of several elements. */
  lemma {:induction false} DocumentIsDerived(s: Bytes, i: nat, d: Dialect, ts: seq<Node>)
    requires i <= |s|
    ensures ReadAll(s, i, d) == Parsed(ts, |s|) <==> DerivesNodes(s, i, CODE, d, ts)
    decreases |s| - i
  {
    hide ReadElement, DerivesElement;
    if i < |s| {
      var el := ReadElement(s, i, 0, d);
      if el.Parsed? {
        ElementDerived(s, i, 0, d);
        DocumentIsDerived(s, el.end, d, if ts == [] then [] else ts[1..]);
      }
      if ts != [] {
        FirstAndRest(ts);
        if DerivesNodes(s, i, CODE, d, ts) {
          var k :| i < k <= |s| && DerivesNodes(s, k, CODE, d, ts[1..]) && DerivesElement(s, i, k, 0, CODE, d, ts[0]);
          ElementRead(s, i, k, 0, d, ts[0]);
        }
        AllRead(s, i, d, ts);
      }
    }
  }

  lemma AllRead(s: Bytes, i: nat, d: Dialect, ts: seq<Node>)
    requires i < |s| && ts != []
    ensures var el := ReadElement(s, i, 0, d);
            ReadAll(s, i, d) == Parsed(ts, |s|)
            <==> el.Parsed? && el.value == ts[0] && ReadAll(s, el.end, d) == Parsed(ts[1..], |s|)
  {
    hide ReadElement;
    FirstAndRest(ts);
    var r := ReadAll(s, i, d);
    if r.Parsed? && r.value == ts {
      assert r.value[1..] == ReadAll(s, ReadElement(s, i, 0, d).end, d).value;
    }
  }
}
