/** Tries and their tables as hexadecimal digits, for dictionaries whose symbols take four bits. */
module HexTrie {
  import opened Bits
  import opened Varint
  import opened Keys
  import opened Trie
  import opened TrieBuild
  import opened SymbolTable
  import opened HexDigits

  /** A range of one entry is a leaf. */
  lemma OneEntry(es: seq<Entry>, hasValues: bool, i: nat, n: nat)
    requires Sorted(es) && i < |es| && Range(es, i, i + 1, n)
    ensures TrieOf(es, hasValues, i, i + 1, n) == Node(es[i].key[n..], TerminalOf(hasValues, es[i].val), NoKids)
  {
    hide Sorted;
    CommonOfOne(es, i, n);
    assert es[i].key[n..|es[i].key|] == es[i].key[n..];
  }

  lemma {:induction false} CommonOfOne(es: seq<Entry>, i: nat, n: nat)
    requires i < |es| && n <= |es[i].key|
    ensures Common(es, i, i + 1, n) == |es[i].key|
    decreases |es[i].key| - n
  {
    if n < |es[i].key| {
      CommonOfOne(es, i, n + 1);
    }
  }

  predicate Ascends(s: seq<byte>) {
    forall i, j :: 0 <= i < j < |s| ==> s[i] < s[j]
  }

  /** Two ascending lists of the same bytes are one. */
  lemma {:induction false} AscendingUnique(a: seq<byte>, b: seq<byte>)
    requires Ascends(a) && Ascends(b) && forall c: byte :: c in a <==> c in b
    ensures a == b
  {
    assert b != [] ==> b[0] in b;
    if a != [] {
      assert a[0] in b && b[0] in a;
      assert a[0] == b[0];
      forall c: byte ensures c in a[1..] <==> c in b[1..] {
        assert c in a <==> c in b;
        assert c in a[1..] <==> c in a && c != a[0];
        assert c in b[1..] <==> c in b && c != b[0];
      }
      AscendingUnique(a[1..], b[1..]);
      assert a == [a[0]] + a[1..] && b == [b[0]] + b[1..];
    }
  }

  lemma AscendsDistinct(s: seq<byte>)
    requires Ascends(s)
    ensures Distinct(s)
  {
  }

  lemma FourBitsEach(total: nat)
    requires 9 <= total <= 16
    ensures Width(total, 1) == 4
  {
    assert Pow2(1) == 2 && Pow2(2) == 4 && Pow2(3) == 8 && Pow2(4) == 16;
    assert Width(total, 3) == Width(total, 4) == 4;
    assert Width(total, 2) == 4;
  }

  /** Four bits a symbol, control codes 0 to 5, and the alphabet from 6 on. */
  ghost predicate NibbleTable(sym: Symbols, alphabet: seq<byte>) {
    && Canonical(sym) && sym.bps == 4 && sym.count == 6 + |alphabet| <= 16
    && sym.byteOf[6..sym.count] == alphabet
    && forall i :: 0 <= i < |alphabet| ==> sym.codeOf[alphabet[i]] == 6 + i
  }

  lemma FourBitTable(alphabet: seq<byte>)
    requires Ascends(alphabet) && 3 <= |alphabet| <= 10
    ensures NibbleTable(TableOf(alphabet), alphabet)
  {
    hide Width, AssignAll;
    AscendsDistinct(alphabet);
    FourBitsEach(6 + |alphabet|);
    TableCanonical(alphabet);
    TableBytes(alphabet);
    assert [] + alphabet == alphabet;
    AssignedAll(Blank(4, 6 + |alphabet|, [0, 1, 2, 3, 4, 5]), 6, [], alphabet);
  }

  lemma {:induction false} CtrlNibbles(ctrl: seq<nat>)
    ensures CtrlBits(4, ctrl) == HexBits(ctrl)
  {
    hide BitsOf;
    if ctrl != [] {
      CtrlNibbles(ctrl[1..]);
    }
  }

  lemma {:induction false} TableNibbles(sym: Symbols, code: nat)
    requires |sym.byteOf| == 256 && code <= sym.count <= 256 && forall i :: code <= i < sym.count ==> sym.byteOf[i] < 128
    ensures TableBits(sym, code) == HexBits(Hex(sym.byteOf[code..sym.count]))
    decreases sym.count - code
  {
    hide Varint.Varint, HexBits;
    var rest := sym.byteOf[code..sym.count];
    if code < sym.count {
      TableNibbles(sym, code + 1);
      ShortVarint(sym.byteOf[code]);
      assert rest[1..] == sym.byteOf[code + 1..sym.count];
      NibblesConcat([rest[0] / 16, rest[0] % 16], Hex(rest[1..]));
    } else {
      NoNibbles();
    }
  }

  lemma SmallCodes(sym: Symbols, alphabet: seq<byte>)
    requires NibbleTable(sym, alphabet) && forall b :: b in alphabet ==> b < 128
    ensures |sym.byteOf| == 256 && forall i :: 6 <= i < sym.count ==> sym.byteOf[i] < 128
  {
    forall i | 6 <= i < sym.count ensures sym.byteOf[i] < 128 {
      assert sym.byteOf[i] == sym.byteOf[6..sym.count][i - 6] == alphabet[i - 6];
      assert alphabet[i - 6] in alphabet;
    }
  }

  /** The configuration: width, count, control codes, and the bytes of the alphabet. */
  lemma ConfigHex(sym: Symbols, alphabet: seq<byte>)
    requires NibbleTable(sym, alphabet) && forall b :: b in alphabet ==> b < 128
    ensures |sym.byteOf| == 256
    ensures ConfigBits(sym) == HexBits([4] + [(6 + |alphabet|) / 16, (6 + |alphabet|) % 16] + [0, 1, 2, 3, 4, 5] + Hex(alphabet))
  {
    hide BitsOf, HexBits, CtrlBits, TableBits, Hex;
    CtrlNibbles(sym.ctrl);
    SmallCodes(sym, alphabet);
    TableNibbles(sym, 6);
    ByteNibbles(6 + |alphabet|);
    OneNibble(4);
    Joined([4], [(6 + |alphabet|) / 16, (6 + |alphabet|) % 16], [0, 1, 2, 3, 4, 5], Hex(alphabet));
  }

  /** The codes spell the bytes. */
  ghost predicate Codes(sym: Symbols, run: Key, codes: seq<nat>) {
    && |sym.codeOf| == 256 && |codes| == |run|
    && forall i :: 0 <= i < |run| ==> sym.codeOf[run[i]] == codes[i]
  }

  lemma {:induction false} RunNibbles(sym: Symbols, run: Key, codes: seq<nat>)
    requires Shaped(sym) && sym.bps == 4 && Codes(sym, run, codes)
    ensures RunBits(sym, run) == HexBits(codes)
    decreases |run|
  {
    hide BitsOf;
    if run != [] {
      RunNibbles(sym, run[1..], codes[1..]);
    }
  }

  lemma NoBranch(sym: Symbols, index: nat)
    requires Shaped(sym)
    ensures BranchBits(sym, NoKids, index) == []
  {
  }

  lemma Leaf(sym: Symbols, run: Key, codes: seq<nat>, index: nat)
    requires Canonical(sym) && sym.bps == 4 && Codes(sym, run, codes) && index < 128
    ensures NodeBits(sym, Node(run, Valued, NoKids), index) == HexBits(codes + [1, index / 16, index % 16])
  {
    hide BitsOf, HexBits, RunBits, Varint.Varint, BranchBits, Codes;
    RunNibbles(sym, run, codes);
    ShortVarint(index);
    OneNibble(1);
    NoBranch(sym, KidsIndex(Valued, index));
    assert [1 as nat] + [index / 16, index % 16] == [1, index / 16, index % 16];
    NibblesConcat([1], [index / 16, index % 16]);
    NibblesConcat(codes, [1, index / 16, index % 16]);
    AddNothing(HexBits([1, index / 16, index % 16]));
  }

  lemma NullLeaf(sym: Symbols, run: Key, codes: seq<nat>, index: nat)
    requires Canonical(sym) && sym.bps == 4 && Codes(sym, run, codes)
    ensures NodeBits(sym, Node(run, Plain, NoKids), index) == HexBits(codes + [0])
  {
    hide BitsOf, HexBits, RunBits, BranchBits, Codes;
    RunNibbles(sym, run, codes);
    OneNibble(0);
    NoBranch(sym, KidsIndex(Plain, index));
    NibblesConcat(codes, [0]);
    AddNothing(HexBits([0]));
  }

  lemma AddNothing(s: seq<bool>)
    ensures s + [] == s
  {
  }

  /** A branch of two: their number, the distance over the first one, and both. */
  lemma TwoKids(sym: Symbols, t: Trie, u: Trie, index: nat, first: seq<nat>, second: seq<nat>)
    requires Canonical(sym) && sym.bps == 4 && 4 * |first| < 128
    requires NodeBits(sym, t, index) == HexBits(first) && NodeBits(sym, u, index + Count(t)) == HexBits(second)
    ensures BranchBits(sym, Kid(t, Kid(u, NoKids)), index)
         == HexBits([5, 0, 2] + [2, 4 * |first| / 16, 4 * |first| % 16] + first + second)
  {
    hide BitsOf, HexBits, Varint.Varint, NodeBits;
    var n := 4 * |first|;
    NibblesLength(first);
    ShortVarint(2);
    ShortVarint(n);
    OneNibble(5);
    OneNibble(2);
    OnlyKid(sym, u, index + Count(t));
    NibblesConcat([5], [0, 2]);
    NibblesConcat([2], [n / 16, n % 16]);
    assert [5 as nat] + [0, 2] == [5, 0, 2] && [2 as nat] + [n / 16, n % 16] == [2, n / 16, n % 16];
    Joined([5, 0, 2], [2, n / 16, n % 16], first, second);
    assert Len(Kid(u, NoKids)) == 1;
    assert Len(Kid(t, Kid(u, NoKids))) == 2;
    assert SkipBits(sym, n) == HexBits([2, n / 16, n % 16]);
    Associative(BitsOf(5, 4), Varint.Varint(2), SkipBits(sym, n) + (HexBits(first) + HexBits(second)));
  }

  lemma OnlyKid(sym: Symbols, u: Trie, index: nat)
    requires Shaped(sym)
    ensures KidsBits(sym, Kid(u, NoKids), index) == NodeBits(sym, u, index)
  {
    hide NodeBits;
  }

  lemma NoTerminal(sym: Symbols, s: seq<bool>)
    requires Shaped(sym)
    ensures TermBits(sym, NoKey, 0) + s == s
  {
  }

  lemma Shapely(sym: Symbols)
    requires Canonical(sym)
    ensures Shaped(sym)
  {
  }
}
