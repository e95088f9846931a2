/** The alphabet of a dictionary: counting the bytes in use, assigning codes, and writing and
    reading the table. */
module SymbolTable {
  import opened Bits
  import opened Results
  import opened Varint
  import opened BitStream
  import opened Trie
  import opened TrieBuild
  import opened Dictionary

  const MAX_ALPHABET_SIZE: nat := 249

  ghost predicate Uses(es: seq<Entry>, b: nat) {
    exists i :: 0 <= i < |es| && exists j :: 0 <= j < |es[i].key| && es[i].key[j] == b
  }

  /** The bytes from b on that occur in a key, ascending. */
  ghost function UsedFrom(es: seq<Entry>, b: nat): (alphabet: seq<byte>)
    requires b <= 256
    ensures |alphabet| <= 256 - b
    decreases 256 - b
  {
    if b == 256 then [] else (if Uses(es, b) then [b as byte] else []) + UsedFrom(es, b + 1)
  }

  /** They are exactly the bytes in use, each once. */
  lemma {:induction false} UsedExactly(es: seq<Entry>, b: nat)
    requires b <= 256
    ensures forall c: byte :: c in UsedFrom(es, b) <==> b <= c && Uses(es, c)
    ensures forall i, j :: 0 <= i < j < |UsedFrom(es, b)| ==> UsedFrom(es, b)[i] < UsedFrom(es, b)[j]
    decreases 256 - b
  {
    hide Uses;
    if b < 256 {
      UsedExactly(es, b + 1);
      var rest := UsedFrom(es, b + 1);
      assert forall j :: 0 <= j < |rest| ==> rest[j] in rest;
    }
  }

  /** Least width of at least `bps` bits that tells `total` symbols apart. */
  function Width(total: nat, bps: nat): (w: nat)
    requires total <= 0x1_0000 && bps <= 16
    ensures bps <= w <= 16 && total <= Pow2(w)
    ensures w > bps ==> Pow2(w - 1) < total
    decreases 16 - bps
  {
    Pow2Constants();
    if Pow2(bps) < total then Width(total, bps + 1) else bps
  }

  function Zeros(): (s: seq<nat>)
    ensures |s| == 256
  {
    seq(256, _ => 0)
  }

  function Blank(bps: nat, count: nat, ctrl: seq<nat>): Symbols {
    Symbols(bps, count, ctrl, Zeros(), seq(256, _ => 0), seq(256, c => c in ctrl))
  }

  /** Gives byte b the code, where the code indexes the 256-entry map. */
  function Assign(sym: Symbols, code: nat, b: byte): (r: Symbols)
    requires |sym.codeOf| == 256 && |sym.byteOf| == 256
    ensures |r.codeOf| == 256 && |r.byteOf| == 256
  {
    sym.(codeOf := sym.codeOf[b := code], byteOf := if code < 256 then sym.byteOf[code := b] else sym.byteOf)
  }

  function AssignAll(sym: Symbols, code: nat, alphabet: seq<byte>): (r: Symbols)
    requires |sym.codeOf| == 256 && |sym.byteOf| == 256
    ensures |r.codeOf| == 256 && |r.byteOf| == 256
    ensures r == sym.(codeOf := r.codeOf, byteOf := r.byteOf)
    decreases |alphabet|
  {
    if alphabet == [] then sym else AssignAll(Assign(sym, code, alphabet[0]), code + 1, alphabet[1..])
  }

  /** The table of an alphabet: control codes first, then its bytes in order. */
  function TableOf(alphabet: seq<byte>): (sym: Symbols)
    requires |alphabet| <= 256
    ensures |sym.codeOf| == 256 && |sym.byteOf| == 256
  {
    var total := |alphabet| + NUM_CONTROL_CODES;
    AssignAll(Blank(Width(total, 1), total, [0, 1, 2, 3, 4, 5]), NUM_CONTROL_CODES, alphabet)
  }

  /** What the first bytes of the alphabet get, the others get after them. */
  ghost predicate Assigned(sym: Symbols, code: nat, done: seq<byte>)
    requires |sym.codeOf| == 256 && |sym.byteOf| == 256
  {
    && code == NUM_CONTROL_CODES + |done| <= 256
    && (forall i :: 0 <= i < |done| ==> sym.codeOf[done[i]] == NUM_CONTROL_CODES + i && sym.byteOf[NUM_CONTROL_CODES + i] == done[i])
    && (forall b: byte :: b !in done ==> sym.codeOf[b] == 0)
  }

  ghost predicate Distinct(alphabet: seq<byte>) {
    forall i, j :: 0 <= i < j < |alphabet| ==> alphabet[i] != alphabet[j]
  }

  lemma AssignOne(sym: Symbols, code: nat, done: seq<byte>, b: byte)
    requires |sym.codeOf| == 256 && |sym.byteOf| == 256
    requires Assigned(sym, code, done) && b !in done && code < 256
    ensures Assigned(Assign(sym, code, b), code + 1, done + [b])
  {
  }

  lemma {:induction false} AssignedAll(sym: Symbols, code: nat, done: seq<byte>, alphabet: seq<byte>)
    requires |sym.codeOf| == 256 && |sym.byteOf| == 256
    requires Assigned(sym, code, done) && Distinct(done + alphabet) && code + |alphabet| <= 256
    ensures Assigned(AssignAll(sym, code, alphabet), code + |alphabet|, done + alphabet)
    decreases |alphabet|
  {
    hide Assigned;
    if alphabet == [] {
      assert done + alphabet == done;
    } else {
      assert (done + alphabet)[|done|] == alphabet[0];
      assert forall i :: 0 <= i < |done| ==> (done + alphabet)[i] == done[i];
      AssignOne(sym, code, done, alphabet[0]);
      assert done + [alphabet[0]] + alphabet[1..] == done + alphabet;
      AssignedAll(Assign(sym, code, alphabet[0]), code + 1, done + [alphabet[0]], alphabet[1..]);
    }
  }

  lemma WidthRange(total: nat)
    requires NUM_CONTROL_CODES <= total <= 255
    ensures 3 <= Width(total, 1) <= 8 && Pow2(Width(total, 1)) <= 256
    ensures NUM_CONTROL_CODES < Pow2(Width(total, 1))
  {
    hide Width;
    Pow2Constants();
    assert Pow2(2) == 4 && Pow2(3) == 8;
    var w := Width(total, 1);
    if w > 8 {
      Pow2Monotone(8, w - 1);
      assert false;
    } else {
      Pow2Monotone(w, 8);
      if w < 3 {
        Pow2Monotone(w, 2);
      } else {
        Pow2Monotone(3, w);
      }
    }
  }

  /** The table of up to 249 distinct bytes is canonical and gives each of them a code. */
  lemma TableCanonical(alphabet: seq<byte>)
    requires Distinct(alphabet) && |alphabet| <= MAX_ALPHABET_SIZE
    ensures Canonical(TableOf(alphabet))
    ensures forall b :: b in alphabet ==> Covers(TableOf(alphabet), b)
  {
    hide AssignAll, Pow2, Width;
    var sym, total := TableOf(alphabet), |alphabet| + NUM_CONTROL_CODES;
    WidthRange(total);
    assert [] + alphabet == alphabet;
    AssignedAll(Blank(Width(total, 1), total, [0, 1, 2, 3, 4, 5]), NUM_CONTROL_CODES, [], alphabet);
    forall b | b in alphabet ensures Covers(sym, b) {
      var i :| 0 <= i < |alphabet| && alphabet[i] == b;
      assert sym.codeOf[alphabet[i]] == NUM_CONTROL_CODES + i;
    }
  }

  lemma AlphabetDistinct(es: seq<Entry>)
    ensures Distinct(UsedFrom(es, 0))
  {
    UsedExactly(es, 0);
  }

  lemma AlphabetCovers(es: seq<Entry>)
    requires |UsedFrom(es, 0)| <= MAX_ALPHABET_SIZE
    ensures Canonical(TableOf(UsedFrom(es, 0))) && AllCovered(TableOf(UsedFrom(es, 0)), es)
  {
    hide UsedFrom, TableOf, Covers;
    var alphabet := UsedFrom(es, 0);
    AlphabetDistinct(es);
    TableCanonical(alphabet);
    UsedExactly(es, 0);
    forall i, b | 0 <= i < |es| && b in es[i].key ensures Covers(TableOf(alphabet), b) {
      assert Uses(es, b);
    }
  }

  /** Marks the bytes in use, counts them, and hands out the codes. */
  method AnalyzeSymbols(es: seq<Entry>) returns (sym: Symbols)
    ensures sym == TableOf(UsedFrom(es, 0))
  {
    hide AssignAll, Width, UsedFrom, Uses;
    var used := MarkUsed(es);
    var size := CountUsed(used, es);
    var total := size + NUM_CONTROL_CODES;
    var bps := FindWidth(total);
    sym := AssignCodes(used, es, Blank(bps, total, [0, 1, 2, 3, 4, 5]));
  }

  method FindWidth(total: nat) returns (bps: nat)
    requires total <= 0x1_0000
    ensures bps == Width(total, 1)
  {
    hide Width;
    bps := 1;
    while Pow2(bps) < total
      invariant 1 <= bps <= 16 && Width(total, bps) == Width(total, 1)
      decreases 16 - bps
    {
      WidthStep(total, bps);
      bps := bps + 1;
    }
    WidthStep(total, bps);
  }

  lemma WidthStep(total: nat, bps: nat)
    requires total <= 0x1_0000 && bps <= 16
    ensures if Pow2(bps) < total then bps < 16 && Width(total, bps) == Width(total, bps + 1) else Width(total, bps) == bps
  {
    Pow2Constants();
  }

  method MarkUsed(es: seq<Entry>) returns (used: array<bool>)
    ensures fresh(used) && used.Length == 256
    ensures forall b :: 0 <= b < 256 ==> (used[b] <==> Uses(es, b))
  {
    used := new bool[256](_ => false);
    var i := 0;
    while i < |es|
      invariant 0 <= i <= |es|
      invariant forall b :: 0 <= b < 256 ==> (used[b] <==> Uses(es[..i], b))
    {
      var key, j := es[i].key, 0;
      while j < |key|
        invariant 0 <= j <= |key|
        invariant forall b :: 0 <= b < 256 ==> (used[b] <==> Uses(es[..i], b) || exists k :: 0 <= k < j && key[k] == b)
      {
        used[key[j]] := true;
        j := j + 1;
      }
      UsesNext(es, i);
      i := i + 1;
    }
    assert es[..i] == es;
  }

  lemma UsesNext(es: seq<Entry>, i: nat)
    requires i < |es|
    ensures forall b :: Uses(es[..i + 1], b) <==> Uses(es[..i], b) || exists k :: 0 <= k < |es[i].key| && es[i].key[k] == b
  {
    var less, more := es[..i], es[..i + 1];
    forall b ensures Uses(more, b) <==> Uses(less, b) || exists k :: 0 <= k < |es[i].key| && es[i].key[k] == b {
      if Uses(more, b) {
        var m :| 0 <= m < |more| && exists j :: 0 <= j < |more[m].key| && more[m].key[j] == b;
        if m < i {
          assert less[m] == more[m];
        }
      }
      if Uses(less, b) {
        var m :| 0 <= m < |less| && exists j :: 0 <= j < |less[m].key| && less[m].key[j] == b;
        assert less[m] == more[m];
      }
      assert more[i] == es[i];
    }
  }

  method CountUsed(used: array<bool>, ghost es: seq<Entry>) returns (size: nat)
    requires used.Length == 256 && forall b :: 0 <= b < 256 ==> (used[b] <==> Uses(es, b))
    ensures size == |UsedFrom(es, 0)|
  {
    hide Uses;
    size := 0;
    var i := 0;
    while i < 256
      invariant 0 <= i <= 256 && size + |UsedFrom(es, i)| == |UsedFrom(es, 0)|
    {
      if used[i] {
        size := size + 1;
      }
      i := i + 1;
    }
  }

  lemma AssignStep(sym: Symbols, code: nat, es: seq<Entry>, b: nat)
    requires |sym.codeOf| == 256 && |sym.byteOf| == 256 && b < 256
    ensures AssignAll(sym, code, UsedFrom(es, b))
         == if Uses(es, b) then AssignAll(Assign(sym, code, b), code + 1, UsedFrom(es, b + 1))
            else AssignAll(sym, code, UsedFrom(es, b + 1))
  {
    hide Uses, Assign, UsedFrom, AssignAll;
    AlphabetStep(es, b);
    if Uses(es, b) {
      AssignFirst(sym, code, b, UsedFrom(es, b + 1));
    } else {
      assert [] + UsedFrom(es, b + 1) == UsedFrom(es, b + 1);
    }
  }

  lemma AlphabetStep(es: seq<Entry>, b: nat)
    requires b < 256
    ensures UsedFrom(es, b) == (if Uses(es, b) then [b as byte] else []) + UsedFrom(es, b + 1)
  {
    hide Uses;
  }

  lemma AssignFirst(sym: Symbols, code: nat, b: byte, others: seq<byte>)
    requires |sym.codeOf| == 256 && |sym.byteOf| == 256
    ensures AssignAll(sym, code, [b] + others) == AssignAll(Assign(sym, code, b), code + 1, others)
  {
    hide Assign;
    assert ([b] + others)[1..] == others;
  }

  method AssignCodes(used: array<bool>, ghost es: seq<Entry>, blank: Symbols) returns (sym: Symbols)
    requires used.Length == 256 && forall b :: 0 <= b < 256 ==> (used[b] <==> Uses(es, b))
    requires |blank.codeOf| == 256 && |blank.byteOf| == 256
    ensures sym == AssignAll(blank, NUM_CONTROL_CODES, UsedFrom(es, 0))
  {
    hide Uses, Assign, UsedFrom, AssignAll;
    sym := blank;
    var code, i := NUM_CONTROL_CODES, 0;
    while i < 256
      invariant 0 <= i <= 256 && |sym.codeOf| == 256 && |sym.byteOf| == 256
      invariant AssignAll(sym, code, UsedFrom(es, i)) == AssignAll(blank, NUM_CONTROL_CODES, UsedFrom(es, 0))
    {
      AssignStep(sym, code, es, i);
      if used[i] {
        sym := Assign(sym, code, i);
        code := code + 1;
      }
      i := i + 1;
    }
    assert UsedFrom(es, 256) == [] by { NoMore(es); }
    AssignNone(sym, code);
  }

  lemma NoMore(es: seq<Entry>)
    ensures UsedFrom(es, 256) == []
  {
  }

  lemma AssignNone(sym: Symbols, code: nat)
    requires |sym.codeOf| == 256 && |sym.byteOf| == 256
    ensures AssignAll(sym, code, []) == sym
  {
  }

  /** The code of every byte in code order. */
  function TableBits(sym: Symbols, code: nat): seq<bool>
    requires |sym.byteOf| == 256
    decreases sym.count - code
  {
    if code >= sym.count then [] else Varint.Varint(if code < 256 then sym.byteOf[code] else 0) + TableBits(sym, code + 1)
  }

  function CtrlBits(bps: nat, ctrl: seq<nat>): seq<bool>
    decreases |ctrl|
  {
    if ctrl == [] then [] else BitsOf(ctrl[0], bps) + CtrlBits(bps, ctrl[1..])
  }

  /** The trie configuration as it stands in a file. */
  function ConfigBits(sym: Symbols): seq<bool>
    requires |sym.byteOf| == 256
  {
    BitsOf(sym.bps, 4) + (BitsOf(sym.count, 8) + (CtrlBits(sym.bps, sym.ctrl) + TableBits(sym, NUM_CONTROL_CODES)))
  }

  function ReadCtrl(s: seq<bool>, pos: nat, bps: nat, n: nat): (r: Result<seq<nat>>)
    ensures r.Ok? ==> |r.value| == n
    decreases n
  {
    if n == 0 then Ok([]) else
      var code :- ReadBits(s, pos, bps);
      var rest :- ReadCtrl(s, pos + bps, bps, n - 1);
      Ok([code] + rest)
  }

  /** Reads the bytes of codes code..count; a code or a byte past 255 is dropped. */
  function ReadTable(s: seq<bool>, pos: nat, sym: Symbols, code: nat): (r: Result<Symbols>)
    requires |sym.codeOf| == 256 && |sym.byteOf| == 256
    ensures r.Ok? ==> |r.value.codeOf| == 256 && |r.value.byteOf| == 256
    ensures r.Ok? ==> r.value == sym.(codeOf := r.value.codeOf, byteOf := r.value.byteOf)
    decreases sym.count - code
  {
    if code >= sym.count then Ok(sym) else
      var cp :- ReadVarint(s, pos);
      ReadTable(s, cp.1, if code < 256 && cp.0 < 256 then Assign(sym, code, cp.0) else sym, code + 1)
  }

  /** Parsing a trie configuration, on any bits. */
  function ParseConfig(s: seq<bool>, pos: nat): (r: Result<Symbols>)
    ensures r.Ok? ==> Shaped(r.value)
  {
    var bps :- ReadBits(s, pos, 4);
    if bps < 1 || bps > 8 then Err(Alphabet) else
    var count :- ReadBits(s, pos + 4, 8);
    if count < NUM_CONTROL_CODES || count > Pow2(bps) then Err(Alphabet) else
    var ctrl :- ReadCtrl(s, pos + 12, bps, NUM_CONTROL_CODES);
    ReadTable(s, pos + 12 + NUM_CONTROL_CODES * bps, Blank(bps, count, ctrl), NUM_CONTROL_CODES)
  }

  lemma {:induction false} CtrlSize(bps: nat, ctrl: seq<nat>)
    ensures |CtrlBits(bps, ctrl)| == |ctrl| * bps
    decreases |ctrl|
  {
    if ctrl != [] {
      CtrlSize(bps, ctrl[1..]);
    }
  }

  lemma {:induction false} ReadCtrlAt(s: seq<bool>, pos: nat, bps: nat, ctrl: seq<nat>)
    requires forall c :: c in ctrl ==> c < Pow2(bps)
    requires At(s, pos, CtrlBits(bps, ctrl))
    ensures ReadCtrl(s, pos, bps, |ctrl|) == Ok(ctrl)
    decreases |ctrl|
  {
    hide BitsOf, At, ReadBits, Pow2;
    if ctrl != [] {
      assert ctrl[0] in ctrl && forall c :: c in ctrl[1..] ==> c in ctrl;
      AtSplit(s, pos, BitsOf(ctrl[0], bps), CtrlBits(bps, ctrl[1..]));
      ReadBitsAt(s, pos, ctrl[0], bps);
      ReadCtrlAt(s, pos + bps, bps, ctrl[1..]);
      assert ctrl == [ctrl[0]] + ctrl[1..];
    }
  }

  /** Reading a written table assigns its bytes to their codes again. */
  lemma {:induction false} ReadTableAt(s: seq<bool>, pos: nat, whole: Symbols, sym: Symbols, code: nat)
    requires |whole.byteOf| == 256 && |sym.codeOf| == 256 && |sym.byteOf| == 256
    requires NUM_CONTROL_CODES <= code <= sym.count == whole.count <= 256
    requires At(s, pos, TableBits(whole, code))
    ensures ReadTable(s, pos, sym, code) == Ok(AssignAll(sym, code, whole.byteOf[code..whole.count]))
    decreases whole.count - code
  {
    hide At, Varint.Varint, ReadVarint, Assign;
    if code < whole.count {
      var b := whole.byteOf[code];
      assert TableBits(whole, code) == Varint.Varint(b) + TableBits(whole, code + 1);
      AtSplit(s, pos, Varint.Varint(b), TableBits(whole, code + 1));
      ReadVarintAt(s, pos, b);
      AssignKeeps(sym, code, b);
      ReadTableAt(s, pos + |Varint.Varint(b)|, whole, Assign(sym, code, b), code + 1);
      assert whole.byteOf[code..whole.count] == [b] + whole.byteOf[code + 1..whole.count];
      AssignFirst(sym, code, b, whole.byteOf[code + 1..whole.count]);
    } else {
      assert whole.byteOf[code..whole.count] == [];
    }
  }

  lemma TableBytes(alphabet: seq<byte>)
    requires Distinct(alphabet) && |alphabet| <= MAX_ALPHABET_SIZE
    ensures var n := NUM_CONTROL_CODES + |alphabet|;
            TableOf(alphabet).byteOf[NUM_CONTROL_CODES..n] == alphabet
  {
    hide AssignAll, Pow2, Width;
    var total := |alphabet| + NUM_CONTROL_CODES;
    assert [] + alphabet == alphabet;
    AssignedAll(Blank(Width(total, 1), total, [0, 1, 2, 3, 4, 5]), NUM_CONTROL_CODES, [], alphabet);
  }

  /** Parsing inverts writing: the decoder ends up with the encoder's own table. */
  lemma ParseConfigAt(s: seq<bool>, pos: nat, alphabet: seq<byte>)
    requires Distinct(alphabet) && |alphabet| <= MAX_ALPHABET_SIZE
    requires At(s, pos, ConfigBits(TableOf(alphabet)))
    ensures ParseConfig(s, pos) == Ok(TableOf(alphabet))
  {
    hide AssignAll, Pow2, Width, At, BitsOf, CtrlBits, TableBits, ReadBits, ReadCtrl, ReadTable;
    var sym, total := TableOf(alphabet), |alphabet| + NUM_CONTROL_CODES;
    WidthRange(total);
    assert total <= Pow2(sym.bps);
    var ctrl, table := CtrlBits(sym.bps, sym.ctrl), TableBits(sym, NUM_CONTROL_CODES);
    AtSplit(s, pos, BitsOf(sym.bps, 4), BitsOf(total, 8) + (ctrl + table));
    AtSplit(s, pos + 4, BitsOf(total, 8), ctrl + table);
    AtSplit(s, pos + 12, ctrl, table);
    Pow2Constants();
    FourBits();
    ReadBitsAt(s, pos, sym.bps, 4);
    ReadBitsAt(s, pos + 4, total, 8);
    ReadCtrlAt(s, pos + 12, sym.bps, sym.ctrl);
    CtrlSize(sym.bps, sym.ctrl);
    var blank := Blank(sym.bps, total, sym.ctrl);
    ReadTableAt(s, pos + 12 + NUM_CONTROL_CODES * sym.bps, sym, blank, NUM_CONTROL_CODES);
    TableBytes(alphabet);
  }

  lemma FourBits()
    ensures Pow2(4) == 16
  {
  }

  method WriteConfig(w: BitWriter, sym: Symbols)
    requires w.Valid() && Shaped(sym)
    modifies w, w.buf
    ensures w.Valid() && (w.buf == old(w.buf) || fresh(w.buf))
    ensures w.Contents() == old(w.Contents()) + ConfigBits(sym)
  {
    hide BitsOf, Varint.Varint, TableBits, CtrlBits;
    ghost var was := w.Contents();
    var _ := w.WriteBits(sym.bps, 4);
    var _ := w.WriteBits(sym.count, 8);
    ghost var table := TableBits(sym, NUM_CONTROL_CODES);
    Associative(was, BitsOf(sym.bps, 4), BitsOf(sym.count, 8));
    WriteCtrl(w, sym);
    WriteTable(w, sym);
    ghost var head, ctrl := BitsOf(sym.bps, 4) + BitsOf(sym.count, 8), CtrlBits(sym.bps, sym.ctrl);
    Associative(was, head, ctrl);
    Associative(was, head + ctrl, table);
    Associative(head, ctrl, table);
    Associative(BitsOf(sym.bps, 4), BitsOf(sym.count, 8), ctrl + table);
  }

  method WriteCtrl(w: BitWriter, sym: Symbols)
    requires w.Valid() && Shaped(sym)
    modifies w, w.buf
    ensures w.Valid() && (w.buf == old(w.buf) || fresh(w.buf))
    ensures w.Contents() == old(w.Contents()) + CtrlBits(sym.bps, sym.ctrl)
  {
    hide BitsOf;
    ghost var was, done := w.Contents(), [];
    var c := 0;
    while c < NUM_CONTROL_CODES
      invariant 0 <= c <= NUM_CONTROL_CODES
      invariant w.Valid() && (w.buf == old(w.buf) || fresh(w.buf))
      invariant w.Contents() == was + done
      invariant done + CtrlBits(sym.bps, sym.ctrl[c..]) == CtrlBits(sym.bps, sym.ctrl)
    {
      ghost var code := BitsOf(sym.ctrl[c], sym.bps);
      assert sym.ctrl[c..][1..] == sym.ctrl[c + 1..];
      Associative(done, code, CtrlBits(sym.bps, sym.ctrl[c + 1..]));
      Associative(was, done, code);
      var _ := w.WriteBits(sym.ctrl[c], sym.bps);
      done := done + code;
      c := c + 1;
    }
    assert done + [] == done;
  }

  method WriteTable(w: BitWriter, sym: Symbols)
    requires w.Valid() && Shaped(sym)
    modifies w, w.buf
    ensures w.Valid() && (w.buf == old(w.buf) || fresh(w.buf))
    ensures w.Contents() == old(w.Contents()) + TableBits(sym, NUM_CONTROL_CODES)
  {
    hide Varint.Varint;
    ghost var was, done := w.Contents(), [];
    var code := NUM_CONTROL_CODES;
    while code < sym.count
      invariant NUM_CONTROL_CODES <= code
      invariant w.Valid() && (w.buf == old(w.buf) || fresh(w.buf))
      invariant w.Contents() == was + done
      invariant done + TableBits(sym, code) == TableBits(sym, NUM_CONTROL_CODES)
    {
      var b: byte := if code < 256 then sym.byteOf[code] else 0;
      Associative(done, Varint.Varint(b), TableBits(sym, code + 1));
      Associative(was, done, Varint.Varint(b));
      w.WriteVarintU(b);
      done := done + Varint.Varint(b);
      code := code + 1;
    }
    assert done + [] == done;
  }

  /** The decoder's parser, over a reader. */
  method ReadConfig(r: BitReader) returns (res: Result<Symbols>)
    requires r.Valid()
    modifies r
    ensures r.Valid() && res == ParseConfig(r.Stream(), old(r.pos))
  {
    hide ReadBits, ReadCtrl, ReadTable, Pow2;
    var bps :- r.ReadBits(4);
    if bps < 1 || bps > 8 {
      return Err(Alphabet);
    }
    var count :- r.ReadBits(8);
    if count < NUM_CONTROL_CODES || count > Pow2(bps) {
      return Err(Alphabet);
    }
    var ctrl :- ReadCodes(r, bps);
    res := ReadAlphabet(r, Blank(bps, count, ctrl));
  }

  method ReadCodes(r: BitReader, bps: nat) returns (res: Result<seq<nat>>)
    requires r.Valid() && 1 <= bps <= 8
    modifies r
    ensures r.Valid() && res == ReadCtrl(r.Stream(), old(r.pos), bps, NUM_CONTROL_CODES)
    ensures res.Ok? ==> r.pos == old(r.pos) + NUM_CONTROL_CODES * bps
  {
    hide ReadBits;
    var codes: seq<nat> := [];
    ghost var s := r.Stream();
    ghost var whole := ReadCtrl(s, r.pos, bps, NUM_CONTROL_CODES);
    assert whole.Ok? ==> codes + whole.value == whole.value;
    while |codes| < NUM_CONTROL_CODES
      invariant r.Valid() && |codes| <= NUM_CONTROL_CODES && r.pos == old(r.pos) + |codes| * bps
      invariant match ReadCtrl(s, r.pos, bps, NUM_CONTROL_CODES - |codes|)
                case Err(e) => whole == Err(e)
                case Ok(rest) => whole == Ok(codes + rest)
    {
      ghost var after := ReadCtrl(s, r.pos + bps, bps, NUM_CONTROL_CODES - |codes| - 1);
      var code :- r.ReadBits(bps);
      assert after.Ok? ==> codes + ([code] + after.value) == (codes + [code]) + after.value;
      codes := codes + [code];
    }
    assert codes + [] == codes;
    return Ok(codes);
  }

  method ReadAlphabet(r: BitReader, blank: Symbols) returns (res: Result<Symbols>)
    requires r.Valid() && |blank.codeOf| == 256 && |blank.byteOf| == 256
    modifies r
    ensures r.Valid() && res == ReadTable(r.Stream(), old(r.pos), blank, NUM_CONTROL_CODES)
  {
    hide ReadVarint, Assign;
    var sym, code := blank, NUM_CONTROL_CODES;
    ghost var s := r.Stream();
    while code < blank.count
      invariant r.Valid() && code >= NUM_CONTROL_CODES && sym.count == blank.count
      invariant |sym.codeOf| == 256 && |sym.byteOf| == 256
      invariant ReadTable(s, old(r.pos), blank, NUM_CONTROL_CODES) == ReadTable(s, r.pos, sym, code)
    {
      var cp :- r.ReadVarintU();
      if code < 256 && cp < 256 {
        AssignKeeps(sym, code, cp);
        sym := Assign(sym, code, cp);
      }
      code := code + 1;
    }
    return Ok(sym);
  }

  lemma AssignKeeps(sym: Symbols, code: nat, b: byte)
    requires |sym.codeOf| == 256 && |sym.byteOf| == 256
    ensures Assign(sym, code, b).count == sym.count
  {
  }
}
