/** The encoder: collects entries, sorts and deduplicates them in place, and builds the file. */
module Encoder {
  import opened Bits
  import opened Results
  import opened BitStream
  import opened Keys
  import opened Values
  import opened Trie
  import opened TrieBuild
  import opened IterateAll
  import opened EntryOrder
  import opened FileFormat

  /** A value of one of the declared types. */
  predicate Typed(v: Value) {
    !v.Reserved? && (v.Float32? ==> v.bits32 < 0x1_0000_0000)
  }

  predicate Storable(v: Value) {
    !v.ArrayValue? && !v.DictValue?
  }

  predicate AllStorable(es: seq<Entry>) {
    forall i :: 0 <= i < |es| ==> Storable(es[i].val)
  }

  /** The replacement of part of a buffer. */
  function Replace(s: seq<byte>, at: nat, b: seq<byte>): seq<byte>
    requires at + |b| <= |s|
  {
    s[..at] + b + s[at + |b|..]
  }

  lemma ReplaceMiddle(a: seq<byte>, b: seq<byte>, c: seq<byte>, b': seq<byte>)
    requires |b| == |b'|
    ensures Replace(a + b + c, |a|, b') == a + b' + c
  {
  }

  method PutU32(out: array<byte>, at: nat, v: nat)
    requires at + 4 <= out.Length
    modifies out
    ensures out[..] == Replace(old(out[..]), at, U32(v))
  {
    ghost var was := out[..];
    out[at] := v / 0x100_0000 % 0x100;
    out[at + 1] := v / 0x1_0000 % 0x100;
    out[at + 2] := v / 0x100 % 0x100;
    out[at + 3] := v % 0x100;
    assert out[at..at + 4] == U32(v);
    assert out[..] == out[..at] + out[at..at + 4] + out[at + 4..];
  }

  lemma UnpackInjective(a: seq<byte>, b: seq<byte>)
    requires Unpack(a) == Unpack(b)
    ensures a == b
  {
    PackUnpack(a);
    PackUnpack(b);
  }

  method WriteFields(w: BitWriter, fields: seq<(nat, nat)>)
    requires w.Valid() && forall i :: 0 <= i < |fields| ==> 1 <= fields[i].1 <= 64
    modifies w, w.buf
    ensures w.Valid() && (w.buf == old(w.buf) || fresh(w.buf))
    ensures w.Contents() == old(w.Contents()) + FieldBits(fields)
  {
    hide BitsOf;
    ghost var was, done := w.Contents(), [];
    var i := 0;
    while i < |fields|
      invariant 0 <= i <= |fields|
      invariant w.Valid() && (w.buf == old(w.buf) || fresh(w.buf))
      invariant w.Contents() == was + done
      invariant done + FieldBits(fields[i..]) == FieldBits(fields)
    {
      ghost var field := BitsOf(fields[i].0, fields[i].1);
      assert fields[i..][1..] == fields[i + 1..];
      Associative(done, field, FieldBits(fields[i + 1..]));
      Associative(was, done, field);
      var _ := w.WriteBits(fields[i].0, fields[i].1);
      done := done + field;
      i := i + 1;
    }
    assert done + [] == done;
  }

  method WriteHeader(w: BitWriter, h: Header)
    requires w.Valid()
    modifies w, w.buf
    ensures w.Valid() && (w.buf == old(w.buf) || fresh(w.buf))
    ensures w.Contents() == old(w.Contents()) + HeaderBits(h)
  {
    hide FieldBits;
    ghost var was := w.Contents();
    WriteFields(w, [(0x54, 8), (0x52, 8), (0x50, 8), (0x00, 8)]);
    WriteFields(w, [(VERSION_MAJOR, 8), (h.minor, 8)]);
    WriteFields(w, Fields(h));
    Associative(was, FieldBits(MagicFields()), FieldBits(VersionFields(h)));
    Associative(was, FieldBits(MagicFields()) + FieldBits(VersionFields(h)), FieldBits(Fields(h)));
    Associative(FieldBits(MagicFields()), FieldBits(VersionFields(h)), FieldBits(Fields(h)));
  }

  /** The value store; fails at the first array or dictionary. */
  method WriteValues(w: BitWriter, es: seq<Entry>) returns (r: Result<()>)
    requires w.Valid()
    modifies w, w.buf
    ensures w.Valid() && (w.buf == old(w.buf) || fresh(w.buf))
    ensures r == if AllStorable(es) then Ok(()) else Err(InvalidParam)
    ensures r.Ok? ==> w.Contents() == old(w.Contents()) + StoreBits(Vals(es), old(w.pos))
  {
    hide ValueBits;
    ghost var was, done, all := w.Contents(), [], StoreBits(Vals(es), w.pos);
    var i := 0;
    assert Vals(es)[0..] == Vals(es);
    while i < |es|
      invariant 0 <= i <= |es|
      invariant w.Valid() && (w.buf == old(w.buf) || fresh(w.buf))
      invariant w.Contents() == was + done
      invariant done + StoreBits(Vals(es)[i..], w.pos) == all
      invariant forall k :: 0 <= k < i ==> Storable(es[k].val)
    {
      ghost var value := ValueBits(es[i].val, w.pos);
      StoreNext(Vals(es), i, w.pos);
      Associative(done, value, StoreBits(Vals(es)[i + 1..], w.pos + |value|));
      Associative(was, done, value);
      var wrote := EncodeValue(w, es[i].val);
      if wrote.Err? {
        return wrote;
      }
      done := done + value;
      i := i + 1;
    }
    assert done + [] == done;
    return Ok(());
  }

  lemma StoreNext(vs: seq<Value>, i: nat, pos: nat)
    requires i < |vs|
    ensures var first := ValueBits(vs[i], pos);
            StoreBits(vs[i..], pos) == first + StoreBits(vs[i + 1..], pos + |first|)
  {
    hide ValueBits;
    assert vs[i..][1..] == vs[i + 1..];
  }

  class Encoder {
    var entries: array<Entry>
    var count: nat

    ghost predicate Valid()
      reads this
    {
      count <= entries.Length
    }

    ghost function Added(): (es: seq<Entry>)
      reads this, entries
      requires Valid()
      ensures |es| == count
    {
      entries[..count]
    }

    constructor ()
      ensures Valid() && fresh(entries) && Added() == []
    {
      entries := new Entry[0];
      count := 0;
    }

    method Add(key: Key, val: Option<Value>)
      requires Valid()
      modifies this, entries
      ensures Valid() && (entries == old(entries) || fresh(entries))
      ensures Added() == old(Added()) + [Entry(key, if val.Some? then val.value else Null)]
    {
      if count >= entries.Length {
        var newCap := if entries.Length == 0 then 16 else 2 * entries.Length;
        var grown := new Entry[newCap](i requires 0 <= i reads this, entries =>
          if i < entries.Length then entries[i] else Entry([], Null));
        assert grown[..count] == entries[..count];
        entries := grown;
      }
      entries[count] := Entry(key, if val.Some? then val.value else Null);
      count := count + 1;
    }

    /** The library's sort is free to choose any sorted arrangement: here, the given one. */
    method SortEntries(outcome: seq<Entry>)
      requires Valid() && Ordered(outcome) && multiset(outcome) == multiset(Added())
      modifies entries
      ensures Valid() && Added() == outcome
    {
      SameCount(outcome, Added());
      if count > 1 {
        var i := 0;
        while i < count
          invariant 0 <= i <= count && entries[..i] == outcome[..i]
        {
          entries[i] := outcome[i];
          i := i + 1;
        }
      } else {
        SingleSame(outcome, Added());
      }
    }

    /** Moves entry i down to the end of the kept ones. */
    method MoveDown(write: nat, i: nat)
      requires Valid() && write <= i < count
      modifies entries
      ensures entries[..write + 1] == old(entries[..write]) + [old(entries[i])]
      ensures entries[i + 1..count] == old(entries[i + 1..count])
    {
      if write != i {
        entries[write] := entries[i];
      }
    }

    /** Compacts the array in place: of equal neighbours the last stays. */
    method DedupEntries()
      requires Valid()
      modifies this`count, entries
      ensures Valid() && Added() == KeepLast(old(Added()))
    {
      hide KeepLast;
      ghost var was := Added();
      if count <= 1 {
        KeepFew(was);
        return;
      }
      var write, i := 0, 0;
      assert was[0..] == was && [] + KeepLast(was) == KeepLast(was);
      while i < count
        invariant 0 <= write <= i <= count == |was| <= entries.Length
        invariant entries[i..count] == was[i..]
        invariant entries[..write] + KeepLast(was[i..]) == KeepLast(was)
      {
        KeepStep(was, i);
        SameAt(entries[i..count], was, i);
        var duplicate := i + 1 < count && entries[i].key == entries[i + 1].key;
        if !duplicate {
          KeepAppend(entries[..write], was[i], KeepLast(was[i + 1..]));
          MoveDown(write, i);
          write := write + 1;
        }
        i := i + 1;
      }
      assert was[count..] == [];
      KeepFew([]);
      count := write;
    }
  }

  lemma KeepFew(s: seq<Entry>)
    requires |s| <= 1
    ensures KeepLast(s) == s
  {
  }

  lemma KeepAppend(done: seq<Entry>, e: Entry, rest: seq<Entry>)
    ensures done + ([e] + rest) == (done + [e]) + rest
  {
  }

  /** A slice that equals the rest of a list, element by element, and without its head. */
  lemma SameAt(slice: seq<Entry>, was: seq<Entry>, i: nat)
    requires i < |was| && slice == was[i..]
    ensures slice[0] == was[i] && (i + 1 < |was| ==> slice[1] == was[i + 1]) && slice[1..] == was[i + 1..]
  {
  }

  lemma KeepStep(s: seq<Entry>, i: nat)
    requires i < |s|
    ensures KeepLast(s[i..])
         == if i + 1 < |s| && s[i].key == s[i + 1].key then KeepLast(s[i + 1..]) else [s[i]] + KeepLast(s[i + 1..])
  {
    assert s[i..][1..] == s[i + 1..];
    if i + 1 == |s| {
      assert s[i..] == [s[i]] && s[i + 1..] == [];
    }
  }

  lemma SameCount(a: seq<Entry>, b: seq<Entry>)
    requires multiset(a) == multiset(b)
    ensures |a| == |b|
  {
    assert |multiset(a)| == |a| && |multiset(b)| == |b|;
  }

  lemma SingleSame(a: seq<Entry>, b: seq<Entry>)
    requires multiset(a) == multiset(b) && |a| == |b| <= 1
    ensures a == b
  {
    if |a| == 1 {
      assert a == [a[0]] && b == [b[0]];
      assert a[0] in multiset(b);
    }
  }
}
