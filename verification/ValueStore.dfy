/** Values as LEB128 integers one after another, and an index of one offset every 32 values. */
module ValueStore {
  import opened BitOr
  import opened Bits
  import opened Leb128

  const SAMPLE: nat := 32

  /** Reads back what was written, and stops right behind it. */
  method LebRead(buf: seq<byte>, pos: nat, ghost value: word) returns (v: word, end: nat)
    requires Holds(buf, pos, Leb(value))
    ensures v == value && end == pos + |Leb(value)|
  {
    hide Holds, Or, Pow2, Shifted, Leb;
    var shift: nat := 0;
    ghost var rest: nat := value;
    v, end := 0, pos;
    Unshifted(value);
    while true
      invariant Holds(buf, end, Leb(rest)) && end + |Leb(rest)| == pos + |Leb(value)|
      invariant value == v + Shifted(rest, shift) && v < Pow2(shift)
      decreases rest
    {
      FirstByte(buf, end, rest);
      GroupRead(rest, shift);
      var b := buf[end];
      end := end + 1;
      OrAbove(v, b % 128, shift);
      GroupBelow(v, b % 128, shift);
      v := Or(v, Shifted(b % 128, shift) % 0x1_0000_0000_0000_0000);
      if b < 128 {
        return;
      }
      shift := shift + 7;
      rest := rest / 128;
    }
  }

  /** All values after each other. */
  function Encoded(vs: seq<word>): seq<byte> {
    if vs == [] then [] else Encoded(vs[..|vs| - 1]) + Leb(vs[|vs| - 1])
  }

  /** Where value k starts. */
  function Offset(vs: seq<word>, k: nat): nat
    requires k <= |vs|
  {
    |Encoded(vs[..k])|
  }

  lemma {:induction false} EncodedPrefix(vs: seq<word>, k: nat)
    requires k <= |vs|
    ensures Offset(vs, k) <= |Encoded(vs)| && Encoded(vs)[..Offset(vs, k)] == Encoded(vs[..k])
    decreases |vs|
  {
    if k == |vs| {
      assert vs[..k] == vs;
    } else {
      EncodedPrefix(vs[..|vs| - 1], k);
      assert vs[..|vs| - 1][..k] == vs[..k];
    }
  }

  lemma ValueAt(vs: seq<word>, k: nat)
    requires k < |vs|
    ensures Holds(Encoded(vs), Offset(vs, k), Leb(vs[k])) && Offset(vs, k + 1) == Offset(vs, k) + |Leb(vs[k])|
  {
    EncodedPrefix(vs, k);
    EncodedPrefix(vs, k + 1);
    assert vs[..k + 1][..k] == vs[..k];
    assert Encoded(vs[..k + 1]) == Encoded(vs[..k]) + Leb(vs[k]);
    var all := Encoded(vs);
    assert all[Offset(vs, k)..Offset(vs, k + 1)] == all[..Offset(vs, k + 1)][Offset(vs, k)..];
  }

  /** The index holds the offset of every 32nd value. */
  ghost predicate Sampled(vs: seq<word>, sample: seq<nat>) {
    && |sample| == (|vs| + 31) / 32
    && forall i :: 0 <= i < |sample| ==> 32 * i <= |vs| && sample[i] == Offset(vs, 32 * i)
  }

  method SampleOffsets(ghost vs: seq<word>, offsets: seq<nat>) returns (sample: seq<nat>)
    requires |offsets| == |vs| && forall k :: 0 <= k < |vs| ==> offsets[k] == Offset(vs, k)
    ensures Sampled(vs, sample)
  {
    hide Offset;
    sample := [];
    while |sample| < (|offsets| + SAMPLE - 1) / SAMPLE
      invariant |sample| <= (|offsets| + SAMPLE - 1) / SAMPLE
      invariant forall i :: 0 <= i < |sample| ==> SAMPLE * i <= |vs| && sample[i] == Offset(vs, SAMPLE * i)
    {
      sample := sample + [offsets[SAMPLE * |sample|]];
    }
  }

  /** A value by its place: to the sample before it, past at most 31 values, and read. */
  method Fetch(buf: seq<byte>, sample: seq<nat>, ghost vs: seq<word>, ordinal: nat) returns (v: word)
    requires buf == Encoded(vs) && Sampled(vs, sample) && ordinal < |vs|
    ensures v == vs[ordinal]
  {
    hide Encoded, Offset, Holds;
    var pos := sample[ordinal / SAMPLE];
    var k := 0;
    ghost var at: nat := SAMPLE * (ordinal / SAMPLE);
    while k < ordinal % SAMPLE
      invariant 0 <= k <= ordinal % SAMPLE && at == SAMPLE * (ordinal / SAMPLE) + k && at <= |vs|
      invariant pos == Offset(vs, at)
    {
      ValueAt(vs, at);
      var _, end := LebRead(buf, pos, vs[at]);
      pos := end;
      at := at + 1;
      k := k + 1;
    }
    ValueAt(vs, at);
    v, pos := LebRead(buf, pos, vs[at]);
  }
}
