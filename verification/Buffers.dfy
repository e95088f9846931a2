/** Copying into a byte buffer. */
module Buffers {
  import opened Bits

  /** memcpy to a place in the buffer. */
  method CopyInto(buf: array<byte>, at: nat, t: seq<byte>)
    requires at + |t| <= buf.Length
    modifies buf
    ensures buf[..at + |t|] == old(buf[..at]) + t
  {
    var k := 0;
    while k < |t|
      invariant 0 <= k <= |t| && buf[..at + k] == old(buf[..at]) + t[..k]
    {
      buf[at + k] := t[k];
      k := k + 1;
    }
    assert t[..|t|] == t;
  }
}
