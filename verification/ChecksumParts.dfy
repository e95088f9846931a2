/** The checksum register over a file part by part. */
module ChecksumParts {
  import opened Bits
  import opened FileFormat
  import opened Crc
  import opened CrcCheck

  lemma TwoSteps(c: bv32, d: seq<bv8>)
    requires |d| >= 2
    ensures Run(c, d) == Run(ByteStep(ByteStep(c, d[0]), d[1]), d[2..])
  {
    hide ByteStep;
    assert d[1..][1..] == d[2..];
  }

  lemma SixBytes(c: bv32, d: seq<bv8>)
    requires |d| == 6
    ensures Run(c, d) == ByteStep(ByteStep(ByteStep(ByteStep(ByteStep(ByteStep(c, d[0]), d[1]), d[2]), d[3]), d[4]), d[5])
  {
    hide ByteStep;
    var c2 := ByteStep(ByteStep(c, d[0]), d[1]);
    var c4 := ByteStep(ByteStep(c2, d[2]), d[3]);
    assert d[2..][2..] == d[4..] && d[4..][2..] == [];
    TwoSteps(c, d);
    TwoSteps(c2, d[2..]);
    TwoSteps(c4, d[4..]);
  }

  lemma EightBytes(c: bv32, d: seq<bv8>)
    requires |d| == 8
    ensures var c2 := ByteStep(ByteStep(c, d[0]), d[1]);
            Run(c, d) == ByteStep(ByteStep(ByteStep(ByteStep(ByteStep(ByteStep(c2, d[2]), d[3]), d[4]), d[5]), d[6]), d[7])
  {
    hide ByteStep;
    TwoSteps(c, d);
    SixBytes(ByteStep(ByteStep(c, d[0]), d[1]), d[2..]);
  }

  lemma OctetsConcat(a: seq<byte>, b: seq<byte>)
    ensures Octets(a + b) == Octets(a) + Octets(b)
  {
  }

  /** The register after one more part. */
  lemma RunOn(c: bv32, done: seq<byte>, part: seq<byte>)
    ensures Run(c, Octets(done + part)) == Run(Run(c, Octets(done)), Octets(part))
  {
    hide Octets, Run;
    OctetsConcat(done, part);
    RunConcat(c, Octets(done), Octets(part));
  }
}
