/** Numbers as bytes, the lowest byte first. */
module LittleEndian {

  const U32: nat := 0x1_0000_0000

  function Le16(n: nat): (r: seq<bv8>)
    requires n < 0x1_0000
    ensures |r| == 2
  {
    [(n % 256) as bv8, (n / 256) as bv8]
  }

  function FromLe16(b: seq<bv8>): nat
    requires |b| == 2
  {
    b[0] as nat + 256 * b[1] as nat
  }

  function Le32(n: nat): (r: seq<bv8>)
    requires n < U32
    ensures |r| == 4
  {
    Le16(n % 0x1_0000) + Le16(n / 0x1_0000)
  }

  function FromLe32(b: seq<bv8>): nat
    requires |b| == 4
  {
    FromLe16(b[..2]) + 0x1_0000 * FromLe16(b[2..])
  }

  lemma ByteSurvives(n: nat)
    requires n < 256
    ensures (n as bv8) as nat == n
  {
    assert n % 256 == n;
  }

  lemma Le16RoundTrip(n: nat)
    requires n < 0x1_0000
    ensures FromLe16(Le16(n)) == n
  {
    ByteSurvives(n % 256);
    ByteSurvives(n / 256);
  }

  lemma Le32RoundTrip(n: nat)
    requires n < U32
    ensures FromLe32(Le32(n)) == n
  {
    hide Le16, FromLe16;
    Le16RoundTrip(n % 0x1_0000);
    Le16RoundTrip(n / 0x1_0000);
    assert Le32(n)[..2] == Le16(n % 0x1_0000) && Le32(n)[2..] == Le16(n / 0x1_0000);
  }
}
