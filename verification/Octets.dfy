/** Bytes as numbers, and 16-bit values in network order. */
module Octets {
  type Byte = b: int | 0 <= b < 256

  function U16(d: seq<Byte>, i: nat): nat
    requires i + 2 <= |d|
  {
    256 * d[i] as int + d[i + 1] as int
  }

  function Put16(n: nat): seq<Byte> {
    [n / 256 % 256, n % 256]
  }

  lemma Halves(high: Byte, low: Byte)
    ensures var n := 256 * high as int + low as int;
            n / 256 % 256 == high as int && n % 256 == low as int && n < 0x1_0000
  {
    var n := 256 * high as int + low as int;
    assert n / 256 == high as int;
  }

  /** Writing back what was read. */
  lemma PutRead(d: seq<Byte>, i: nat)
    requires i + 2 <= |d|
    ensures Put16(U16(d, i)) == d[i..i + 2] && U16(d, i) < 0x1_0000
  {
    Halves(d[i], d[i + 1]);
    assert d[i..i + 2] == [d[i], d[i + 1]];
  }

  /** Reading what was written. */
  lemma ReadPut(a: seq<Byte>, n: nat, b: seq<Byte>)
    requires n < 0x1_0000
    ensures U16(a + Put16(n) + b, |a|) == n
  {
    var d := a + Put16(n) + b;
    assert d[|a|] == Put16(n)[0] && d[|a| + 1] == Put16(n)[1];
  }
}
