/** Decimal numbers in text, and the C `int` they are read into. */
module Numbers {
  import opened Bytes

  const DIGIT0 := 48
  const DIGIT9 := 57

  predicate IsDigit(c: byte) { DIGIT0 <= c <= DIGIT9 }

  /** A C `int` holds its value modulo 2^32, between -2^31 and 2^31 - 1. */
  function Wrap32(x: int): int {
    (x + 0x8000_0000) % 0x1_0000_0000 - 0x8000_0000
  }

  function Pow10(n: nat): nat {
    if n == 0 then 1 else 10 * Pow10(n - 1)
  }

  /** The number written in `t[from..to]`. */
  function Decimal(t: seq<byte>, from: nat, to: nat): int
    requires from <= to <= |t|
  {
    if from == to then 0 else 10 * Decimal(t, from, to - 1) + t[to - 1] - DIGIT0
  }

  /** Wrapping a part of a sum early makes no difference in the end. */
  lemma WrapSum(a: int, x: int, b: int)
    ensures Wrap32(a * Wrap32(x) + b) == Wrap32(a * x + b)
  {
    var m := 0x1_0000_0000;
    var k := (x + 0x8000_0000) / m;
    assert Wrap32(x) == x - k * m;
    assert a * (x - k * m) == a * x - a * k * m by {
      assert a * (k * m) == a * k * m;
    }
    ModShift(a * x + b + 0x8000_0000, a * k);
  }

  lemma ModShift(a: int, k: int)
    ensures (a - k * 0x1_0000_0000) % 0x1_0000_0000 == a % 0x1_0000_0000
  {
  }
}
