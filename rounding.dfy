/**
 * Python's `round(x, 1)` and `round(x, 2)` on exact reals. Ties are rounded up; Python rounds
 * the binary float, which this model does not represent.
 */
module Rounding {
  /** `round(x, 1)`. */
  function Round1(x: real): real {
    ((x * 10.0 + 0.5).Floor as real) / 10.0
  }

  /** `round(x, 2)`. */
  function Round2(x: real): real {
    ((x * 100.0 + 0.5).Floor as real) / 100.0
  }

  /** `round(x, 1)` is within half a tenth of `x`. */
  lemma Round1Error(x: real)
    ensures x - 0.05 < Round1(x) <= x + 0.05
  {
    var y := x * 10.0 + 0.5;
    assert y.Floor as real <= y < y.Floor as real + 1.0;
  }

  /** `round(x, 2)` is within half a hundredth of `x`. */
  lemma Round2Error(x: real)
    ensures x - 0.005 < Round2(x) <= x + 0.005
  {
    var y := x * 100.0 + 0.5;
    assert y.Floor as real <= y < y.Floor as real + 1.0;
  }

  /** Rounding an already rounded value changes nothing. */
  lemma Round1Idempotent(x: real)
    ensures Round1(Round1(x)) == Round1(x)
  {
    var n := (x * 10.0 + 0.5).Floor;
    assert Round1(x) * 10.0 + 0.5 == n as real + 0.5;
    assert (n as real + 0.5).Floor == n;
  }

  /** Rounding keeps a percentage in [0, 100]. */
  lemma Round1Bounds(x: real)
    requires 0.0 <= x <= 100.0
    ensures 0.0 <= Round1(x) <= 100.0
  {
    var y := x * 10.0 + 0.5;
    assert 0.5 <= y <= 1000.5;
    assert y.Floor <= 1000;
  }

  lemma Round2Bounds(x: real)
    requires 0.0 <= x <= 100.0
    ensures 0.0 <= Round2(x) <= 100.0
  {
    var y := x * 100.0 + 0.5;
    assert 0.5 <= y <= 10000.5;
    assert y.Floor <= 10000;
  }
}
