/** Python's round(x, k) on exact reals: to the nearest multiple of 10^-k, ties
    to the even multiple. The repository rounds to two and to four places. */
module Rounding {

  datatype Places = Two | Four

  function Step(places: Places): real {
    match places
    case Two => 0.01
    case Four => 0.0001
  }

  function Nearest(x: real): int {
    var low := x.Floor;
    var rest := x - low as real;
    if rest < 0.5 then low
    else if rest > 0.5 then low + 1
    else if low % 2 == 0 then low
    else low + 1
  }

  function Round(x: real, places: Places): real {
    match places
    case Two => Nearest(x * 100.0) as real / 100.0
    case Four => Nearest(x * 10000.0) as real / 10000.0
  }

  lemma NearestIsNear(x: real)
    ensures x - 0.5 <= Nearest(x) as real <= x + 0.5
  {
  }

  /** Halfway between two whole numbers the even one is taken. */
  lemma TiesToEven(n: int)
    ensures Nearest(n as real + 0.5) in {n, n + 1} && Nearest(n as real + 0.5) % 2 == 0
  {
    assert (n as real + 0.5).Floor == n;
  }

  lemma NearestMonotone(x: real, y: real)
    requires x <= y
    ensures Nearest(x) <= Nearest(y)
  {
    NearestIsNear(x);
    NearestIsNear(y);
  }

  lemma NearestOdd(x: real)
    ensures Nearest(-x) == -Nearest(x)
  {
    var low := x.Floor;
    var rest := x - low as real;
    if rest == 0.0 {
      assert (-x).Floor == -low;
    } else {
      assert (-x).Floor == -low - 1;
    }
  }

  lemma NearestFixes(n: int)
    ensures Nearest(n as real) == n
  {
  }

  /** Rounding moves a value by at most half a step. */
  lemma RoundError(x: real, places: Places)
    ensures x - Step(places) / 2.0 <= Round(x, places) <= x + Step(places) / 2.0
  {
    NearestIsNear(x * 100.0);
    NearestIsNear(x * 10000.0);
  }

  lemma RoundMonotone(x: real, y: real, places: Places)
    requires x <= y
    ensures Round(x, places) <= Round(y, places)
  {
    NearestMonotone(x * 100.0, y * 100.0);
    NearestMonotone(x * 10000.0, y * 10000.0);
  }

  lemma RoundOdd(x: real, places: Places)
    ensures Round(-x, places) == -Round(x, places)
  {
    NearestOdd(x * 100.0);
    NearestOdd(x * 10000.0);
    assert (-x) * 100.0 == -(x * 100.0) && (-x) * 10000.0 == -(x * 10000.0);
  }

  /** Values with few enough places are left alone. */
  lemma RoundFixes(n: int, places: Places)
    ensures Round(n as real * Step(places), places) == n as real * Step(places)
  {
    NearestFixes(n);
    match places
    case Two => assert n as real * 0.01 * 100.0 == n as real;
    case Four => assert n as real * 0.0001 * 10000.0 == n as real;
  }

  /** Rounding never changes a sign. */
  lemma RoundSign(x: real, places: Places)
    ensures x <= 0.0 ==> Round(x, places) <= 0.0
    ensures x >= 0.0 ==> Round(x, places) >= 0.0
  {
    NearestFixes(0);
    if x <= 0.0 {
      RoundMonotone(x, 0.0, places);
    }
    if x >= 0.0 {
      RoundMonotone(0.0, x, places);
    }
  }
}
