/**
 The linear re-scaling `mapf` of the tone controller, followed by the `ceil`
 that both of its callers apply. The firmware computes it in single-precision
 floating point; this module computes it exactly, over the rationals, and
 takes the exact ceiling of the exact quotient.
 */
module Ceiling {

  /** The exact value of `mapf(x, inMin, inMax, outMin, outMax)`:
      `(x - inMin) * (outMax - outMin) / (inMax - inMin) + outMin`. */
  function Mapf(x: int, inMin: int, inMax: int, outMin: int, outMax: int): (y: real)
    requires inMax != inMin
    ensures x == inMin ==> y == outMin as real
    ensures x == inMax ==> y == outMax as real
    ensures inMin < inMax && outMin <= outMax && inMin <= x <= inMax ==>
              outMin as real <= y <= outMax as real
  {
    ((x - inMin) * (outMax - outMin)) as real / (inMax - inMin) as real + outMin as real
  }

  /** The ceiling of `a / b`, computed with Dafny's Euclidean division. */
  function CeilDiv(a: int, b: int): (q: int)
    requires b != 0
    ensures b > 0 ==> (q - 1) * b < a <= q * b
    ensures b < 0 ==> q * b <= a < (q - 1) * b
  {
    if b > 0 then
      var f := (-a) / b;
      assert -a == f * b + (-a) % b;
      -f
    else
      var f := a / (-b);
      assert a == f * (-b) + a % (-b);
      -f
  }

  /** An integer `q` is the ceiling of the rational `a / b` exactly when
      `q - 1 < a / b <= q`. */
  lemma CeilDivIsCeiling(a: int, b: int)
    requires b != 0
    ensures (CeilDiv(a, b) - 1) as real < a as real / b as real <= CeilDiv(a, b) as real
  {
    var q := CeilDiv(a, b);
    if b > 0 {
      PositiveCeiling(a, b, q);
    } else {
      PositiveCeiling(-a, -b, q);
      assert (-a) as real / (-b) as real == a as real / b as real;
    }
  }

  /** The integer bracket `(q - 1) * b < a <= q * b` read as rationals. */
  lemma PositiveCeiling(a: int, b: int, q: int)
    requires b > 0
    requires (q - 1) * b < a <= q * b
    ensures (q - 1) as real < a as real / b as real <= q as real
  {
    var x := a as real / b as real;
    assert x * b as real == a as real;
    assert ((q - 1) * b) as real == (q - 1) as real * b as real;
    assert (q * b) as real == q as real * b as real;
  }

  /** `ceil(mapf(...))` as the firmware rounds it, computed exactly. */
  function MapCeil(x: int, inMin: int, inMax: int, outMin: int, outMax: int): (r: int)
    requires inMax != inMin
    ensures (r - 1) as real < Mapf(x, inMin, inMax, outMin, outMax) <= r as real
  {
    var num := (x - inMin) * (outMax - outMin);
    var den := inMax - inMin;
    CeilDivIsCeiling(num, den);
    outMin + CeilDiv(num, den)
  }

  /** The ceiling of `a / b` grows with `a`. */
  lemma CeilDivMonotone(a1: int, a2: int, b: int)
    requires b > 0 && a1 <= a2
    ensures CeilDiv(a1, b) <= CeilDiv(a2, b)
  {
    var q1, q2 := CeilDiv(a1, b), CeilDiv(a2, b);
    if q1 > q2 {
      assert (q1 - 1) * b >= q2 * b by { MultiplyMonotone(q2, q1 - 1, b); }
    }
  }

  /** A multiple of `b` divides exactly. */
  lemma CeilDivExact(k: int, b: int)
    requires b > 0
    ensures CeilDiv(k * b, b) == k
  {
    var q := CeilDiv(k * b, b);
    if q < k {
      MultiplyMonotone(q, k - 1, b);
    } else if q > k {
      MultiplyMonotone(k, q - 1, b);
    }
  }

  lemma MultiplyMonotone(x: int, y: int, b: int)
    requires b >= 0 && x <= y
    ensures x * b <= y * b
  {
  }

  /** Over an increasing input range and a non-decreasing output range, the
      rounded map stays inside the output range. */
  lemma {:induction false} MapCeilBounds(x: int, inMin: int, inMax: int, outMin: int, outMax: int)
    requires inMin < inMax && outMin <= outMax
    requires inMin <= x <= inMax
    ensures outMin <= MapCeil(x, inMin, inMax, outMin, outMax) <= outMax
  {
    var span, den := outMax - outMin, inMax - inMin;
    MultiplyMonotone(0, x - inMin, span);
    assert (x - inMin) * span <= span * den by { MultiplyMonotone(x - inMin, den, span); }
    CeilDivMonotone(0 * den, (x - inMin) * span, den);
    CeilDivMonotone((x - inMin) * span, span * den, den);
    CeilDivExact(0, den);
    CeilDivExact(span, den);
  }

  /** The input endpoints land exactly on the output endpoints. */
  lemma {:induction false} MapCeilEndpoints(inMin: int, inMax: int, outMin: int, outMax: int)
    requires inMin < inMax
    ensures MapCeil(inMin, inMin, inMax, outMin, outMax) == outMin
    ensures MapCeil(inMax, inMin, inMax, outMin, outMax) == outMax
  {
    var span, den := outMax - outMin, inMax - inMin;
    assert (inMin - inMin) * span == 0 * den;
    CeilDivExact(0, den);
    assert (inMax - inMin) * span == span * den;
    CeilDivExact(span, den);
  }

  /** The rounded map is non-decreasing in its input. */
  lemma {:induction false} MapCeilMonotone(x: int, y: int, inMin: int, inMax: int, outMin: int, outMax: int)
    requires inMin < inMax && outMin <= outMax && x <= y
    ensures MapCeil(x, inMin, inMax, outMin, outMax) <= MapCeil(y, inMin, inMax, outMin, outMax)
  {
    var span := outMax - outMin;
    MultiplyMonotone(x - inMin, y - inMin, span);
    CeilDivMonotone((x - inMin) * span, (y - inMin) * span, inMax - inMin);
  }
}
