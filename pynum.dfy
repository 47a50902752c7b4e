/** Python's numeric built-ins that the precompute relies on, evaluated on
    exact reals: `int(v)` on a float and `round(v)` with one argument. */
module PyNum {

  /** `int(v)`: drops the fractional part, rounding toward zero. */
  function Trunc(v: real): (n: int)
    ensures 0.0 <= v ==> 0 <= n && n as real <= v < n as real + 1.0
    ensures v < 0.0 ==> n <= 0 && n as real - 1.0 < v <= n as real
  {
    if 0.0 <= v then v.Floor else -((-v).Floor)
  }

  /** `round(v)`: the nearest integer; a value exactly halfway between two
      integers goes to the even one. Computed as rounding half up, then
      stepping down from an odd result on a tie. */
  function Round(v: real): (n: int)
    ensures n as real - 0.5 <= v <= n as real + 0.5
    ensures v == n as real - 0.5 || v == n as real + 0.5 ==> n % 2 == 0
  {
    var up := (v + 0.5).Floor;
    if up as real == v + 0.5 && up % 2 == 1 then up - 1 else up
  }
}
