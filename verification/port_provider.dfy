/** The port-range adjustment of the ephemeral port provider. The provider
    asks the operating system for a free port (socket I/O, not modelled) and
    then lowers any port at or above a fixed ceiling by a fixed stride until
    it falls below the ceiling. Ports are Java `int`s; the subtraction only
    happens at or above the ceiling, so it can never wrap around. */
module PortProvider {

  /** Ports at or above this value are moved down. */
  const Ceiling: int := 55535

  /** The amount one adjustment step subtracts. */
  const Stride: int := 100

  /** Reference definition: the first value below the ceiling in the
      descending sequence p, p - Stride, p - 2 * Stride, ... */
  function Clamp(p: int): (r: int)
    ensures r < Ceiling
    ensures r <= p && (p - r) % Stride == 0
    ensures p >= Ceiling ==> Ceiling - Stride <= r
    decreases p - Ceiling
  {
    if p < Ceiling then p else Clamp(p - Stride)
  }

  /** The provider's private `port(int)`: loop, subtracting the stride, until
      the value is below the ceiling. */
  method Port(p: int) returns (r: int)
    ensures r < Ceiling
    ensures p < Ceiling ==> r == p
    ensures p >= Ceiling ==> Ceiling - Stride <= r
    ensures r <= p && (p - r) % Stride == 0
    ensures r == Clamp(p)
  {
    r := p;
    while r >= Ceiling
      invariant r <= p && (p - r) % Stride == 0
      invariant p < Ceiling ==> r == p
      invariant p >= Ceiling ==> Ceiling - Stride <= r
      decreases r - Ceiling
    {
      r := r - Stride;
    }
    if p >= Ceiling {
      ClampUniqueInWindow(p, r);
    }
  }

  /** Two values in the same window of width Stride that differ by a multiple
      of Stride are equal. */
  lemma SameResidueInWindow(a: int, b: int)
    requires Ceiling - Stride <= a < Ceiling && Ceiling - Stride <= b < Ceiling
    requires (a - b) % Stride == 0
    ensures a == b
  {
  }

  /** Below the ceiling the port is returned unchanged. */
  lemma ClampIdentityBelowCeiling(p: int)
    requires p < Ceiling
    ensures Clamp(p) == p
  {
  }

  /** At or above the ceiling the result is the unique value in
      [Ceiling - Stride, Ceiling) congruent to p modulo Stride. */
  lemma ClampUniqueInWindow(p: int, r: int)
    requires p >= Ceiling
    ensures r == Clamp(p) <==> Ceiling - Stride <= r < Ceiling && (p - r) % Stride == 0
  {
    if Ceiling - Stride <= r < Ceiling && (p - r) % Stride == 0 {
      var c := Clamp(p);
      assert (r - c) % Stride == 0 by {
        assert r - c == (p - c) - (p - r);
      }
      SameResidueInWindow(r, c);
    }
  }

  /** The adjustment preserves the last two decimal digits of a port. */
  lemma {:induction false} ClampKeepsResidue(p: int)
    ensures Clamp(p) % Stride == p % Stride
    decreases p - Ceiling
  {
    if p >= Ceiling {
      ClampKeepsResidue(p - Stride);
      StrideKeepsResidue(p);
    }
  }

  lemma StrideKeepsResidue(p: int)
    ensures (p - Stride) % Stride == p % Stride
  {
  }

  /** Adjusting an adjusted port changes nothing. */
  lemma ClampIdempotent(p: int)
    ensures Clamp(Clamp(p)) == Clamp(p)
  {
  }
}
