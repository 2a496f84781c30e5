/** Half and single precision numbers widened to double, on bit patterns. */
module Halves {
  import opened Values

  lemma Pow2Of52()
    ensures Pow2(52) == MANTISSA
  {
    Pow2Of4();
    hide Pow2;
    Pow2Sum(4, 4);
    Pow2Sum(8, 8);
    Pow2Sum(16, 16);
    Pow2Sum(32, 16);
    Pow2Sum(48, 4);
  }

  lemma Pow2Of4()
    ensures Pow2(4) == 16
  {
    assert Pow2(2) == 4;
  }

  lemma {:induction false} Pow2Sum(a: nat, b: nat)
    ensures Pow2(a + b) == Pow2(a) * Pow2(b)
  {
    if a > 0 { Pow2Sum(a - 1, b); }
  }

  /** Doubles `m` until its leading bit is bit 52; `left` counts the doublings not needed. */
  function Normalised(m: nat, left: nat): (r: (nat, nat))
    requires 0 < m < 2 * MANTISSA && m * Pow2(left) >= MANTISSA
    ensures r.0 <= left && r.1 < MANTISSA
    ensures (MANTISSA + r.1) * Pow2(r.0) == m * Pow2(left)
    decreases left
  {
    if m >= MANTISSA then (left, m - MANTISSA)
    else
      OneMoreDoubling(m, left);
      Normalised(2 * m, left - 1)
  }

  lemma OneMoreDoubling(m: nat, left: nat)
    requires 0 < m < MANTISSA && m * Pow2(left) >= MANTISSA
    ensures left > 0 && 2 * m * Pow2(left - 1) == m * Pow2(left)
  {
    assert Pow2(0) == 1;
    if left > 0 {
      var p := Pow2(left - 1);
      assert Pow2(left) == 2 * p;
      hide Pow2;
      assert 2 * m * p == m * (2 * p);
    }
  }

  function Signed(negative: bool, magnitude: nat): (bits: uint64)
    requires magnitude < SIGN_BIT
    ensures Magnitude(bits) == magnitude
  {
    if negative then SIGN_BIT + magnitude else magnitude
  }

  const QUIET: int := 0x8_0000_0000_0000

  /** A two-byte number (RFC 7049, appendix D). */
  function HalfToDouble(h: nat): uint64
    requires h < 0x1_0000
  {
    var exponent, fraction := h / 0x400 % 0x20, h % 0x400;
    var magnitude :=
      if exponent == 0 then
        if fraction == 0 then 0
        else
          Pow2Of52();
          var (left, f) := Normalised(fraction, 52);
          (left + 999) * MANTISSA + f
      else if exponent != 31 then (exponent + 1008) * MANTISSA + fraction * 0x400_0000_0000
      else if fraction == 0 then INFINITE
      else INFINITE + QUIET;
    Signed(h >= 0x8000, magnitude)
  }

  /** A four-byte number (IEEE 754 binary32). */
  function SingleToDouble(s: nat): uint64
    requires s < 0x1_0000_0000
  {
    var exponent, fraction := s / 0x80_0000 % 0x100, s % 0x80_0000;
    var magnitude :=
      if exponent == 0 then
        if fraction == 0 then 0
        else
          Pow2Of52();
          var (left, f) := Normalised(fraction, 52);
          (left + 874) * MANTISSA + f
      else if exponent != 255 then (exponent + 896) * MANTISSA + fraction * 0x2000_0000
      else if fraction == 0 then INFINITE
      else if fraction < 0x40_0000 then INFINITE + QUIET + fraction * 0x2000_0000
      else INFINITE + fraction * 0x2000_0000;
    Signed(s >= 0x8000_0000, magnitude)
  }

  /** Exactly the largest exponent of the narrow formats gives infinities and NaN. */
  lemma HalfIsFinite(h: nat)
    requires h < 0x1_0000
    ensures IsFinite(HalfToDouble(h)) <==> h / 0x400 % 0x20 != 31
  {
    hide Signed, Magnitude, Normalised;
  }

  lemma SingleIsFinite(s: nat)
    requires s < 0x1_0000_0000
    ensures IsFinite(SingleToDouble(s)) <==> s / 0x80_0000 % 0x100 != 255
  {
    hide Signed, Magnitude, Normalised;
  }
}
