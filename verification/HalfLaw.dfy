/** Half and single precision numbers denote the same as the doubles they are widened to. */
module HalfLaw {
  import opened Values
  import opened Halves
  import opened EqualityLaw
  import opened EqualityMeaning

  /** The magnitude of a finite two-byte number (RFC 7049, appendix D), in units of 2 to the power of -1074. */
  function HalfNumber(h: nat): nat {
    var exponent, fraction := h / 0x400 % 0x20, h % 0x400;
    if exponent == 0 then fraction * Pow2(1074 - 24) else (fraction + 0x400) * Pow2(1074 + exponent - 25)
  }

  /** The magnitude of a finite four-byte number (IEEE 754 binary32). */
  function SingleNumber(s: nat): nat {
    var exponent, fraction := s / 0x80_0000 % 0x100, s % 0x80_0000;
    if exponent == 0 then fraction * Pow2(1074 - 149) else (fraction + 0x80_0000) * Pow2(1074 + exponent - 150)
  }

  /** A double with this sign and magnitude. */
  predicate Denotes(bits: uint64, negative: bool, magnitude: nat) {
    (bits >= SIGN_BIT <==> negative) && Denoted(bits) == if negative then 0 - magnitude else magnitude
  }

  /** There is only one. */
  lemma DenotesOnce(x: uint64, y: uint64, negative: bool, magnitude: nat)
    requires Denotes(x, negative, magnitude) && Denotes(y, negative, magnitude)
    ensures x == y
  {
    hide Pow2, Significand, Scale, Magnitude;
    OneMagnitude(x, y);
    SameBits(x, y);
  }

  lemma SignedDenotes(negative: bool, exponent: nat, fraction: nat)
    requires exponent < 2047 && fraction < MANTISSA
    ensures exponent * MANTISSA + fraction < SIGN_BIT
    ensures var bits := Signed(negative, exponent * MANTISSA + fraction);
            Denotes(bits, negative,
              if exponent == 0 then fraction * Pow2(0) else (fraction + MANTISSA) * Pow2(exponent - 1))
  {
    hide Pow2;
    assert (exponent * MANTISSA + fraction) / MANTISSA == exponent;
    assert (exponent * MANTISSA + fraction) % MANTISSA == fraction;
    var bits := Signed(negative, exponent * MANTISSA + fraction);
    assert Magnitude(bits) == exponent * MANTISSA + fraction;
    assert bits >= SIGN_BIT <==> negative;
  }

  lemma PowersOfTwo()
    ensures Pow2(42) == 0x400_0000_0000 && Pow2(29) == 0x2000_0000 && Pow2(0) == 1
  {
    assert Pow2(0) == 1;
    assert Pow2(7) == 0x80 && Pow2(13) == 0x2000 && Pow2(16) == 0x1_0000;
    hide Pow2;
    Pow2Add(13, 13);
    Pow2Add(13, 16);
    Pow2Add(26, 16);
  }

  /** A normal number: `low` fraction bits are added behind the fraction. */
  lemma NormalDenotes(negative: bool, exponent: nat, fraction: nat, lead: nat, low: nat)
    requires 0 < exponent < 2047 && fraction < lead && lead * Pow2(low) == MANTISSA && fraction * Pow2(low) < MANTISSA
    ensures exponent * MANTISSA + fraction * Pow2(low) < SIGN_BIT
    ensures Denotes(Signed(negative, exponent * MANTISSA + fraction * Pow2(low)), negative,
              (fraction + lead) * Pow2(low + exponent - 1))
  {
    hide Pow2, Denotes, Signed;
    SignedDenotes(negative, exponent, fraction * Pow2(low));
    Pow2Add(low, exponent - 1);
    Regroup(fraction + lead, Pow2(low), Pow2(exponent - 1));
    assert (fraction + lead) * Pow2(low) == fraction * Pow2(low) + lead * Pow2(low);
  }

  /** A subnormal number, normalised. */
  lemma SubnormalDenotes(negative: bool, m: nat, exponent: nat, left: nat, f: nat, bias: nat)
    requires exponent == left + bias && 0 < bias && exponent < 2047 && f < MANTISSA
    requires (MANTISSA + f) * Pow2(left) == m * Pow2(52)
    ensures exponent * MANTISSA + f < SIGN_BIT
    ensures Denotes(Signed(negative, exponent * MANTISSA + f), negative, m * Pow2(52 + bias - 1))
  {
    hide Pow2, Denotes, Signed;
    SignedDenotes(negative, exponent, f);
    Pow2Add(left, bias - 1);
    Regroup(f + MANTISSA, Pow2(left), Pow2(bias - 1));
    Pow2Add(52, bias - 1);
    Regroup(m, Pow2(52), Pow2(bias - 1));
  }

  lemma ZeroDenotes(negative: bool)
    ensures Denotes(Signed(negative, 0), negative, 0)
  {
    SignedDenotes(negative, 0, 0);
  }

  /** Widening keeps the number, for every finite half. */
  lemma HalfDenotes(h: nat)
    requires h < 0x1_0000 && h / 0x400 % 0x20 != 31
    ensures Denotes(HalfToDouble(h), h >= 0x8000, HalfNumber(h))
  {
    hide Denotes, Signed, Pow2, Normalised;
    var exponent, fraction := h / 0x400 % 0x20, h % 0x400;
    PowersOfTwo();
    if exponent != 0 {
      NormalDenotes(h >= 0x8000, exponent + 1008, fraction, 0x400, 42);
    } else if fraction != 0 {
      Pow2Of52();
      var (left, f) := Normalised(fraction, 52);
      SubnormalDenotes(h >= 0x8000, fraction, left + 999, left, f, 999);
    } else {
      ZeroDenotes(h >= 0x8000);
    }
  }

  /** Widening keeps the number, for every finite single. */
  lemma SingleDenotes(s: nat)
    requires s < 0x1_0000_0000 && s / 0x80_0000 % 0x100 != 255
    ensures Denotes(SingleToDouble(s), s >= 0x8000_0000, SingleNumber(s))
  {
    hide Denotes, Signed, Pow2, Normalised;
    var exponent, fraction := s / 0x80_0000 % 0x100, s % 0x80_0000;
    PowersOfTwo();
    if exponent != 0 {
      NormalDenotes(s >= 0x8000_0000, exponent + 896, fraction, 0x80_0000, 29);
    } else if fraction != 0 {
      Pow2Of52();
      var (left, f) := Normalised(fraction, 52);
      SubnormalDenotes(s >= 0x8000_0000, fraction, left + 874, left, f, 874);
    } else {
      ZeroDenotes(s >= 0x8000_0000);
    }
  }
}
