/** Exactly where `operator==` is transitive. */
module EqualityLaw {
  import opened Values

  predicate IsInteger(v: Value) { v.Int? || v.UInt? }

  function Number(v: Value): int
    requires IsInteger(v)
  {
    if v.Int? then v.i else v.u
  }

  /** Two integers that are different numbers. */
  predicate Differ(x: Value, y: Value) { IsInteger(x) && IsInteger(y) && Number(x) != Number(y) }

  /** One of the three is a double, and two of them are integers that are different numbers. */
  predicate NumbersClash(x: Value, y: Value, z: Value) {
    (x.Float? || y.Float? || z.Float?) && (Differ(x, y) || Differ(y, z) || Differ(x, z))
  }

  /** Such numbers stand in the same place of the three values. */
  predicate Clash(x: Value, y: Value, z: Value)
    decreases x
  {
    match x
    case Arr(a) =>
      y.Arr? && z.Arr? && exists i | 0 <= i < |a| && i < |y.a| && i < |z.a| :: Clash(a[i], y.a[i], z.a[i])
    case Obj(o) =>
      y.Obj? && z.Obj? && exists k | k in o && k in y.o && k in z.o :: Clash(o[k], y.o[k], z.o[k])
    case _ => NumbersClash(x, y, z)
  }

  // ---------- an integer equals one double only ----------

  lemma {:induction false} Pow2Add(d: nat, e: nat)
    ensures Pow2(d + e) == Pow2(d) * Pow2(e)
  {
    if d > 0 { Pow2Add(d - 1, e); }
  }

  /** The number `significand * 2^(scale - 1075)`. */
  predicate Represents(n: nat, significand: nat, scale: nat) {
    if scale >= 1075 then n == significand * Pow2(scale - 1075) else n * Pow2(1075 - scale) == significand
  }

  lemma Cancel(a: nat, b: nat, c: nat)
    requires c > 0 && a * c == b * c
    ensures a == b
  {
  }

  lemma Regroup(a: nat, b: nat, c: nat)
    ensures a * b * c == a * (b * c) == a * (c * b)
  {
  }

  lemma Rescaled(n: nat, s: nat, d: nat, t: nat, e: nat)
    requires Represents(n, s, d) && Represents(n, t, e) && d <= e
    ensures s == t * Pow2(e - d)
  {
    hide Pow2;
    if e < 1075 {
      Pow2Add(1075 - e, e - d);
      Regroup(n, Pow2(1075 - e), Pow2(e - d));
    } else if d < 1075 {
      Pow2Add(e - 1075, 1075 - d);
      Regroup(t, Pow2(e - 1075), Pow2(1075 - d));
    } else {
      Pow2Add(e - d, d - 1075);
      Regroup(t, Pow2(e - d), Pow2(d - 1075));
      Cancel(s, t * Pow2(e - d), Pow2(d - 1075));
    }
  }

  lemma Doubled(t: nat, d: nat)
    requires d > 0
    ensures t * Pow2(d) >= 2 * t
  {
    assert Pow2(d) >= 2;
  }

  lemma Positive(a: nat, b: nat)
    requires a > 0 && b > 0
    ensures a * b > 0
  {
  }

  lemma Normal(s: nat, d: nat, t: nat, e: nat)
    requires d <= e && s == t * Pow2(e - d) && s < 2 * MANTISSA && (e > d ==> t >= MANTISSA)
    ensures s == t && d == e
  {
    if e > d { Doubled(t, e - d); }
  }

  function Significand(bits: uint64): nat {
    var exponent, fraction := Magnitude(bits) / MANTISSA, Magnitude(bits) % MANTISSA;
    if exponent == 0 then fraction else fraction + MANTISSA
  }

  function Scale(bits: uint64): nat {
    var exponent := Magnitude(bits) / MANTISSA;
    if exponent == 0 then 1 else exponent
  }

  lemma ScaleIs(bits: uint64)
    ensures Significand(bits) < 2 * MANTISSA && (Scale(bits) > 1 ==> Significand(bits) >= MANTISSA) && Scale(bits) >= 1
    ensures Magnitude(bits) == if Significand(bits) < MANTISSA then Significand(bits)
                               else (Scale(bits) - 1) * MANTISSA + Significand(bits)
  {
  }

  lemma IntegerIs(n: int, bits: uint64)
    requires IntEqFloat(n, bits)
    ensures Represents(RoundToDouble(if n < 0 then -n else n), Significand(bits), Scale(bits))
    ensures n == 0 || (n < 0 <==> bits >= SIGN_BIT)
    ensures !NotANumber(bits)
  {
    hide RoundToDouble, Pow2;
  }

  lemma SameMagnitude(r: nat, x: uint64, y: uint64)
    requires Represents(r, Significand(x), Scale(x)) && Represents(r, Significand(y), Scale(y))
    ensures Magnitude(x) == Magnitude(y)
  {
    hide Represents, Significand, Scale, Magnitude;
    ScaleIs(x);
    ScaleIs(y);
    if Scale(x) <= Scale(y) {
      Rescaled(r, Significand(x), Scale(x), Significand(y), Scale(y));
      Normal(Significand(x), Scale(x), Significand(y), Scale(y));
    } else {
      Rescaled(r, Significand(y), Scale(y), Significand(x), Scale(x));
      Normal(Significand(y), Scale(y), Significand(x), Scale(x));
    }
  }

  lemma ZeroIs(bits: uint64)
    requires IntEqFloat(0, bits)
    ensures IsZero(bits)
  {
    hide Pow2;
    assert RoundToDouble(0) == 0 by { NoExcess(); }
    IntegerIs(0, bits);
    ScaleIs(bits);
    assert Significand(bits) == 0 by { NothingRepresented(Significand(bits), Scale(bits)); }
  }

  lemma NoExcess()
    ensures RoundToDouble(0) == 0
  {
  }

  lemma NothingRepresented(s: nat, e: nat)
    requires Represents(0, s, e)
    ensures s == 0
  {
    hide Pow2;
    if e >= 1075 && s > 0 { Positive(s, Pow2(e - 1075)); }
  }

  /** An integer equals at most one double, the two zeros apart. */
  lemma OneDouble(n: int, x: uint64, y: uint64)
    requires IntEqFloat(n, x) && IntEqFloat(n, y)
    ensures FloatEq(x, y)
  {
    hide IntEqFloat, RoundToDouble, Represents, Significand, Scale, Magnitude, NotANumber, IsZero;
    IntegerIs(n, x);
    IntegerIs(n, y);
    if n == 0 {
      ZeroIs(x);
      ZeroIs(y);
    } else {
      SameMagnitude(RoundToDouble(if n < 0 then -n else n), x, y);
      SameBits(x, y);
    }
  }

  lemma SameBits(x: uint64, y: uint64)
    requires Magnitude(x) == Magnitude(y) && (x >= SIGN_BIT <==> y >= SIGN_BIT)
    ensures x == y
  {
  }

  lemma ZeroDoubles(n: int, x: uint64, y: uint64)
    requires IntEqFloat(n, x) && IsZero(x) && IsZero(y)
    ensures IntEqFloat(n, y)
  {
    hide Pow2, RoundToDouble;
    if n != 0 {
      RoundedIsPositive(if n < 0 then -n else n);
      Positive(RoundToDouble(if n < 0 then -n else n), Pow2(1074));
    }
    NoExcess();
  }

  lemma {:induction false} ExcessFits(n: nat)
    requires n > 0
    ensures n >= Pow2(ExcessBits(n))
  {
    if n >= 2 * MANTISSA { ExcessFits(n / 2); }
  }

  lemma RoundedIsPositive(n: nat)
    requires n > 0
    ensures RoundToDouble(n) > 0
  {
    hide Pow2, ExcessBits;
    ExcessFits(n);
    var p := Pow2(ExcessBits(n));
    assert n / p >= 1 by { AtLeastOnce(n, p); }
    assert forall q: nat | q >= 1 :: q * p > 0;
  }

  lemma AtLeastOnce(n: nat, p: nat)
    requires 0 < p <= n
    ensures n / p >= 1
  {
    var q, r := n / p, n % p;
    assert n == q * p + r && r < p;
  }

  /** Two integers that equal one double and each other are the same number. */
  lemma WrappedSigns(x: Value, y: Value)
    requires IsInteger(x) && IsInteger(y)
    ensures Eq(x, y) && Differ(x, y) ==> Number(x) < 0 < Number(y) || Number(y) < 0 < Number(x)
    ensures !Differ(x, y) ==> Eq(x, y)
  {
  }

  /** One double does not equal integers of different signs. */
  lemma NotBothSigns(m: int, n: int, bits: uint64)
    requires m < 0 < n
    ensures !(IntEqFloat(m, bits) && IntEqFloat(n, bits))
  {
    hide RoundToDouble, Pow2;
  }

  lemma NumbersTransitive(x: Value, y: Value, z: Value)
    requires Eq(x, y) && Eq(y, z)
    requires x.Primitive() && y.Primitive() && z.Primitive()
    ensures Eq(x, z) <==> !NumbersClash(x, y, z)
  {
    hide IntEqFloat;
    if IsInteger(x) && IsInteger(y) { WrappedSigns(x, y); }
    if IsInteger(y) && IsInteger(z) { WrappedSigns(y, z); }
    if IsInteger(x) && IsInteger(z) { WrappedSigns(x, z); }
    if x.Float? && y.Float? && IsInteger(z) && IsZero(y.bits) && IsZero(x.bits) {
      ZeroDoubles(Number(z), y.bits, x.bits);
    }
    if IsInteger(x) && y.Float? && z.Float? && IsZero(y.bits) && IsZero(z.bits) {
      ZeroDoubles(Number(x), y.bits, z.bits);
    }
    if x.Float? && IsInteger(y) && z.Float? { OneDouble(Number(y), x.bits, z.bits); }
    forall m: int, n: int, bits: uint64 | m < 0 < n ensures !(IntEqFloat(m, bits) && IntEqFloat(n, bits)) {
      NotBothSigns(m, n, bits);
    }
  }

  /** Equality passes through `y` exactly when there is no such clash. */
  lemma {:induction false} EqTransitive(x: Value, y: Value, z: Value)
    requires Eq(x, y) && Eq(y, z)
    ensures Eq(x, z) <==> !Clash(x, y, z)
    decreases x
  {
    match x
    case Arr(a) =>
      forall i | 0 <= i < |a| ensures Eq(a[i], z.a[i]) <==> !Clash(a[i], y.a[i], z.a[i]) {
        EqTransitive(a[i], y.a[i], z.a[i]);
      }
    case Obj(o) =>
      forall k | k in o ensures Eq(o[k], z.o[k]) <==> !Clash(o[k], y.o[k], z.o[k]) {
        EqTransitive(o[k], y.o[k], z.o[k]);
      }
    case _ => NumbersTransitive(x, y, z);
  }

  /** Inputs: 2^53 + 1, the double 2^53 and 2^53; the double -1, -1 and 2^64 - 1. */
  lemma ClashExamples()
    ensures var x, y, z := UInt(0x20_0000_0000_0001), Float(0x4340_0000_0000_0000), UInt(0x20_0000_0000_0000);
            Eq(x, y) && Eq(y, z) && !Eq(x, z)
    ensures var x, y, z := Float(0xbff0_0000_0000_0000), Int(-1), UInt(UINT64_MAX);
            Eq(x, y) && Eq(y, z) && !Eq(x, z)
  {
    BigPower();
    hide Pow2;
    assert ExcessBits(0x20_0000_0000_0001) == 1 && ExcessBits(0x20_0000_0000_0000) == 1;
    assert RoundToDouble(0x20_0000_0000_0001) == 0x20_0000_0000_0000;
    assert RoundToDouble(0x20_0000_0000_0000) == 0x20_0000_0000_0000;
    assert RoundToDouble(1) == 1;
  }

  lemma BigPower()
    ensures Pow2(0) == 1 && Pow2(1) == 2 && Pow2(52) == MANTISSA
  {
    assert Pow2(13) == 0x2000;
    Pow2Add(13, 13);
    Pow2Add(26, 26);
  }
}
