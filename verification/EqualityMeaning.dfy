/** What `operator==` compares: the things that values denote. */
module EqualityMeaning {
  import opened Bytes
  import opened Values
  import opened EqualityLaw

  // ---------- the number that a double denotes ----------

  /** The number of a double that is no NaN, in units of 2 to the power of -1074. */
  function Denoted(bits: uint64): int {
    var n: int := Significand(bits) * Pow2(Scale(bits) - 1);
    if bits >= SIGN_BIT then -n else n
  }

  lemma Grows(s: nat, t: nat, d: nat, e: nat)
    requires d <= e && s * Pow2(d) == t * Pow2(e)
    ensures s == t * Pow2(e - d)
  {
    hide Pow2;
    Pow2Add(e - d, d);
    Regroup(t, Pow2(e - d), Pow2(d));
    Cancel(s, t * Pow2(e - d), Pow2(d));
  }

  lemma OneMagnitude(x: uint64, y: uint64)
    requires Significand(x) * Pow2(Scale(x) - 1) == Significand(y) * Pow2(Scale(y) - 1)
    ensures Magnitude(x) == Magnitude(y)
  {
    hide Significand, Scale, Magnitude;
    ScaleIs(x);
    ScaleIs(y);
    if Scale(x) <= Scale(y) {
      Grows(Significand(x), Significand(y), Scale(x) - 1, Scale(y) - 1);
      Normal(Significand(x), Scale(x), Significand(y), Scale(y));
    } else {
      Grows(Significand(y), Significand(x), Scale(y) - 1, Scale(x) - 1);
      Normal(Significand(y), Scale(y), Significand(x), Scale(x));
    }
  }

  lemma SameScales(x: uint64, y: uint64)
    requires Magnitude(x) == Magnitude(y)
    ensures Significand(x) == Significand(y) && Scale(x) == Scale(y)
  {
  }

  lemma DenotedZero(bits: uint64)
    ensures IsZero(bits) <==> Denoted(bits) == 0
    ensures Denoted(bits) > 0 ==> bits < SIGN_BIT
    ensures Denoted(bits) < 0 ==> bits >= SIGN_BIT
  {
    hide Pow2;
    ScaleIs(bits);
    if Significand(bits) > 0 { Positive(Significand(bits), Pow2(Scale(bits) - 1)); }
  }

  /** Doubles are equal exactly when they denote the same number, none being a NaN. */
  lemma FloatEqIsNumber(x: uint64, y: uint64)
    ensures FloatEq(x, y) <==> !NotANumber(x) && !NotANumber(y) && Denoted(x) == Denoted(y)
  {
    hide Pow2, Significand, Scale, Magnitude;
    DenotedZero(x);
    DenotedZero(y);
    if Magnitude(x) == Magnitude(y) { SameScales(x, y); }
    if Denoted(x) == Denoted(y) {
      OneMagnitude(x, y);
      if Denoted(x) != 0 { SameBits(x, y); }
    }
  }

  // ---------- the double nearest to an integer ----------

  /** A natural number with at most 53 significant bits. */
  ghost predicate Representable(r: nat) { exists s: nat, e: nat :: s < 2 * MANTISSA && r == Scaled(s, e) }

  function Scaled(s: nat, e: nat): nat { s * Pow2(e) }

  /** All 53 bits are used, and the last one is zero. */
  ghost predicate EvenDouble(r: nat) {
    exists s: nat, e: nat :: MANTISSA <= s < 2 * MANTISSA && s % 2 == 0 && r == Scaled(s, e)
  }

  function Distance(m: nat, n: nat): nat { if m < n then n - m else m - n }

  lemma HalvedAgain(n: nat, p: nat)
    requires p > 0
    ensures n / (2 * p) == n / 2 / p
  {
    var q, r := n / 2 / p, n / 2 % p;
    assert n / 2 == q * p + r;
    var h := n % 2;
    assert n == 2 * (n / 2) + h;
    Spread(q, p, r, h);
    Quotient(n, 2 * p, q, 2 * r + h);
  }

  lemma Spread(q: nat, p: nat, r: nat, h: nat)
    ensures 2 * (q * p + r) + h == q * (2 * p) + (2 * r + h)
  {
  }

  lemma Quotient(n: nat, p: nat, q: nat, r: nat)
    requires r < p && n == q * p + r
    ensures n / p == q && n % p == r
  {
    var d, m := n / p, n % p;
    assert n == d * p + m;
    Multiples(q, d, p);
    if d < q { AtLeast(q - d, p); }
    if d > q { AtLeast(d - q, p); }
  }

  lemma Multiples(q: int, d: int, p: nat)
    ensures (q - d) * p == q * p - d * p
    ensures (d - q) * p == d * p - q * p
  {
  }

  lemma AtLeast(a: nat, b: nat)
    requires a >= 1
    ensures a * b >= b
  {
  }

  /** What is left when the excess bits are cut off fills the significand. */
  lemma {:induction false} ExcessCut(n: nat)
    ensures n / Pow2(ExcessBits(n)) < 2 * MANTISSA
    ensures ExcessBits(n) > 0 ==> n / Pow2(ExcessBits(n)) >= MANTISSA
  {
    if n >= 2 * MANTISSA {
      ExcessCut(n / 2);
      HalvedAgain(n, Pow2(ExcessBits(n / 2)));
    }
  }

  /** A representable number is a multiple of the last place of `n`, or no larger than the multiple below `n`. */
  lemma Multiple(r: nat, k: nat, q: nat)
    requires Representable(r) && (k > 0 ==> q >= MANTISSA)
    ensures r <= q * Pow2(k) || exists m: nat :: r == Scaled(m, k)
  {
    var s: nat, e: nat :| s < 2 * MANTISSA && r == Scaled(s, e);
    if e >= k {
      Pow2Add(e - k, k);
      Regroup(s, Pow2(e - k), Pow2(k));
      var m: nat := s * Pow2(e - k);
      assert r == Scaled(m, k);
    } else {
      Pow2Add(k - 1 - e, e);
      Regroup(2 * MANTISSA, Pow2(k - 1 - e), Pow2(e));
      Shrunk(s, e, k, q);
    }
  }

  lemma Shrunk(s: nat, e: nat, k: nat, q: nat)
    requires e < k && s < 2 * MANTISSA && q >= MANTISSA && Pow2(k - 1) == Pow2(k - 1 - e) * Pow2(e)
    ensures s * Pow2(e) <= q * Pow2(k)
  {
    var a, b := Pow2(k - 1 - e), Pow2(e);
    assert Pow2(k) == 2 * (a * b);
    hide Pow2;
    AtLeast(a, b);
    Product(s, b, 2 * MANTISSA, a * b);
    assert 2 * MANTISSA * (a * b) == MANTISSA * (2 * (a * b));
    Product(MANTISSA, 2 * (a * b), q, 2 * (a * b));
  }

  lemma Product(a: nat, b: nat, c: nat, d: nat)
    requires a <= c && b <= d
    ensures a * b <= c * d
  {
    assert a * b <= a * d;
    assert a * d <= c * d;
  }

  lemma NearerThan(n: nat, r: nat)
    requires Representable(r)
    ensures Distance(n, RoundToDouble(n)) <= Distance(n, r)
    ensures r != RoundToDouble(n) && Distance(n, RoundToDouble(n)) == Distance(n, r) ==> EvenDouble(RoundToDouble(n))
  {
    hide Pow2, ExcessBits, Representable, EvenDouble, RoundToDouble, Scaled, Distance;
    var k := ExcessBits(n);
    var p := Pow2(k);
    var q, m := n / p, n % p;
    ExcessCut(n);
    Rounded(n, k, q, m);
    Divided(n, k, q, m);
    Multiple(r, k, q);
    Between(r, k, q);
    Nearest(n, k, q, m, r);
    if r != RoundToDouble(n) && Distance(n, RoundToDouble(n)) == Distance(n, r) { Tie(n, k, q, m, r); }
  }

  lemma Divided(n: nat, k: nat, q: nat, m: nat)
    requires q == n / Pow2(k) && m == n % Pow2(k)
    ensures n == Scaled(q, k) + m && m < Pow2(k)
  {
    hide Pow2;
    var p := Pow2(k);
    assert n == n / p * p + n % p;
  }

  lemma Between(r: nat, k: nat, q: nat)
    requires r <= q * Pow2(k) || exists t: nat :: r == Scaled(t, k)
    ensures r <= Scaled(q, k) || r >= Scaled(q + 1, k)
  {
    hide Pow2;
    if r > q * Pow2(k) {
      var t: nat :| r == Scaled(t, k);
      OtherMultiple(Pow2(k), q, t);
    }
  }

  /** `static_cast<double>` yields the nearest double, and of two that are equally near the even one. */
  lemma RoundToDoubleIsNearest(n: nat)
    ensures Representable(RoundToDouble(n))
    ensures forall r: nat | Representable(r) ::
              && Distance(n, RoundToDouble(n)) <= Distance(n, r)
              && (r != RoundToDouble(n) && Distance(n, RoundToDouble(n)) == Distance(n, r) ==>
                    EvenDouble(RoundToDouble(n)))
  {
    hide Pow2, ExcessBits, Representable, EvenDouble, RoundToDouble, Distance;
    var p := Pow2(ExcessBits(n));
    ExcessCut(n);
    Rounded(n, ExcessBits(n), n / p, n % p);
    forall r: nat | Representable(r)
      ensures Distance(n, RoundToDouble(n)) <= Distance(n, r)
      ensures r != RoundToDouble(n) && Distance(n, RoundToDouble(n)) == Distance(n, r) ==> EvenDouble(RoundToDouble(n))
    {
      NearerThan(n, r);
    }
  }

  lemma Rounded(n: nat, k: nat, q: nat, m: nat)
    requires k == ExcessBits(n) && q == n / Pow2(k) && m == n % Pow2(k) && q < 2 * MANTISSA
    ensures RoundToDouble(n) ==
      if 2 * m > Pow2(k) || (2 * m == Pow2(k) && q % 2 == 1) then Scaled(q + 1, k) else Scaled(q, k)
    ensures Representable(RoundToDouble(n))
  {
    hide Pow2, ExcessBits;
    if q + 1 == 2 * MANTISSA {
      assert Pow2(1 + k) == Pow2(1) * Pow2(k) by { Pow2Add(1, k); }
      assert Pow2(1) == 2 by { PowerOne(); }
      assert Scaled(q + 1, k) == Scaled(MANTISSA, 1 + k);
    }
  }

  lemma PowerOne()
    ensures Pow2(1) == 2 && Pow2(0) == 1
  {
  }

  /** No number up to the multiple below `n`, or from the one above, is nearer than the nearer of the two. */
  lemma Nearest(n: nat, k: nat, q: nat, m: nat, r: nat)
    requires n == Scaled(q, k) + m && m < Pow2(k) && (r <= Scaled(q, k) || r >= Scaled(q + 1, k))
    ensures var near := if 2 * m > Pow2(k) || (2 * m == Pow2(k) && q % 2 == 1) then Scaled(q + 1, k) else Scaled(q, k);
            && Distance(n, near) <= Distance(n, r)
            && (r != near && Distance(n, near) == Distance(n, r) ==> 2 * m == Pow2(k))
  {
    hide Pow2;
    NextMultiple(q, k);
    hide Scaled;
  }

  lemma NextMultiple(q: nat, k: nat)
    ensures Scaled(q + 1, k) == Scaled(q, k) + Pow2(k)
  {
    hide Pow2;
  }

  lemma OtherMultiple(p: nat, q: nat, t: nat)
    requires t * p > q * p
    ensures t * p >= (q + 1) * p
  {
    if t <= q { Product(t, p, q, p); }
    Product(q + 1, p, t, p);
  }

  lemma Tie(n: nat, k: nat, q: nat, m: nat, r: nat)
    requires k == ExcessBits(n) && q == n / Pow2(k) && m == n % Pow2(k) && n == q * Pow2(k) + m && m < Pow2(k)
    requires q < 2 * MANTISSA && (k > 0 ==> q >= MANTISSA) && 2 * m == Pow2(k)
    ensures EvenDouble(RoundToDouble(n))
  {
    hide ExcessBits;
    assert k > 0;
    hide Pow2;
    Rounded(n, k, q, m);
    if q % 2 == 0 {
      assert RoundToDouble(n) == Scaled(q, k);
    } else if q + 1 < 2 * MANTISSA {
      assert RoundToDouble(n) == Scaled(q + 1, k);
    } else {
      Pow2Add(1, k);
      PowerOne();
      assert RoundToDouble(n) == Scaled(MANTISSA, 1 + k);
    }
  }

  // ---------- an integer against a double ----------

  /** The integer that the double nearest to `n` denotes. */
  function Cast(n: int): int { if n < 0 then 0 - RoundToDouble(-n) else RoundToDouble(n) }

  lemma RepresentsIsDenoted(r: nat, s: nat, e: nat)
    requires e >= 1
    ensures Represents(r, s, e) <==> r * Pow2(1074) == s * Pow2(e - 1)
  {
    hide Pow2;
    if e >= 1075 {
      Pow2Add(e - 1075, 1074);
      Regroup(s, Pow2(e - 1075), Pow2(1074));
      if r * Pow2(1074) == s * Pow2(e - 1) { Cancel(r, s * Pow2(e - 1075), Pow2(1074)); }
    } else {
      Pow2Add(1075 - e, e - 1);
      Regroup(r, Pow2(1075 - e), Pow2(e - 1));
      if r * Pow2(1074) == s * Pow2(e - 1) { Cancel(r * Pow2(1075 - e), s, Pow2(e - 1)); }
    }
  }

  lemma IntegerIsExactly(n: int, bits: uint64)
    ensures IntEqFloat(n, bits) <==>
      && IsFinite(bits)
      && (n == 0 || (n < 0 <==> bits >= SIGN_BIT))
      && Represents(RoundToDouble(if n < 0 then -n else n), Significand(bits), Scale(bits))
  {
    hide RoundToDouble, Pow2;
  }

  /** An integer equals a double exactly when the double denotes the nearest number there is. */
  lemma IntEqFloatIsNumber(n: int, bits: uint64)
    ensures IntEqFloat(n, bits) <==> IsFinite(bits) && Denoted(bits) == Cast(n) * Pow2(1074)
  {
    hide IntEqFloat, RoundToDouble, Represents, Pow2, Significand, Scale, Magnitude;
    var m: nat := if n < 0 then -n else n;
    var r := RoundToDouble(m);
    IntegerIsExactly(n, bits);
    ScaleIs(bits);
    RepresentsIsDenoted(r, Significand(bits), Scale(bits));
    DenotedZero(bits);
    if m > 0 {
      RoundedIsPositive(m);
      Positive(r, Pow2(1074));
    } else {
      NoExcess();
    }
    assert -r * Pow2(1074) == -(r * Pow2(1074));
  }

  // ---------- all values ----------

  /** What a value denotes; integers up to multiples of 2 to the power of 64. */
  datatype Denotation =
    | Nothing
    | Truth(b: bool)
    | Residue(n: nat)
    | Number(scaled: int)
    | Characters(s: Str)
    | List(elements: seq<Denotation>)
    | Record(members: map<Str, Denotation>)

  function Denote(v: Value): Denotation
    decreases v
  {
    match v
    case Null => Nothing
    case Bool(b) => Truth(b)
    case Int(i) => Residue(i % TWO_TO_THE_64)
    case UInt(u) => Residue(u)
    case Float(bits) => Number(Denoted(bits))
    case Text(s) => Characters(s)
    case Arr(a) => List(seq(|a|, i requires 0 <= i < |a| => Denote(a[i])))
    case Obj(o) => Record(map k | k in o :: Denote(o[k]))
  }

  /** `x` with a double in place of each integer that the double in the same place of `y` is the nearest to. */
  function Aligned(x: Value, y: Value): Value
    decreases x
  {
    match (x, y)
    case (Arr(p), Arr(q)) => Arr(seq(|p|, i requires 0 <= i < |p| => if i < |q| then Aligned(p[i], q[i]) else p[i]))
    case (Obj(p), Obj(q)) => Obj(map k | k in p :: if k in q then Aligned(p[k], q[k]) else p[k])
    case (_, Float(bits)) =>
      if IsInteger(x) && IsFinite(bits) && Denoted(bits) == Cast(EqualityLaw.Number(x)) * Pow2(1074) then y else x
    case _ => x
  }

  lemma PrimitiveMeaning(x: Value, y: Value)
    requires x.Primitive() || y.Primitive()
    ensures Eq(x, y) <==> NaNFree(x) && NaNFree(y) && Denote(Aligned(x, y)) == Denote(Aligned(y, x))
  {
    hide IntEqFloat, FloatEq, Denoted, Cast, NotANumber, IsFinite, Pow2;
    if x.Float? && y.Float? { FloatEqIsNumber(x.bits, y.bits); }
    if IsInteger(x) && y.Float? {
      IntEqFloatIsNumber(EqualityLaw.Number(x), y.bits);
      FiniteIsNumber(y.bits);
    }
    if x.Float? && IsInteger(y) {
      IntEqFloatIsNumber(EqualityLaw.Number(y), x.bits);
      FiniteIsNumber(x.bits);
    }
  }

  lemma FiniteIsNumber(bits: uint64)
    ensures IsFinite(bits) ==> !NotANumber(bits)
  {
  }

  /** Values are equal exactly when they hold no NaN and denote the same, integers beside doubles being rounded. */
  lemma {:induction false} EqIsDenotation(x: Value, y: Value)
    ensures Eq(x, y) <==> NaNFree(x) && NaNFree(y) && Denote(Aligned(x, y)) == Denote(Aligned(y, x))
    decreases x
  {
    hide IntEqFloat, FloatEq, Denoted, Cast;
    if x.Arr? && y.Arr? {
      forall i | 0 <= i < |x.a| && i < |y.a|
        ensures Eq(x.a[i], y.a[i]) <==>
          NaNFree(x.a[i]) && NaNFree(y.a[i]) && Denote(Aligned(x.a[i], y.a[i])) == Denote(Aligned(y.a[i], x.a[i]))
      {
        EqIsDenotation(x.a[i], y.a[i]);
      }
      ArraysDenote(x, y);
    } else if x.Obj? && y.Obj? {
      forall k | k in x.o && k in y.o
        ensures Eq(x.o[k], y.o[k]) <==>
          NaNFree(x.o[k]) && NaNFree(y.o[k]) && Denote(Aligned(x.o[k], y.o[k])) == Denote(Aligned(y.o[k], x.o[k]))
      {
        EqIsDenotation(x.o[k], y.o[k]);
      }
      ObjectsDenote(x, y);
    } else if x.Primitive() || y.Primitive() {
      PrimitiveMeaning(x, y);
    }
  }

  lemma ArrayDenotes(x: Value, y: Value)
    requires x.Arr? && y.Arr?
    ensures var d := Denote(Aligned(x, y));
            && d.List? && |d.elements| == |x.a|
            && forall i | 0 <= i < |x.a| && i < |y.a| :: d.elements[i] == Denote(Aligned(x.a[i], y.a[i]))
  {
    hide Denoted, Cast;
    var z := Aligned(x, y);
    assert z.Arr? && |z.a| == |x.a|;
    forall i | 0 <= i < |x.a| && i < |y.a| ensures z.a[i] == Aligned(x.a[i], y.a[i]) {}
  }

  lemma ArraysDenote(x: Value, y: Value)
    requires x.Arr? && y.Arr?
    ensures Denote(Aligned(x, y)) == Denote(Aligned(y, x)) <==>
      |x.a| == |y.a| && forall i | 0 <= i < |x.a| && i < |y.a| ::
        Denote(Aligned(x.a[i], y.a[i])) == Denote(Aligned(y.a[i], x.a[i]))
  {
    hide Denote, Aligned;
    ArrayDenotes(x, y);
    ArrayDenotes(y, x);
    var p, q := Denote(Aligned(x, y)).elements, Denote(Aligned(y, x)).elements;
    if |x.a| == |y.a| && forall i | 0 <= i < |x.a| && i < |y.a| ::
        Denote(Aligned(x.a[i], y.a[i])) == Denote(Aligned(y.a[i], x.a[i]))
    {
      assert forall i | 0 <= i < |p| :: p[i] == q[i];
      assert p == q;
    }
  }

  lemma ObjectDenotes(x: Value, y: Value)
    requires x.Obj? && y.Obj?
    ensures var d := Denote(Aligned(x, y));
            && d.Record? && d.members.Keys == x.o.Keys
            && forall k | k in x.o && k in y.o :: d.members[k] == Denote(Aligned(x.o[k], y.o[k]))
  {
    hide Denoted, Cast;
    var z := Aligned(x, y);
    assert z.Obj? && z.o.Keys == x.o.Keys;
    forall k | k in x.o && k in y.o ensures z.o[k] == Aligned(x.o[k], y.o[k]) {}
  }

  lemma ObjectsDenote(x: Value, y: Value)
    requires x.Obj? && y.Obj?
    ensures Denote(Aligned(x, y)) == Denote(Aligned(y, x)) <==>
      x.o.Keys == y.o.Keys && forall k | k in x.o && k in y.o ::
        Denote(Aligned(x.o[k], y.o[k])) == Denote(Aligned(y.o[k], x.o[k]))
  {
    hide Denote, Aligned;
    ObjectDenotes(x, y);
    ObjectDenotes(y, x);
    var p, q := Denote(Aligned(x, y)).members, Denote(Aligned(y, x)).members;
    if x.o.Keys == y.o.Keys && forall k | k in x.o && k in y.o ::
        Denote(Aligned(x.o[k], y.o[k])) == Denote(Aligned(y.o[k], x.o[k]))
    {
      assert forall k | k in p :: p[k] == q[k];
      assert p == q;
    }
  }

  // ---------- without doubles ----------

  lemma {:induction false} AlignedAsIs(x: Value, y: Value)
    requires FloatFree(y)
    ensures Aligned(x, y) == x
    decreases x
  {
    match (x, y)
    case (Arr(p), Arr(q)) =>
      forall i | 0 <= i < |p| && i < |q| ensures Aligned(p[i], q[i]) == p[i] { AlignedAsIs(p[i], q[i]); }
    case (Obj(p), Obj(q)) =>
      forall k | k in p && k in q ensures Aligned(p[k], q[k]) == p[k] { AlignedAsIs(p[k], q[k]); }
      assert Aligned(x, y).o == p;
    case _ =>
  }

  lemma {:induction false} NoFloatNoNaN(v: Value)
    requires FloatFree(v)
    ensures NaNFree(v)
    decreases v
  {
    match v
    case Arr(a) => forall i | 0 <= i < |a| ensures NaNFree(a[i]) { NoFloatNoNaN(a[i]); }
    case Obj(o) => forall k | k in o ensures NaNFree(o[k]) { NoFloatNoNaN(o[k]); }
    case _ =>
  }

  /** Without doubles, values are equal exactly when they denote the same. */
  lemma EqWithoutDoubles(x: Value, y: Value)
    requires FloatFree(x) && FloatFree(y)
    ensures Eq(x, y) <==> Denote(x) == Denote(y)
  {
    hide Eq, FloatFree, NaNFree, Aligned, Denote;
    EqIsDenotation(x, y);
    AlignedAsIs(x, y);
    AlignedAsIs(y, x);
    NoFloatNoNaN(x);
    NoFloatNoNaN(y);
  }
}
