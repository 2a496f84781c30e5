/** The JSON value `basic_json` and its own equality. */
module Values {
  import opened Bytes

  const INT64_MIN: int := -0x8000_0000_0000_0000
  const INT64_MAX: int := 0x7fff_ffff_ffff_ffff
  const UINT64_MAX: int := 0xffff_ffff_ffff_ffff
  const TWO_TO_THE_64: int := 0x1_0000_0000_0000_0000

  type int64 = x: int | INT64_MIN <= x <= INT64_MAX
  type uint64 = x: int | 0 <= x <= UINT64_MAX

  /** `Float` holds the 64 bits of an IEEE 754 binary64 number; `Obj` is a `std::map`. */
  datatype Value =
    | Null
    | Bool(b: bool)
    | Int(i: int64)
    | UInt(u: uint64)
    | Float(bits: uint64)
    | Text(s: Str)
    | Arr(a: seq<Value>)
    | Obj(o: map<Str, Value>)
  {
    predicate Primitive() { !Arr? && !Obj? }
  }

  /** The enumeration `value_t`. */
  datatype Kind = KNull | KBool | KInt | KUInt | KFloat | KText | KArr | KObj

  function KindOf(v: Value): Kind {
    match v
    case Null => KNull
    case Bool(_) => KBool
    case Int(_) => KInt
    case UInt(_) => KUInt
    case Float(_) => KFloat
    case Text(_) => KText
    case Arr(_) => KArr
    case Obj(_) => KObj
  }

  // ---------- doubles as bit patterns ----------

  const SIGN_BIT: int := 0x8000_0000_0000_0000
  const MANTISSA: int := 0x10_0000_0000_0000
  const INFINITE: int := 0x7ff0_0000_0000_0000

  function Magnitude(bits: uint64): int { bits % SIGN_BIT }

  predicate NotANumber(bits: uint64) { Magnitude(bits) > INFINITE }

  /** Neither infinite nor NaN. */
  predicate IsFinite(bits: uint64) { Magnitude(bits) < INFINITE }

  /** The constructor from a floating-point number: what is not finite becomes null. */
  function FloatValue(bits: uint64): Value { if IsFinite(bits) then Float(bits) else Null }

  predicate IsZero(bits: uint64) { Magnitude(bits) == 0 }

  /** IEEE 754 equality: no NaN equals anything, the two zeros are equal. */
  predicate FloatEq(x: uint64, y: uint64) {
    !NotANumber(x) && !NotANumber(y) && (x == y || (IsZero(x) && IsZero(y)))
  }

  function Pow2(e: nat): (p: nat)
    ensures p > 0
  {
    if e == 0 then 1 else 2 * Pow2(e - 1)
  }

  /** How many bits of `n` do not fit into the 53 bits of a double's significand. */
  function ExcessBits(n: nat): nat {
    if n < 2 * MANTISSA then 0 else 1 + ExcessBits(n / 2)
  }

  /** The value of `static_cast<double>(n)`: round to nearest, ties to even. */
  function RoundToDouble(n: nat): nat {
    var p := Pow2(ExcessBits(n));
    var q, r := n / p, n % p;
    (if 2 * r > p || (2 * r == p && q % 2 == 1) then q + 1 else q) * p
  }

  /** Whether `static_cast<double>(n)` equals the double with these bits. */
  predicate IntEqFloat(n: int, bits: uint64) {
    var exponent, fraction := Magnitude(bits) / MANTISSA, Magnitude(bits) % MANTISSA;
    var significand := if exponent == 0 then fraction else fraction + MANTISSA;
    var scale := if exponent == 0 then 1 else exponent;
    var rounded := RoundToDouble(if n < 0 then -n else n);
    && exponent < 2047
    && (n == 0 || (n < 0 <==> bits >= SIGN_BIT))
    && if scale >= 1075 then rounded == significand * Pow2(scale - 1075)
       else rounded * Pow2(1075 - scale) == significand
  }

  /** `static_cast<int64_t>` of an unsigned number: two's complement wrap. */
  function ToSigned(u: uint64): int64 {
    if u > INT64_MAX then u - TWO_TO_THE_64 else u
  }

  // ---------- operator== ----------

  predicate Eq(x: Value, y: Value)
    decreases x
  {
    match (x, y)
    case (Null, Null) => true
    case (Bool(p), Bool(q)) => p == q
    case (Int(p), Int(q)) => p == q
    case (UInt(p), UInt(q)) => p == q
    case (Float(p), Float(q)) => FloatEq(p, q)
    case (Text(p), Text(q)) => p == q
    case (Arr(p), Arr(q)) => |p| == |q| && forall i | 0 <= i < |p| :: Eq(p[i], q[i])
    case (Obj(p), Obj(q)) => p.Keys == q.Keys && forall k | k in p :: Eq(p[k], q[k])
    case (Int(p), Float(q)) => IntEqFloat(p, q)
    case (Float(p), Int(q)) => IntEqFloat(q, p)
    case (UInt(p), Float(q)) => IntEqFloat(p, q)
    case (Float(p), UInt(q)) => IntEqFloat(q, p)
    case (UInt(p), Int(q)) => ToSigned(p) == q
    case (Int(p), UInt(q)) => p == ToSigned(q)
    case _ => false
  }

  /** Free of NaN at every depth. */
  predicate NaNFree(v: Value)
    decreases v
  {
    match v
    case Float(bits) => !NotANumber(bits)
    case Arr(a) => forall i | 0 <= i < |a| :: NaNFree(a[i])
    case Obj(o) => forall k | k in o :: NaNFree(o[k])
    case _ => true
  }

  /** A value equals itself exactly when it holds no NaN. */
  lemma {:induction false} EqReflexive(v: Value)
    ensures Eq(v, v) <==> NaNFree(v)
    decreases v
  {
    match v
    case Arr(a) =>
      forall i | 0 <= i < |a| ensures Eq(a[i], a[i]) <==> NaNFree(a[i]) { EqReflexive(a[i]); }
    case Obj(o) =>
      forall k | k in o ensures Eq(o[k], o[k]) <==> NaNFree(o[k]) { EqReflexive(o[k]); }
    case _ =>
  }

  /** Nothing equals a value that holds a NaN. */
  lemma {:induction false} EqNeedsNaNFree(x: Value, y: Value)
    requires Eq(x, y)
    ensures NaNFree(x) && NaNFree(y)
    decreases x
  {
    match (x, y)
    case (Arr(p), Arr(q)) =>
      forall i | 0 <= i < |p| ensures NaNFree(p[i]) && NaNFree(q[i]) { EqNeedsNaNFree(p[i], q[i]); }
    case (Obj(p), Obj(q)) =>
      forall k | k in p ensures NaNFree(p[k]) && NaNFree(q[k]) { EqNeedsNaNFree(p[k], q[k]); }
    case _ =>
  }

  lemma {:induction false} EqSymmetric(x: Value, y: Value)
    ensures Eq(x, y) ==> Eq(y, x)
    decreases x
  {
    match (x, y)
    case (Arr(p), Arr(q)) =>
      forall i | 0 <= i < |p| && i < |q| ensures Eq(p[i], q[i]) ==> Eq(q[i], p[i]) { EqSymmetric(p[i], q[i]); }
    case (Obj(p), Obj(q)) =>
      forall k | k in p && k in q ensures Eq(p[k], q[k]) ==> Eq(q[k], p[k]) { EqSymmetric(p[k], q[k]); }
    case _ =>
  }

  /** Free of doubles at every depth. */
  predicate FloatFree(j: Value)
    decreases j
  {
    match j
    case Float(_) => false
    case Arr(a) => forall i | 0 <= i < |a| :: FloatFree(a[i])
    case Obj(o) => forall k | k in o :: FloatFree(o[k])
    case _ => true
  }

  // ---------- what survives serialisation ----------

  /** Free of infinities and NaN at every depth. */
  predicate AllFinite(v: Value)
    decreases v
  {
    match v
    case Float(bits) => IsFinite(bits)
    case Arr(a) => forall i | 0 <= i < |a| :: AllFinite(a[i])
    case Obj(o) => forall k | k in o :: AllFinite(o[k])
    case _ => true
  }

  /** Non-negative signed integers read back as unsigned ones, infinities and NaN as null; all else unchanged. */
  function Norm(v: Value): Value
    decreases v
  {
    match v
    case Int(i) => if i >= 0 then UInt(i) else v
    case Float(bits) => FloatValue(bits)
    case Arr(a) => Arr(seq(|a|, i requires 0 <= i < |a| => Norm(a[i])))
    case Obj(o) => Obj(map k | k in o :: Norm(o[k]))
    case _ => v
  }

  lemma {:induction false} NormIsEq(v: Value)
    ensures Eq(Norm(v), v) <==> AllFinite(v)
    decreases v
  {
    match v
    case Arr(a) =>
      forall i | 0 <= i < |a| ensures Eq(Norm(a[i]), a[i]) <==> AllFinite(a[i]) { NormIsEq(a[i]); }
    case Obj(o) =>
      forall k | k in o ensures Eq(Norm(o[k]), o[k]) <==> AllFinite(o[k]) { NormIsEq(o[k]); }
    case _ =>
  }

  function NormItems(a: seq<Value>): seq<Value> { seq(|a|, i requires 0 <= i < |a| => Norm(a[i])) }

  function NormMembers(o: map<Str, Value>, ks: seq<Str>): map<Str, Value>
    requires forall k | k in ks :: k in o
  {
    map k | k in ks :: Norm(o[k])
  }

  lemma NormMembersCons(o: map<Str, Value>, ks: seq<Str>, acc: map<Str, Value>)
    requires ks != [] && Ascending(ks) && forall k | k in ks :: k in o
    ensures acc[ks[0] := Norm(o[ks[0]])] + NormMembers(o, ks[1..]) == acc + NormMembers(o, ks)
    ensures Ascending(ks[1..])
  {
    hide Norm;
    assert forall k :: k in ks <==> k == ks[0] || k in ks[1..];
  }

  lemma NormOfObject(o: map<Str, Value>, ks: seq<Str>)
    requires forall k :: k in ks <==> k in o
    ensures Obj(map[] + NormMembers(o, ks)) == Norm(Obj(o))
  {
    assert map[] + NormMembers(o, ks) == (map k | k in o :: Norm(o[k]));
  }

  lemma NormNothing(o: map<Str, Value>, acc: map<Str, Value>)
    ensures acc + NormMembers(o, []) == acc
  {
  }

  /** The cast to a signed number makes equality wider than numeric equality. */
  lemma WrappedIntegersAreEqual(u: uint64, i: int64)
    ensures Eq(UInt(u), Int(i)) <==> (u - i) % TWO_TO_THE_64 == 0
  {
  }
}
