/** Decimal text of integers: `std::to_string` and `std::stoi`. */
module Decimal {
  import opened Bytes
  import opened Results

  const ZERO: byte := 48
  const MINUS: byte := 45
  const PLUS: byte := 43
  const INT_MAX: int := 0x7fff_ffff
  const INT_MIN: int := -0x8000_0000

  predicate IsDigit(c: byte) { 48 <= c <= 57 }

  /** `std::isspace` in the "C" locale. */
  predicate IsSpace(c: byte) { c == 32 || 9 <= c <= 13 }

  /** `std::to_string` of a non-negative number. */
  function Dec(n: nat): (s: Str)
    ensures s != []
    ensures forall i | 0 <= i < |s| :: IsDigit(s[i])
  {
    if n < 10 then [48 + n] else Dec(n / 10) + [48 + n % 10]
  }

  function FromDigits(s: Str): nat
    requires forall i | 0 <= i < |s| :: IsDigit(s[i])
  {
    if s == [] then 0
    else
      assert IsDigit(s[|s| - 1]);
      10 * FromDigits(s[..|s| - 1]) + (s[|s| - 1] as int - 48)
  }

  lemma {:induction false} FromDigitsDec(n: nat)
    ensures FromDigits(Dec(n)) == n
  {
    if n >= 10 {
      FromDigitsDec(n / 10);
      assert Dec(n)[..|Dec(n)| - 1] == Dec(n / 10);
    } else {
      assert Dec(n)[..0] == [];
    }
  }

  function Pow10(k: nat): nat { if k == 0 then 1 else 10 * Pow10(k - 1) }

  /** Digits count by their place: the first one weighs most. */
  lemma {:induction false} FromDigitsCons(c: byte, s: Str)
    requires IsDigit(c) && forall i | 0 <= i < |s| :: IsDigit(s[i])
    ensures FromDigits([c] + s) == (c as int - 48) * Pow10(|s|) + FromDigits(s)
    decreases |s|
  {
    if s == [] {
      assert ([c] + s)[..0] == [];
    } else {
      var n := |s| - 1;
      assert ([c] + s)[..|s|] == [c] + s[..n];
      FromDigitsCons(c, s[..n]);
      assert 10 * ((c as int - 48) * Pow10(n)) == (c as int - 48) * (10 * Pow10(n));
    }
  }

  /** Only zero is written with a leading zero. */
  lemma {:induction false} DecLeadingDigit(n: nat)
    ensures Dec(n)[0] == ZERO <==> n == 0
    ensures n == 0 ==> Dec(n) == [ZERO]
  {
    if n >= 10 { DecLeadingDigit(n / 10); }
  }

  /** Digits without a leading zero are the text of their number. */
  lemma {:induction false} DecOfDigits(t: Str)
    requires t != [] && (forall i | 0 <= i < |t| :: IsDigit(t[i])) && (t[0] == ZERO ==> |t| == 1)
    ensures Dec(FromDigits(t)) == t
    decreases |t|
  {
    var front, d := t[..|t| - 1], t[|t| - 1];
    if |t| == 1 {
      assert front == [] && IsDigit(t[0]);
      assert t == [d];
    } else {
      assert front[0] == t[0];
      DecOfDigits(front);
      DecLeadingDigit(FromDigits(front));
      assert IsDigit(d);
      assert t == front + [d];
    }
  }

  lemma DecInjective(m: nat, n: nat)
    requires Dec(m) == Dec(n)
    ensures m == n
  {
    FromDigitsDec(m);
    FromDigitsDec(n);
  }

  function SkipSpace(s: Str): Str {
    if s != [] && IsSpace(s[0]) then SkipSpace(s[1..]) else s
  }

  /** How many digits `s` starts with. */
  function DigitRun(s: Str): (n: nat)
    ensures n <= |s| && forall i | 0 <= i < n :: IsDigit(s[i])
    ensures n < |s| ==> !IsDigit(s[n])
  {
    if s != [] && IsDigit(s[0]) then 1 + DigitRun(s[1..]) else 0
  }

  /** `std::stoi`: white space, an optional sign, digits; the rest is ignored. */
  function Stoi(s: Str): Result<int> {
    var t := SkipSpace(s);
    var u := if t != [] && t[0] in {PLUS, MINUS} then t[1..] else t;
    var n := DigitRun(u);
    if n == 0 then Err(InvalidArgument)
    else
      var m: int := FromDigits(u[..n]);
      var v := if t[0] == MINUS then -m else m;
      if INT_MIN <= v <= INT_MAX then Ok(v) else Err(OutOfRange)
  }

  /** White space, a sign and digits, whatever follows them: the number they spell, as far as an `int` reaches. */
  lemma {:induction false} StoiIs(w: Str, sign: Str, d: Str, rest: Str)
    requires forall i | 0 <= i < |w| :: w[i] in {0x09, 0x0a, 0x0b, 0x0c, 0x0d, 0x20}
    requires sign == [] || sign == [0x2b] || sign == [0x2d]
    requires d != [] && (forall i | 0 <= i < |d| :: 0x30 <= d[i] <= 0x39)
    requires rest == [] || !(0x30 <= rest[0] <= 0x39)
    ensures var n: int := if sign == [0x2d] then 0 - FromDigits(d) else FromDigits(d);
            Stoi(w + (sign + (d + rest))) == if INT_MIN <= n <= INT_MAX then Ok(n) else Err(OutOfRange)
    decreases |w|
  {
    hide FromDigits, DigitRun, Stoi;
    var t := sign + (d + rest);
    if w == [] {
      assert w + t == t;
      StoiAtOnce(sign, d, rest);
    } else {
      StoiIs(w[1..], sign, d, rest);
      StoiSkips(w[0], w[1..] + t);
      assert [w[0]] + (w[1..] + t) == w + t;
    }
  }

  lemma StoiSkips(c: byte, s: Str)
    requires c in {0x09, 0x0a, 0x0b, 0x0c, 0x0d, 0x20}
    ensures Stoi([c] + s) == Stoi(s)
  {
    hide FromDigits, DigitRun;
    assert ([c] + s)[1..] == s;
    assert SkipSpace([c] + s) == SkipSpace(s);
  }

  lemma StoiAtOnce(sign: Str, d: Str, rest: Str)
    requires sign == [] || sign == [0x2b] || sign == [0x2d]
    requires d != [] && (forall i | 0 <= i < |d| :: 0x30 <= d[i] <= 0x39)
    requires rest == [] || !(0x30 <= rest[0] <= 0x39)
    ensures var n: int := if sign == [0x2d] then 0 - FromDigits(d) else FromDigits(d);
            Stoi(sign + (d + rest)) == if INT_MIN <= n <= INT_MAX then Ok(n) else Err(OutOfRange)
  {
    hide FromDigits, DigitRun, Stoi;
    var u := d + rest;
    var t := sign + u;
    RunOfDigits(d, rest);
    Signed(sign, u);
    assert u[..|d|] == d && u[0] == d[0];
    StoiDigits(t, u, d);
  }

  lemma Signed(sign: Str, u: Str)
    requires (sign == [] || sign == [0x2b] || sign == [0x2d]) && u != [] && IsDigit(u[0])
    ensures var t := sign + u;
            && t != [] && SkipSpace(t) == t && u == (if t[0] in {PLUS, MINUS} then t[1..] else t)
            && (t[0] == MINUS <==> sign == [0x2d])
  {
    assert sign == [] ==> sign + u == u;
  }

  lemma StoiDigits(t: Str, u: Str, d: Str)
    requires t != [] && SkipSpace(t) == t && u == (if t[0] in {PLUS, MINUS} then t[1..] else t)
    requires d != [] && DigitRun(u) == |d| && u[..|d|] == d && forall i | 0 <= i < |d| :: IsDigit(d[i])
    ensures var n: int := if t[0] == MINUS then 0 - FromDigits(d) else FromDigits(d);
            Stoi(t) == if INT_MIN <= n <= INT_MAX then Ok(n) else Err(OutOfRange)
  {
    hide FromDigits, DigitRun;
  }

  lemma {:induction false} RunOfDigits(d: Str, rest: Str)
    requires (forall i | 0 <= i < |d| :: IsDigit(d[i])) && (rest == [] || !IsDigit(rest[0]))
    ensures DigitRun(d + rest) == |d|
  {
    if d == [] {
      assert d + rest == rest;
    } else {
      RunOfDigits(d[1..], rest);
      assert (d + rest)[1..] == d[1..] + rest;
    }
  }

  /** An index written by `to_string` is read back by `stoi` exactly when it fits an `int`. */
  lemma StoiOfDec(n: nat)
    ensures Stoi(Dec(n)) == if n <= INT_MAX then Ok(n) else Err(OutOfRange)
  {
    var s := Dec(n);
    assert IsDigit(s[0]);
    assert SkipSpace(s) == s;
    assert DigitRun(s) == |s|;
    assert s[..|s|] == s;
    FromDigitsDec(n);
  }
}
