/** The texts of numbers (RFC 7159, section 6) by the rules of their grammar. */
module NumberText {
  import opened Bytes
  import opened Decimal
  import opened Tokens
  import opened Numbers

  predicate SomeDigits(d: Str) { d != [] && forall i | 0 <= i < |d| :: 0x30 <= d[i] <= 0x39 }

  /** int = zero / ( digit1-9 *DIGIT ) */
  predicate IntPart(d: Str) { d == [0x30] || (SomeDigits(d) && d[0] != 0x30) }

  /** frac = decimal-point 1*DIGIT */
  predicate FracPart(f: Str) { f == [] || (f[0] == 0x2e && SomeDigits(f[1..])) }

  /** exp = e [ minus / plus ] 1*DIGIT */
  predicate ExpPart(e: Str) {
    || e == []
    || (e[0] in {0x65, 0x45} && (SomeDigits(e[1..]) || (|e| > 1 && e[1] in {0x2b, 0x2d} && SomeDigits(e[2..]))))
  }

  /** number = [ minus ] int [ frac ] [ exp ], divided at `a`, `b` and `c`. */
  predicate Divided(t: Str, a: nat, b: nat, c: nat) {
    && a <= b <= c <= |t|
    && (a == 0 || (a == 1 && t[0] == 0x2d))
    && IntPart(t[a..b])
    && FracPart(t[b..c])
    && ExpPart(t[c..])
  }

  lemma DigitsAre(d: Str)
    ensures SomeDigits(d) <==> d != [] && AllDigits(d)
  {
    AllAreDigits(d);
  }

  lemma RunIs(t: Str)
    ensures var n := DigitRun(t); n > 0 ==> SomeDigits(t[..n])
  {
  }

  lemma ExponentIs(e: Str)
    ensures IsExponent(e) <==> ExpPart(e)
  {
    hide DigitRun;
    if e != [] {
      DigitsAre(e[1..]);
      if |e| > 1 {
        assert e[1..][1..] == e[2..] && e[1..][0] == e[1];
        DigitsAre(e[2..]);
      }
    }
  }

  lemma ExponentStart(e: Str)
    requires ExpPart(e) && e != []
    ensures !IsDigit(e[0]) && e[0] != DOT
  {
  }

  lemma FractionStart(f: Str)
    requires FracPart(f) && f != []
    ensures !IsDigit(f[0]) && f[0] == DOT
  {
  }

  /** A fraction and an exponent, wherever they are divided. */
  lemma FractionIs(f: Str, e: Str)
    requires FracPart(f) && ExpPart(e)
    ensures IsFraction(f + e) && (f + e == [] || !IsDigit((f + e)[0]))
  {
    hide DigitRun, ExpPart;
    ExponentIs(e);
    if e != [] { ExponentStart(e); }
    if f == [] {
      assert f + e == e;
    } else {
      var d := f[1..];
      assert (f + e)[1..] == d + e;
      RunOfDigits(d, e);
      assert (d + e)[|d|..] == e;
    }
  }

  lemma FractionDivides(t: Str) returns (k: nat)
    requires IsFraction(t)
    ensures k <= |t| && FracPart(t[..k]) && ExpPart(t[k..])
  {
    hide DigitRun, IsExponent, ExpPart;
    if t != [] && t[0] == DOT {
      var n := DigitRun(t[1..]);
      k := 1 + n;
      RunIs(t[1..]);
      assert t[..k][1..] == t[1..][..n] && t[1..][n..] == t[k..];
      ExponentIs(t[k..]);
    } else {
      k := 0;
      assert t[0..] == t;
      ExponentIs(t);
    }
  }

  lemma IntLength(d: Str, rest: Str)
    requires IntPart(d) && (rest == [] || !IsDigit(rest[0]))
    ensures var t := d + rest; t != [] && IsDigit(t[0]) && t[if t[0] == ZERO then 1 else DigitRun(t)..] == rest
  {
    RunOfDigits(d, rest);
  }

  lemma IntDivides(t: Str) returns (k: nat)
    requires t != [] && IsDigit(t[0])
    ensures k == if t[0] == ZERO then 1 else DigitRun(t)
    ensures k <= |t| && IntPart(t[..k])
  {
    k := if t[0] == ZERO then 1 else DigitRun(t);
    RunIs(t);
    if t[0] == ZERO { assert t[..1] == [0x30]; }
  }

  lemma DividedIsNumber(t: Str, a: nat, b: nat, c: nat)
    requires Divided(t, a, b, c)
    ensures IsNumber(t)
  {
    hide DigitRun, IsFraction, IntPart, FracPart, ExpPart;
    var d, rest := t[a..b], t[b..c] + t[c..];
    FractionIs(t[b..c], t[c..]);
    IntLength(d, rest);
    assert t[a..] == d + rest;
    assert a == 0 ==> t[0..] == t;
    assert t[a] == (d + rest)[0];
  }

  lemma NumberDivides(t: Str) returns (a: nat, b: nat, c: nat)
    requires IsNumber(t)
    ensures Divided(t, a, b, c)
  {
    hide DigitRun, IsFraction, IntPart, FracPart, ExpPart;
    a := if t != [] && t[0] == MINUS then 1 else 0;
    var u := t[a..];
    assert a == 0 ==> u == t;
    var k := IntDivides(u);
    var m := FractionDivides(u[k..]);
    b, c := a + k, a + k + m;
    Shifted(t, a, k, m);
  }

  lemma Shifted(t: Str, a: nat, k: nat, m: nat)
    requires a + k + m <= |t|
    ensures var u := t[a..];
            t[a..a + k] == u[..k] && t[a + k..a + k + m] == u[k..][..m] && t[a + k + m..] == u[k..][m..]
  {
  }

  /** A text is a number exactly if it is made up of the parts of the grammar. */
  lemma NumberIsDivided(t: Str)
    ensures IsNumber(t) <==> exists a: nat, b: nat, c: nat :: Divided(t, a, b, c)
  {
    hide IsNumber, Divided;
    if IsNumber(t) { var a, b, c := NumberDivides(t); }
    if a: nat, b: nat, c: nat :| Divided(t, a, b, c) { DividedIsNumber(t, a, b, c); }
  }
}
