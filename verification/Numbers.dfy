/** `get_number`: the value of a number token. */
module Numbers {
  import opened Bytes
  import opened Decimal
  import opened Tokens
  import opened Values

  const MAX_NEGATIVE: int := 0x8000_0000_0000_0000

  function Digits(text: Str): Str { if text != [] && text[0] == MINUS then text[1..] else text }

  function Limit(text: Str): uint64 { if text != [] && text[0] == MINUS then MAX_NEGATIVE else UINT64_MAX }

  /** An integer literal whose magnitude fits the type its sign selects. */
  predicate FitsInteger(text: Str) { AllDigits(Digits(text)) && FromDigits(Digits(text)) <= Limit(text) }

  /** Integers exactly, as far as 64 bits reach; all else through `strtod`. */
  function NumberValue(strtod: Str -> uint64, text: Str): Value {
    if FitsInteger(text) then
      if text != [] && text[0] == MINUS then Int(0 - FromDigits(text[1..])) else UInt(FromDigits(text))
    else FloatValue(strtod(text))
  }

  lemma {:induction false} DigitsBound(u: Str, k: nat)
    requires k <= |u| && forall i | 0 <= i < |u| :: IsDigit(u[i])
    ensures FromDigits(u[..k]) <= FromDigits(u)
    decreases |u| - k
  {
    if k < |u| {
      assert u[..k + 1][..k] == u[..k];
      DigitsBound(u, k + 1);
    } else {
      assert u[..k] == u;
    }
  }

  lemma {:induction false} AllAreDigits(u: Str)
    ensures AllDigits(u) <==> forall i | 0 <= i < |u| :: IsDigit(u[i])
  {
    if u != [] {
      AllAreDigits(u[1..]);
      if IsDigit(u[0]) {
        forall i | 0 <= i < |u| && AllDigits(u) ensures IsDigit(u[i]) { if i > 0 { assert u[i] == u[1..][i - 1]; } }
        assert forall i | 0 <= i < |u| - 1 :: u[1..][i] == u[i + 1];
      }
    }
  }

  lemma OneMoreDigit(u: Str, k: nat)
    requires k < |u| && forall i | 0 <= i <= k :: IsDigit(u[i])
    ensures FromDigits(u[..k + 1]) == 10 * FromDigits(u[..k]) + (u[k] as int - 48)
  {
    assert u[..k + 1][..k] == u[..k];
  }

  /** The exact value of the first `k` digits. */
  ghost predicate Counted(u: Str, k: nat, max: uint64, value: uint64) {
    k <= |u| && (forall i | 0 <= i < k :: IsDigit(u[i])) && value == FromDigits(u[..k]) && value <= max
  }

  /** The literal is no integer in range. */
  predicate Inexact(u: Str, max: uint64) { !(AllDigits(u) && FromDigits(u) <= max) }

  /** The rearranged test decides, without overflow, whether one more digit still fits. */
  lemma CountDigit(u: Str, k: nat, max: uint64, value: uint64)
    requires k < |u| && IsDigit(u[k]) && Counted(u, k, max, value) && max >= 9
    ensures var digit := u[k] as int - 48;
            if value > (max - digit) / 10 then Inexact(u, max)
            else value * 10 + digit <= max && Counted(u, k + 1, max, value * 10 + digit)
  {
    hide FromDigits, AllDigits;
    OneMoreDigit(u, k);
    AllAreDigits(u);
    if AllDigits(u) { DigitsBound(u, k + 1); }
  }

  lemma CountedAll(u: Str, k: nat, max: uint64, value: uint64)
    requires Counted(u, k, max, value) && k == |u|
    ensures AllDigits(u) && value == FromDigits(u) <= max && !Inexact(u, max)
  {
    AllAreDigits(u);
    assert u[..k] == u;
  }

  lemma NotADigit(u: Str, k: nat, max: uint64)
    requires k < |u| && !IsDigit(u[k])
    ensures Inexact(u, max)
  {
    AllAreDigits(u);
  }

  method GetNumber(strtod: Str -> uint64, text: Str) returns (result: Value)
    requires text != []
    ensures result == NumberValue(strtod, text)
  {
    hide FromDigits, AllDigits, Counted, Inexact;
    var curptr := 0;
    var value: uint64 := 0;
    var max: uint64;
    var kind: Kind;
    if text[0] == MINUS {
      kind, max, curptr := KInt, INT64_MAX + 1, 1;
    } else {
      kind, max := KUInt, UINT64_MAX;
    }
    ghost var u, sign := Digits(text), curptr;
    CountNothing(u, max);
    while curptr < |text|
      invariant sign <= curptr <= |text| && kind in {if sign == 1 then KInt else KUInt, KFloat}
      invariant if kind == KFloat then Inexact(u, max) else Counted(u, curptr - sign, max, value)
    {
      var c := text[curptr];
      assert c == u[curptr - sign];
      if !IsDigit(c) {
        NotADigit(u, curptr - sign, max);
        kind := KFloat;
        if c == DOT {
          curptr := curptr + 1;
          continue;
        }
        break;
      }
      if kind != KFloat {
        CountDigit(u, curptr - sign, max, value);
        var digit := c as int - 48;
        if value > (max - digit) / 10 {
          kind := KFloat;
        } else {
          value := value * 10 + digit;
        }
      }
      curptr := curptr + 1;
    }
    if kind == KUInt {
      CountedAll(u, curptr - sign, max, value);
      result := UInt(value);
    } else if kind == KInt {
      CountedAll(u, curptr - sign, max, value);
      result := Int(if value == max then INT64_MIN else 0 - value);
    } else {
      InexactFits(text);
      var float := strtod(text);
      result := if IsFinite(float) then Float(float) else Null;
    }
  }

  lemma CountNothing(u: Str, max: uint64)
    ensures Counted(u, 0, max, 0)
  {
  }

  lemma InexactFits(text: Str)
    ensures Inexact(Digits(text), Limit(text)) <==> !FitsInteger(text)
  {
  }

  // ---------- integers written and read ----------

  /** Decimal text is a number token, and read back exactly. */
  lemma NumberValueOfDec(strtod: Str -> uint64, n: nat)
    ensures IsNumber(Dec(n)) && IsNumber([MINUS] + Dec(n))
    ensures n <= UINT64_MAX ==> NumberValue(strtod, Dec(n)) == UInt(n)
    ensures 0 < n <= MAX_NEGATIVE ==> NumberValue(strtod, [MINUS] + Dec(n)) == Int(0 - n)
  {
    hide FromDigits, Dec, IsFraction;
    var d := Dec(n);
    AllAreDigits(d);
    FromDigitsDec(n);
    DecLeadingDigit(n);
    assert IsDigit(d[0]);
    assert ([MINUS] + d)[1..] == d;
    NoFraction();
    assert d[|d|..] == [];
  }

  lemma NoFraction()
    ensures IsFraction([])
  {
  }

  // ---------- every number token ----------

  lemma NothingBehindZero(u: Str)
    requires IsUnsigned(u) && AllDigits(u)
    ensures u != [] && (u[0] == ZERO ==> |u| == 1)
  {
    if u[0] == ZERO && |u| > 1 {
      AllAreDigits(u);
      assert IsDigit(u[1]);
      DigitBehindZero(u[1..]);
    }
  }

  lemma DigitBehindZero(t: Str)
    requires t != [] && IsDigit(t[0])
    ensures !IsFraction(t)
  {
  }

  lemma DigitsAreDec(u: Str)
    requires IsUnsigned(u)
    ensures AllDigits(u) <==> exists n :: u == Dec(n)
    ensures AllDigits(u) ==> u == Dec(FromDigits(u))
  {
    hide Dec, FromDigits, IsUnsigned;
    AllAreDigits(u);
    if AllDigits(u) {
      NothingBehindZero(u);
      DecOfDigits(u);
    }
  }

  /** The text is that of a natural number, of a negative one, or of neither. */
  ghost predicate Natural(text: Str) { exists n :: text == Dec(n) }

  ghost predicate Negated(text: Str) { exists n :: text == [MINUS] + Dec(n) }

  /**
   * What each number token is read as: an integer exactly where its text is that of an integer of 64 bits; in every
   * other case what `strtod` makes of the whole token, its sign included.
   */
  lemma NumberIs(strtod: Str -> uint64, text: Str, n: nat)
    requires IsNumber(text)
    ensures text == Dec(n) ==>
      NumberValue(strtod, text) == if n <= UINT64_MAX then UInt(n) else FloatValue(strtod(text))
    ensures text == [MINUS] + Dec(n) ==>
      NumberValue(strtod, text) == if n <= 0x8000_0000_0000_0000 then Int(0 - n) else FloatValue(strtod(text))
    ensures !Natural(text) && !Negated(text) ==> NumberValue(strtod, text) == FloatValue(strtod(text))
  {
    hide Dec, FromDigits, IsUnsigned, DigitRun, FloatValue;
    var u := Digits(text);
    DigitsAreDec(u);
    FromDigitsDec(n);
    DecLeadingDigit(n);
    assert IsDigit(Dec(n)[0]);
    if text[0] == MINUS { assert text == [MINUS] + text[1..]; }
    assert ([MINUS] + Dec(n))[1..] == Dec(n);
  }
}
