/** Unicode scalar values and their UTF-8 form (RFC 3629), read from the left by byte ranges. */
module Unicode {
  import opened Bytes

  const QUOTE: byte := 0x22
  const BACKSLASH: byte := 0x5c
  const LETTER_U: byte := 0x75

  predicate IsScalar(cp: nat) { cp < 0xD800 || 0xE000 <= cp <= 0x10FFFF }

  /** The UTF-8 form of a scalar value (RFC 3629, section 3). */
  function Utf8(cp: nat): (u: Str)
    requires cp <= 0x10FFFF
    ensures 1 <= |u| <= 4
  {
    if cp < 0x80 then [cp]
    else if cp <= 0x7ff then [0xC0 + cp / 64, 0x80 + cp % 64]
    else if cp <= 0xffff then [0xE0 + cp / 4096, 0x80 + cp / 64 % 64, 0x80 + cp % 64]
    else [0xF0 + cp / 262144, 0x80 + cp / 4096 % 64, 0x80 + cp / 64 % 64, 0x80 + cp % 64]
  }

  predicate IsTail(b: byte) { 0x80 <= b <= 0xBF }

  /** The length of the well-formed sequence at the head of `s`, zero if there is none (RFC 3629, section 4). */
  function Utf8Length(s: Str): (n: nat)
    ensures n <= |s| && n <= 4
  {
    if s == [] then 0
    else if s[0] <= 0x7F then 1
    else if 0xC2 <= s[0] <= 0xDF then if |s| >= 2 && IsTail(s[1]) then 2 else 0
    else if 0xE0 <= s[0] <= 0xEF then
      if |s| >= 3 && IsTail(s[1]) && IsTail(s[2])
         && (s[0] == 0xE0 ==> s[1] >= 0xA0) && (s[0] == 0xED ==> s[1] <= 0x9F) then 3 else 0
    else if 0xF0 <= s[0] <= 0xF4 then
      if |s| >= 4 && IsTail(s[1]) && IsTail(s[2]) && IsTail(s[3])
         && (s[0] == 0xF0 ==> s[1] >= 0x90) && (s[0] == 0xF4 ==> s[1] <= 0x8F) then 4 else 0
    else 0
  }

  /** The scalar value at the head of `s`. */
  function ScalarAt(s: Str): (cp: nat)
    requires Utf8Length(s) > 0
    ensures IsScalar(cp)
  {
    var n := Utf8Length(s);
    if n == 1 then s[0]
    else if n == 2 then (s[0] as int - 0xC0) * 64 + (s[1] - 0x80)
    else if n == 3 then (s[0] as int - 0xE0) * 4096 + (s[1] as int - 0x80) * 64 + (s[2] - 0x80)
    else (s[0] as int - 0xF0) * 262144 + (s[1] as int - 0x80) * 4096 + (s[2] as int - 0x80) * 64 + (s[3] - 0x80)
  }

  lemma TwoDigits(x: nat, y: nat)
    requires y < 64
    ensures (x * 64 + y) / 64 == x && (x * 64 + y) % 64 == y
  {
  }

  lemma ThreeDigits(x: nat, y: nat, z: nat)
    requires y < 64 && z < 64
    ensures var n := x * 4096 + y * 64 + z; n / 4096 == x && n / 64 % 64 == y && n % 64 == z
  {
    var n := x * 4096 + y * 64 + z;
    assert n / 64 == x * 64 + y;
  }

  lemma FourDigits(w: nat, x: nat, y: nat, z: nat)
    requires x < 64 && y < 64 && z < 64
    ensures var n := w * 262144 + x * 4096 + y * 64 + z;
            n / 262144 == w && n / 4096 % 64 == x && n / 64 % 64 == y && n % 64 == z
  {
    var n := w * 262144 + x * 4096 + y * 64 + z;
    assert n / 64 == w * 4096 + x * 64 + y;
    assert n / 4096 == w * 64 + x;
  }

  lemma FormOfThree(s: Str)
    requires Utf8Length(s) == 3
    ensures Utf8(ScalarAt(s)) == s[..3]
  {
    ThreeDigits(s[0] as int - 0xE0, s[1] as int - 0x80, s[2] as int - 0x80);
    assert 0x800 <= ScalarAt(s) <= 0xffff;
  }

  lemma FormOfFour(s: Str)
    requires Utf8Length(s) == 4
    ensures Utf8(ScalarAt(s)) == s[..4]
  {
    FourDigits(s[0] as int - 0xF0, s[1] as int - 0x80, s[2] as int - 0x80, s[3] as int - 0x80);
    assert 0x10000 <= ScalarAt(s);
  }

  /** Every sequence the ranges of section 4 admit is the form of its scalar value by section 3. */
  lemma Utf8OfScalarAt(s: Str)
    requires Utf8Length(s) > 0
    ensures Utf8(ScalarAt(s)) == s[..Utf8Length(s)]
  {
    var n := Utf8Length(s);
    if n == 3 {
      FormOfThree(s);
    } else if n == 4 {
      FormOfFour(s);
    } else if n == 2 {
      TwoDigits(s[0] as int - 0xC0, s[1] as int - 0x80);
    }
  }

  lemma AdmitsTwo(s: Str, cp: nat)
    requires 0x80 <= cp < 0x800 && |s| >= 2 && s[0] == 0xC0 + cp / 64 && s[1] == 0x80 + cp % 64
    ensures Utf8Length(s) == 2 && ScalarAt(s) == cp
  {
  }

  lemma AdmitsThree(s: Str, cp: nat)
    requires 0x800 <= cp < 0x10000 && IsScalar(cp) && |s| >= 3
    requires s[0] == 0xE0 + cp / 4096 && s[1] == 0x80 + cp / 64 % 64 && s[2] == 0x80 + cp % 64
    ensures Utf8Length(s) == 3 && ScalarAt(s) == cp
  {
    var x, y, z := cp / 4096, cp / 64 % 64, cp % 64;
    assert cp == x * 4096 + y * 64 + z;
  }

  lemma AdmitsFour(s: Str, w: nat, x: nat, y: nat, z: nat)
    requires x < 64 && y < 64 && z < 64 && |s| >= 4
    requires 0x10000 <= w * 262144 + x * 4096 + y * 64 + z <= 0x10FFFF
    requires s[0] == 0xF0 + w && s[1] == 0x80 + x && s[2] == 0x80 + y && s[3] == 0x80 + z
    ensures Utf8Length(s) == 4 && ScalarAt(s) == w * 262144 + x * 4096 + y * 64 + z
  {
  }

  lemma FourParts(cp: nat)
    ensures cp == cp / 262144 * 262144 + cp / 4096 % 64 * 4096 + cp / 64 % 64 * 64 + cp % 64
  {
    var a, b := cp / 64, cp / 4096;
    assert b == a / 64 && cp / 262144 == b / 64;
    assert cp == a * 64 + cp % 64 && a == b * 64 + a % 64 && b == b / 64 * 64 + b % 64;
  }

  lemma HeadOf(u: Str, rest: Str)
    ensures |u + rest| >= |u| && forall i | 0 <= i < |u| :: (u + rest)[i] == u[i]
  {
  }

  /** And the ranges admit the form of every scalar value, whatever follows. */
  lemma Utf8LengthOfUtf8(cp: nat, rest: Str)
    requires IsScalar(cp)
    ensures Utf8Length(Utf8(cp) + rest) == |Utf8(cp)|
    ensures ScalarAt(Utf8(cp) + rest) == cp
  {
    hide Utf8Length, ScalarAt;
    HeadOf(Utf8(cp), rest);
    var s := Utf8(cp) + rest;
    if cp >= 0x10000 {
      FourParts(cp);
      AdmitsFour(s, cp / 262144, cp / 4096 % 64, cp / 64 % 64, cp % 64);
    } else if cp >= 0x800 {
      AdmitsThree(s, cp);
    } else if cp >= 0x80 {
      AdmitsTwo(s, cp);
    } else {
      AdmitsOne(s, cp);
    }
  }

  lemma AdmitsOne(s: Str, cp: nat)
    requires cp < 0x80 && |s| >= 1 && s[0] == cp
    ensures Utf8Length(s) == 1 && ScalarAt(s) == cp
  {
  }
}
