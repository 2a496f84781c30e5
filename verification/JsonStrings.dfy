/** JSON strings (RFC 7159, section 7): their grammar, the characters they denote, and well-formed UTF-8. */
module JsonStrings {
  import opened Bytes
  import opened Results
  import opened Unicode

  // ---------- grammar (RFC 7159, section 7) ----------

  predicate IsHex(c: byte) { 48 <= c <= 57 || 65 <= c <= 70 || 97 <= c <= 102 }

  function HexDigit(c: byte): (n: nat)
    requires IsHex(c)
    ensures n < 16
  {
    if c <= 57 then c - 48 else if c <= 70 then c - 55 else c - 87
  }

  /** Four hexadecimal digits from position `i` on. */
  predicate Hex4At(s: Str, i: nat) {
    i + 4 <= |s| && IsHex(s[i]) && IsHex(s[i + 1]) && IsHex(s[i + 2]) && IsHex(s[i + 3])
  }

  function Hex4(s: Str, i: nat): (n: nat)
    requires Hex4At(s, i)
    ensures n < 0x1_0000
  {
    HexDigit(s[i]) * 4096 + HexDigit(s[i + 1]) * 256 + HexDigit(s[i + 2]) * 16 + HexDigit(s[i + 3])
  }

  /** The character a two-character escape stands for. */
  function SimpleEscape(c: byte): Option<byte> {
    if c == 0x22 || c == 0x5c || c == 0x2f then Some(c)
    else if c == 0x62 then Some(8)
    else if c == 0x66 then Some(12)
    else if c == 0x6e then Some(10)
    else if c == 0x72 then Some(13)
    else if c == 0x74 then Some(9)
    else None
  }

  /** One element of a string: an unescaped character or an escape. */
  ghost predicate IsUnit(u: Str) {
    || (exists cp :: IsScalar(cp) && cp >= 0x20 && cp != QUOTE && cp != BACKSLASH && u == Utf8(cp))
    || (|u| == 2 && u[0] == BACKSLASH && SimpleEscape(u[1]).Some?)
    || (|u| == 6 && u[0] == BACKSLASH && u[1] == LETTER_U && Hex4At(u, 2))
  }

  function Concat(us: seq<Str>): Str {
    if us == [] then [] else us[0] + Concat(us[1..])
  }

  /** What stands between the quotes of a JSON string. */
  ghost predicate IsBody(s: Str) {
    exists us: seq<Str> :: (forall i | 0 <= i < |us| :: IsUnit(us[i])) && s == Concat(us)
  }

  /** The length of the escape at the head of `s`, zero if there is none. */
  function EscapeLength(s: Str): (n: nat)
    ensures n == 0 || n == 2 || n == 6
    ensures n <= |s|
  {
    if |s| < 2 || s[0] != BACKSLASH then 0
    else if SimpleEscape(s[1]).Some? then 2
    else if s[1] == LETTER_U && Hex4At(s, 2) then 6
    else 0
  }

  /** The length of the element at the head of `s`, zero if there is none. */
  function UnitLength(s: Str): (n: nat)
    ensures n <= |s|
  {
    if s == [] then 0
    else if s[0] == BACKSLASH then EscapeLength(s)
    else if s[0] < 0x20 || s[0] == QUOTE then 0
    else Utf8Length(s)
  }

  predicate Body(s: Str) {
    s == [] || (UnitLength(s) > 0 && Body(s[UnitLength(s)..]))
  }

  lemma UnitAtHead(s: Str)
    requires UnitLength(s) > 0
    ensures IsUnit(s[..UnitLength(s)])
  {
    if s[0] != BACKSLASH {
      Utf8OfScalarAt(s);
      assert s[..Utf8Length(s)][0] == s[0];
      assert Utf8(ScalarAt(s))[0] == s[0];
    }
  }

  lemma UnitHasLength(u: Str, rest: Str)
    requires IsUnit(u)
    ensures u != [] && UnitLength(u + rest) == |u|
  {
    hide Utf8Length, ScalarAt;
    HeadOf(u, rest);
    if cp :| IsScalar(cp) && cp >= 0x20 && cp != QUOTE && cp != BACKSLASH && u == Utf8(cp) {
      Utf8LengthOfUtf8(cp, rest);
      if cp >= 0x80 { assert u[0] >= 0xC0; } else { assert u[0] == cp; }
    }
  }

  lemma {:induction false} ConcatIsBody(us: seq<Str>)
    requires forall i | 0 <= i < |us| :: IsUnit(us[i])
    ensures Body(Concat(us))
  {
    hide IsUnit, UnitLength;
    if us != [] {
      ConcatIsBody(us[1..]);
      UnitHasLength(us[0], Concat(us[1..]));
      assert (us[0] + Concat(us[1..]))[|us[0]|..] == Concat(us[1..]);
    }
  }

  lemma {:induction false} BodyHasUnits(s: Str) returns (us: seq<Str>)
    requires Body(s)
    ensures (forall i | 0 <= i < |us| :: IsUnit(us[i])) && s == Concat(us)
  {
    hide IsUnit, UnitLength;
    if s == [] {
      us := [];
    } else {
      UnitAtHead(s);
      var rest := BodyHasUnits(s[UnitLength(s)..]);
      us := [s[..UnitLength(s)]] + rest;
      assert us[1..] == rest;
    }
  }

  /** The deterministic reading from the left accepts exactly what the grammar derives. */
  lemma BodyIsGrammar(s: Str)
    ensures Body(s) <==> IsBody(s)
  {
    hide IsUnit, Body, Concat;
    if Body(s) { var us := BodyHasUnits(s); }
    if IsBody(s) {
      var us: seq<Str> :| (forall i | 0 <= i < |us| :: IsUnit(us[i])) && s == Concat(us);
      ConcatIsBody(us);
    }
  }

  // ---------- meaning ----------

  predicate IsHigh(cp: nat) { 0xD800 <= cp <= 0xDBFF }

  predicate IsLow(cp: nat) { 0xDC00 <= cp <= 0xDFFF }

  /** The scalar value of a surrogate pair (RFC 7159, section 7). */
  function Pair(high: nat, low: nat): (cp: nat)
    requires IsHigh(high) && IsLow(low)
    ensures 0x10000 <= cp <= 0x10FFFF
  {
    0x10000 + (high - 0xD800) * 0x400 + (low - 0xDC00)
  }

  ghost predicate AllScalars(cs: seq<nat>) { forall i | 0 <= i < |cs| :: IsScalar(cs[i]) }

  /** The characters a string body denotes; a lone surrogate is an error. */
  function Scalars(s: Str): (r: Result<seq<nat>>)
    requires Body(s)
    ensures r.Ok? ==> AllScalars(r.value)
    ensures r.Err? ==> r.error == InvalidArgument
  {
    if s == [] then Ok([])
    else
      var rest := s[UnitLength(s)..];
      if s[0] != BACKSLASH then Before(ScalarAt(s), Scalars(rest))
      else if s[1] != LETTER_U then Before(SimpleEscape(s[1]).value, Scalars(rest))
      else
        var cp := Hex4(s, 2);
        if IsLow(cp) then Err(InvalidArgument)
        else if !IsHigh(cp) then Before(cp, Scalars(rest))
        else if EscapeLength(rest) == 6 && IsLow(Hex4(rest, 2)) then
          assert Body(rest);
          assert UnitLength(rest) == 6;
          Before(Pair(cp, Hex4(rest, 2)), Scalars(rest[6..]))
        else Err(InvalidArgument)
  }

  function Before<T>(x: T, r: Result<seq<T>>): Result<seq<T>> {
    match r case Ok(xs) => Ok([x] + xs) case Err(_) => r
  }

  /** The UTF-8 text of a sequence of characters. */
  function Utf8All(cs: seq<nat>): Str
    requires AllScalars(cs)
  {
    if cs == [] then [] else Utf8(cs[0]) + Utf8All(cs[1..])
  }

  /** Well-formed UTF-8: the text of some sequence of characters. */
  ghost predicate WellFormed(s: Str) { exists cs: seq<nat> :: AllScalars(cs) && s == Utf8All(cs) }

  predicate Valid(s: Str) {
    s == [] || (Utf8Length(s) > 0 && Valid(s[Utf8Length(s)..]))
  }

  lemma {:induction false} Utf8AllIsValid(cs: seq<nat>)
    requires AllScalars(cs)
    ensures Valid(Utf8All(cs))
  {
    hide Utf8, Utf8Length, ScalarAt;
    if cs != [] {
      Utf8AllIsValid(cs[1..]);
      Utf8LengthOfUtf8(cs[0], Utf8All(cs[1..]));
      assert (Utf8(cs[0]) + Utf8All(cs[1..]))[|Utf8(cs[0])|..] == Utf8All(cs[1..]);
    }
  }

  lemma {:induction false} ValidHasScalars(s: Str) returns (cs: seq<nat>)
    requires Valid(s)
    ensures AllScalars(cs) && s == Utf8All(cs)
  {
    hide Utf8, Utf8Length, ScalarAt, IsScalar;
    if s == [] {
      cs := [];
    } else {
      Utf8OfScalarAt(s);
      var rest := ValidHasScalars(s[Utf8Length(s)..]);
      cs := [ScalarAt(s)] + rest;
      assert cs[1..] == rest;
    }
  }

  /** Reading from the left by the ranges of RFC 3629 decides well-formedness. */
  lemma ValidIsWellFormed(s: Str)
    ensures Valid(s) <==> WellFormed(s)
  {
    hide AllScalars, Utf8All, Valid;
    if Valid(s) { var cs := ValidHasScalars(s); }
    if WellFormed(s) {
      var cs: seq<nat> :| AllScalars(cs) && s == Utf8All(cs);
      Utf8AllIsValid(cs);
    }
  }
}
