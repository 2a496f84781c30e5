/** `extra_space`, `escape_string`, `to_unicode` and `get_string`: strings written as JSON text and read. */
module Quoting {
  import opened Bytes
  import opened Results
  import opened Unicode
  import opened JsonStrings

  // ---------- reading ----------

  /** Every backslash begins a complete escape. */
  predicate EscapesOk(s: Str) {
    s == [] || (if s[0] == BACKSLASH then EscapeLength(s) > 0 && EscapesOk(s[EscapeLength(s)..]) else EscapesOk(s[1..]))
  }

  /** What is read in front of a result. */
  function After(text: Str, r: Result<Str>): Result<Str> {
    match r case Ok(t) => Ok(text + t) case Err(_) => r
  }

  /** `to_unicode`: the code units of one character, in UTF-8. */
  function ToUnicode(first: nat, second: nat): (r: Result<Str>)
    requires first < 0x1_0000 && second < 0x1_0000
    ensures r == if !IsHigh(first) then Ok(Utf8(first))
                 else if IsLow(second) then Ok(Utf8(Pair(first, second)))
                 else Err(InvalidArgument)
  {
    if IsHigh(first) && !IsLow(second) then Err(InvalidArgument)
    else Utf8Bytes(if IsHigh(first) then first * 0x400 + second - 0x35FDC00 else first)
  }

  function Utf8Bytes(cp: nat): (r: Result<Str>)
    ensures r == if cp <= 0x10ffff then Ok(Utf8(cp)) else Err(OutOfRange)
  {
    if cp < 0x80 then Ok([cp])
    else if cp <= 0x7ff then Ok([0xC0 + cp / 64 % 32, 0x80 + cp % 64])
    else if cp <= 0xffff then Ok([0xE0 + cp / 4096 % 16, 0x80 + cp / 64 % 64, 0x80 + cp % 64])
    else if cp <= 0x10ffff then
      Ok([0xF0 + cp / 262144 % 8, 0x80 + cp / 4096 % 64, 0x80 + cp / 64 % 64, 0x80 + cp % 64])
    else Err(OutOfRange)
  }

  /** What a string with complete escapes is read as, its bytes otherwise unchecked. */
  function Unquoted(s: Str): (r: Result<Str>)
    requires EscapesOk(s)
    ensures r.Err? ==> r.error == InvalidArgument
  {
    if s == [] then Ok([])
    else if s[0] != BACKSLASH then After([s[0]], Unquoted(s[1..]))
    else if s[1] != LETTER_U then After([SimpleEscape(s[1]).value], Unquoted(s[2..]))
    else
      var cp := Hex4(s, 2);
      if IsLow(cp) then Err(InvalidArgument)
      else if !IsHigh(cp) then After(Utf8(cp), Unquoted(s[6..]))
      else
        var rest := s[6..];
        if EscapeLength(rest) == 6 && IsLow(Hex4(rest, 2)) then
          assert EscapesOk(rest);
          After(Utf8(Pair(cp, Hex4(rest, 2))), Unquoted(rest[6..]))
        else Err(InvalidArgument)
  }

  lemma AfterAfter(a: Str, b: Str, r: Result<Str>)
    ensures After(a, After(b, r)) == After(a + b, r)
  {
    if r.Ok? { assert a + (b + r.value) == a + b + r.value; }
  }

  lemma Empty(text: Str, i: nat, end: nat, r: Result<Str>)
    requires i == end <= |text|
    ensures EscapesOk(text[i..end]) && Unquoted(text[i..end]) == Ok([])
    ensures After([], r) == r
  {
    if r.Ok? { assert [] + r.value == r.value; }
  }

  lemma {:induction false} PlainPrefix(s: Str, n: nat)
    requires n <= |s| && forall k | 0 <= k < n :: s[k] != BACKSLASH
    requires EscapesOk(s) || EscapesOk(s[n..])
    ensures EscapesOk(s) && EscapesOk(s[n..]) && Unquoted(s) == After(s[..n], Unquoted(s[n..]))
  {
    hide EscapeLength, Hex4At, SimpleEscape;
    if n == 0 {
      assert s[0..] == s && s[..0] == [];
      Empty(s, |s|, |s|, Unquoted(s));
    } else {
      var t := s[1..];
      PlainPrefix(t, n - 1);
      assert t[n - 1..] == s[n..];
      assert [s[0]] + t[..n - 1] == s[..n];
      AfterAfter([s[0]], t[..n - 1], Unquoted(s[n..]));
    }
  }

  /** `std::find` of a backslash in `text[i..end]`. */
  method FindBackslash(text: Str, i: nat, end: nat) returns (e: nat)
    requires i <= end <= |text|
    ensures i <= e <= end && (forall k | i <= k < e :: text[k] != BACKSLASH)
    ensures e < end ==> text[e] == BACKSLASH
  {
    e := i;
    while e < end && text[e] != BACKSLASH
      invariant i <= e <= end && forall k | i <= k < e :: text[k] != BACKSLASH
    {
      e := e + 1;
    }
  }

  lemma Copied(text: Str, i: nat, e: nat, end: nat)
    requires i <= e <= end <= |text| && EscapesOk(text[i..end]) && forall k | i <= k < e :: text[k] != BACKSLASH
    ensures EscapesOk(text[e..end]) && Unquoted(text[i..end]) == After(text[i..e], Unquoted(text[e..end]))
  {
    hide Unquoted, EscapesOk;
    var s := text[i..end];
    PlainPrefix(s, e - i);
    assert s[e - i..] == text[e..end];
    assert s[..e - i] == text[i..e];
  }

  lemma SimpleUnfolds(s: Str)
    requires EscapesOk(s) && s != [] && s[0] == BACKSLASH
    ensures EscapeLength(s) > 0 && EscapesOk(s[EscapeLength(s)..])
    ensures SimpleEscape(s[1]).Some? ==> Unquoted(s) == After([SimpleEscape(s[1]).value], Unquoted(s[2..]))
  {
  }

  lemma UnicodeUnfolds(s: Str)
    requires EscapesOk(s) && EscapeLength(s) == 6
    ensures EscapesOk(s[6..])
    ensures var cp, rest := Hex4(s, 2), s[6..];
            Unquoted(s) ==
              if IsLow(cp) then Err(InvalidArgument)
              else if !IsHigh(cp) then After(Utf8(cp), Unquoted(rest))
              else if EscapeLength(rest) == 6 && IsLow(Hex4(rest, 2)) then
                After(Utf8(Pair(cp, Hex4(rest, 2))), Unquoted(rest[6..]))
              else Err(InvalidArgument)
  {
    hide Hex4, Utf8, Pair, IsHigh, IsLow;
  }

  /** At a backslash: an escape of two characters, or of six. */
  lemma AtEscape(text: Str, at: nat, end: nat)
    requires at < end <= |text| && text[at] == BACKSLASH && EscapesOk(text[at..end])
    ensures at + 1 < end
    ensures match SimpleEscape(text[at + 1])
            case Some(c) =>
              at + 2 <= end && EscapesOk(text[at + 2..end])
              && Unquoted(text[at..end]) == After([c], Unquoted(text[at + 2..end]))
            case None =>
              at + 6 <= end && text[at + 1] == LETTER_U && Hex4At(text, at + 2)
              && EscapesOk(text[at + 6..end]) && EscapeLength(text[at..end]) == 6
              && Hex4(text[at..end], 2) == Hex4(text, at + 2)
  {
    hide Unquoted, EscapesOk;
    var s := text[at..end];
    SimpleUnfolds(s);
    assert s[1] == text[at + 1];
    assert s[EscapeLength(s)..] == text[at + EscapeLength(s)..end];
  }

  lemma AtUnicode(text: Str, at: nat, end: nat)
    requires at < end <= |text| && text[at] == BACKSLASH && EscapesOk(text[at..end])
    requires SimpleEscape(text[at + 1]).None?
    ensures var cp, rest := Hex4(text, at + 2), text[at + 6..end];
            Unquoted(text[at..end]) ==
              if IsLow(cp) then Err(InvalidArgument)
              else if !IsHigh(cp) then After(Utf8(cp), Unquoted(rest))
              else if EscapeLength(rest) == 6 && IsLow(Hex4(rest, 2)) then
                After(Utf8(Pair(cp, Hex4(rest, 2))), Unquoted(rest[6..]))
              else Err(InvalidArgument)
  {
    hide Unquoted, EscapesOk, Hex4, Utf8, Pair, IsHigh, IsLow, EscapeLength;
    AtEscape(text, at, end);
    UnicodeUnfolds(text[at..end]);
    assert text[at..end][6..] == text[at + 6..end];
  }

  /** What a high surrogate is followed by. */
  lemma AtLow(text: Str, at: nat, end: nat)
    requires at + 1 < |text| && end == |text| - 1 && text[end] == QUOTE && at <= end && EscapesOk(text[at..end])
    ensures EscapeLength(text[at..end]) == 6 <==> text[at] == BACKSLASH && text[at + 1] == LETTER_U
    ensures EscapeLength(text[at..end]) == 6 ==>
      at + 6 <= end && Hex4At(text, at + 2) && Hex4(text[at..end], 2) == Hex4(text, at + 2)
      && EscapesOk(text[at + 6..end]) && text[at..end][6..] == text[at + 6..end]
  {
    hide EscapesOk, Unquoted;
    var s := text[at..end];
    if text[at] == BACKSLASH {
      AtEscape(text, at, end);
      assert s[0] == BACKSLASH && s[1] == text[at + 1];
    } else if s != [] {
      assert s[0] != BACKSLASH;
    }
    if EscapeLength(s) == 6 {
      assert s[6..] == text[at + 6..end];
    }
  }

  /** `get_string` on the text of a string token, quotes included. */
  method GetString(text: Str) returns (r: Result<Str>)
    requires |text| >= 2 && text[|text| - 1] == QUOTE && EscapesOk(text[1..|text| - 1])
    ensures r == Unquoted(text[1..|text| - 1])
  {
    hide Unquoted, EscapesOk, EscapeLength, Hex4, Hex4At, SimpleEscape, Utf8, Pair, ToUnicode;
    var end := |text| - 1;
    var result: Str := [];
    var i := 1;
    Empty(text, end, end, Unquoted(text[1..end]));
    while i < end
      invariant 1 <= i <= end && EscapesOk(text[i..end])
      invariant Unquoted(text[1..end]) == After(result, Unquoted(text[i..end]))
    {
      var e := FindBackslash(text, i, end);
      if e != i {
        Copied(text, i, e, end);
        AfterAfter(result, text[i..e], Unquoted(text[e..end]));
        ghost var before, from := result, i;
        var k := i;
        while k < e
          invariant i <= k <= e && result == before + text[i..k]
        {
          assert text[i..k + 1] == text[i..k] + [text[k]];
          result := result + [text[k]];
          k := k + 1;
        }
        i := e - 1;
      } else {
        AtEscape(text, i, end);
        ghost var at := i;
        i := i + 1;
        var c := SimpleEscape(text[i]);
        if c.Some? {
          AfterAfter(result, [c.value], Unquoted(text[at + 2..end]));
          result := result + [c.value];
        } else {
          AtUnicode(text, at, end);
          var codepoint := Hex4(text, i + 1);
          if IsHigh(codepoint) {
            // every string token ends in a quote, so a backslash here stands inside the token
            if i + 6 >= |text| || text[i + 5] != BACKSLASH || text[i + 6] != LETTER_U {
              if at + 7 < |text| { AtLow(text, at + 6, end); } else { assert EscapeLength(text[at + 6..end]) == 0; }
              return Err(InvalidArgument);
            }
            AtLow(text, at + 6, end);
            var codepoint2 := Hex4(text, i + 7);
            var u :- ToUnicode(codepoint, codepoint2);
            AfterAfter(result, u, Unquoted(text[at + 12..end]));
            result := result + u;
            i := i + 10;
          } else if IsLow(codepoint) {
            return Err(InvalidArgument);
          } else {
            var u := ToUnicode(codepoint, 0).value;
            AfterAfter(result, u, Unquoted(text[at + 6..end]));
            result := result + u;
            i := i + 4;
          }
        }
      }
      i := i + 1;
    }
    Empty(text, i, end, Ok([]));
    assert result + [] == result;
    return Ok(result);
  }

  // ---------- what the decoded text means ----------

  function EncodedResult(r: Result<seq<nat>>): Result<Str>
    requires r.Ok? ==> AllScalars(r.value)
  {
    match r case Ok(cs) => Ok(Utf8All(cs)) case Err(e) => Err(e)
  }

  lemma EncodedBefore(c: nat, r: Result<seq<nat>>)
    requires IsScalar(c) && (r.Ok? ==> AllScalars(r.value))
    ensures Before(c, r).Ok? ==> AllScalars(Before(c, r).value)
    ensures EncodedResult(Before(c, r)) == After(Utf8(c), EncodedResult(r))
  {
    hide Utf8;
    if r.Ok? { assert ([c] + r.value)[1..] == r.value; }
  }

  lemma PlainUnit(s: Str)
    requires UnitLength(s) > 0 && s[0] != BACKSLASH
    ensures s[..UnitLength(s)] == Utf8(ScalarAt(s)) && forall k | 0 <= k < UnitLength(s) :: s[k] != BACKSLASH
  {
    hide Utf8, ScalarAt;
    Utf8OfScalarAt(s);
  }

  lemma EscapeOkUnfolds(s: Str)
    requires s != [] && s[0] == BACKSLASH && EscapeLength(s) > 0 && EscapesOk(s[EscapeLength(s)..])
    ensures EscapesOk(s)
  {
  }

  lemma MeaningUnfolds(s: Str)
    requires Body(s) && s != [] && s[0] == BACKSLASH
    ensures UnitLength(s) == EscapeLength(s) > 0 && Body(s[EscapeLength(s)..])
    ensures EscapeLength(s) == 2 ==> Scalars(s) == Before(SimpleEscape(s[1]).value, Scalars(s[2..]))
    ensures EscapeLength(s) == 6 ==>
      var cp, rest := Hex4(s, 2), s[6..];
      (EscapeLength(rest) == 6 ==> Body(rest[6..]))
      && Scalars(s) ==
        if IsLow(cp) then Err(InvalidArgument)
        else if !IsHigh(cp) then Before(cp, Scalars(rest))
        else if EscapeLength(rest) == 6 && IsLow(Hex4(rest, 2)) then Before(Pair(cp, Hex4(rest, 2)), Scalars(rest[6..]))
        else Err(InvalidArgument)
  {
    hide Hex4, Pair, IsHigh, IsLow;
    if EscapeLength(s) == 6 {
      var rest := s[6..];
      assert Body(rest);
      if EscapeLength(rest) == 6 { assert UnitLength(rest) == 6; }
    }
  }

  /** A string body the grammar derives is read as the UTF-8 text of the characters it denotes. */
  lemma {:induction false} UnquotedIsMeaning(s: Str)
    requires Body(s)
    ensures EscapesOk(s) && Unquoted(s) == EncodedResult(Scalars(s))
    decreases |s|
  {
    if s != [] {
      UnquotedIsMeaning(s[UnitLength(s)..]);
      if s[0] != BACKSLASH {
        PlainIsMeaning(s);
      } else {
        MeaningUnfolds(s);
        EscapeOkUnfolds(s);
        if EscapeLength(s) == 2 {
          SimpleIsMeaning(s);
        } else {
          var rest := s[6..];
          if EscapeLength(rest) == 6 { UnquotedIsMeaning(rest[6..]); }
          UnicodeIsMeaning(s);
        }
      }
    }
  }

  lemma PlainIsMeaning(s: Str)
    requires Body(s) && s != [] && s[0] != BACKSLASH
    requires var rest := s[UnitLength(s)..]; EscapesOk(rest) && Unquoted(rest) == EncodedResult(Scalars(rest))
    ensures EscapesOk(s) && Unquoted(s) == EncodedResult(Scalars(s))
  {
    hide Unquoted, EscapesOk, Utf8, ScalarAt, Utf8Length;
    PlainUnit(s);
    EncodedBefore(ScalarAt(s), Scalars(s[UnitLength(s)..]));
    PlainPrefix(s, UnitLength(s));
  }

  lemma SimpleIsMeaning(s: Str)
    requires Body(s) && s != [] && s[0] == BACKSLASH && EscapeLength(s) == 2 && EscapesOk(s)
    requires Body(s[2..]) && EscapesOk(s[2..]) && Unquoted(s[2..]) == EncodedResult(Scalars(s[2..]))
    ensures Unquoted(s) == EncodedResult(Scalars(s))
  {
    hide Unquoted, EscapesOk, Scalars, Body;
    SimpleUnfolds(s);
    MeaningUnfolds(s);
    var c := SimpleEscape(s[1]).value;
    assert c < 0x80;
    assert Utf8(c) == [c];
    EncodedBefore(c, Scalars(s[2..]));
  }

  lemma UnicodeIsMeaning(s: Str)
    requires Body(s) && s != [] && s[0] == BACKSLASH && EscapeLength(s) == 6 && EscapesOk(s)
    requires Body(s[6..]) && EscapesOk(s[6..]) && Unquoted(s[6..]) == EncodedResult(Scalars(s[6..]))
    requires var t := s[6..]; EscapeLength(t) == 6 ==>
      Body(t[6..]) && EscapesOk(t[6..]) && Unquoted(t[6..]) == EncodedResult(Scalars(t[6..]))
    ensures Unquoted(s) == EncodedResult(Scalars(s))
  {
    hide Unquoted, EscapesOk, Scalars, Body, Hex4, Pair, Utf8;
    UnicodeUnfolds(s);
    MeaningUnfolds(s);
    var cp, rest := Hex4(s, 2), s[6..];
    if !IsLow(cp) && !IsHigh(cp) {
      EncodedBefore(cp, Scalars(rest));
    } else if IsHigh(cp) && EscapeLength(rest) == 6 && IsLow(Hex4(rest, 2)) {
      EncodedBefore(Pair(cp, Hex4(rest, 2)), Scalars(rest[6..]));
    }
  }

  // ---------- writing ----------

  const HEXIFY: Str := [48, 49, 50, 51, 52, 53, 54, 55, 56, 57, 97, 98, 99, 100, 101, 102]

  /** How one byte is written. */
  function EscapedByte(c: byte): (t: Str)
    ensures t != []
  {
    match c
    case 0x22 => [BACKSLASH, 0x22]
    case 0x5c => [BACKSLASH, 0x5c]
    case 8 => [BACKSLASH, 0x62]
    case 12 => [BACKSLASH, 0x66]
    case 10 => [BACKSLASH, 0x6e]
    case 13 => [BACKSLASH, 0x72]
    case 9 => [BACKSLASH, 0x74]
    case _ => if c <= 0x1f then [BACKSLASH, LETTER_U, 48, 48, HEXIFY[c / 16], HEXIFY[c % 16]] else [c]
  }

  function Escaped(s: Str): (t: Str)
    ensures |t| >= |s|
  {
    if s == [] then [] else EscapedByte(s[0]) + Escaped(s[1..])
  }

  /** The step of the fold in `extra_space`. */
  function ExtraByte(c: byte): nat {
    if c in {0x22, 0x5c, 8, 12, 10, 13, 9} then 1 else if c <= 0x1f then 5 else 0
  }

  function ExtraSpace(s: Str): (n: nat)
    ensures |Escaped(s)| == |s| + n
    ensures n == 0 ==> Escaped(s) == s
  {
    if s == [] then 0 else ExtraByte(s[0]) + ExtraSpace(s[1..])
  }

  /** One turn of the loop: the bytes written and those still to come make up the whole text. */
  lemma Written(done: Str, s: Str, whole: Str)
    requires s != [] && done + Escaped(s) == whole
    ensures (done + EscapedByte(s[0])) + Escaped(s[1..]) == whole
    ensures |done| + |EscapedByte(s[0])| <= |whole|
    ensures done + EscapedByte(s[0]) == whole[..|done| + |EscapedByte(s[0])|]
  {
    assert (done + EscapedByte(s[0])) + Escaped(s[1..]) == done + (EscapedByte(s[0]) + Escaped(s[1..]));
  }

  lemma NothingWritten(s: Str, done: Str)
    ensures Escaped([]) == [] && done + [] == done && s[0..] == s
  {
  }

  /** The letter of a short escape, after its backslash. */
  method WriteLetter(result: array<byte>, pos: nat, letter: byte) returns (next: nat)
    requires pos + 1 < result.Length && result[pos] == BACKSLASH
    modifies result
    ensures next == pos + 2 && result[pos..next] == [BACKSLASH, letter]
    ensures forall k | 0 <= k < result.Length && k != pos + 1 :: result[k] == old(result[k])
  {
    result[pos + 1] := letter;
    next := pos + 2;
  }

  /** The letters of a control character's escape, after its backslash. */
  method WriteControl(result: array<byte>, pos: nat, letters: Str) returns (next: nat)
    requires pos + |letters| < result.Length && result[pos] == BACKSLASH
    modifies result
    ensures next == pos + 1 + |letters| && result[pos..next] == [BACKSLASH] + letters
    ensures forall k | 0 <= k < pos || next <= k < result.Length :: result[k] == old(result[k])
  {
    next := pos;
    for j := 0 to |letters|
      invariant next == pos + j
      invariant forall k | pos < k <= next :: result[k] == letters[k - pos - 1]
      invariant forall k | 0 <= k <= pos || next < k < result.Length :: result[k] == old(result[k])
    {
      next := next + 1;
      result[next] := letters[j];
    }
    next := next + 1;
  }

  /** One byte into the buffer at `pos`: backslashes are there already. */
  method WriteByte(result: array<byte>, pos: nat, c: byte) returns (next: nat)
    requires pos + |EscapedByte(c)| <= result.Length
    requires forall k | pos <= k < result.Length :: result[k] == BACKSLASH
    modifies result
    ensures next == pos + |EscapedByte(c)| && result[pos..next] == EscapedByte(c)
    ensures forall k | 0 <= k < pos || next <= k < result.Length :: result[k] == old(result[k])
  {
    next := pos;
    if c == 0x5c {
      next := next + 2;
      assert result[pos..next] == [BACKSLASH, c];
    } else if c in {0x22, 8, 12, 10, 13, 9} {
      var letter: byte :=
        match c case 8 => 0x62 case 12 => 0x66 case 10 => 0x6e case 13 => 0x72 case 9 => 0x74 case _ => 0x22;
      assert EscapedByte(c) == [BACKSLASH, letter];
      next := WriteLetter(result, pos, letter);
    } else if c <= 0x1f {
      next := WriteControl(result, pos, [LETTER_U, 48, 48, HEXIFY[c / 16], HEXIFY[c % 16]]);
    } else {
      result[next] := c;
      next := next + 1;
      assert result[pos..next] == [c];
    }
  }

  /** `escape_string`: into a buffer of backslashes, allocated at its final size. */
  method EscapeString(s: Str) returns (out: Str)
    ensures out == Escaped(s)
  {
    hide Escaped, EscapedByte, ExtraByte;
    var space := ExtraSpace(s);
    if space == 0 {
      return s;
    }
    var result := new byte[|s| + space](_ => BACKSLASH);
    var pos := 0;
    ghost var whole := Escaped(s);
    NothingWritten(s, result[..pos]);
    assert result[..0] == [];
    for i := 0 to |s|
      invariant pos + |Escaped(s[i..])| == result.Length
      invariant result[..pos] + Escaped(s[i..]) == whole
      invariant forall k | pos <= k < result.Length :: result[k] == BACKSLASH
    {
      ghost var done := result[..pos];
      Written(done, s[i..], whole);
      assert s[i..][1..] == s[i + 1..];
      pos := WriteByte(result, pos, s[i]);
      assert result[..pos] == done + EscapedByte(s[i]);
    }
    assert s[|s|..] == [];
    NothingWritten(s, result[..pos]);
    out := result[..];
  }
}
