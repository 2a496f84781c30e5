/** The escapes of JSON strings (RFC 7159, section 7) by literal tables. */
module EscapeTable {
  import opened Bytes
  import opened Results
  import opened Unicode
  import opened JsonStrings
  import opened Quoting
  import opened Grammar
  import opened HexTable

  // ---------- digits ----------

  lemma DigitIs(c: byte, n: nat)
    requires Spells(c, n)
    ensures IsHex(c) && HexDigit(c) == n
  {
  }

  /** The digits that the scanner admits are those of the table. */
  lemma HexIsSpelled(c: byte)
    ensures IsHex(c) <==> exists n :: Spells(c, n)
  {
    if IsHex(c) { assert Spells(c, HexDigit(c)); }
    if n :| Spells(c, n) { DigitIs(c, n); }
  }

  lemma UnitIs(s: Str, i: nat, n: nat)
    requires i + 4 <= |s| && SpellsUnit(s[i..i + 4], n)
    ensures Hex4At(s, i) && Hex4(s, i) == n < 0x1_0000
  {
    var q := s[i..i + 4];
    assert s[i] == q[0] && s[i + 1] == q[1] && s[i + 2] == q[2] && s[i + 3] == q[3];
    DigitIs(q[0], n / 0x1000);
    DigitIs(q[1], n / 0x100 % 16);
    DigitIs(q[2], n / 16 % 16);
    DigitIs(q[3], n % 16);
    FourDigits16(n);
    hide HexDigit, IsHex, Spells;
  }

  lemma FourDigits16(n: nat)
    ensures n == n / 0x1000 * 4096 + n / 0x100 % 16 * 256 + n / 16 % 16 * 16 + n % 16
  {
    var a, b := n / 16, n / 0x100;
    assert b == a / 16 && n / 0x1000 == b / 16;
    assert n == a * 16 + n % 16 && a == b * 16 + a % 16 && b == b / 16 * 16 + b % 16;
  }

  // ---------- short escapes ----------

  /** The letter behind the backslash, and the character it stands for. */
  const SHORT: seq<(byte, byte)> :=
    [(0x22, 0x22), (0x5c, 0x5c), (0x2f, 0x2f), (0x62, 0x08), (0x66, 0x0c), (0x6e, 0x0a), (0x72, 0x0d), (0x74, 0x09)]

  /** There are these eight and no others. */
  lemma ShortEscapes(c: byte)
    ensures forall i | 0 <= i < 8 && c == SHORT[i].0 :: SimpleEscape(c) == Some(SHORT[i].1)
    ensures (forall i | 0 <= i < 8 :: c != SHORT[i].0) ==> SimpleEscape(c) == None
  {
    if forall i | 0 <= i < 8 :: c != SHORT[i].0 {
      assert c != SHORT[0].0 && c != SHORT[1].0 && c != SHORT[2].0 && c != SHORT[3].0;
      assert c != SHORT[4].0 && c != SHORT[5].0 && c != SHORT[6].0 && c != SHORT[7].0;
    }
  }

  lemma ShortRead(i: nat, rest: Str)
    requires i < 8 && EscapesOk(rest)
    ensures var s := [0x5c, SHORT[i].0] + rest; EscapesOk(s) && Unquoted(s) == After([SHORT[i].1], Unquoted(rest))
  {
    hide SimpleEscape, Unquoted, EscapesOk;
    var s := [0x5c, SHORT[i].0] + rest;
    ShortEscapes(SHORT[i].0);
    assert s[2..] == rest;
    EscapeOkUnfolds(s);
    SimpleUnfolds(s);
  }

  // ---------- escapes of code units ----------

  predicate Surrogate(n: nat) { 0xD800 <= n <= 0xDFFF }

  lemma EscapeOfUnit(q: Str, n: nat, rest: Str)
    requires SpellsUnit(q, n) && EscapesOk(rest)
    ensures var s := [0x5c, 0x75] + q + rest;
            EscapesOk(s) && EscapeLength(s) == 6 && Hex4(s, 2) == n < 0x1_0000 && s[6..] == rest
  {
    hide SpellsUnit, Hex4At, Hex4, EscapesOk;
    var s := [0x5c, 0x75] + q + rest;
    assert |q| == 4 by { FourLong(q, n); }
    assert s[2..6] == q && s[6..] == rest;
    UnitIs(s, 2, n);
    EscapeOkUnfolds(s);
  }

  lemma FourLong(q: Str, n: nat)
    requires SpellsUnit(q, n)
    ensures |q| == 4
  {
  }

  /** Four digits in any mixture of letters: the character, in UTF-8. */
  lemma UnitRead(q: Str, n: nat, rest: Str)
    requires SpellsUnit(q, n) && !Surrogate(n) && EscapesOk(rest)
    ensures n < 0x1_0000
    ensures var s := [0x5c, 0x75] + q + rest; EscapesOk(s) && Unquoted(s) == After(Utf8(n), Unquoted(rest))
  {
    hide SpellsUnit, EscapesOk, Unquoted, EscapeLength, Hex4, Utf8;
    EscapeOfUnit(q, n, rest);
    UnicodeUnfolds([0x5c, 0x75] + q + rest);
  }

  /** A high and a low surrogate: one character beyond the first plane. */
  lemma PairRead(q: Str, high: nat, r: Str, low: nat, rest: Str)
    requires SpellsUnit(q, high) && 0xD800 <= high <= 0xDBFF && SpellsUnit(r, low) && 0xDC00 <= low <= 0xDFFF
    requires EscapesOk(rest)
    ensures var s := [0x5c, 0x75] + q + ([0x5c, 0x75] + r + rest);
            && EscapesOk(s)
            && Unquoted(s) == After(Utf8(0x1_0000 + 0x400 * (high - 0xD800) + (low - 0xDC00)), Unquoted(rest))
  {
    hide SpellsUnit, EscapesOk, Unquoted, EscapeLength, Hex4, Utf8;
    EscapeOfUnit(r, low, rest);
    EscapeOfUnit(q, high, [0x5c, 0x75] + r + rest);
    UnicodeUnfolds([0x5c, 0x75] + q + ([0x5c, 0x75] + r + rest));
  }

  /** A surrogate without its partner is an error: a low one anywhere, a high one before all but an escaped low one. */
  lemma LoneRead(q: Str, n: nat, rest: Str)
    requires SpellsUnit(q, n) && Surrogate(n) && EscapesOk(rest)
    requires n <= 0xDBFF ==> |rest| < 2 || rest[0] != 0x5c || rest[1] != 0x75
    ensures var s := [0x5c, 0x75] + q + rest; EscapesOk(s) && Unquoted(s) == Err(InvalidArgument)
  {
    hide SpellsUnit, EscapesOk, Unquoted, Hex4, Utf8;
    EscapeOfUnit(q, n, rest);
    UnicodeUnfolds([0x5c, 0x75] + q + rest);
  }

  // ---------- string tokens ----------

  lemma Inside(s: Str)
    ensures var t := [0x22] + s + [0x22]; |t| >= 2 && t[1..|t| - 1] == s
  {
  }

  lemma NothingRead()
    ensures EscapesOk([]) && Unquoted([]) == Ok([])
  {
  }

  lemma ReadAlone(u: Str)
    ensures After(u, Ok([])) == Ok(u)
  {
    assert u + [] == u;
  }

  /** The string token of one short escape. */
  lemma ShortToken(i: nat)
    requires i < 8
    ensures StringOf([0x22, 0x5c, SHORT[i].0, 0x22]) == Ok([SHORT[i].1])
  {
    hide EscapesOk, Unquoted;
    NothingRead();
    ShortRead(i, []);
    var s := [0x5c, SHORT[i].0] + [];
    Inside(s);
    ReadAlone([SHORT[i].1]);
    assert [0x22] + s + [0x22] == [0x22, 0x5c, SHORT[i].0, 0x22];
  }

  /** The string token of one escaped code unit. */
  lemma UnitToken(q: Str, n: nat)
    requires SpellsUnit(q, n)
    ensures n < 0x1_0000
    ensures StringOf([0x22, 0x5c, 0x75] + q + [0x22]) == if Surrogate(n) then Err(InvalidArgument) else Ok(Utf8(n))
  {
    hide EscapesOk, Unquoted, SpellsUnit, Utf8;
    NothingRead();
    var s := [0x5c, 0x75] + q + [];
    EscapeOfUnit(q, n, []);
    if Surrogate(n) { LoneRead(q, n, []); } else { UnitRead(q, n, []); ReadAlone(Utf8(n)); }
    Inside(s);
    assert [0x22] + s + [0x22] == [0x22, 0x5c, 0x75] + q + [0x22];
  }

  /** The string token of one surrogate pair. */
  lemma PairToken(q: Str, high: nat, r: Str, low: nat)
    requires SpellsUnit(q, high) && 0xD800 <= high <= 0xDBFF && SpellsUnit(r, low) && 0xDC00 <= low <= 0xDFFF
    ensures StringOf([0x22, 0x5c, 0x75] + q + [0x5c, 0x75] + r + [0x22])
         == Ok(Utf8(0x1_0000 + 0x400 * (high - 0xD800) + (low - 0xDC00)))
  {
    hide EscapesOk, Unquoted, SpellsUnit, Utf8;
    NothingRead();
    PairRead(q, high, r, low, []);
    var s := [0x5c, 0x75] + q + ([0x5c, 0x75] + r + []);
    Inside(s);
    ReadAlone(Utf8(0x1_0000 + 0x400 * (high - 0xD800) + (low - 0xDC00)));
    assert [0x22] + s + [0x22] == [0x22, 0x5c, 0x75] + q + [0x5c, 0x75] + r + [0x22];
  }

  // ---------- writing ----------

  /** How each byte is written: by the short escapes, the solidus apart; by two small digits; or as it is. */
  lemma WrittenBytes(c: byte)
    ensures forall i | 0 <= i < 8 && i != 2 && c == SHORT[i].1 :: EscapedByte(c) == [0x5c, SHORT[i].0]
    ensures c < 0x20 && (forall i | 0 <= i < 8 :: c != SHORT[i].1) ==>
      EscapedByte(c) == [0x5c, 0x75, 0x30, 0x30, SMALL[c / 16] as int, SMALL[c % 16] as int]
    ensures c >= 0x20 && (forall i | 0 <= i < 8 && i != 2 :: c != SHORT[i].1) ==> EscapedByte(c) == [c]
  {
    if forall i | 0 <= i < 8 && i != 2 :: c != SHORT[i].1 {
      assert c != SHORT[0].1 && c != SHORT[1].1 && c != SHORT[3].1;
      assert c != SHORT[4].1 && c != SHORT[5].1 && c != SHORT[6].1 && c != SHORT[7].1;
    }
  }

  /** Characters of two, three and four bytes. */
  lemma Utf8Examples()
    ensures Utf8(0xE9) == [0xC3, 0xA9] && Utf8(0x20AC) == [0xE2, 0x82, 0xAC]
    ensures Utf8(0x1F600) == [0xF0, 0x9F, 0x98, 0x80]
  {
  }
}
