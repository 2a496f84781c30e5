/** Writing a string and reading it back; which written strings the JSON grammar accepts. */
module QuotingLaw {
  import opened Bytes
  import opened Results
  import opened Unicode
  import opened JsonStrings
  import opened Quoting

  lemma HexifyIsHex(n: nat)
    requires n < 16
    ensures IsHex(HEXIFY[n]) && HexDigit(HEXIFY[n]) == n
  {
  }

  lemma ShortEscape(c: byte, s: Str)
    requires |EscapedByte(c)| == 2 && |s| >= 2 && s[0] == EscapedByte(c)[0] && s[1] == EscapedByte(c)[1]
    ensures EscapeLength(s) == 2 && SimpleEscape(s[1]) == Some(c)
  {
  }

  lemma LongEscape(c: byte, s: Str)
    requires |EscapedByte(c)| == 6 && |s| >= 6 && forall k | 0 <= k < 6 :: s[k] == EscapedByte(c)[k]
    ensures EscapeLength(s) == 6 && Hex4(s, 2) == c && Utf8(c) == [c] && !IsHigh(c) && !IsLow(c)
  {
    assert c <= 0x1f;
    HexifyIsHex(c / 16);
    HexifyIsHex(c % 16);
  }

  lemma EscapedByteShape(c: byte)
    ensures |EscapedByte(c)| == 1 || |EscapedByte(c)| == 2 || |EscapedByte(c)| == 6
    ensures |EscapedByte(c)| == 1 ==> EscapedByte(c) == [c] && c >= 0x20 && c != QUOTE && c != BACKSLASH
    ensures |EscapedByte(c)| > 1 ==> EscapedByte(c)[0] == BACKSLASH && c < 0x80
  {
  }

  /** Each byte's text is read as that byte, whatever follows. */
  lemma ByteReadBack(c: byte, rest: Str)
    requires EscapesOk(rest)
    ensures EscapesOk(EscapedByte(c) + rest) && Unquoted(EscapedByte(c) + rest) == After([c], Unquoted(rest))
  {
    hide Unquoted, EscapesOk, EscapedByte, SimpleEscape, Hex4, Utf8, EscapeLength;
    var e := EscapedByte(c);
    var s := e + rest;
    HeadOf(e, rest);
    assert s[|e|..] == rest;
    EscapedByteShape(c);
    if |e| == 1 {
      assert s[..1] == [c];
      PlainPrefix(s, 1);
    } else if |e| == 6 {
      LongEscape(c, s);
      EscapeOkUnfolds(s);
      UnicodeUnfolds(s);
    } else {
      ShortEscape(c, s);
      EscapeOkUnfolds(s);
      SimpleUnfolds(s);
    }
  }

  /** Every byte string survives `escape_string` and `get_string`. */
  lemma {:induction false} UnquotedOfEscaped(s: Str)
    ensures EscapesOk(Escaped(s)) && Unquoted(Escaped(s)) == Ok(s)
  {
    hide EscapedByte;
    if s != [] {
      UnquotedOfEscaped(s[1..]);
      ByteReadBack(s[0], Escaped(s[1..]));
      assert [s[0]] + s[1..] == s;
    }
  }

  // ---------- which strings are written as JSON ----------

  lemma EscapedByteHead(c: byte)
    ensures c >= 0x80 ==> EscapedByte(c) == [c]
    ensures EscapedByte(c)[0] >= 0x80 ==> EscapedByte(c) == [c]
  {
  }

  lemma UnfoldEscaped(s: Str)
    requires s != []
    ensures Escaped(s) == EscapedByte(s[0]) + Escaped(s[1..])
  {
  }

  /** Bytes above ASCII are written as they are. */
  lemma {:induction false} HighBytes(s: Str, n: nat)
    requires n <= |s| && (forall k | 0 <= k < n :: s[k] >= 0x80)
    ensures Escaped(s) == s[..n] + Escaped(s[n..])
  {
    hide Escaped, EscapedByte;
    if n == 0 {
      assert s[0..] == s && s[..0] + Escaped(s) == Escaped(s);
    } else {
      UnfoldEscaped(s);
      EscapedByteHead(s[0]);
      HighBytes(s[1..], n - 1);
      assert s[1..][n - 1..] == s[n..];
      assert [s[0]] + (s[1..][..n - 1] + Escaped(s[n..])) == s[..n] + Escaped(s[n..]);
    }
  }

  /** And they come from nowhere else. */
  lemma {:induction false} HighBytesBack(s: Str, n: nat)
    requires n <= |Escaped(s)| && (forall k | 0 <= k < n :: Escaped(s)[k] >= 0x80)
    ensures n <= |s| && Escaped(s)[..n] == s[..n] && (forall k | 0 <= k < n :: s[k] >= 0x80)
  {
    hide Escaped, EscapedByte;
    if n > 0 {
      if s == [] {
        NothingWritten(s, []);
        assert false;
      }
      UnfoldEscaped(s);
      var e := Escaped(s);
      EscapedByteHead(s[0]);
      assert e[0] == EscapedByte(s[0])[0];
      var t := s[1..];
      assert Escaped(t) == e[1..];
      assert forall k | 0 <= k < n - 1 :: Escaped(t)[k] == e[k + 1];
      HighBytesBack(t, n - 1);
      assert e[..n] == [e[0]] + Escaped(t)[..n - 1];
      assert s[..n] == [s[0]] + t[..n - 1];
      assert forall k | 1 <= k < n :: s[k] == t[k - 1];
    }
  }

  /** The length of a sequence depends on that sequence alone. */
  lemma LengthOfPrefix(s: Str, t: Str)
    requires var n := Utf8Length(s); 0 < n <= |t| && t[..n] == s[..n]
    ensures Utf8Length(t) == Utf8Length(s)
    ensures s[0] >= 0x80 ==> forall k | 0 <= k < Utf8Length(s) :: s[k] >= 0x80
  {
    var n := Utf8Length(s);
    assert forall k | 0 <= k < n :: t[..n][k] == t[k] && s[..n][k] == s[k];
  }

  lemma HighHead(s: Str)
    requires s != [] && s[0] >= 0x80
    ensures Utf8Length(Escaped(s)) == Utf8Length(s)
    ensures var n := Utf8Length(s); Escaped(s) == s[..n] + Escaped(s[n..])
  {
    hide Utf8Length, Escaped, EscapedByte;
    UnfoldEscaped(s);
    EscapedByteHead(s[0]);
    var e, n := Escaped(s), Utf8Length(s);
    assert e[0] == s[0];
    if n > 0 {
      LengthOfPrefix(s, s);
      HighBytes(s, n);
      assert e[..n] == s[..n];
      LengthOfPrefix(s, e);
    } else if Utf8Length(e) > 0 {
      LengthOfPrefix(e, e);
      HighBytesBack(s, Utf8Length(e));
      LengthOfPrefix(e, s);
      assert false;
    } else {
      HighBytes(s, 0);
    }
  }

  lemma LowHead(s: Str)
    requires s != [] && s[0] < 0x80
    ensures UnitLength(Escaped(s)) == |EscapedByte(s[0])| && Escaped(s)[|EscapedByte(s[0])|..] == Escaped(s[1..])
  {
    hide Escaped, EscapedByte, SimpleEscape, EscapeLength;
    var e, rest := EscapedByte(s[0]), Escaped(s[1..]);
    UnfoldEscaped(s);
    HeadOf(e, rest);
    assert (e + rest)[|e|..] == rest;
    EscapedByteShape(s[0]);
    if |e| == 6 {
      LongEscape(s[0], e + rest);
    } else if |e| == 2 {
      ShortEscape(s[0], e + rest);
    }
  }

  /** The text between the quotes is JSON exactly when the string is well-formed UTF-8. */
  lemma {:induction false} BodyOfEscaped(s: Str)
    ensures Body(Escaped(s)) <==> Valid(s)
    decreases |s|
  {
    hide Escaped, EscapedByte, Utf8Length, EscapeLength;
    var e := Escaped(s);
    if s == [] {
      NothingWritten(s, []);
    } else if s[0] < 0x80 {
      LowHead(s);
      BodyOfEscaped(s[1..]);
      AsciiIsValid(s);
    } else {
      HighHead(s);
      var n := Utf8Length(s);
      UnfoldEscaped(s);
      EscapedByteHead(s[0]);
      assert UnitLength(e) == n;
      if n > 0 {
        assert e[n..] == Escaped(s[n..]);
        BodyOfEscaped(s[n..]);
      }
    }
  }

  lemma AsciiIsValid(s: Str)
    requires s != [] && s[0] < 0x80
    ensures Utf8Length(s) == 1
  {
  }
}
