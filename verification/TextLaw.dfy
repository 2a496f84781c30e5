/** How tokens spell text: blanks, tokens and quoted strings in front of a text, as the scanner finds them. */
module TextLaw {
  import opened Bytes
  import opened Decimal
  import opened Unicode
  import opened JsonStrings
  import opened Quoting
  import opened QuotingLaw
  import opened Tokens
  import opened TokenLaw
  import opened Grammar
  import opened Dumping

  // ---------- tokens of pieces of text ----------

  predicate Ended(s: Str) { s != [] && s[|s| - 1] == 0 }

  /** The text `s` begins with tokens `ts`, behind which `rest` follows; or it holds an error. */
  ghost predicate Spells(ok: bool, s: Str, ts: seq<Token>, rest: Str)
    requires Ended(s) && Ended(rest)
  {
    if ok then Lexed(s) == ts + Lexed(rest) else Mark(ParseError) in Lexed(s)
  }

  lemma EndedBehind(a: Str, b: Str)
    requires Ended(b)
    ensures Ended(a + b) && (a == [] ==> a + b == b) && (a != [] ==> (a + b)[0] == a[0])
  {
  }

  lemma Chain(ok: bool, s: Str, ts: seq<Token>, mid: Str, ok': bool, ts': seq<Token>, rest: Str)
    requires Ended(s) && Ended(mid) && Ended(rest) && Spells(ok, s, ts, mid) && Spells(ok', mid, ts', rest)
    ensures Spells(ok && ok', s, ts + ts', rest)
  {
    hide Lexed;
    assert ts + (ts' + Lexed(rest)) == ts + ts' + Lexed(rest);
  }

  lemma TokenStart(k: TokenType, t: Str)
    requires IsToken(k, t)
    ensures t != [] && !IsBlank(t[0])
  {
    hide IsNumber, IsString;
    EmptyIsNoToken(k);
    if k == ValueNumber { NumberStart(t); }
    if k == ValueString { StringStart(t); }
  }

  lemma NumberStart(t: Str)
    requires IsNumber(t)
    ensures t != [] && (t[0] == MINUS || IsDigit(t[0]))
  {
  }

  lemma StringStart(t: Str)
    requires IsString(t)
    ensures t != [] && t[0] == QUOTE
  {
  }

  lemma NotBlank(s: Str)
    requires Ended(s) && !IsBlank(s[0])
    ensures Blanks(s) == 0 && s[Blanks(s)..] == s
  {
  }

  lemma LexedToken(s: Str)
    requires Ended(s) && !IsBlank(s[0])
    ensures var (k, n) := Head(s);
            if Final(k) then Lexed(s) == [Mark(k)]
            else n < |s| && Lexed(s) == [TokenOf(k, s[..n])] + Lexed(s[n..])
  {
    hide Head, TokenOf, Blanks;
    NotBlank(s);
    HeadBeforeNul(s);
  }

  lemma SpellToken(k: TokenType, t: Str, rest: Str)
    requires IsToken(k, t) && !Final(k) && Ended(rest)
    requires k == ValueNumber ==> !ContinuesNumber(rest[0])
    ensures Ended(t + rest) && Spells(true, t + rest, [TokenOf(k, t)], rest)
  {
    hide IsToken, Head, Lexed, TokenOf, ContinuesNumber, IsBlank;
    var s := t + rest;
    TokenStart(k, t);
    EndedBehind(t, rest);
    assert s[..|t|] == t && s[|t|..] == rest;
    TokenAtHead(s, |t|, k);
    LexedToken(s);
  }

  lemma {:induction false} SpellBlanks(w: Str, rest: Str)
    requires Ended(rest) && forall i | 0 <= i < |w| :: IsBlank(w[i])
    ensures Ended(w + rest) && Spells(true, w + rest, [], rest)
  {
    hide Head, TokenOf, IsBlank, Lexed;
    EndedBehind(w, rest);
    if w == [] {
      assert [] + Lexed(rest) == Lexed(rest);
    } else {
      SpellBlanks(w[1..], rest);
      EndedBehind(w[1..], rest);
      assert (w + rest)[1..] == w[1..] + rest;
      BlankSkipped(w + rest);
    }
  }

  lemma BlankSkipped(s: Str)
    requires Ended(s) && |s| > 1 && IsBlank(s[0])
    ensures Lexed(s) == Lexed(s[1..])
  {
    hide Head, TokenOf;
    var t := s[1..];
    assert t[|t| - 1] == 0;
    assert s[Blanks(s)..] == t[Blanks(t)..];
  }

  // ---------- strings ----------

  /** The first quote that can close a written string is its own. */
  lemma {:induction false} OwnQuote(s: Str, x: Str, m: nat)
    requires var u := Escaped(s) + ([QUOTE] + x); m < |u| && u[m] == QUOTE && Body(u[..m])
    ensures m == |Escaped(s)|
    decreases |s|
  {
    hide Escaped, UnitLength, EscapedByte;
    var u := Escaped(s) + ([QUOTE] + x);
    if s == [] {
      NothingWritten(s, []);
      if m > 0 { assert u[..m][0] == QUOTE; QuoteIsNoUnit(u[..m]); }
    } else {
      FirstUnit(s, x, m);
      var k := UnitLength(u[..m]);
      var n := if s[0] < 0x80 then 1 else k;
      assert u[k..] == Escaped(s[n..]) + ([QUOTE] + x);
      assert u[..m][k..] == u[k..][..m - k];
      assert u[k..][m - k] == u[m];
      OwnQuote(s[n..], x, m - k);
    }
  }

  lemma FirstUnit(s: Str, x: Str, m: nat)
    requires s != [] && var u := Escaped(s) + ([QUOTE] + x); m < |u| && u[m] == QUOTE && Body(u[..m])
    ensures var u := Escaped(s) + ([QUOTE] + x);
            var k := UnitLength(u[..m]);
            var n := if s[0] < 0x80 then 1 else k;
            0 < k <= m && 0 < n <= |s| && |Escaped(s)| == k + |Escaped(s[n..])|
            && u[k..] == Escaped(s[n..]) + ([QUOTE] + x)
  {
    hide Escaped, EscapedByte, Body, UnitLength;
    var y := [QUOTE] + x;
    var u := Escaped(s) + y;
    var b := u[..m];
    HeadIsNoQuote(s);
    assert u[0] == Escaped(s)[0];
    BodyUnfolds(b);
    var k := UnitLength(b);
    assert u[..k] == b[..k];
    UnitOfPrefix(b, u);
    if s[0] < 0x80 {
      LowUnit(s, y);
      Cut(Escaped(s), y, k);
    } else {
      HighUnit(u);
      WrittenHigh(s, y, k);
    }
  }

  lemma Cut(e: Str, y: Str, k: nat)
    requires k <= |e|
    ensures (e + y)[k..] == e[k..] + y
  {
  }

  /** Bytes above ASCII in front of a quote stem from the string, where they stand as well. */
  lemma WrittenHigh(s: Str, y: Str, k: nat)
    requires y != [] && y[0] == QUOTE && k <= |Escaped(s) + y| && forall i | 0 <= i < k :: (Escaped(s) + y)[i] >= 0x80
    ensures k <= |s| && |Escaped(s)| == k + |Escaped(s[k..])| && (Escaped(s) + y)[k..] == Escaped(s[k..]) + y
  {
    hide Escaped;
    var e := Escaped(s);
    assert (e + y)[|e|] == y[0];
    assert forall i | 0 <= i < k :: e[i] == (e + y)[i];
    HighBytesBack(s, k);
    HighBytes(s, k);
    Cut(e, y, k);
    assert e[k..] == Escaped(s[k..]);
  }

  lemma HighUnit(b: Str)
    requires b != [] && b[0] >= 0x80 && UnitLength(b) > 0
    ensures forall i | 0 <= i < UnitLength(b) :: b[i] >= 0x80
  {
    hide Utf8Length;
    LengthOfPrefix(b, b);
  }

  lemma BodyUnfolds(b: Str)
    requires Body(b) && b != []
    ensures UnitLength(b) > 0
  {
  }

  lemma HeadIsNoQuote(s: Str)
    requires s != []
    ensures Escaped(s)[0] == EscapedByte(s[0])[0] != QUOTE
    ensures s[0] >= 0x80 ==> Escaped(s)[0] == s[0]
  {
    hide Escaped;
    UnfoldEscaped(s);
  }

  lemma LowUnit(s: Str, y: Str)
    requires s != [] && s[0] < 0x80
    ensures UnitLength(Escaped(s) + y) == |EscapedByte(s[0])|
    ensures |EscapedByte(s[0])| <= |Escaped(s)| && Escaped(s)[|EscapedByte(s[0])|..] == Escaped(s[1..])
  {
    hide Escaped, EscapedByte, UnitLength;
    LowHead(s);
    EscapedByteShape(s[0]);
    var e := Escaped(s);
    var k := UnitLength(e);
    assert (e + y)[..k] == e[..k];
    UnitOfPrefix(e, e + y);
  }

  lemma QuoteIsString(s: Str)
    ensures IsString(Quote(s)) <==> Valid(s)
    ensures Quote(s)[0] == QUOTE
  {
    hide Escaped, Body, Valid;
    BodyOfEscaped(s);
    assert Quote(s)[1..|Quote(s)| - 1] == Escaped(s);
  }

  lemma InsideQuotes(u: Str, n: nat)
    requires n <= |u| + 1 && IsString(([QUOTE] + u)[..n])
    ensures n >= 2 && u[n - 2] == QUOTE && Body(u[..n - 2])
  {
    hide Body;
    var t := ([QUOTE] + u)[..n];
    assert t[1..n - 1] == u[..n - 2];
  }

  lemma BrokenString(s: Str, rest: Str)
    requires Ended(rest) && !Valid(s)
    ensures Ended(Quote(s) + rest) && Lexed(Quote(s) + rest) == [Mark(ParseError)]
  {
    hide Escaped, Head, Lexed, Valid, IsString, Body;
    var t := Quote(s) + rest;
    EndedBehind(Quote(s), rest);
    QuoteIsString(s);
    LexedToken(t);
    var n := Head(t).1;
    StringAtHead(t, n);
    if IsString(t[..n]) {
      var u := Escaped(s) + ([QUOTE] + rest);
      assert t == [QUOTE] + u;
      InsideQuotes(u, n);
      assert u[..|Escaped(s)|] == Escaped(s);
      BodyOfEscaped(s);
      OwnQuote(s, rest, n - 2);
      assert false;
    }
  }

  lemma SpellQuote(s: Str, rest: Str)
    requires Ended(rest)
    ensures Ended(Quote(s) + rest) && Spells(WellFormed(s), Quote(s) + rest, [StringToken(Quote(s))], rest)
  {
    hide Quote, Lexed, Valid, WellFormed, IsString;
    ValidIsWellFormed(s);
    QuoteIsString(s);
    if Valid(s) { SpellToken(ValueString, Quote(s), rest); } else { BrokenString(s, rest); }
  }
}
