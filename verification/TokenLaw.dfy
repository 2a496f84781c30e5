/** The automaton of the scanner accepts exactly the tokens of the grammar. */
module TokenLaw {
  import opened Bytes
  import opened Results
  import opened Decimal
  import opened Unicode
  import opened JsonStrings
  import opened Tokens

  // ---------- strings ----------

  predicate Closes(q: State, t: Str) { Walk(q, t) == S33 }

  lemma Step(q: State, t: Str)
    requires q != S33
    ensures Closes(q, t) <==> t != [] && Closes(Next(q, t[0]), t[1..])
    ensures !Closes(Reject, t)
  {
    Rejected(t);
  }

  lemma Tail1(t: Str)
    ensures Closes(S36, t) <==> |t| >= 1 && IsTail(t[0]) && Closes(S30, t[1..])
  {
    hide Closes;
    Step(S36, t);
    if t != [] { Step(S36, t[1..]); }
  }

  lemma Tail2(t: Str, q: State)
    requires q == S37 || q == S38 || q == S39
    ensures Closes(q, t) <==>
      |t| >= 2 && IsTail(t[0]) && IsTail(t[1]) && (q == S37 ==> t[0] >= 0xA0) && (q == S39 ==> t[0] <= 0x9F)
      && Closes(S30, t[2..])
  {
    hide Closes;
    Step(q, t);
    if t != [] {
      Step(q, t[1..]);
      Tail1(t[1..]);
      if |t| >= 2 { assert t[1..][1..] == t[2..]; }
    }
  }

  lemma Tail3(t: Str, q: State)
    requires q == S40 || q == S41 || q == S42
    ensures Closes(q, t) <==>
      |t| >= 3 && IsTail(t[0]) && IsTail(t[1]) && IsTail(t[2])
      && (q == S40 ==> t[0] >= 0x90) && (q == S42 ==> t[0] <= 0x8F)
      && Closes(S30, t[3..])
  {
    hide Closes;
    Step(q, t);
    if t != [] {
      Step(q, t[1..]);
      Tail2(t[1..], S38);
      if |t| >= 3 { assert t[1..][2..] == t[3..]; }
    }
  }

  lemma HexDigits(t: Str)
    ensures Closes(S48, t) <==> Hex4At(t, 0) && Closes(S30, t[4..])
  {
    hide Closes, IsHex;
    HexStep(S48, t);
    if |t| >= 1 {
      HexStep(S57, t[1..]);
      if |t| >= 2 {
        assert t[1..][1..] == t[2..];
        HexStep(S63, t[2..]);
        if |t| >= 3 {
          assert t[2..][1..] == t[3..];
          HexStep(S66, t[3..]);
          if |t| >= 4 { assert t[3..][1..] == t[4..]; }
        }
      }
    }
  }

  lemma HexStep(q: State, t: Str)
    requires q == S48 || q == S57 || q == S63 || q == S66
    ensures var next := if q == S48 then S57 else if q == S57 then S63 else if q == S63 then S66 else S30;
            Closes(q, t) <==> t != [] && IsHex(t[0]) && Closes(next, t[1..])
  {
    hide Closes, IsHex;
    Step(q, t);
    if t != [] { Step(q, t[1..]); }
  }

  lemma Escape(t: Str)
    requires t != [] && t[0] == BACKSLASH
    ensures Closes(S30, t) <==> EscapeLength(t) > 0 && Closes(S30, t[EscapeLength(t)..])
  {
    hide Closes;
    Step(S30, t);
    Step(S35, t[1..]);
    if |t| >= 2 {
      assert t[1..][1..] == t[2..];
      HexDigits(t[2..]);
      Step(S48, t[2..]);
      if |t| >= 6 { assert t[2..][4..] == t[6..]; }
    }
  }

  lemma Plain(t: Str)
    requires t != [] && t[0] >= 0x20 && t[0] != BACKSLASH && t[0] != QUOTE
    ensures Closes(S30, t) <==> Utf8Length(t) > 0 && Closes(S30, t[Utf8Length(t)..])
  {
    hide Closes;
    Step(S30, t);
    var u := t[1..];
    Step(S36, u);
    match Next(S30, t[0]) {
      case S36 => Tail1(u); if |t| >= 2 { assert u[1..] == t[2..]; }
      case S37 => Tail2(u, S37); if |t| >= 3 { assert u[2..] == t[3..]; }
      case S38 => Tail2(u, S38); if |t| >= 3 { assert u[2..] == t[3..]; }
      case S39 => Tail2(u, S39); if |t| >= 3 { assert u[2..] == t[3..]; }
      case S40 => Tail3(u, S40); if |t| >= 4 { assert u[3..] == t[4..]; }
      case S41 => Tail3(u, S41); if |t| >= 4 { assert u[3..] == t[4..]; }
      case S42 => Tail3(u, S42); if |t| >= 4 { assert u[3..] == t[4..]; }
      case _ =>
    }
  }

  lemma Halted(q: State, t: Str)
    requires Halts(q)
    ensures Walk(q, t) == if t == [] then q else Reject
  {
    if t != [] { Rejected(t[1..]); }
  }

  lemma ClosingQuote(t: Str)
    requires t != [] && (t[0] < 0x20 || t[0] == QUOTE)
    ensures Closes(S30, t) <==> t == [QUOTE]
  {
    if t[0] == QUOTE {
      assert t == [QUOTE] + t[1..];
      Halted(S33, t[1..]);
    } else {
      Rejected(t[1..]);
    }
  }

  /** The element at the head of a string is the element at the head of each longer or shorter part that holds it. */
  lemma UnitOfPrefix(s: Str, t: Str)
    requires 0 < UnitLength(s) <= |t| && t[..UnitLength(s)] == s[..UnitLength(s)]
    ensures UnitLength(t) == UnitLength(s)
  {
    var n := UnitLength(s);
    assert forall k | 0 <= k < n :: t[k] == t[..n][k] && s[k] == s[..n][k];
  }

  lemma Unit(t: Str)
    requires t != [] && t[0] >= 0x20 && t[0] != QUOTE
    ensures Closes(S30, t) <==> UnitLength(t) > 0 && Closes(S30, t[UnitLength(t)..])
  {
    hide Closes, EscapeLength, Utf8Length;
    if t[0] == BACKSLASH { Escape(t); } else { Plain(t); }
  }

  lemma NoBody(t: Str, b: Str)
    requires t != [] && b == t[..|t| - 1] && b != []
    requires UnitLength(t) == 0 || UnitLength(t) == |t|
    ensures !Body(b)
  {
    hide UnitLength;
    if UnitLength(b) > 0 {
      assert t[..UnitLength(b)] == b[..UnitLength(b)];
      UnitOfPrefix(b, t);
    }
  }

  /** After the opening quote, the automaton stops exactly behind a string body and its closing quote. */
  lemma {:induction false} ClosesIsBody(t: Str)
    ensures Closes(S30, t) <==> t != [] && t[|t| - 1] == QUOTE && Body(t[..|t| - 1])
    decreases |t|
  {
    hide Closes, UnitLength;
    Step(S30, t);
    if t != [] {
      var b, n := t[..|t| - 1], UnitLength(t);
      if t[0] < 0x20 || t[0] == QUOTE {
        ClosingQuote(t);
        assert n == 0 by { QuoteIsNoUnit(t); }
        if b != [] { NoBody(t, b); }
      } else {
        Unit(t);
        if 0 < n < |t| {
          ClosesIsBody(t[n..]);
          assert t[..n] == b[..n];
          UnitOfPrefix(t, b);
          assert t[n..][..|t| - n - 1] == b[n..];
          assert b != [];
        } else {
          Step(S30, []);
          assert n == |t| ==> t[n..] == [];
          assert |t| == 1 ==> t[|t| - 1] == t[0];
          if b != [] { NoBody(t, b); }
        }
      }
    }
  }

  lemma QuoteIsNoUnit(t: Str)
    requires t != [] && (t[0] < 0x20 || t[0] == QUOTE)
    ensures UnitLength(t) == 0
  {
  }

  // ---------- numbers ----------

  predicate Counts(q: State, t: Str) { Accept(Walk(q, t)) == Some(ValueNumber) }

  lemma CountStep(q: State, t: Str)
    ensures t == [] ==> (Counts(q, t) <==> Accept(q) == Some(ValueNumber))
    ensures t != [] ==> (Counts(q, t) <==> Counts(Next(q, t[0]), t[1..]))
    ensures !Counts(Reject, t)
  {
    Rejected(t);
  }

  lemma NoDigit(t: Str)
    requires t != [] && !IsDigit(t[0])
    ensures DigitRun(t) == 0 && t[DigitRun(t)..] == t
  {
  }

  lemma ADigit(t: Str)
    requires t != [] && IsDigit(t[0])
    ensures DigitRun(t) == 1 + DigitRun(t[1..]) && t[DigitRun(t)..] == t[1..][DigitRun(t[1..])..]
    ensures AllDigits(t) <==> AllDigits(t[1..])
  {
  }

  lemma {:induction false} PowerDigits(t: Str)
    ensures Counts(S52, t) <==> AllDigits(t)
  {
    hide Counts, DigitRun;
    CountStep(S52, t);
    if t != [] {
      CountStep(Reject, t[1..]);
      if IsDigit(t[0]) { ADigit(t); PowerDigits(t[1..]); } else { NoDigit(t); }
    }
  }

  lemma Power(t: Str)
    ensures Counts(S44, t) <==> IsPower(t)
  {
    hide Counts, DigitRun;
    CountStep(S44, t);
    if t != [] {
      var u := t[1..];
      CountStep(Reject, u);
      CountStep(S51, u);
      PowerDigits(u);
      if u != [] {
        CountStep(Reject, u[1..]);
        PowerDigits(u[1..]);
        if IsDigit(u[0]) { ADigit(u); } else { NoDigit(u); }
      }
      if IsDigit(t[0]) { ADigit(t); } else { NoDigit(t); }
    }
  }

  lemma Exponent(q: State, t: Str)
    requires q == S13 || q == S15 || q == S49
    requires t == [] || !(IsDigit(t[0]) || (q != S49 && t[0] == DOT))
    ensures Counts(q, t) <==> IsExponent(t)
  {
    hide Counts, IsPower;
    CountStep(q, t);
    if t != [] {
      CountStep(Reject, t[1..]);
      Power(t[1..]);
    }
  }

  lemma {:induction false} FractionDigits(t: Str)
    ensures Counts(S49, t) <==> IsExponent(t[DigitRun(t)..])
  {
    hide Counts, DigitRun, IsExponent;
    if t != [] && IsDigit(t[0]) {
      CountStep(S49, t);
      ADigit(t);
      FractionDigits(t[1..]);
    } else {
      if t != [] { NoDigit(t); } else { assert t[DigitRun(t)..] == t; }
      Exponent(S49, t);
    }
  }

  lemma Point(t: Str)
    ensures Counts(S43, t) <==> DigitRun(t) > 0 && IsExponent(t[DigitRun(t)..])
  {
    hide Counts, DigitRun, IsExponent;
    CountStep(S43, t);
    if t != [] {
      CountStep(Reject, t[1..]);
      if IsDigit(t[0]) { ADigit(t); FractionDigits(t[1..]); } else { NoDigit(t); }
    }
  }

  lemma Fraction(q: State, t: Str)
    requires q == S13 || q == S15
    requires q == S15 ==> t == [] || !IsDigit(t[0])
    ensures Counts(q, t) <==> IsFraction(t)
  {
    hide Counts, DigitRun, IsExponent;
    if t != [] && t[0] == DOT {
      CountStep(q, t);
      Point(t[1..]);
    } else if t != [] && IsDigit(t[0]) {
      CountStep(q, t);
      CountStep(Reject, t[1..]);
      DigitIsNoExponent(t);
    } else {
      Exponent(q, t);
    }
  }

  lemma DigitIsNoExponent(t: Str)
    requires t != [] && IsDigit(t[0])
    ensures !IsExponent(t)
  {
  }

  lemma {:induction false} IntegerDigits(t: Str)
    ensures Counts(S15, t) <==> IsFraction(t[DigitRun(t)..])
  {
    hide Counts, DigitRun, IsFraction;
    if t != [] && IsDigit(t[0]) {
      CountStep(S15, t);
      ADigit(t);
      IntegerDigits(t[1..]);
    } else {
      if t != [] { NoDigit(t); } else { assert t[DigitRun(t)..] == t; }
      Fraction(S15, t);
    }
  }

  lemma Unsigned(q: State, t: Str)
    requires q == S12 || (q == Begin && t != [] && IsDigit(t[0]))
    ensures Counts(q, t) <==> IsUnsigned(t)
  {
    hide Counts, DigitRun, IsFraction;
    CountStep(q, t);
    if t != [] {
      CountStep(Reject, t[1..]);
      if t[0] == ZERO {
        Fraction(S13, t[1..]);
      } else if IsDigit(t[0]) {
        ADigit(t);
        IntegerDigits(t[1..]);
      }
    }
  }

  lemma Number(t: Str)
    requires t != [] && (t[0] == MINUS || IsDigit(t[0]))
    ensures Counts(Begin, t) <==> IsNumber(t)
  {
    hide Counts, IsUnsigned;
    if t[0] == MINUS {
      CountStep(Begin, t);
      Unsigned(S12, t[1..]);
    } else {
      Unsigned(Begin, t);
    }
  }

  // ---------- all tokens ----------

  lemma {:induction false} StaysInString(q: State, t: Str)
    requires InString(q)
    ensures InString(Walk(q, t)) || Walk(q, t) == Reject
    decreases |t|
  {
    hide InString, NextOfString;
    if t != [] {
      StringIsAlone(q, t[0]);
      var next := Next(q, t[0]);
      if next == Reject { Rejected(t[1..]); } else { StaysInString(next, t[1..]); }
    }
  }

  lemma StringIsAlone(q: State, c: byte)
    requires InString(q)
    ensures Next(q, c) == NextOfString(q, c)
  {
    hide NextOfString;
  }

  lemma NumberIsAlone(q: State, c: byte)
    requires InNumber(q)
    ensures Next(q, c) == NextOfNumber(q, c)
  {
    hide NextOfNumber;
  }

  lemma {:induction false} StaysInNumber(q: State, t: Str)
    requires InNumber(q)
    ensures InNumber(Walk(q, t)) || Walk(q, t) == Reject
    decreases |t|
  {
    hide InNumber, NextOfNumber;
    if t != [] {
      NumberIsAlone(q, t[0]);
      var next := Next(q, t[0]);
      if next == Reject { Rejected(t[1..]); } else { StaysInNumber(next, t[1..]); }
    }
  }

  /** The letters that complete a literal. */
  function Letters(q: State): Str {
    match q
    case S23 => [0x61, 0x6c, 0x73, 0x65]
    case S45 => [0x6c, 0x73, 0x65]
    case S54 => [0x73, 0x65]
    case S58 => [0x65]
    case S24 => [0x75, 0x6c, 0x6c]
    case S46 => [0x6c, 0x6c]
    case S55 => [0x6c]
    case S25 => [0x72, 0x75, 0x65]
    case S47 => [0x75, 0x65]
    case S56 => [0x65]
    case _ => []
  }

  function WordType(q: State): TokenType {
    if q.S24? || q.S46? || q.S55? || q.S59? then LiteralNull
    else if q.S25? || q.S47? || q.S56? || q.S61? then LiteralTrue
    else LiteralFalse
  }

  lemma LettersStep(q: State, c: byte)
    requires InWord(q)
    ensures var next := Next(q, c);
            if Letters(q) != [] && c == Letters(q)[0] then
              InWord(next) && Letters(next) == Letters(q)[1..] && WordType(next) == WordType(q)
            else next == Reject
  {
    hide Next;
    WordIsAlone(q, c);
  }

  lemma WordIsAlone(q: State, c: byte)
    requires InWord(q)
    ensures Next(q, c) == NextOfWord(q, c)
  {
    hide NextOfWord;
  }

  lemma LettersEnd(q: State)
    requires InWord(q)
    ensures Accept(q) == if Letters(q) == [] then Some(WordType(q)) else None
  {
  }

  lemma {:induction false} Words(q: State, t: Str)
    requires InWord(q)
    ensures Accept(Walk(q, t)) == if t == Letters(q) then Some(WordType(q)) else None
    decreases |t|
  {
    hide Letters, WordType, Accept, Next, InWord;
    if t == [] {
      LettersEnd(q);
    } else {
      LettersStep(q, t[0]);
      assert t == [t[0]] + t[1..];
      var w := Letters(q);
      assert w != [] ==> w == [w[0]] + w[1..];
      if w != [] && t[0] == w[0] {
        Words(Next(q, t[0]), t[1..]);
      } else {
        Rejected(t[1..]);
        NothingRejected();
      }
    }
  }

  lemma StringOnly(t: Str, k: TokenType)
    requires t != [] && t[0] == QUOTE
    ensures Accept(Walk(Begin, t)) == Some(k) <==> k == ValueString && IsString(t)
  {
    hide Body, Walk, Next, Accept;
    var u := t[1..];
    FirstStep(t);
    assert Next(Begin, QUOTE) == S9 by { OpeningQuote(); }
    StaysInString(S9, u);
    StringAccepts(Walk(S9, u));
    assert Closes(S9, u) == Closes(S30, u) by { SameInString(u); }
    ClosesIsBody(u);
    if u != [] { assert u[..|u| - 1] == t[1..|t| - 1]; }
  }

  lemma OpeningQuote()
    ensures Next(Begin, QUOTE) == S9
  {
  }

  lemma StringAccepts(q: State)
    requires InString(q) || q == Reject
    ensures Accept(q) == if q == S33 then Some(ValueString) else None
  {
  }

  lemma SameInString(t: Str)
    ensures Closes(S9, t) == Closes(S30, t)
  {
  }

  lemma NumberOnly(t: Str, k: TokenType)
    requires t != [] && (t[0] == MINUS || IsDigit(t[0]))
    ensures Accept(Walk(Begin, t)) == Some(k) <==> k == ValueNumber && IsNumber(t)
  {
    hide IsNumber;
    StaysInNumber(Next(Begin, t[0]), t[1..]);
    Number(t);
  }

  lemma WordOnly(t: Str, k: TokenType)
    requires t != [] && t[0] in {0x66, 0x6e, 0x74}
    ensures Accept(Walk(Begin, t)) == Some(k) <==> IsToken(k, t)
  {
    hide Walk, Accept, IsToken;
    var w := if t[0] == 0x66 then FALSE else if t[0] == 0x6e then NULL else TRUE;
    var q := Next(Begin, t[0]);
    assert Letters(q) == w[1..];
    assert Walk(Begin, t) == Walk(q, t[1..]) by { FirstStep(t); }
    Words(q, t[1..]);
    assert t == [w[0]] + t[1..] && w == [w[0]] + w[1..];
    WordToken(t, k, w, q);
  }

  lemma FirstStep(t: Str)
    requires t != []
    ensures Walk(Begin, t) == Walk(Next(Begin, t[0]), t[1..])
  {
  }

  lemma WordToken(t: Str, k: TokenType, w: Str, q: State)
    requires (w == FALSE && q == S23) || (w == NULL && q == S24) || (w == TRUE && q == S25)
    requires t != [] && t[0] == w[0]
    ensures IsToken(k, t) <==> t == w && k == WordType(q)
  {
  }

  lemma MarkOnly(t: Str, k: TokenType)
    requires t != [] && t[0] !in {0x66, 0x6e, 0x74, QUOTE, MINUS} && !IsDigit(t[0])
    ensures Accept(Walk(Begin, t)) == Some(k) <==> IsToken(k, t)
  {
    hide Walk, IsToken, Accept, Halts;
    var q, u := Next(Begin, t[0]), t[1..];
    assert t == [t[0]] + u;
    FirstStep(t);
    Mark(t[0], k);
    if u == [] {
      assert t == [t[0]];
      assert Walk(q, u) == q by { WalkNothing(q); }
    } else {
      LongMark(t, k);
      NothingRejected();
      if Halts(q) { Halted(q, u); } else { Rejected(u); }
    }
  }

  lemma WalkNothing(q: State)
    ensures Walk(q, []) == q
  {
  }

  /** One byte that is a token, or begins none. */
  lemma Mark(c: byte, k: TokenType)
    requires c !in {0x66, 0x6e, 0x74, QUOTE, MINUS} && !IsDigit(c)
    ensures Accept(Next(Begin, c)) == Some(k) <==> IsToken(k, [c])
    ensures Halts(Next(Begin, c)) || Next(Begin, c) == Reject
  {
  }

  lemma LongMark(t: Str, k: TokenType)
    requires |t| > 1 && t[0] !in {0x66, 0x6e, 0x74, QUOTE, MINUS} && !IsDigit(t[0])
    ensures !IsToken(k, t)
  {
  }

  /** The automaton accepts the tokens of RFC 7159, each as what it is, and nothing else. */
  lemma AcceptIsToken(t: Str, k: TokenType)
    ensures Accept(Walk(Begin, t)) == Some(k) <==> IsToken(k, t)
  {
    hide Walk, IsString, IsNumber, Accept;
    if t == [] {
      EmptyIsNoToken(k);
    } else {
      HeadOfToken(k, t);
      if t[0] == QUOTE {
        StringOnly(t, k);
      } else if t[0] == MINUS || IsDigit(t[0]) {
        NumberOnly(t, k);
      } else if t[0] in {0x66, 0x6e, 0x74} {
        WordOnly(t, k);
      } else {
        MarkOnly(t, k);
      }
    }
  }

  lemma EmptyIsNoToken(k: TokenType)
    ensures Accept(Walk(Begin, [])) == None && !IsToken(k, [])
  {
  }

  lemma HeadOfToken(k: TokenType, t: Str)
    requires t != []
    ensures t[0] == QUOTE ==> (IsToken(k, t) <==> k == ValueString && IsString(t))
    ensures t[0] == MINUS || IsDigit(t[0]) ==> (IsToken(k, t) <==> k == ValueNumber && IsNumber(t))
  {
  }

  // ---------- the token at the head of a text ----------

  /** The scanner finds the longest token at the head of the text, and an error exactly where there is none. */
  lemma HeadIsLongestToken(s: Str)
    requires s != []
    ensures var (k, n) := Head(s);
            if k == ParseError then n == 1 && forall m, k' | 0 <= m <= |s| :: !IsToken(k', s[..m])
            else IsToken(k, s[..n]) && forall m, k' | n < m <= |s| :: !IsToken(k', s[..m])
  {
    hide Walk, IsToken, Accept, Longest;
    LongestIsLongest(Begin, s);
    var (k, n) := Head(s);
    AcceptIsToken(s[..n], k);
    NoErrorToken(s[..n]);
    forall m, k' | 0 <= m <= |s| && (k == ParseError || n < m)
      ensures !IsToken(k', s[..m])
    {
      assert Accept(Walk(Begin, s[..m])) == None;
      AcceptIsToken(s[..m], k');
    }
  }

  lemma NoErrorToken(s: Str)
    ensures !IsToken(ParseError, s)
  {
  }

  /** The bytes that can follow inside a number. */
  predicate ContinuesNumber(c: byte) { IsDigit(c) || c == DOT || IsE(c) }

  lemma NothingFollows(q: State, c: byte)
    requires Accept(q).Some? && (Accept(q) == Some(ValueNumber) ==> !ContinuesNumber(c))
    ensures Next(q, c) == Reject
  {
  }

  /** A token is found whole, whatever follows; a number, unless what follows could belong to it. */
  lemma TokenAtHead(s: Str, n: nat, k: TokenType)
    requires n <= |s| && IsToken(k, s[..n])
    requires k == ValueNumber && n < |s| ==> !ContinuesNumber(s[n])
    ensures s != [] && Head(s) == (k, n)
  {
    hide IsToken, Walk, Accept, Next, Longest, ContinuesNumber;
    AcceptIsToken(s[..n], k);
    EmptyIsNoToken(k);
    if n < |s| { NothingFollows(Walk(Begin, s[..n]), s[n]); }
    LongestOf(Begin, s, n, k);
  }

  /** From an opening quote: a string token over exactly the span the grammar matches, otherwise an error. */
  lemma StringAtHead(s: Str, n: nat)
    requires s != [] && s[0] == QUOTE && n <= |s|
    ensures Head(s) == (ValueString, n) <==> IsString(s[..n])
    ensures Head(s).0 == ValueString || Head(s) == (ParseError, 1)
  {
    hide IsString, Head;
    HeadIsLongestToken(s);
    var (k, m) := Head(s);
    if k != ParseError { EmptyIsNoToken(k); HeadOfToken(k, s[..m]); }
    if IsString(s[..n]) { TokenAtHead(s, n, ValueString); }
  }

  lemma NeverBegins(q: State, c: byte)
    requires q != Begin
    ensures Next(q, c) != Begin && (c == 0 ==> Next(q, c) == Reject)
  {
    hide NextOfBegin, NextOfString, NextOfNumber, NextOfWord;
  }

  lemma {:induction false} NulRejects(q: State, t: Str)
    requires q != Begin && t != [] && t[|t| - 1] == 0
    ensures Walk(q, t) == Reject
    decreases |t|
  {
    hide Next;
    NeverBegins(q, t[0]);
    if |t| > 1 {
      NulRejects(Next(q, t[0]), t[1..]);
    }
  }

  /** No token but the last one reaches the NUL behind the text. */
  lemma HeadBeforeNul(s: Str)
    requires s != [] && s[|s| - 1] == 0
    ensures Head(s).0 != EndOfInput ==> Head(s).1 < |s|
  {
    hide Longest, Walk, IsToken, Accept;
    var (k, n) := Head(s);
    if n == |s| && k != EndOfInput {
      if |s| == 1 {
        TokenAtHead(s, 1, EndOfInput) by { EndToken(s); }
      } else {
        LongestIsLongest(Begin, s);
        assert s[..n] == s;
        FirstStep(s);
        NulRejects(Next(Begin, s[0]), s[1..]);
        NothingRejected();
      }
    }
  }

  lemma EndToken(s: Str)
    requires |s| == 1 && s[0] == 0
    ensures s[..1] == s && IsToken(EndOfInput, s)
  {
    assert s == [0];
  }
}
