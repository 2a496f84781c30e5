/** Tokens of JSON text (RFC 7159) and the automaton of `lexer::scan` that finds them. */
module Tokens {
  import opened Bytes
  import opened Results
  import opened Decimal
  import opened Unicode
  import opened JsonStrings

  datatype TokenType =
    | Uninitialized | LiteralTrue | LiteralFalse | LiteralNull | ValueString | ValueNumber
    | BeginArray | BeginObject | EndArray | EndObject | NameSeparator | ValueSeparator
    | ParseError | EndOfInput

  // ---------- the grammar of tokens ----------

  const TRUE: Str := [0x74, 0x72, 0x75, 0x65]
  const FALSE: Str := [0x66, 0x61, 0x6c, 0x73, 0x65]
  const NULL: Str := [0x6e, 0x75, 0x6c, 0x6c]
  const DOT: byte := 0x2e

  predicate IsE(c: byte) { c == 0x65 || c == 0x45 }

  predicate AllDigits(t: Str) { DigitRun(t) == |t| }

  /** An optional sign and at least one digit. */
  predicate IsPower(t: Str) {
    var u := if t != [] && t[0] in {PLUS, MINUS} then t[1..] else t;
    u != [] && AllDigits(u)
  }

  /** Nothing, or an exponent. */
  predicate IsExponent(t: Str) { t == [] || (IsE(t[0]) && IsPower(t[1..])) }

  /** An optional fraction, then an optional exponent. */
  predicate IsFraction(t: Str) {
    if t != [] && t[0] == DOT then DigitRun(t[1..]) > 0 && IsExponent(t[1..][DigitRun(t[1..])..])
    else IsExponent(t)
  }

  /** A number without its sign: a zero, or digits of which the first is none. */
  predicate IsUnsigned(t: Str) {
    && t != []
    && IsDigit(t[0])
    && IsFraction(t[if t[0] == ZERO then 1 else DigitRun(t)..])
  }

  /** RFC 7159, section 6. */
  predicate IsNumber(t: Str) { IsUnsigned(if t != [] && t[0] == MINUS then t[1..] else t) }

  /** RFC 7159, section 7. */
  predicate IsString(t: Str) {
    |t| >= 2 && t[0] == QUOTE && t[|t| - 1] == QUOTE && Body(t[1..|t| - 1])
  }

  /** The byte NUL, found behind the text, ends it. */
  predicate IsToken(k: TokenType, t: Str) {
    match k
    case LiteralTrue => t == TRUE
    case LiteralFalse => t == FALSE
    case LiteralNull => t == NULL
    case ValueString => IsString(t)
    case ValueNumber => IsNumber(t)
    case BeginArray => t == [0x5b]
    case BeginObject => t == [0x7b]
    case EndArray => t == [0x5d]
    case EndObject => t == [0x7d]
    case NameSeparator => t == [0x3a]
    case ValueSeparator => t == [0x2c]
    case EndOfInput => t == [0]
    case Uninitialized => false
    case ParseError => false
  }

  // ---------- the automaton ----------

  /** The labels `basic_json_parser_N`; `Reject` stands for 4, 5 and 32. */
  datatype State =
    | Begin | Reject | S2 | S9 | S10 | S12 | S13 | S15 | S17 | S19 | S21 | S23 | S24 | S25 | S26 | S28
    | S30 | S33 | S35 | S36 | S37 | S38 | S39 | S40 | S41 | S42 | S43 | S44 | S45 | S46 | S47 | S48 | S49
    | S51 | S52 | S54 | S55 | S56 | S57 | S58 | S59 | S61 | S63 | S64 | S66

  function NextOfBegin(c: byte): (next: State)
    ensures next != Begin
  {
    if c == 0 then S2
    else if c == 0x22 then S9
    else if c == 0x2c then S10
    else if c == 0x2d then S12
    else if c == 0x30 then S13
    else if 0x31 <= c <= 0x39 then S15
    else if c == 0x3a then S17
    else if c == 0x5b then S19
    else if c == 0x5d then S21
    else if c == 0x66 then S23
    else if c == 0x6e then S24
    else if c == 0x74 then S25
    else if c == 0x7b then S26
    else if c == 0x7d then S28
    else Reject
  }

  function NextInString(c: byte): (next: State)
    ensures next != Begin && next != S12 && (c == 0 ==> next == Reject)
  {
    if c <= 0x1f then Reject
    else if c == 0x22 then S33
    else if c == 0x5c then S35
    else if c <= 0x7f then S30
    else if c <= 0xc1 then Reject
    else if c <= 0xdf then S36
    else if c <= 0xe0 then S37
    else if c == 0xed then S39
    else if c <= 0xef then S38
    else if c <= 0xf0 then S40
    else if c <= 0xf3 then S41
    else if c <= 0xf4 then S42
    else Reject
  }

  function NextOfEscape(c: byte): (next: State)
    ensures next != Begin && next != S12 && (c == 0 ==> next == Reject)
  {
    if c in {0x22, 0x2f, 0x5c, 0x62, 0x66, 0x6e, 0x72, 0x74} then S30
    else if c == 0x75 then S48
    else Reject
  }

  function When(b: bool, q: State): State { if b then q else Reject }

  predicate InString(q: State) {
    q.S9? || q.S30? || q.S33? || q.S35? || q.S36? || q.S37? || q.S38? || q.S39? || q.S40? || q.S41? || q.S42? || q.S48?
    || q.S57? || q.S63? || q.S66?
  }

  predicate InNumber(q: State) {
    q.S12? || q.S13? || q.S15? || q.S43? || q.S44? || q.S49? || q.S51? || q.S52?
  }

  predicate InWord(q: State) {
    q.S23? || q.S24? || q.S25? || q.S45? || q.S46? || q.S47? || q.S54? || q.S55? || q.S56? || q.S58? || q.S59? || q.S61?
    || q.S64?
  }

  function NextOfString(q: State, c: byte): (next: State)
    ensures next == Reject || (InString(next) && !next.S9? && c != 0)
  {
    match q
    case S9 => NextInString(c)
    case S30 => NextInString(c)
    case S35 => NextOfEscape(c)
    case S36 => When(0x80 <= c <= 0xbf, S30)
    case S37 => When(0xa0 <= c <= 0xbf, S36)
    case S38 => When(0x80 <= c <= 0xbf, S36)
    case S39 => When(0x80 <= c <= 0x9f, S36)
    case S40 => When(0x90 <= c <= 0xbf, S38)
    case S41 => When(0x80 <= c <= 0xbf, S38)
    case S42 => When(0x80 <= c <= 0x8f, S38)
    case S48 => When(IsHex(c), S57)
    case S57 => When(IsHex(c), S63)
    case S63 => When(IsHex(c), S66)
    case S66 => When(IsHex(c), S30)
    case _ => Reject
  }

  function NextOfNumber(q: State, c: byte): (next: State)
    ensures next == Reject || (InNumber(next) && !next.S12? && c != 0)
    ensures q == S12 ==> next == Reject || next == S13 || next == S15
    ensures q == S52 ==> next == Reject || next == S52
  {
    match q
    case S12 => if c == ZERO then S13 else When(IsDigit(c), S15)
    case S13 => if c == DOT then S43 else When(IsE(c), S44)
    case S15 => if IsDigit(c) then S15 else if c == DOT then S43 else When(IsE(c), S44)
    case S43 => When(IsDigit(c), S49)
    case S49 => if IsDigit(c) then S49 else When(IsE(c), S44)
    case S44 => if c == PLUS || c == MINUS then S51 else When(IsDigit(c), S52)
    case S51 => When(IsDigit(c), S52)
    case S52 => When(IsDigit(c), S52)
    case _ => Reject
  }

  function NextOfWord(q: State, c: byte): (next: State)
    ensures next == Reject || (InWord(next) && !next.S23? && !next.S24? && !next.S25? && c != 0)
  {
    match q
    case S23 => When(c == 0x61, S45)
    case S45 => When(c == 0x6c, S54)
    case S54 => When(c == 0x73, S58)
    case S58 => When(c == 0x65, S64)
    case S24 => When(c == 0x75, S46)
    case S46 => When(c == 0x6c, S55)
    case S55 => When(c == 0x6c, S59)
    case S25 => When(c == 0x72, S47)
    case S47 => When(c == 0x75, S56)
    case S56 => When(c == 0x65, S61)
    case _ => Reject
  }

  function Next(q: State, c: byte): State {
    if q == Begin then NextOfBegin(c)
    else if InString(q) then NextOfString(q, c)
    else if InNumber(q) then NextOfNumber(q, c)
    else if InWord(q) then NextOfWord(q, c)
    else Reject
  }

  /** The type of token complete in a state. */
  function Accept(q: State): Option<TokenType> {
    match q
    case S2 => Some(EndOfInput)
    case S10 => Some(ValueSeparator)
    case S13 => Some(ValueNumber)
    case S15 => Some(ValueNumber)
    case S49 => Some(ValueNumber)
    case S52 => Some(ValueNumber)
    case S17 => Some(NameSeparator)
    case S19 => Some(BeginArray)
    case S21 => Some(EndArray)
    case S26 => Some(BeginObject)
    case S28 => Some(EndObject)
    case S33 => Some(ValueString)
    case S59 => Some(LiteralNull)
    case S61 => Some(LiteralTrue)
    case S64 => Some(LiteralFalse)
    case _ => None
  }

  /** States that end the scan at once. */
  predicate Halts(q: State) { Accept(q).Some? && Accept(q) != Some(ValueNumber) }

  function Walk(q: State, t: Str): State
    decreases |t|
  {
    if t == [] then q else Walk(Next(q, t[0]), t[1..])
  }

  datatype Match = NoMatch | Matched(length: nat, kind: TokenType)

  /** The longest accepted prefix of `s`, read from state `q` on. */
  function Longest(q: State, s: Str): (m: Match)
    ensures m.Matched? ==> m.length <= |s|
    decreases |s|
  {
    var here := if Accept(q).Some? then Matched(0, Accept(q).value) else NoMatch;
    if s == [] || Next(q, s[0]) == Reject then here
    else Farther(1, Longest(Next(q, s[0]), s[1..]), here)
  }

  function Farther(n: nat, m: Match, otherwise: Match): Match {
    if m.Matched? then Matched(n + m.length, m.kind) else otherwise
  }

  /** The token at the head of `s`; where there is none, one byte in error. */
  function Head(s: Str): (r: (TokenType, nat))
    requires s != []
    ensures 0 < r.1 <= |s|
  {
    match Longest(Begin, s)
    case Matched(n, k) => (k, n)
    case NoMatch => (ParseError, 1)
  }

  predicate IsBlank(c: byte) { c == 0x20 || c == 9 || c == 10 || c == 13 }

  function Blanks(s: Str): (n: nat)
    ensures n <= |s| && (forall i | 0 <= i < n :: IsBlank(s[i])) && (n < |s| ==> !IsBlank(s[n]))
  {
    if s != [] && IsBlank(s[0]) then 1 + Blanks(s[1..]) else 0
  }

  // ---------- the longest match ----------

  lemma {:induction false} Rejected(t: Str)
    ensures Walk(Reject, t) == Reject
  {
    if t != [] { Rejected(t[1..]); }
  }

  lemma WalkUnfolds(q: State, s: Str, m: nat)
    requires m <= |s|
    ensures Walk(q, s[..m]) == if m == 0 then q else Walk(Next(q, s[0]), s[1..][..m - 1])
  {
    hide Next;
    if m > 0 { assert s[..m][1..] == s[1..][..m - 1]; }
  }

  /** What `Longest` finds is accepted, and nothing longer is. */
  lemma {:induction false} LongestIsLongest(q: State, s: Str)
    ensures match Longest(q, s)
            case Matched(n, k) =>
              Accept(Walk(q, s[..n])) == Some(k) && forall m | n < m <= |s| :: Accept(Walk(q, s[..m])) == None
            case NoMatch => forall m | 0 <= m <= |s| :: Accept(Walk(q, s[..m])) == None
    decreases |s|
  {
    hide Next, Accept, Walk;
    WalkUnfolds(q, s, 0);
    NothingRejected();
    if s != [] {
      var next, t := Next(q, s[0]), s[1..];
      if next != Reject { LongestIsLongest(next, t); }
      forall m | 0 < m <= |s|
        ensures Walk(q, s[..m]) == Walk(next, t[..m - 1])
        ensures next == Reject ==> Walk(q, s[..m]) == Reject
      {
        WalkUnfolds(q, s, m);
        if next == Reject { Rejected(t[..m - 1]); }
      }
    }
  }

  lemma NothingRejected()
    ensures Accept(Reject) == None && Accept(Begin) == None
  {
  }

  /** A match that cannot be continued is the longest. */
  lemma {:induction false} LongestOf(q: State, s: Str, n: nat, k: TokenType)
    requires n <= |s| && Accept(Walk(q, s[..n])) == Some(k)
    requires n == |s| || Next(Walk(q, s[..n]), s[n]) == Reject
    ensures Longest(q, s) == Matched(n, k)
    decreases n
  {
    hide Next, Accept;
    if n == 0 {
      assert s[..0] == [];
    } else {
      assert s[..n][1..] == s[1..][..n - 1];
      if Next(q, s[0]) == Reject {
        Rejected(s[1..][..n - 1]);
        NothingRejected();
        assert false;
      }
      LongestOf(Next(q, s[0]), s[1..], n - 1, k);
    }
  }
}
