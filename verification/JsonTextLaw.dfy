/** Which byte strings `parse` accepts: the JSON texts of RFC 7159, up to the first NUL. */
module JsonTextLaw {
  import opened Bytes
  import opened Results
  import opened Values
  import opened Unicode
  import opened JsonStrings
  import opened Tokens
  import opened Numbers
  import opened TokenLaw
  import opened Scanner
  import opened Grammar
  import opened GrammarLaw
  import opened Dumping
  import opened TextLaw
  import opened DumpLaw
  import opened ReparseLaw

  // ---------- behind a NUL ----------

  /** No token reaches beyond a NUL. */
  lemma {:induction false} LongestAtNul(q: State, s: Str, y: Str)
    ensures Longest(q, s + [0] + y) == Longest(q, s + [0])
    decreases |s|
  {
    hide Tokens.Next, Accept, Longest;
    var u, t := s + [0] + y, s + [0];
    assert u[0] == t[0];
    LongestUnfolds(q, u);
    LongestUnfolds(q, t);
    if s == [] {
      assert u[1..] == y && t[1..] == [];
      AtNul(q, y);
    } else {
      assert u[1..] == s[1..] + [0] + y && t[1..] == s[1..] + [0];
      LongestAtNul(Tokens.Next(q, s[0]), s[1..], y);
    }
  }

  lemma AtNul(q: State, y: Str)
    ensures Tokens.Next(q, 0) == Reject || (Tokens.Next(q, 0) == S2 && Longest(S2, y) == Longest(S2, []))
  {
    if q == Begin {
      Scanner.Accepted(S2, y);
      Scanner.Accepted(S2, []);
    } else {
      NeverBegins(q, 0);
    }
  }

  lemma {:induction false} BlanksAtNul(s: Str, y: Str)
    ensures Blanks(s + [0] + y) == Blanks(s + [0]) <= |s|
  {
    var u, t := s + [0] + y, s + [0];
    assert u[0] == t[0];
    if s != [] {
      assert u[1..] == s[1..] + [0] + y && t[1..] == s[1..] + [0];
      BlanksAtNul(s[1..], y);
    }
  }

  lemma CutRest(s: Str, k: nat, y: Str)
    requires k <= |s|
    ensures (s + [0] + y)[k..] == s[k..] + [0] + y && (s + [0])[k..] == s[k..] + [0]
  {
  }

  lemma CutToken(s: Str, n: nat, y: Str)
    requires n <= |s|
    ensures (s + [0] + y)[..n] == s[..n] && (s + [0])[..n] == s[..n]
  {
  }

  /** The tokens of a text are those up to its first NUL, wherever it is. */
  lemma {:induction false} LexedAtNul(s: Str, y: Str)
    requires Ended(y)
    ensures Ended(s + [0] + y) && Lexed(s + [0] + y) == Lexed(s + [0])
    decreases |s|
  {
    hide Lexed, Blanks, TokenOf, Longest;
    EndedBehind(s + [0], y);
    BlanksAtNul(s, y);
    var b := Blanks(s + [0]);
    var c := s[b..];
    CutRest(s, b, y);
    LongestAtNul(Begin, c, y);
    LexedFrom(s + [0] + y);
    LexedFrom(s + [0]);
    HeadBeforeNul(c + [0]);
    var (k, n) := Head(c + [0]);
    if !Final(k) {
      CutRest(c, n, y);
      CutToken(c, n, y);
      LexedAtNul(c[n..], y);
    }
  }

  lemma LexedFrom(s: Str)
    requires Ended(s)
    ensures var t := s[Blanks(s)..];
            Ended(t) &&
            var (k, n) := Head(t);
            if Final(k) then Lexed(s) == [Mark(k)]
            else n < |t| && Lexed(s) == [TokenOf(k, t[..n])] + Lexed(t[n..])
  {
    hide Head, TokenOf, Blanks;
    var t := s[Blanks(s)..];
    assert Ended(t);
    HeadBeforeNul(t);
  }

  /** `parse` ignores what stands behind a NUL. */
  lemma NulEndsText(strtod: Str -> uint64, c: Str, x: Str)
    ensures ParseText(strtod, c + [0] + x) == ParseText(strtod, c)
  {
    hide Lexed;
    LexedAtNul(c, x + [0]);
    assert c + [0] + x + [0] == c + [0] + (x + [0]);
  }

  /** An input: behind the number and its NUL stands what no JSON text may end in. */
  lemma IgnoredBehindNul(strtod: Str -> uint64)
    ensures ParseText(strtod, [49, 0, 120]) == Ok(UInt(1))
  {
    hide ParseText;
    var st := Style(_ => [], false, 0);
    NulEndsText(strtod, [49], [120]);
    assert [49] + [0] + [120] == [49, 0, 120];
    assert Dumped(UInt(1), st, 0) == [49];
    ParseOfDump(strtod, UInt(1), st, 0);
  }

  function UpToNul(s: Str): (c: Str)
    ensures 0 !in c && c <= s
    ensures |c| < |s| ==> s[|c|] == 0
  {
    if s == [] || s[0] == 0 then [] else [s[0]] + UpToNul(s[1..])
  }

  /** A text means what it means up to its first NUL. */
  lemma ParseUpToNul(strtod: Str -> uint64, content: Str)
    ensures ParseText(strtod, content) == ParseText(strtod, UpToNul(content))
  {
    hide ParseText;
    var c := UpToNul(content);
    if |c| < |content| {
      assert content == c + [0] + content[|c| + 1..];
      NulEndsText(strtod, c, content[|c| + 1..]);
    } else {
      assert c == content;
    }
  }

  // ---------- the bytes of a JSON text ----------

  /** Spaces, tabs, line feeds and carriage returns (RFC 7159, section 2). */
  ghost predicate AllBlank(w: Str) { forall i | 0 <= i < |w| :: w[i] in {0x20, 0x09, 0x0a, 0x0d} }

  function KindOf(t: Token): TokenType {
    match t case StringToken(_) => ValueString case NumberToken(_) => ValueNumber case Mark(k) => k
  }

  function TokenText(t: Token): Str {
    match t
    case StringToken(text) => text
    case NumberToken(text) => text
    case Mark(LiteralTrue) => TRUE
    case Mark(LiteralFalse) => FALSE
    case Mark(LiteralNull) => NULL
    case Mark(BeginArray) => [0x5b]
    case Mark(BeginObject) => [0x7b]
    case Mark(EndArray) => [0x5d]
    case Mark(EndObject) => [0x7d]
    case Mark(NameSeparator) => [0x3a]
    case Mark(ValueSeparator) => [0x2c]
    case Mark(_) => []
  }

  /** A token of JSON with the text the grammar gives it. */
  predicate Proper(t: Token) { !Final(KindOf(t)) && IsToken(KindOf(t), TokenText(t)) }

  ghost predicate Begins(w: Str, t: Token, rest: Str, s: Str) {
    AllBlank(w) && Proper(t) && s == w + (TokenText(t) + rest)
  }

  /** The bytes `s` are the texts of `ts`, with blanks before, between and behind them. */
  ghost predicate Written(ts: seq<Token>, s: Str) {
    if ts == [] then AllBlank(s)
    else exists w, rest :: Begins(w, ts[0], rest, s) && Written(ts[1..], rest)
  }

  /** A JSON text of RFC 7159, with its derivation. */
  ghost predicate JsonText(t: Tree, s: Str) { Derived(t) && Written(Yield(t), s) }

  // ---------- what is scanned is written ----------

  lemma TokenOfText(k: TokenType, text: Str)
    requires IsToken(k, text) && !Final(k)
    ensures var t := TokenOf(k, text); Proper(t) && KindOf(t) == k && TokenText(t) == text
  {
    hide IsString, IsNumber;
  }

  lemma TextOfToken(t: Token)
    requires Proper(t)
    ensures TokenOf(KindOf(t), TokenText(t)) == t && (KindOf(t) == ValueNumber ==> t.NumberToken?)
  {
    hide IsString, IsNumber;
    EmptyIsNoToken(ValueString);
    EmptyIsNoToken(ValueNumber);
  }

  lemma BlanksFirst(s: Str)
    ensures var b := Blanks(s + [0]); b <= |s| && AllBlank(s[..b])
  {
    BlanksAtNul(s, []);
    var b := Blanks(s + [0]);
    assert forall i | 0 <= i < b :: s[..b][i] == (s + [0])[i];
  }

  lemma EndIsNul(t: Str)
    requires t != [] && Head(t).0 == EndOfInput
    ensures t[0] == 0
  {
    hide Head;
    HeadIsLongestToken(t);
    var n := Head(t).1;
    assert t[..n] == [0];
    assert t[..n][0] == t[0];
  }

  lemma FirstByte(s: Str, b: nat)
    requires b <= |s| && 0 !in s
    ensures s[b..] != [] ==> (s[b..] + [0])[0] != 0
  {
    assert b < |s| ==> (s[b..] + [0])[0] == s[b];
  }

  lemma ScannedToken(t: Str)
    requires t != [] && !Final(Head(t).0)
    ensures var (k, n) := Head(t); IsToken(k, t[..n])
  {
    hide Head, IsToken;
    HeadIsLongestToken(t);
  }

  lemma FirstOf(ts: seq<Token>, t: Token, more: seq<Token>)
    requires ts + [Mark(EndOfInput)] == [t] + more && more != []
    ensures ts != [] && ts[0] == t && more == ts[1..] + [Mark(EndOfInput)]
  {
    var all := [t] + more;
    assert |all| == 1 + |more| == |ts| + 1;
    assert all[0] == t && all[1..] == more;
    assert (ts + [Mark(EndOfInput)])[1..] == ts[1..] + [Mark(EndOfInput)];
  }

  lemma Divided(s: Str, b: nat, n: nat)
    requires b + n <= |s|
    ensures var c := s[b..]; s == s[..b] + (c[..n] + c[n..]) && forall x | x in c[n..] :: x in s
  {
  }

  /** Scanning to the end passes over no byte that is neither a blank nor part of a token. */
  lemma {:induction false} LexedIsWritten(s: Str, ts: seq<Token>)
    requires 0 !in s && Lexed(s + [0]) == ts + [Mark(EndOfInput)]
    ensures Written(ts, s)
    decreases |s|
  {
    hide Lexed, Blanks, TokenOf, Head, IsToken, KindOf, TokenText, AllBlank, Proper;
    BlanksFirst(s);
    var b := Blanks(s + [0]);
    var c := s[b..];
    CutRest(s, b, []);
    LexedFrom(s + [0]);
    var (k, n) := Head(c + [0]);
    var more := ts + [Mark(EndOfInput)];
    if Final(k) {
      assert more == [Mark(k)];
      assert more[|ts|] == Mark(EndOfInput);
      EndIsNul(c + [0]);
      FirstByte(s, b);
      assert s[..b] == s;
    } else {
      CutRest(c, n, []);
      CutToken(c, n, []);
      ScannedToken(c + [0]);
      var text, rest := c[..n], c[n..];
      TokenOfText(k, text);
      FirstOf(ts, TokenOf(k, text), Lexed(rest + [0]));
      Divided(s, b, n);
      LexedIsWritten(rest, ts[1..]);
      assert Begins(s[..b], ts[0], rest, s);
    }
  }

  // ---------- what is written is scanned ----------

  /** No two numbers stand side by side. */
  predicate Apart(ts: seq<Token>) {
    forall i | 0 < i < |ts| :: ts[i].NumberToken? ==> !ts[i - 1].NumberToken?
  }

  lemma BlankOrStart(w: Str, t: Token, rest: Str, s: Str)
    requires Begins(w, t, rest, s)
    ensures s != [] && (ContinuesNumber(s[0]) ==> t.NumberToken?)
  {
    hide IsString, IsNumber;
    if w == [] {
      TokenStart(KindOf(t), TokenText(t));
      assert s[0] == TokenText(t)[0];
      if t.StringToken? { StringStart(t.text); }
    } else {
      assert s[0] == w[0];
    }
  }

  lemma NothingContinues(ts: seq<Token>, s: Str)
    requires Written(ts, s) && (ts == [] || !ts[0].NumberToken?)
    ensures !ContinuesNumber((s + [0])[0])
  {
    hide Begins;
    if ts == [] {
      if s != [] { assert IsBlank(s[0]); }
    } else {
      var w, rest :| Begins(w, ts[0], rest, s) && Written(ts[1..], rest);
      BlankOrStart(w, ts[0], rest, s);
    }
  }

  lemma Finished()
    ensures Lexed([0]) == [Mark(EndOfInput)]
  {
    assert [0][..1] == [0];
    TokenAtHead([0], 1, EndOfInput);
    NotBlank([0]);
  }

  lemma SpellWord(w: Str, t: Token, rest: Str)
    requires AllBlank(w) && Proper(t) && (t.NumberToken? ==> !ContinuesNumber((rest + [0])[0]))
    ensures var s := w + (TokenText(t) + rest); Lexed(s + [0]) == [t] + Lexed(rest + [0])
  {
    hide Lexed, IsToken, TokenText, ContinuesNumber, TokenOf;
    var text := TokenText(t);
    TextOfToken(t);
    SpellToken(KindOf(t), text, rest + [0]);
    SpellBlanks(w, text + (rest + [0]));
    assert w + (text + rest) + [0] == w + (text + (rest + [0]));
    Chain(true, w + (text + (rest + [0])), [], text + (rest + [0]), true, [t], rest + [0]);
    assert [] + [t] == [t];
  }

  /** A text written as tokens, no two numbers side by side, is scanned into these tokens. */
  lemma {:induction false} WrittenIsLexed(ts: seq<Token>, s: Str)
    requires Written(ts, s) && Apart(ts)
    ensures Lexed(s + [0]) == ts + [Mark(EndOfInput)]
    decreases |ts|
  {
    hide Lexed, TokenText, Proper, ContinuesNumber;
    if ts == [] {
      SpellBlanks(s, [0]);
      Finished();
      assert [] + Lexed([0]) == Lexed([0]);
    } else {
      var w, rest :| Begins(w, ts[0], rest, s) && Written(ts[1..], rest);
      assert Apart(ts[1..]);
      WrittenIsLexed(ts[1..], rest);
      if ts[0].NumberToken? {
        assert |ts| > 1 ==> ts[1..][0] == ts[1];
        NothingContinues(ts[1..], rest);
      }
      SpellWord(w, ts[0], rest);
      assert [ts[0]] + (ts[1..] + [Mark(EndOfInput)]) == ts + [Mark(EndOfInput)];
    }
  }

  lemma ApartJoin(a: seq<Token>, k: TokenType, b: seq<Token>)
    requires Apart(a) && Apart(b)
    ensures Apart(a + [Mark(k)] + b)
  {
    var ts := a + [Mark(k)] + b;
    forall i | 0 < i < |ts| && ts[i].NumberToken?
      ensures !ts[i - 1].NumberToken?
    {
      if i < |a| {
        assert ts[i] == a[i] && ts[i - 1] == a[i - 1];
      } else if i > |a| + 1 {
        var j := i - |a| - 1;
        assert ts[i] == b[j] && ts[i - 1] == b[j - 1];
      }
    }
  }

  /** Between two values the grammar always puts a separator. */
  lemma {:induction false} YieldIsApart(t: Tree)
    ensures Apart(Yield(t))
    decreases t, 0
  {
    hide Apart, YieldItems, YieldMembers;
    match t
    case Leaf(token) => OneApart(token);
    case Array(items) =>
      ItemsAreApart(items);
      Enclosed(BeginArray, YieldItems(items), EndArray);
    case Object(members) =>
      MembersAreApart(members);
      Enclosed(BeginObject, YieldMembers(members), EndObject);
  }

  lemma OneApart(t: Token)
    ensures Apart([]) && Apart([t])
  {
  }

  lemma Enclosed(first: TokenType, ts: seq<Token>, last: TokenType)
    requires Apart(ts)
    ensures Apart([Mark(first)] + ts + [Mark(last)])
  {
    hide Apart;
    OneApart(Mark(first));
    ApartJoin([], first, ts);
    assert [] + [Mark(first)] + ts == [Mark(first)] + ts;
    ApartJoin([Mark(first)] + ts, last, []);
    assert [Mark(first)] + ts + [Mark(last)] + [] == [Mark(first)] + ts + [Mark(last)];
  }

  lemma {:induction false} ItemsAreApart(items: Items)
    ensures Apart(YieldItems(items))
    decreases items, 1
  {
    hide Apart, Yield;
    match items
    case NoItems => OneApart(Mark(EndArray));
    case Item(head, tail) =>
      YieldIsApart(head);
      ItemsAreApart(tail);
      ApartJoin(Yield(head), ValueSeparator, YieldItems(tail));
  }

  lemma {:induction false} MembersAreApart(ms: Members)
    ensures Apart(YieldMembers(ms))
    decreases ms, 1
  {
    hide Apart, Yield;
    match ms
    case NoMembers => OneApart(Mark(EndObject));
    case Member(key, value, rest) =>
      YieldIsApart(value);
      MembersAreApart(rest);
      OneApart(StringToken(key));
      ApartJoin([StringToken(key)], NameSeparator, Yield(value));
      assert [StringToken(key), Mark(NameSeparator)] == [StringToken(key)] + [Mark(NameSeparator)];
      ApartJoin([StringToken(key), Mark(NameSeparator)] + Yield(value), ValueSeparator, YieldMembers(rest));
  }

  // ---------- acceptance ----------

  lemma EndedDerivation(strtod: Str -> uint64, t: Tree, ts: seq<Token>, v: Value)
    ensures Derivation(strtod, t, ts, v, [Mark(EndOfInput)])
       <==> Derived(t) && ts == Yield(t) + [Mark(EndOfInput)] && Meaning(strtod, t) == Ok(v)
  {
    hide Yield, Derived, Meaning;
  }

  /** `parse` yields a value exactly when the bytes up to the first NUL are a JSON text that means it. */
  lemma ParseIsJsonText(strtod: Str -> uint64, content: Str, v: Value)
    ensures ParseText(strtod, content) == Ok(v)
       <==> exists t :: JsonText(t, UpToNul(content)) && Meaning(strtod, t) == Ok(v)
  {
    hide ParseText, Yield, Derived, Meaning, Lexed, Derivation;
    var c := UpToNul(content);
    var ts := Lexed(c + [0]);
    ParseUpToNul(strtod, content);
    ParseTextIsGrammar(strtod, c, v);
    if t :| Derivation(strtod, t, ts, v, [Mark(EndOfInput)]) {
      EndedDerivation(strtod, t, ts, v);
      LexedIsWritten(c, Yield(t));
      assert JsonText(t, c);
    }
    if t :| JsonText(t, c) && Meaning(strtod, t) == Ok(v) {
      YieldIsApart(t);
      WrittenIsLexed(Yield(t), c);
      EndedDerivation(strtod, t, ts, v);
    }
  }

  /** A string token denotes characters: it holds no lone surrogate. */
  predicate PairedToken(t: Token) {
    t.StringToken? ==> IsString(t.text) && Scalars(t.text[1..|t.text| - 1]).Ok?
  }

  predicate Paired(ts: seq<Token>) { forall i | 0 <= i < |ts| :: PairedToken(ts[i]) }

  lemma PairedParts(a: seq<Token>, b: seq<Token>)
    ensures Paired(a + b) <==> Paired(a) && Paired(b)
  {
    hide PairedToken;
    if Paired(a + b) {
      assert forall i | 0 <= i < |a| :: a[i] == (a + b)[i];
      assert forall i | 0 <= i < |b| :: b[i] == (a + b)[|a| + i];
    }
  }

  lemma PairedMark(k: TokenType)
    ensures Paired([]) && Paired([Mark(k)])
  {
  }

  lemma PairedString(text: Str)
    requires IsString(text)
    ensures Paired([StringToken(text)]) <==> StringOf(text).Ok?
  {
    hide IsString, Scalars, StringOf;
    StringIsUtf8(text);
    assert [StringToken(text)][0].text == text;
  }

  /** A derivation has a meaning exactly when its strings have one. */
  lemma {:induction false} MeaningIsPaired(strtod: Str -> uint64, t: Tree)
    requires Derived(t) && StringsOk(Yield(t))
    ensures Meaning(strtod, t).Ok? <==> Paired(Yield(t))
    decreases t, 0
  {
    hide StringsOk, StringOf, NumberValue, MeaningItems, MeaningMembers, YieldItems, YieldMembers, Paired;
    match t
    case Leaf(StringToken(text)) =>
      OneToken(StringToken(text));
      PairedString(text);
    case Leaf(NumberToken(text)) => PairedNumber(text);
    case Leaf(Mark(k)) => PairedMark(k);
    case Array(items) =>
      PairedInside(BeginArray, YieldItems(items), EndArray);
      ItemsArePaired(strtod, items, []);
    case Object(members) =>
      PairedInside(BeginObject, YieldMembers(members), EndObject);
      MembersArePaired(strtod, members, map[]);
  }

  lemma PairedNumber(text: Str)
    ensures Paired([NumberToken(text)])
  {
  }

  lemma PairedInside(first: TokenType, ts: seq<Token>, last: TokenType)
    requires StringsOk([Mark(first)] + ts + [Mark(last)])
    ensures StringsOk(ts) && (Paired([Mark(first)] + ts + [Mark(last)]) <==> Paired(ts))
  {
    hide StringsOk, Paired;
    PartsOk([Mark(first)] + ts, [Mark(last)]);
    PartsOk([Mark(first)], ts);
    PairedParts([Mark(first)] + ts, [Mark(last)]);
    PairedParts([Mark(first)], ts);
    PairedMark(first);
    PairedMark(last);
  }

  lemma PairedList(ts: seq<Token>, more: seq<Token>)
    requires StringsOk(ts + [Mark(ValueSeparator)] + more)
    ensures StringsOk(ts) && StringsOk(more)
    ensures Paired(ts + [Mark(ValueSeparator)] + more) <==> Paired(ts) && Paired(more)
  {
    hide StringsOk, Paired;
    PartsOk(ts + [Mark(ValueSeparator)], more);
    PartsOk(ts, [Mark(ValueSeparator)]);
    PairedParts(ts + [Mark(ValueSeparator)], more);
    PairedParts(ts, [Mark(ValueSeparator)]);
    PairedMark(ValueSeparator);
  }

  lemma {:induction false} ItemsArePaired(strtod: Str -> uint64, items: Items, acc: seq<Value>)
    requires DerivedItems(items) && StringsOk(YieldItems(items))
    ensures MeaningItems(strtod, items, acc).Ok? <==> Paired(YieldItems(items))
    decreases items, 1
  {
    hide StringsOk, Paired, Meaning, Yield;
    PairedMark(EndArray);
    if items.Item? {
      var head, tail := items.head, items.tail;
      if tail.Item? { PairedList(Yield(head), YieldItems(tail)); } else { EmptyOk(); }
      MeaningIsPaired(strtod, head);
      if Meaning(strtod, head).Ok? { ItemsArePaired(strtod, tail, acc + [Meaning(strtod, head).value]); }
    }
  }

  lemma PairedMember(key: Str, ts: seq<Token>)
    requires StringsOk([StringToken(key), Mark(NameSeparator)] + ts)
    ensures StringsOk(ts)
    ensures Paired([StringToken(key), Mark(NameSeparator)] + ts) <==> StringOf(key).Ok? && Paired(ts)
  {
    hide StringsOk, Paired, StringOf;
    var name := [StringToken(key)];
    assert [StringToken(key), Mark(NameSeparator)] == name + [Mark(NameSeparator)];
    PartsOk(name + [Mark(NameSeparator)], ts);
    PartsOk(name, [Mark(NameSeparator)]);
    OneToken(StringToken(key));
    PairedString(key);
    PairedParts(name + [Mark(NameSeparator)], ts);
    PairedParts(name, [Mark(NameSeparator)]);
    PairedMark(NameSeparator);
  }

  lemma {:induction false} MembersArePaired(strtod: Str -> uint64, ms: Members, acc: map<Str, Value>)
    requires DerivedMembers(ms) && StringsOk(YieldMembers(ms))
    ensures MeaningMembers(strtod, ms, acc).Ok? <==> Paired(YieldMembers(ms))
    decreases ms, 1
  {
    hide StringsOk, Paired, Meaning, Yield, StringOf;
    PairedMark(EndObject);
    if ms.Member? {
      var key, value, rest := ms.key, ms.value, ms.rest;
      var name := [StringToken(key), Mark(NameSeparator)];
      if rest.Member? { PairedList(name + Yield(value), YieldMembers(rest)); } else { EmptyOk(); }
      PairedMember(key, Yield(value));
      MeaningIsPaired(strtod, value);
      if StringOf(key).Ok? && Meaning(strtod, value).Ok? {
        MembersArePaired(strtod, rest, acc[StringOf(key).value := Meaning(strtod, value).value]);
      }
    }
  }

  lemma {:induction false} WrittenStrings(ts: seq<Token>, s: Str)
    requires Written(ts, s)
    ensures StringsOk(ts)
    decreases |ts|
  {
    hide IsString, IsNumber;
    if ts != [] {
      var w, rest :| Begins(w, ts[0], rest, s) && Written(ts[1..], rest);
      WrittenStrings(ts[1..], rest);
      assert forall i | 0 < i < |ts| :: ts[i] == ts[1..][i - 1];
    }
  }

  /** `parse` accepts exactly the JSON texts of RFC 7159 without lone surrogates, reading up to the first NUL. */
  lemma AcceptedTexts(strtod: Str -> uint64, content: Str)
    ensures ParseText(strtod, content).Ok? <==> exists t :: JsonText(t, UpToNul(content)) && Paired(Yield(t))
  {
    hide ParseText, Yield, Derived, Meaning, Written, Paired, StringsOk;
    var c := UpToNul(content);
    if ParseText(strtod, content).Ok? {
      var v := ParseText(strtod, content).value;
      ParseIsJsonText(strtod, content, v);
      var t :| JsonText(t, c) && Meaning(strtod, t) == Ok(v);
      WrittenStrings(Yield(t), c);
      MeaningIsPaired(strtod, t);
    }
    if t :| JsonText(t, c) && Paired(Yield(t)) {
      WrittenStrings(Yield(t), c);
      MeaningIsPaired(strtod, t);
      ParseIsJsonText(strtod, content, Meaning(strtod, t).value);
    }
  }

  /** An input: the grammar admits a lone surrogate escape, `parse` does not. */
  lemma LoneSurrogate(strtod: Str -> uint64)
    ensures var s := [QUOTE, BACKSLASH, LETTER_U, 100, 56, 48, 48, QUOTE];
            JsonText(Leaf(StringToken(s)), s) && ParseText(strtod, s) == Err(InvalidArgument)
  {
    hide IsString, StringOf, ParseText, Written, Scalars;
    var s := [QUOTE, BACKSLASH, LETTER_U, 100, 56, 48, 48, QUOTE];
    SurrogateIsString(s);
    StringIsUtf8(s);
    StringAlone(strtod, s);
  }

  /** A string by itself is a JSON text, accepted when it can be decoded. */
  lemma StringAlone(strtod: Str -> uint64, s: Str)
    requires IsString(s)
    ensures JsonText(Leaf(StringToken(s)), s) && ParseText(strtod, s) == TextOf(s)
  {
    hide Lexed, IsString, StringOf;
    var t := StringToken(s);
    assert Begins([], t, [], s) by { assert s == [] + (s + []); }
    assert [t][0] == t && [t][1..] == [];
    assert Written([], []);
    WrittenIsLexed([t], s);
    assert [t] + [Mark(EndOfInput)] == [t, Mark(EndOfInput)];
  }

  lemma SurrogateIsString(s: Str)
    requires s == [QUOTE, BACKSLASH, LETTER_U, 100, 56, 48, 48, QUOTE]
    ensures IsString(s) && Scalars(s[1..|s| - 1]).Err?
  {
    var b := s[1..|s| - 1];
    assert b == [BACKSLASH, LETTER_U, 100, 56, 48, 48];
    assert EscapeLength(b) == 6;
    assert b[6..] == [];
    assert Hex4(b, 2) == 0xD800;
  }
}
