/** Every parsed value is in UTF-8, so that its dumped text is accepted again. */
module ReparseLaw {
  import opened Bytes
  import opened Values
  import opened JsonStrings
  import opened Quoting
  import opened Tokens
  import opened TokenLaw
  import opened Numbers
  import opened Grammar
  import opened GrammarLaw
  import opened Scanner
  import opened Parsing
  import opened Dumping
  import opened TextLaw
  import opened DumpLaw

  predicate StringsOk(ts: seq<Token>) { forall i | 0 <= i < |ts| && ts[i].StringToken? :: IsString(ts[i].text) }

  /** The scanner yields string tokens of the grammar only. */
  lemma {:induction false} LexedStrings(s: Str)
    requires Ended(s)
    ensures StringsOk(Lexed(s))
    decreases |s|
  {
    hide Head, IsString, Lexed, TokenOf, IsToken, Behind;
    var t := Behind(s, 0);
    var (k, n) := Head(t);
    LexedUnfolds(s);
    if !Final(k) {
      HeadTokenOk(t);
      BehindShorter(s);
      assert t[n..][|t[n..]| - 1] == 0;
      LexedStrings(t[n..]);
      assert StringsOk([TokenOf(k, t[..n])]);
    }
  }

  lemma BehindShorter(s: Str)
    requires Ended(s)
    ensures |Behind(s, 0)| <= |s|
  {
  }

  lemma HeadTokenOk(t: Str)
    requires t != []
    ensures var (k, n) := Head(t);
            TokenOf(k, t[..n]).StringToken? ==> IsString(TokenOf(k, t[..n]).text)
  {
    hide Head, IsString;
    HeadIsLongestToken(t);
  }

  lemma PartsOk(a: seq<Token>, b: seq<Token>)
    requires StringsOk(a + b)
    ensures StringsOk(a) && StringsOk(b)
  {
    hide IsString;
    forall i | 0 <= i < |a| && a[i].StringToken? ensures IsString(a[i].text) { assert (a + b)[i] == a[i]; }
    forall i | 0 <= i < |b| && b[i].StringToken? ensures IsString(b[i].text) { assert (a + b)[|a| + i] == b[i]; }
  }

  /** What `get_string` makes of a string token, unless it throws, is well-formed UTF-8. */
  lemma StringIsUtf8(text: Str)
    requires IsString(text)
    ensures match StringOf(text)
            case Ok(s) => WellFormed(s) && Scalars(text[1..|text| - 1]).Ok?
            case Err(_) => Scalars(text[1..|text| - 1]).Err?
  {
    hide Unquoted, Scalars, EscapesOk, Utf8All;
    UnquotedIsMeaning(text[1..|text| - 1]);
  }

  lemma {:induction false} TreeInUtf8(strtod: Str -> uint64, t: Tree)
    requires StringsOk(Yield(t)) && Meaning(strtod, t).Ok?
    ensures TextsInUtf8(Meaning(strtod, t).value)
    decreases t, 1
  {
    hide StringsOk, StringOf, NumberValue, MeaningItems, MeaningMembers, YieldItems, YieldMembers, WellFormed;
    match t
    case Leaf(StringToken(text)) =>
      OneToken(StringToken(text));
      StringIsUtf8(text);
    case Leaf(NumberToken(text)) => NumberInUtf8(strtod, text);
    case Leaf(Mark(_)) =>
    case Array(items) =>
      PartsOk([Mark(BeginArray)] + YieldItems(items), [Mark(EndArray)]);
      PartsOk([Mark(BeginArray)], YieldItems(items));
      ItemsInUtf8(strtod, items, []);
    case Object(members) =>
      PartsOk([Mark(BeginObject)] + YieldMembers(members), [Mark(EndObject)]);
      PartsOk([Mark(BeginObject)], YieldMembers(members));
      MemberTextsInUtf8(strtod, members, map[]);
  }

  lemma OneToken(t: Token)
    requires StringsOk([t])
    ensures t.StringToken? ==> IsString(t.text)
  {
    assert [t][0] == t;
  }

  lemma NumberInUtf8(strtod: Str -> uint64, text: Str)
    ensures TextsInUtf8(NumberValue(strtod, text))
  {
  }

  lemma {:induction false} ItemsInUtf8(strtod: Str -> uint64, items: Items, acc: seq<Value>)
    requires StringsOk(YieldItems(items)) && MeaningItems(strtod, items, acc).Ok?
    requires forall i | 0 <= i < |acc| :: TextsInUtf8(acc[i])
    ensures TextsInUtf8(MeaningItems(strtod, items, acc).value)
    decreases items, 0
  {
    hide StringsOk, Meaning, Yield;
    if items.Item? {
      if items.tail.Item? {
        PartsOk(Yield(items.head) + [Mark(ValueSeparator)], YieldItems(items.tail));
        PartsOk(Yield(items.head), [Mark(ValueSeparator)]);
      } else {
        EmptyOk();
      }
      TreeInUtf8(strtod, items.head);
      ItemsInUtf8(strtod, items.tail, acc + [Meaning(strtod, items.head).value]);
    }
  }

  lemma EmptyOk()
    ensures StringsOk([])
  {
  }

  lemma {:induction false} MemberTextsInUtf8(strtod: Str -> uint64, ms: Members, acc: map<Str, Value>)
    requires StringsOk(YieldMembers(ms)) && MeaningMembers(strtod, ms, acc).Ok?
    requires forall k | k in acc :: WellFormed(k) && TextsInUtf8(acc[k])
    ensures TextsInUtf8(MeaningMembers(strtod, ms, acc).value)
    decreases ms, 0
  {
    hide StringsOk, Meaning, Yield, StringOf, WellFormed;
    if ms.Member? {
      var name := [StringToken(ms.key), Mark(NameSeparator)];
      if ms.rest.Member? {
        PartsOk(name + Yield(ms.value) + [Mark(ValueSeparator)], YieldMembers(ms.rest));
        PartsOk(name + Yield(ms.value), [Mark(ValueSeparator)]);
      } else {
        EmptyOk();
      }
      PartsOk(name, Yield(ms.value));
      assert name == [StringToken(ms.key)] + [Mark(NameSeparator)];
      PartsOk([StringToken(ms.key)], [Mark(NameSeparator)]);
      OneToken(StringToken(ms.key));
      StringIsUtf8(ms.key);
      TreeInUtf8(strtod, ms.value);
      MemberTextsInUtf8(strtod, ms.rest, acc[StringOf(ms.key).value := Meaning(strtod, ms.value).value]);
    }
  }

  /** Whatever text is accepted, every string and every name in the value is well-formed UTF-8. */
  lemma ParsedIsUtf8(strtod: Str -> uint64, content: Str)
    requires ParseText(strtod, content).Ok?
    ensures TextsInUtf8(ParseText(strtod, content).value)
  {
    hide ParseText, Lexed, Yield, Meaning, Derived, TextsInUtf8, StringsOk;
    var v := ParseText(strtod, content).value;
    ParseTextIsGrammar(strtod, content, v);
    var t :| Derivation(strtod, t, Lexed(content + [0]), v, [Mark(EndOfInput)]);
    LexedStrings(content + [0]);
    PartsOk(Yield(t), [Mark(EndOfInput)]);
    TreeInUtf8(strtod, t);
  }

  /** Parsing, dumping in any layout and parsing again gives an equal value. */
  lemma ParseDumpParse(strtod: Str -> uint64, content: Str, st: Style, indent: uint32)
    requires ParseText(strtod, content).Ok? && FloatFree(ParseText(strtod, content).value)
    ensures var v := ParseText(strtod, content).value;
            var again := ParseText(strtod, Dumped(v, st, indent));
            again.Ok? && Eq(again.value, v)
  {
    hide ParseText, Dumped, Norm, TextsInUtf8, FloatFree, AllFinite, Eq;
    var v := ParseText(strtod, content).value;
    ParsedIsUtf8(strtod, content);
    ParseOfDump(strtod, v, st, indent);
    FloatFreeIsFinite(v);
    NormIsEq(v);
  }
}
