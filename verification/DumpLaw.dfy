/** `parse` undoes `dump`, for every indentation. */
module DumpLaw {
  import opened Bytes
  import opened Results
  import opened Decimal
  import opened Values
  import opened JsonStrings
  import opened Quoting
  import opened QuotingLaw
  import opened Tokens
  import opened TokenLaw
  import opened Numbers
  import opened Grammar
  import opened GrammarLaw
  import opened Dumping
  import opened TextLaw

  /** Every string and every name is well-formed UTF-8. */
  ghost predicate TextsInUtf8(j: Value)
    decreases j
  {
    match j
    case Text(s) => WellFormed(s)
    case Arr(a) => forall i | 0 <= i < |a| :: TextsInUtf8(a[i])
    case Obj(o) => forall k | k in o :: WellFormed(k) && TextsInUtf8(o[k])
    case _ => true
  }

  ghost predicate MembersInUtf8(j: Value, ks: seq<Str>)
    requires j.Obj? && forall k | k in ks :: k in j.o
  {
    forall i | 0 <= i < |ks| :: WellFormed(ks[i]) && TextsInUtf8(j.o[ks[i]])
  }

  // ---------- the derivation of a dumped text ----------

  function TreeOf(j: Value): (t: Tree)
    requires FloatFree(j)
    ensures Derived(t)
    decreases j, 1, 0
  {
    match j
    case Null => Leaf(Mark(LiteralNull))
    case Bool(b) => Leaf(Mark(if b then LiteralTrue else LiteralFalse))
    case Int(i) => Leaf(NumberToken(IntegerText(i)))
    case UInt(u) => Leaf(NumberToken(IntegerText(u)))
    case Text(s) => Leaf(StringToken(Quote(s)))
    case Arr(a) => Array(ItemsOf(j, 0))
    case Obj(o) => Object(MembersOf(j, SortedKeys(o.Keys)))
  }

  function ItemsOf(j: Value, i: nat): (items: Items)
    requires j.Arr? && FloatFree(j)
    ensures DerivedItems(items)
    decreases j, 0, |j.a| - i
  {
    if i >= |j.a| then NoItems else Item(TreeOf(j.a[i]), ItemsOf(j, i + 1))
  }

  function MembersOf(j: Value, ks: seq<Str>): (ms: Members)
    requires j.Obj? && FloatFree(j) && forall k | k in ks :: k in j.o
    ensures DerivedMembers(ms)
    decreases j, 0, |ks|
  {
    if ks == [] then NoMembers else Member(Quote(ks[0]), TreeOf(j.o[ks[0]]), MembersOf(j, ks[1..]))
  }

  // ---------- its meaning ----------

  lemma QuoteMeans(s: Str)
    ensures StringOf(Quote(s)) == Ok(s)
  {
    hide Escaped, EscapesOk, Unquoted;
    UnquotedOfEscaped(s);
    assert Quote(s)[1..|Quote(s)| - 1] == Escaped(s);
  }

  lemma IntegerMeans(strtod: Str -> uint64, i: int)
    requires INT64_MIN <= i <= UINT64_MAX
    ensures IsNumber(IntegerText(i))
    ensures NumberValue(strtod, IntegerText(i)) == if i < 0 then Int(i) else UInt(i)
  {
    hide IsNumber, NumberValue, Dec;
    NumberValueOfDec(strtod, if i < 0 then -i else i);
  }

  lemma {:induction false} ItemsMean(strtod: Str -> uint64, j: Value, i: nat, acc: seq<Value>)
    requires j.Arr? && FloatFree(j) && i <= |j.a|
    ensures MeaningItems(strtod, ItemsOf(j, i), acc) == Ok(Arr(acc + NormItems(j.a)[i..]))
    decreases j, 0, |j.a| - i
  {
    hide Meaning, TreeOf, Norm;
    if i < |j.a| {
      TreeMeans(strtod, j.a[i]);
      ItemsMean(strtod, j, i + 1, acc + [Norm(j.a[i])]);
      assert acc + [Norm(j.a[i])] + NormItems(j.a)[i + 1..] == acc + NormItems(j.a)[i..];
    } else {
      assert acc + NormItems(j.a)[i..] == acc;
    }
  }

  lemma {:induction false} MembersMean(strtod: Str -> uint64, j: Value, ks: seq<Str>, acc: map<Str, Value>)
    requires j.Obj? && FloatFree(j) && Ascending(ks) && forall k | k in ks :: k in j.o
    ensures MeaningMembers(strtod, MembersOf(j, ks), acc) == Ok(Obj(acc + NormMembers(j.o, ks)))
    decreases j, 0, |ks|
  {
    hide Meaning, TreeOf, Norm, NormMembers, Ascending, Quote, StringOf;
    if ks == [] {
      NormNothing(j.o, acc);
    } else {
      var k := ks[0];
      assert k in j.o;
      QuoteMeans(k);
      TreeMeans(strtod, j.o[k]);
      NormMembersCons(j.o, ks, acc);
      MembersMean(strtod, j, ks[1..], acc[k := Norm(j.o[k])]);
    }
  }

  lemma {:induction false} TreeMeans(strtod: Str -> uint64, j: Value)
    requires FloatFree(j)
    ensures Meaning(strtod, TreeOf(j)) == Ok(Norm(j))
    decreases j, 1, 0
  {
    hide NumberValue, Quote, StringOf, MeaningItems, MeaningMembers, IntegerText, ItemsOf, MembersOf, NormMembers;
    match j
    case Null =>
    case Bool(_) =>
    case Int(i) => IntegerMeans(strtod, i);
    case UInt(u) => IntegerMeans(strtod, u);
    case Text(s) => QuoteMeans(s);
    case Arr(a) =>
      ItemsMean(strtod, j, 0, []);
      assert [] + NormItems(a)[0..] == NormItems(a);
    case Obj(o) => ObjectMeans(strtod, j, SortedKeys(o.Keys));
  }

  lemma {:induction false} ObjectMeans(strtod: Str -> uint64, j: Value, ks: seq<Str>)
    requires j.Obj? && FloatFree(j) && Ascending(ks) && forall k :: k in ks <==> k in j.o
    ensures MeaningMembers(strtod, MembersOf(j, ks), map[]) == Ok(Norm(j))
    decreases j, 0, |ks| + 1
  {
    hide MeaningMembers, MembersOf, Ascending;
    MembersMean(strtod, j, ks, map[]);
    assert map[] + NormMembers(j.o, ks) == (map k | k in j.o :: Norm(j.o[k]));
  }

  // ---------- its tokens ----------

  lemma SpellMark(k: TokenType, c: byte, rest: Str)
    requires Ended(rest) && IsToken(k, [c]) && !Final(k) && k != ValueNumber && k != ValueString
    ensures Ended([c] + rest) && Spells(true, [c] + rest, [Mark(k)], rest)
  {
    hide IsToken, Spells;
    SpellToken(k, [c], rest);
  }

  lemma BreakIsBlank(pretty: bool, indent: nat)
    ensures forall i | 0 <= i < |Break(pretty)| :: IsBlank(Break(pretty)[i])
    ensures forall i | 0 <= i < |Spaces(indent)| :: IsBlank(Spaces(indent)[i])
    ensures forall i | 0 <= i < |Break(pretty) + Spaces(indent)| :: IsBlank((Break(pretty) + Spaces(indent))[i])
  {
  }

  /** Tokens, then blanks, then more tokens. */
  lemma SpellBehindBlanks(w: Str, ok: bool, s: Str, ts: seq<Token>, rest: Str)
    requires Ended(s) && Ended(rest) && Spells(ok, s, ts, rest) && forall i | 0 <= i < |w| :: IsBlank(w[i])
    ensures Ended(w + s) && Spells(ok, w + s, ts, rest)
  {
    hide Spells, IsBlank;
    SpellBlanks(w, s);
    Chain(true, w + s, [], s, ok, ts, rest);
    assert [] + ts == ts;
  }

  lemma SpellBehindMark(k: TokenType, c: byte, ok: bool, s: Str, ts: seq<Token>, rest: Str)
    requires Ended(s) && Ended(rest) && Spells(ok, s, ts, rest)
    requires IsToken(k, [c]) && !Final(k) && k != ValueNumber && k != ValueString
    ensures Ended([c] + s) && Spells(ok, [c] + s, [Mark(k)] + ts, rest)
  {
    hide Spells, IsToken;
    SpellMark(k, c, s);
    Chain(true, [c] + s, [Mark(k)], s, ok, ts, rest);
  }

  lemma SpellClosing(st: Style, indent: uint32, k: TokenType, bracket: byte, rest: Str)
    requires Ended(rest) && ((k == EndArray && bracket == 0x5d) || (k == EndObject && bracket == 0x7d))
    ensures var s := Closing(st, indent, bracket) + rest;
            Ended(s) && !ContinuesNumber(s[0]) && Spells(true, s, [Mark(k)], rest)
  {
    hide Spells, Spaces, Break;
    var w := Break(st.pretty) + Spaces(indent);
    BreakIsBlank(st.pretty, indent);
    SpellMark(k, bracket, rest);
    SpellBehindBlanks(w, true, [bracket] + rest, [Mark(k)], rest);
    assert Closing(st, indent, bracket) + rest == w + ([bracket] + rest);
    assert w != [] ==> (w + ([bracket] + rest))[0] == w[0];
  }

  lemma SpellComma(pretty: bool, ok: bool, s: Str, ts: seq<Token>, rest: Str)
    requires Ended(s) && Ended(rest) && Spells(ok, s, ts, rest)
    ensures Ended(Comma(pretty) + s) && Spells(ok, Comma(pretty) + s, [Mark(ValueSeparator)] + ts, rest)
    ensures !ContinuesNumber((Comma(pretty) + s)[0])
  {
    hide Spells;
    BreakIsBlank(pretty, 0);
    SpellBehindBlanks(Break(pretty), ok, s, ts, rest);
    SpellBehindMark(ValueSeparator, 0x2c, ok, Break(pretty) + s, ts, rest);
    assert Comma(pretty) + s == [0x2c] + (Break(pretty) + s);
  }

  lemma SpellColon(pretty: bool, ok: bool, s: Str, ts: seq<Token>, rest: Str)
    requires Ended(s) && Ended(rest) && Spells(ok, s, ts, rest)
    ensures Ended(Colon(pretty) + s) && Spells(ok, Colon(pretty) + s, [Mark(NameSeparator)] + ts, rest)
  {
    hide Spells;
    var w: Str := if pretty then [SPACE] else [];
    SpellBehindBlanks(w, ok, s, ts, rest);
    SpellBehindMark(NameSeparator, 0x3a, ok, w + s, ts, rest);
    assert Colon(pretty) + s == [0x3a] + (w + s);
  }

  /** Items from the `i`-th on: a comma in front of all but the first. */
  function TailTokens(j: Value, i: nat): seq<Token>
    requires j.Arr? && FloatFree(j)
  {
    (if 0 < i < |j.a| then [Mark(ValueSeparator)] else []) + YieldItems(ItemsOf(j, i))
  }

  lemma TailUnfolds(j: Value, i: nat)
    requires j.Arr? && FloatFree(j) && i < |j.a|
    ensures TailTokens(j, i) ==
      (if i > 0 then [Mark(ValueSeparator)] else []) + (Yield(TreeOf(j.a[i])) + TailTokens(j, i + 1))
  {
    hide Yield, TreeOf;
    var y := Yield(TreeOf(j.a[i]));
    if i + 1 < |j.a| {
      assert y + [Mark(ValueSeparator)] + YieldItems(ItemsOf(j, i + 1)) == y + TailTokens(j, i + 1);
    } else {
      assert y + TailTokens(j, i + 1) == y;
    }
  }

  lemma {:induction false} SpellItems(j: Value, i: nat, st: Style, indent: uint32, rest: Str)
    requires j.Arr? && FloatFree(j) && i <= |j.a| && Ended(rest) && !ContinuesNumber(rest[0])
    ensures var s := DumpedItems(j, i, st, indent) + rest;
            && Ended(s)
            && (i > 0 ==> !ContinuesNumber(s[0]))
            && Spells(forall k | i <= k < |j.a| :: TextsInUtf8(j.a[k]), s, TailTokens(j, i), rest)
    decreases j, 0, |j.a| - i
  {
    hide Spells, Dumped, TextsInUtf8, Yield, TreeOf, TailTokens, DumpedItems, Spaces, Comma, ContinuesNumber;
    if i == |j.a| {
      NoItemsSpelt(j, st, indent, rest);
    } else {
      var more := DumpedItems(j, i + 1, st, indent) + rest;
      SpellItems(j, i + 1, st, indent, rest);
      var ok := forall k | i + 1 <= k < |j.a| :: TextsInUtf8(j.a[k]);
      SpellValue(j.a[i], st, indent, more);
      var item, y := Dumped(j.a[i], st, indent) + more, Yield(TreeOf(j.a[i])) + TailTokens(j, i + 1);
      Chain(TextsInUtf8(j.a[i]), item, Yield(TreeOf(j.a[i])), more, ok, TailTokens(j, i + 1), rest);
      BreakIsBlank(st.pretty, indent);
      SpellBehindBlanks(Spaces(indent), TextsInUtf8(j.a[i]) && ok, item, y, rest);
      TailUnfolds(j, i);
      ItemsInFront(j, i, st, indent, rest);
      assert (forall k | i <= k < |j.a| :: TextsInUtf8(j.a[k])) <==> TextsInUtf8(j.a[i]) && ok;
      if i > 0 {
        SpellComma(st.pretty, TextsInUtf8(j.a[i]) && ok, Spaces(indent) + item, y, rest);
      } else {
        assert [] + y == y;
      }
    }
  }

  lemma NoItemsSpelt(j: Value, st: Style, indent: uint32, rest: Str)
    requires j.Arr? && FloatFree(j) && Ended(rest)
    ensures DumpedItems(j, |j.a|, st, indent) + rest == rest && Spells(true, rest, TailTokens(j, |j.a|), rest)
  {
    hide Lexed;
    assert [] + Lexed(rest) == Lexed(rest);
  }

  lemma ItemsInFront(j: Value, i: nat, st: Style, indent: uint32, rest: Str)
    requires j.Arr? && i < |j.a|
    ensures var item := Dumped(j.a[i], st, indent) + (DumpedItems(j, i + 1, st, indent) + rest);
            DumpedItems(j, i, st, indent) + rest ==
              if i > 0 then Comma(st.pretty) + (Spaces(indent) + item) else Spaces(indent) + item
  {
    hide Dumped, Spaces, Comma;
  }

  /** Members from `ks` on. */
  function TailOfMembers(j: Value, ks: seq<Str>, first: bool): seq<Token>
    requires j.Obj? && FloatFree(j) && forall k | k in ks :: k in j.o
  {
    (if first || ks == [] then [] else [Mark(ValueSeparator)]) + YieldMembers(MembersOf(j, ks))
  }

  lemma TailOfMembersUnfolds(j: Value, ks: seq<Str>, first: bool)
    requires j.Obj? && FloatFree(j) && ks != [] && forall k | k in ks :: k in j.o
    ensures TailOfMembers(j, ks, first) ==
      (if first then [] else [Mark(ValueSeparator)])
      + ([StringToken(Quote(ks[0]))] + ([Mark(NameSeparator)] 
          + (Yield(TreeOf(j.o[ks[0]])) + TailOfMembers(j, ks[1..], false))))
  {
    hide Yield, TreeOf, Quote;
    var name, y := StringToken(Quote(ks[0])), Yield(TreeOf(j.o[ks[0]]));
    var tail := TailOfMembers(j, ks[1..], false);
    assert [name] + ([Mark(NameSeparator)] + (y + tail)) == [name, Mark(NameSeparator)] + y + tail;
    if ks[1..] == [] {
      assert tail == [];
      assert [name, Mark(NameSeparator)] + y + tail == [name, Mark(NameSeparator)] + y;
    } else {
      Reassociate([name, Mark(NameSeparator)] + y, [Mark(ValueSeparator)], YieldMembers(MembersOf(j, ks[1..])));
    }
  }

  lemma MembersInFront(j: Value, ks: seq<Str>, first: bool, st: Style, indent: uint32, rest: Str)
    requires j.Obj? && ks != [] && forall k | k in ks :: k in j.o
    ensures var value := Dumped(j.o[ks[0]], st, indent) + (DumpedMembers(j, ks[1..], false, st, indent) + rest);
            var member := Spaces(indent) + (Quote(ks[0]) + (Colon(st.pretty) + value));
            DumpedMembers(j, ks, first, st, indent) + rest == if first then member else Comma(st.pretty) + member
  {
    hide Dumped, Spaces, Comma, Colon, Quote, DumpedMembers;
    MemberStep(j, ks, first, st, indent, []);
    var a := if first then [] else Comma(st.pretty);
    assert [] + DumpedMembers(j, ks, first, st, indent) == DumpedMembers(j, ks, first, st, indent);
    assert [] + Comma(st.pretty) == Comma(st.pretty);
    InFront(a, Spaces(indent), Quote(ks[0]), Colon(st.pretty), Dumped(j.o[ks[0]], st, indent),
            DumpedMembers(j, ks[1..], false, st, indent), rest);
  }

  lemma InFront(a: Str, b: Str, c: Str, d: Str, e: Str, f: Str, g: Str)
    ensures a + b + c + d + e + f + g == a + (b + (c + (d + (e + (f + g)))))
    ensures a == [] ==> a + b + c + d + e + f + g == b + (c + (d + (e + (f + g))))
  {
  }

  lemma NoMembersSpelt(j: Value, first: bool, st: Style, indent: uint32, rest: Str)
    requires j.Obj? && FloatFree(j) && Ended(rest)
    ensures DumpedMembers(j, [], first, st, indent) + rest == rest
    ensures Spells(true, rest, TailOfMembers(j, [], first), rest)
    ensures MembersInUtf8(j, [])
  {
    hide Lexed;
    assert [] + Lexed(rest) == Lexed(rest);
  }

  lemma MembersInUtf8Unfolds(j: Value, ks: seq<Str>)
    requires j.Obj? && ks != [] && forall k | k in ks :: k in j.o
    ensures MembersInUtf8(j, ks) <==> WellFormed(ks[0]) && TextsInUtf8(j.o[ks[0]]) && MembersInUtf8(j, ks[1..])
  {
    hide WellFormed, TextsInUtf8;
    assert forall i | 1 <= i < |ks| :: ks[i] == ks[1..][i - 1];
  }

  lemma {:induction false} SpellMembers(j: Value, ks: seq<Str>, first: bool, st: Style, indent: uint32, rest: Str)
    requires j.Obj? && FloatFree(j) && (forall k | k in ks :: k in j.o) && Ended(rest) && !ContinuesNumber(rest[0])
    ensures var s := DumpedMembers(j, ks, first, st, indent) + rest;
            && Ended(s)
            && (!first ==> !ContinuesNumber(s[0]))
            && Spells(MembersInUtf8(j, ks), s, TailOfMembers(j, ks, first), rest)
    decreases j, 0, |ks|
  {
    hide Spells, Dumped, TextsInUtf8, WellFormed, MembersInUtf8, Yield, TreeOf, TailOfMembers, DumpedMembers,
      Spaces, Comma,
         Colon, Quote, ContinuesNumber;
    if ks == [] {
      NoMembersSpelt(j, first, st, indent, rest);
    } else {
      var k, more := ks[0], DumpedMembers(j, ks[1..], false, st, indent) + rest;
      assert k in j.o;
      SpellMembers(j, ks[1..], false, st, indent, rest);
      SpellValue(j.o[k], st, indent, more);
      var ok, tail := MembersInUtf8(j, ks[1..]), TailOfMembers(j, ks[1..], false);
      var value := Dumped(j.o[k], st, indent) + more;
      Chain(TextsInUtf8(j.o[k]), value, Yield(TreeOf(j.o[k])), more, ok, tail, rest);
      var valueTokens := Yield(TreeOf(j.o[k])) + tail;
      SpellMember(k, st, indent, TextsInUtf8(j.o[k]) && ok, value, valueTokens, rest);
      MembersInUtf8Unfolds(j, ks);
      TailOfMembersUnfolds(j, ks, first);
      MembersInFront(j, ks, first, st, indent, rest);
      var member := Spaces(indent) + (Quote(k) + (Colon(st.pretty) + value));
      var memberTokens := [StringToken(Quote(k))] + ([Mark(NameSeparator)] + valueTokens);
      if first {
        assert [] + memberTokens == memberTokens;
      } else {
        SpellComma(st.pretty, MembersInUtf8(j, ks), member, memberTokens, rest);
      }
    }
  }

  /** The name, the colon and what follows them. */
  lemma SpellMember(k: Str, st: Style, indent: uint32, ok: bool, value: Str, ts: seq<Token>, rest: Str)
    requires Ended(value) && Ended(rest) && Spells(ok, value, ts, rest)
    ensures var s := Spaces(indent) + (Quote(k) + (Colon(st.pretty) + value));
            Ended(s) && Spells(WellFormed(k) && ok, s, [StringToken(Quote(k))] + ([Mark(NameSeparator)] + ts), rest)
  {
    hide Spells, WellFormed, Spaces, Colon, Quote;
    var colon := Colon(st.pretty) + value;
    SpellColon(st.pretty, ok, value, ts, rest);
    SpellQuote(k, colon);
    var name := [StringToken(Quote(k))];
    Chain(WellFormed(k), Quote(k) + colon, name, colon, ok, [Mark(NameSeparator)] + ts, rest);
    BreakIsBlank(st.pretty, indent);
    SpellBehindBlanks(Spaces(indent), WellFormed(k) && ok, Quote(k) + colon, name + ([Mark(NameSeparator)] + ts), rest);
  }

  /** A list between its brackets. */
  lemma SpellContainer(st: Style, indent: uint32, ok: bool, list: Str, ts: seq<Token>, rest: Str,
                       open: TokenType, close: TokenType, opening: byte, closing: byte)
    requires (open == BeginArray && close == EndArray && opening == 0x5b && closing == 0x5d)
          || (open == BeginObject && close == EndObject && opening == 0x7b && closing == 0x7d)
    requires Ended(rest)
    requires var c := Closing(st, indent, closing) + rest;
             Ended(c) && Ended(list + c) && Spells(ok, list + c, ts, c)
    ensures var s := [opening] + Break(st.pretty) + list + Closing(st, indent, closing) + rest;
            Ended(s) && Spells(ok, s, [Mark(open)] + ts + [Mark(close)], rest)
  {
    hide Spells, Break, Closing;
    var c := Closing(st, indent, closing) + rest;
    SpellClosing(st, indent, close, closing, rest);
    Chain(ok, list + c, ts, c, true, [Mark(close)], rest);
    BreakIsBlank(st.pretty, indent);
    SpellBehindBlanks(Break(st.pretty), ok, list + c, ts + [Mark(close)], rest);
    SpellBehindMark(open, opening, ok, Break(st.pretty) + (list + c), ts + [Mark(close)], rest);
    Reassociate([Mark(open)], ts, [Mark(close)]);
    assert [opening] + Break(st.pretty) + list + Closing(st, indent, closing) + rest
        == [opening] + (Break(st.pretty) + (list + c));
  }

  lemma {:induction false} SpellArray(j: Value, st: Style, indent: uint32, rest: Str)
    requires j.Arr? && FloatFree(j) && Ended(rest)
    ensures Ended(Dumped(j, st, indent) + rest)
         && Spells(TextsInUtf8(j), Dumped(j, st, indent) + rest, Yield(TreeOf(j)), rest)
    decreases j, 0, |j.a| + 1
  {
    hide Spells, DumpedItems, Closing, Break, ItemsOf, ContinuesNumber;
    if j.a == [] {
      NothingSpelt(j);
      SpellMark(EndArray, 0x5d, rest);
      SpellBehindMark(BeginArray, 0x5b, true, [0x5d] + rest, [Mark(EndArray)], rest);
      assert [Mark(BeginArray)] + [Mark(EndArray)] == [Mark(BeginArray), Mark(EndArray)];
      assert [0x5b, 0x5d] + rest == [0x5b] + ([0x5d] + rest);
    } else {
      var inner, c := Deeper(st, indent), Closing(st, indent, 0x5d) + rest;
      SpellClosing(st, indent, EndArray, 0x5d, rest);
      SpellItems(j, 0, st, inner, c);
      assert TailTokens(j, 0) == YieldItems(ItemsOf(j, 0));
      SpellContainer(st, indent, TextsInUtf8(j), DumpedItems(j, 0, st, inner), TailTokens(j, 0), rest,
                     BeginArray, EndArray, 0x5b, 0x5d);
    }
  }

  lemma NothingSpelt(j: Value)
    requires FloatFree(j)
    ensures j == Arr([]) ==> Yield(TreeOf(j)) == [Mark(BeginArray), Mark(EndArray)] && TextsInUtf8(j)
    ensures j == Obj(map[]) ==> Yield(TreeOf(j)) == [Mark(BeginObject), Mark(EndObject)] && TextsInUtf8(j)
  {
    if j == Obj(map[]) { assert SortedKeys(j.o.Keys) == []; }
  }

  lemma {:induction false} SpellObject(j: Value, ks: seq<Str>, st: Style, indent: uint32, rest: Str)
    requires j.Obj? && FloatFree(j) && Ended(rest) && ks == SortedKeys(j.o.Keys)
    ensures Ended(Dumped(j, st, indent) + rest)
         && Spells(TextsInUtf8(j), Dumped(j, st, indent) + rest, Yield(TreeOf(j)), rest)
    decreases j, 0, |ks| + 1
  {
    hide Spells, DumpedMembers, Closing, Break, MembersOf, ContinuesNumber, SortedKeys, WellFormed;
    if j.o == map[] {
      NothingSpelt(j);
      SpellMark(EndObject, 0x7d, rest);
      SpellBehindMark(BeginObject, 0x7b, true, [0x7d] + rest, [Mark(EndObject)], rest);
      assert [Mark(BeginObject)] + [Mark(EndObject)] == [Mark(BeginObject), Mark(EndObject)];
      assert [0x7b, 0x7d] + rest == [0x7b] + ([0x7d] + rest);
    } else {
      var inner, c := Deeper(st, indent), Closing(st, indent, 0x7d) + rest;
      SpellClosing(st, indent, EndObject, 0x7d, rest);
      SpellMembers(j, ks, true, st, inner, c);
      assert TailOfMembers(j, ks, true) == YieldMembers(MembersOf(j, ks));
      assert MembersInUtf8(j, ks) <==> TextsInUtf8(j);
      SpellContainer(st, indent, TextsInUtf8(j), DumpedMembers(j, ks, true, st, inner), TailOfMembers(j, ks, true),
        rest,
                     BeginObject, EndObject, 0x7b, 0x7d);
    }
  }

  /** The text of a value spells its derivation, whatever follows, or holds an error where a string is not UTF-8. */
  lemma {:induction false} SpellValue(j: Value, st: Style, indent: uint32, rest: Str)
    requires FloatFree(j) && Ended(rest) && !ContinuesNumber(rest[0])
    ensures Ended(Dumped(j, st, indent) + rest)
         && Spells(TextsInUtf8(j), Dumped(j, st, indent) + rest, Yield(TreeOf(j)), rest)
    decreases j, 1, 0
  {
    hide Spells, WellFormed, DumpedItems, DumpedMembers, ItemsOf, MembersOf, Quote, SortedKeys, IsNumber,
      IntegerText, ContinuesNumber;
    match j
    case Null => SpellToken(LiteralNull, NULL, rest);
    case Bool(b) => SpellToken(if b then LiteralTrue else LiteralFalse, if b then TRUE else FALSE, rest);
    case Int(i) =>
      IntegerMeans(_ => 0, i);
      SpellToken(ValueNumber, IntegerText(i), rest);
    case UInt(u) =>
      IntegerMeans(_ => 0, u);
      SpellToken(ValueNumber, IntegerText(u), rest);
    case Text(s) => SpellQuote(s, rest);
    case Arr(a) => SpellArray(j, st, indent, rest);
    case Obj(o) => SpellObject(j, SortedKeys(o.Keys), st, indent, rest);
  }

  // ---------- the law ----------

  lemma {:induction false} NoErrorDerived(t: Tree)
    requires Derived(t)
    ensures Mark(ParseError) !in Yield(t)
    decreases t, 1
  {
    match t
    case Leaf(_) =>
    case Array(items) => NoErrorInItems(items);
    case Object(members) => NoErrorInMembers(members);
  }

  lemma {:induction false} NoErrorInItems(items: Items)
    requires DerivedItems(items)
    ensures Mark(ParseError) !in YieldItems(items)
    decreases items, 0
  {
    if items.Item? {
      NoErrorDerived(items.head);
      NoErrorInItems(items.tail);
    }
  }

  lemma {:induction false} NoErrorInMembers(ms: Members)
    requires DerivedMembers(ms)
    ensures Mark(ParseError) !in YieldMembers(ms)
    decreases ms, 0
  {
    if ms.Member? {
      NoErrorDerived(ms.value);
      NoErrorInMembers(ms.rest);
    }
  }

  lemma ErrorIsNotParsed(strtod: Str -> uint64, content: Str)
    requires Mark(ParseError) in Lexed(content + [0])
    ensures ParseText(strtod, content) == Err(InvalidArgument)
  {
    hide ParseValue, Lexed, Yield, Derived, Meaning;
    var r := ParseText(strtod, content);
    if r.Ok? {
      ParseTextIsGrammar(strtod, content, r.value);
      var t :| Derivation(strtod, t, Lexed(content + [0]), r.value, [Mark(EndOfInput)]);
      NoErrorDerived(t);
      assert false;
    }
  }

  /**
   * For every value without floating-point numbers, in every layout: the text is parsed to the value, its non-negative
   * integers unsigned, if all its strings are UTF-8; otherwise it is rejected.
   */
  lemma ParseOfDump(strtod: Str -> uint64, j: Value, st: Style, indent: uint32)
    requires FloatFree(j)
    ensures ParseText(strtod, Dumped(j, st, indent)) == if TextsInUtf8(j) then Ok(Norm(j)) else Err(InvalidArgument)
  {
    hide Lexed, Yield, TreeOf, Dumped, Norm, TextsInUtf8, ParseValue, FloatFree;
    var content := Dumped(j, st, indent);
    LexedEnd();
    SpellValue(j, st, indent, [0]);
    if TextsInUtf8(j) {
      Complete(strtod, TreeOf(j), [Mark(EndOfInput)]);
      TreeMeans(strtod, j);
    } else {
      ErrorIsNotParsed(strtod, content);
    }
  }

  lemma LexedEnd()
    ensures Lexed([0]) == [Mark(EndOfInput)] && !ContinuesNumber(0)
  {
    TokenAtHead([0], 1, EndOfInput);
    LexedToken([0]);
  }

  lemma {:induction false} FloatFreeIsFinite(j: Value)
    requires FloatFree(j)
    ensures AllFinite(j)
    decreases j
  {
    match j
    case Arr(a) => forall i | 0 <= i < |a| ensures AllFinite(a[i]) { FloatFreeIsFinite(a[i]); }
    case Obj(o) => forall k | k in o ensures AllFinite(o[k]) { FloatFreeIsFinite(o[k]); }
    case _ =>
  }

  /** The value read back equals the value dumped exactly when every string in it is UTF-8. */
  lemma DumpRoundTrip(strtod: Str -> uint64, j: Value, format: uint64 -> Str, indent: int)
    requires FloatFree(j) && indent <= INT_MAX
    ensures var r := ParseText(strtod, Dumped(j, StyleOf(format, indent), 0));
            r.Ok? && Eq(r.value, j) <==> TextsInUtf8(j)
  {
    hide ParseText, Dumped, Norm, TextsInUtf8, FloatFree, AllFinite;
    ParseOfDump(strtod, j, StyleOf(format, indent), 0);
    FloatFreeIsFinite(j);
    NormIsEq(j);
  }
}
