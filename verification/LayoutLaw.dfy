/** How `dump` lays out the tokens of a value. */
module LayoutLaw {
  import opened Bytes
  import opened Decimal
  import opened Values
  import opened Tokens
  import opened Grammar
  import opened Dumping
  import opened DumpLaw
  import opened JsonTextLaw

  // ---------- the layout, token by token ----------

  predicate Opening(t: Token) { t == Mark(BeginArray) || t == Mark(BeginObject) }

  predicate Closing(t: Token) { t == Mark(EndArray) || t == Mark(EndObject) }

  /** How many more brackets are opened than closed. */
  function Depth(ts: seq<Token>): int {
    if ts == [] then 0 else (if Opening(ts[0]) then 1 else if Closing(ts[0]) then -1 else 0) + Depth(ts[1..])
  }

  /** A new line, indented by `n` spaces for each open bracket, in 32 bits. */
  function NewLine(n: nat, depth: int): Str { [0x0a] + seq(n * depth % 0x1_0000_0000, _ => 0x20) }

  /**
   * What stands between two tokens that follow each other, the first of them `depth` brackets deep: nothing for a
   * negative indentation. Otherwise a line begins behind a comma, behind an opening bracket and in front of a closing
   * one, except between the two of an empty container, and a space follows a colon.
   */
  function Between(indent: int, depth: int, t: Token, next: Token): Str {
    if indent < 0 || (Opening(t) && Closing(next)) then []
    else if Opening(t) || t == Mark(ValueSeparator) then NewLine(indent, depth)
    else if Closing(next) then NewLine(indent, depth - 1)
    else if t == Mark(NameSeparator) then [0x20]
    else []
  }

  /** The texts of the tokens with what stands between them, `depth` brackets being open in front. */
  function Laid(indent: int, depth: int, ts: seq<Token>): Str
    decreases |ts|
  {
    if ts == [] then []
    else if |ts| == 1 then TokenText(ts[0])
    else
      var inner := depth + Depth(ts[..1]);
      TokenText(ts[0]) + Between(indent, inner, ts[0], ts[1]) + Laid(indent, inner, ts[1..])
  }

  // ---------- the tokens of a value ----------

  /** A zero keeps its sign and has one digit behind the point; all else is for the stream. */
  function DoubleText(format: uint64 -> Str, bits: uint64): Str {
    if bits == 0 then [0x30, 0x2e, 0x30]
    else if bits == SIGN_BIT then [0x2d, 0x30, 0x2e, 0x30]
    else format(bits)
  }

  function TokensOf(j: Value, format: uint64 -> Str): (ts: seq<Token>)
    ensures ts != []
    decreases j, 1, 0
  {
    match j
    case Null => [Mark(LiteralNull)]
    case Bool(b) => [Mark(if b then LiteralTrue else LiteralFalse)]
    case Int(i) => [NumberToken(IntegerText(i))]
    case UInt(u) => [NumberToken(IntegerText(u))]
    case Float(bits) => [NumberToken(DoubleText(format, bits))]
    case Text(s) => [StringToken(Quote(s))]
    case Arr(a) => [Mark(BeginArray)] + ItemTokens(j, 0, format) + [Mark(EndArray)]
    case Obj(o) => [Mark(BeginObject)] + MemberTokens(j, SortedKeys(o.Keys), format) + [Mark(EndObject)]
  }

  function ItemTokens(j: Value, i: nat, format: uint64 -> Str): seq<Token>
    requires j.Arr?
    decreases j, 0, |j.a| - i
  {
    if i >= |j.a| then []
    else if i + 1 == |j.a| then TokensOf(j.a[i], format)
    else TokensOf(j.a[i], format) + [Mark(ValueSeparator)] + ItemTokens(j, i + 1, format)
  }

  function MemberTokens(j: Value, ks: seq<Str>, format: uint64 -> Str): seq<Token>
    requires j.Obj? && forall k | k in ks :: k in j.o
    decreases j, 0, |ks|
  {
    if ks == [] then []
    else
      var member := [StringToken(Quote(ks[0])), Mark(NameSeparator)] + TokensOf(j.o[ks[0]], format);
      if |ks| == 1 then member else member + [Mark(ValueSeparator)] + MemberTokens(j, ks[1..], format)
  }

  /** Without doubles they are what the value's derivation spells. */
  lemma {:induction false} TokensAreYield(j: Value, format: uint64 -> Str)
    requires FloatFree(j)
    ensures TokensOf(j, format) == Yield(TreeOf(j))
    decreases j, 1, 0
  {
    hide Quote, IntegerText, SortedKeys, ItemsOf, MembersOf, ItemTokens, MemberTokens, YieldItems, YieldMembers;
    match j
    case Arr(a) => ItemsAreYield(j, 0, format);
    case Obj(o) => MembersAreYield(j, SortedKeys(o.Keys), format);
    case _ =>
  }

  lemma {:induction false} ItemsAreYield(j: Value, i: nat, format: uint64 -> Str)
    requires j.Arr? && FloatFree(j)
    ensures ItemTokens(j, i, format) == YieldItems(ItemsOf(j, i))
    decreases j, 0, |j.a| - i
  {
    hide TokensOf, Yield, TreeOf;
    if i < |j.a| {
      TokensAreYield(j.a[i], format);
      ItemsAreYield(j, i + 1, format);
    }
  }

  lemma {:induction false} MembersAreYield(j: Value, ks: seq<Str>, format: uint64 -> Str)
    requires j.Obj? && FloatFree(j) && forall k | k in ks :: k in j.o
    ensures MemberTokens(j, ks, format) == YieldMembers(MembersOf(j, ks))
    decreases j, 0, |ks|
  {
    hide TokensOf, Yield, TreeOf, Quote;
    if ks != [] {
      assert ks[0] in j.o;
      TokensAreYield(j.o[ks[0]], format);
      MembersAreYield(j, ks[1..], format);
    }
  }

  // ---------- layouts put together ----------

  lemma {:induction false} DepthAppend(a: seq<Token>, b: seq<Token>)
    ensures Depth(a + b) == Depth(a) + Depth(b)
  {
    if a == [] {
      assert a + b == b;
    } else {
      DepthAppend(a[1..], b);
      assert (a + b)[1..] == a[1..] + b;
    }
  }

  lemma DepthOne(t: Token)
    ensures Depth([t]) == if Opening(t) then 1 else if Closing(t) then -1 else 0
  {
    assert [t][1..] == [];
  }

  lemma LaidUnfolds(indent: int, depth: int, ts: seq<Token>)
    requires |ts| > 1
    ensures var inner := depth + Depth([ts[0]]);
            Laid(indent, depth, ts) ==
              TokenText(ts[0]) + Between(indent, inner, ts[0], ts[1]) + Laid(indent, inner, ts[1..])
  {
    hide TokenText, Between;
    assert ts[..1] == [ts[0]];
  }

  lemma LaidOne(indent: int, depth: int, t: Token)
    ensures Laid(indent, depth, [t]) == TokenText(t)
  {
  }

  /** Two lists of tokens one behind the other. */
  lemma {:induction false} LaidAppend(indent: int, depth: int, a: seq<Token>, b: seq<Token>)
    requires a != [] && b != []
    ensures var mid := depth + Depth(a);
            Laid(indent, depth, a + b) ==
              Laid(indent, depth, a) + Between(indent, mid, a[|a| - 1], b[0]) + Laid(indent, mid, b)
    decreases |a|
  {
    hide Laid, TokenText, Between, Depth;
    LaidUnfolds(indent, depth, a + b);
    if |a| == 1 {
      assert a == [a[0]];
      LaidOne(indent, depth, a[0]);
      assert (a + b)[1..] == b;
    } else {
      var inner := depth + Depth([a[0]]);
      assert (a + b)[1..] == a[1..] + b;
      LaidUnfolds(indent, depth, a);
      LaidAppend(indent, inner, a[1..], b);
      DepthAppend([a[0]], a[1..]);
      assert [a[0]] + a[1..] == a;
      Reassociate4(TokenText(a[0]), Between(indent, inner, a[0], a[1]), Laid(indent, inner, a[1..]),
                   Between(indent, depth + Depth(a), a[|a| - 1], b[0]), Laid(indent, depth + Depth(a), b));
    }
  }

  lemma Reassociate4(a: Str, b: Str, c: Str, d: Str, e: Str)
    ensures a + b + (c + d + e) == a + b + c + d + e
  {
  }

  // ---------- values ----------

  /** A value begins with no closing bracket, ends with nothing that opens or separates, and is as deep as before. */
  predicate Balanced(ts: seq<Token>) {
    && ts != []
    && Depth(ts) == 0
    && !Closing(ts[0])
    && !Opening(ts[|ts| - 1]) && ts[|ts| - 1] != Mark(ValueSeparator) && ts[|ts| - 1] != Mark(NameSeparator)
  }

  lemma Enclosed(open: Token, ts: seq<Token>, close: Token)
    requires Opening(open) && Closing(close) && Depth(ts) == 0
    ensures Balanced([open] + ts + [close])
  {
    hide Depth;
    DepthAppend([open] + ts, [close]);
    DepthAppend([open], ts);
    DepthOne(open);
    DepthOne(close);
  }

  lemma {:induction false} ValueIsBalanced(j: Value, format: uint64 -> Str)
    ensures Balanced(TokensOf(j, format))
    decreases j, 1, 0
  {
    hide Quote, IntegerText, DoubleText, SortedKeys, ItemTokens, MemberTokens;
    match j
    case Arr(a) =>
      ItemsAreBalanced(j, 0, format);
      Enclosed(Mark(BeginArray), ItemTokens(j, 0, format), Mark(EndArray));
    case Obj(o) =>
      MembersAreBalanced(j, SortedKeys(o.Keys), format);
      Enclosed(Mark(BeginObject), MemberTokens(j, SortedKeys(o.Keys), format), Mark(EndObject));
    case _ => DepthOne(TokensOf(j, format)[0]);
  }

  predicate NothingOrBalanced(ts: seq<Token>) { Depth(ts) == 0 && (ts != [] ==> Balanced(ts)) }

  lemma {:induction false} ItemsAreBalanced(j: Value, i: nat, format: uint64 -> Str)
    requires j.Arr?
    ensures NothingOrBalanced(ItemTokens(j, i, format))
    ensures i < |j.a| ==> ItemTokens(j, i, format) != []
    decreases j, 0, |j.a| - i
  {
    hide TokensOf;
    if i < |j.a| {
      ValueIsBalanced(j.a[i], format);
      if i + 1 < |j.a| {
        ItemsAreBalanced(j, i + 1, format);
        Separated(TokensOf(j.a[i], format), ItemTokens(j, i + 1, format));
      }
    }
  }

  lemma Separated(a: seq<Token>, b: seq<Token>)
    requires Balanced(a) && Balanced(b)
    ensures Balanced(a + [Mark(ValueSeparator)] + b)
  {
    hide Depth;
    DepthAppend(a + [Mark(ValueSeparator)], b);
    DepthAppend(a, [Mark(ValueSeparator)]);
    DepthOne(Mark(ValueSeparator));
  }

  lemma Named(name: Token, a: seq<Token>)
    requires name.StringToken? && Balanced(a)
    ensures Balanced([name, Mark(NameSeparator)] + a)
  {
    hide Depth;
    var both := [name, Mark(NameSeparator)];
    assert both == [name] + [Mark(NameSeparator)];
    DepthAppend(both, a);
    DepthAppend([name], [Mark(NameSeparator)]);
    DepthOne(name);
    DepthOne(Mark(NameSeparator));
  }

  lemma {:induction false} MembersAreBalanced(j: Value, ks: seq<Str>, format: uint64 -> Str)
    requires j.Obj? && forall k | k in ks :: k in j.o
    ensures NothingOrBalanced(MemberTokens(j, ks, format))
    ensures ks != [] ==> MemberTokens(j, ks, format) != []
    decreases j, 0, |ks|
  {
    hide TokensOf, Quote;
    if ks != [] {
      assert ks[0] in j.o;
      ValueIsBalanced(j.o[ks[0]], format);
      var name := StringToken(Quote(ks[0]));
      Named(name, TokensOf(j.o[ks[0]], format));
      if |ks| > 1 {
        MembersAreBalanced(j, ks[1..], format);
        Separated([name, Mark(NameSeparator)] + TokensOf(j.o[ks[0]], format), MemberTokens(j, ks[1..], format));
      }
    }
  }

  /** The style that `dump` chooses, and the indentation it has reached. */
  predicate Reached(st: Style, current: uint32, indent: int, depth: int) {
    if indent < 0 then !st.pretty && current == 0
    else st.pretty && st.step == indent && current == indent * depth % TWO_TO_THE_32
  }

  lemma Sum(n: nat, depth: int, m: int)
    requires m > 0
    ensures (n * depth % m + n) % m == n * (depth + 1) % m
  {
    var q, r := n * depth / m, n * depth % m;
    assert n * (depth + 1) == q * m + (r + n);
    Shift(q, m, r + n);
  }

  lemma Shift(q: int, m: int, x: int)
    requires m > 0
    ensures (q * m + x) % m == x % m
  {
    var a, b := x / m, x % m;
    assert q * m + x == (q + a) * m + b;
    var c, d := (q * m + x) / m, (q * m + x) % m;
    assert c * m + d == (q + a) * m + b;
    Cancelled(c, q + a, m, d, b);
  }

  lemma Cancelled(c: int, e: int, m: int, d: int, b: int)
    requires m > 0 && 0 <= d < m && 0 <= b < m && c * m + d == e * m + b
    ensures d == b
  {
    assert (c - e) * m == b - d && (e - c) * m == d - b;
    if c > e { AtLeastOne(c - e, m); }
    if c < e { AtLeastOne(e - c, m); }
  }

  lemma AtLeastOne(k: int, m: int)
    requires k >= 1 && m > 0
    ensures k * m >= m
  {
  }

  lemma ReachedDeeper(st: Style, current: uint32, indent: int, depth: int)
    requires Reached(st, current, indent, depth)
    ensures Reached(st, Deeper(st, current), indent, depth + 1)
  {
    if indent >= 0 { Sum(indent, depth, TWO_TO_THE_32); }
  }

  /** What the printer puts in front of an item, and of a closing bracket. */
  lemma Lead(st: Style, current: uint32, indent: int, depth: int)
    requires Reached(st, current, indent, depth)
    ensures Break(st.pretty) + Spaces(current) == if indent < 0 then [] else NewLine(indent, depth)
  {
  }

  lemma {:induction false} ItemsLaid(j: Value, i: nat, st: Style, current: uint32, indent: int, depth: int)
    requires j.Arr? && i < |j.a| && Reached(st, current, indent, depth)
    ensures DumpedItems(j, i, st, current) ==
      (if i > 0 then Comma(st.pretty) else []) + Spaces(current) + Laid(indent, depth, ItemTokens(j, i, st.format))
    decreases j, 0, |j.a| - i
  {
    hide Dumped, TokensOf, Laid, Depth, Balanced, Between, Spaces, NewLine, Comma;
    var y := TokensOf(j.a[i], st.format);
    DumpedIsLaid(j.a[i], st, current, indent, depth);
    if i + 1 < |j.a| {
      ItemsLaid(j, i + 1, st, current, indent, depth);
      ValueIsBalanced(j.a[i], st.format);
      ItemsAreBalanced(j, i + 1, st.format);
      ListLaid(st, current, indent, depth, y, ItemTokens(j, i + 1, st.format));
      ItemJoined(if i > 0 then Comma(st.pretty) else [], Spaces(current), Laid(indent, depth, y), Comma(st.pretty),
                 Laid(indent, depth, ItemTokens(j, i + 1, st.format)));
    } else {
      NoneLeft(j, st, current);
    }
  }

  lemma NoneLeft(j: Value, st: Style, current: uint32)
    requires j.Arr?
    ensures DumpedItems(j, |j.a|, st, current) == []
    ensures forall s: Str :: s + [] == s
  {
  }

  lemma ItemJoined(a: Str, b: Str, c: Str, d: Str, e: Str)
    ensures a + b + c + (d + b + e) == a + b + (c + d + b + e)
  {
  }

  /** A value, a comma, and more behind it. */
  lemma ListLaid(st: Style, current: uint32, indent: int, depth: int, y: seq<Token>, rest: seq<Token>)
    requires Reached(st, current, indent, depth) && Balanced(y) && Balanced(rest)
    ensures Laid(indent, depth, y + [Mark(ValueSeparator)] + rest) ==
      Laid(indent, depth, y) + Comma(st.pretty) + Spaces(current) + Laid(indent, depth, rest)
  {
    hide Laid, Depth, Spaces, NewLine;
    var comma := [Mark(ValueSeparator)];
    LaidAppend(indent, depth, y + comma, rest);
    LaidAppend(indent, depth, y, comma);
    LaidOne(indent, depth, Mark(ValueSeparator));
    DepthAppend(y, comma);
    DepthOne(Mark(ValueSeparator));
    Lead(st, current, indent, depth);
    CommaJoined(Laid(indent, depth, y), Break(st.pretty), Spaces(current), Laid(indent, depth, rest));
  }

  lemma CommaJoined(y: Str, b: Str, s: Str, rest: Str)
    ensures y + [] + [0x2c] + (b + s) + rest == y + ([0x2c] + b) + s + rest
  {
  }

  lemma {:induction false} MembersLaid(
    j: Value, ks: seq<Str>, first: bool, st: Style, current: uint32, indent: int, depth: int
  )
    requires j.Obj? && ks != [] && (forall k | k in ks :: k in j.o) && Reached(st, current, indent, depth)
    ensures DumpedMembers(j, ks, first, st, current) ==
      (if first then [] else Comma(st.pretty)) + Spaces(current) + Laid(indent, depth, MemberTokens(j, ks, st.format))
    decreases j, 0, |ks|
  {
    hide Dumped, TokensOf, Laid, Depth, Balanced, Between, Spaces, NewLine, Comma, Colon, Quote;
    assert ks[0] in j.o;
    var name, y := StringToken(Quote(ks[0])), TokensOf(j.o[ks[0]], st.format);
    var x := Dumped(j.o[ks[0]], st, current);
    DumpedIsLaid(j.o[ks[0]], st, current, indent, depth);
    ValueIsBalanced(j.o[ks[0]], st.format);
    Named(name, y);
    MemberLaid(st, current, indent, depth, name, y);
    var lead := if first then [] else Comma(st.pretty);
    if |ks| > 1 {
      MembersLaid(j, ks[1..], false, st, current, indent, depth);
      MembersAreBalanced(j, ks[1..], st.format);
      var more := MemberTokens(j, ks[1..], st.format);
      ListLaid(st, current, indent, depth, [name, Mark(NameSeparator)] + y, more);
      MemberJoined(lead, Spaces(current), Quote(ks[0]), Colon(st.pretty), x, Comma(st.pretty),
                   Laid(indent, depth, more));
    } else {
      MemberAlone(lead, Spaces(current), Quote(ks[0]), Colon(st.pretty), x);
      NoMemberLeft(j, ks[1..], st, current);
    }
  }

  lemma NoMemberLeft(j: Value, ks: seq<Str>, st: Style, current: uint32)
    requires j.Obj? && ks == []
    ensures DumpedMembers(j, ks, false, st, current) == []
    ensures forall s: Str :: s + [] == s
  {
  }

  lemma MemberAlone(a: Str, b: Str, c: Str, d: Str, e: Str)
    ensures a + b + c + d + e == a + b + (c + d + e)
  {
  }

  lemma MemberJoined(a: Str, b: Str, c: Str, d: Str, e: Str, f: Str, g: Str)
    ensures a + b + c + d + e + (f + b + g) == a + b + ((c + d + e) + f + b + g)
  {
  }

  /** A name, a colon and a value. */
  lemma MemberLaid(st: Style, current: uint32, indent: int, depth: int, name: Token, y: seq<Token>)
    requires Reached(st, current, indent, depth) && Balanced(y) && name.StringToken?
    ensures Laid(indent, depth, [name, Mark(NameSeparator)] + y) ==
      name.text + Colon(st.pretty) + Laid(indent, depth, y)
  {
    hide Laid, Depth, NewLine;
    var colon := [Mark(NameSeparator)];
    assert [name, Mark(NameSeparator)] == [name] + colon;
    LaidAppend(indent, depth, [name] + colon, y);
    LaidAppend(indent, depth, [name], colon);
    LaidOne(indent, depth, Mark(NameSeparator));
    LaidOne(indent, depth, name);
    DepthAppend([name], colon);
    DepthOne(Mark(NameSeparator));
    DepthOne(name);
    assert name.text + [] == name.text;
    assert name.text + [0x3a] + [] == name.text + [0x3a];
    assert name.text + [0x3a] + [0x20] == name.text + [0x3a, 0x20];
  }

  /** A list between brackets. */
  lemma BracketsLaid(st: Style, current: uint32, indent: int, depth: int, open: Token, list: seq<Token>, close: Token)
    requires Reached(st, current, indent, depth) && Opening(open) && Closing(close) && Balanced(list)
    ensures var inner := Deeper(st, current);
            Laid(indent, depth, [open] + list + [close]) ==
              TokenText(open) + Break(st.pretty) + (Spaces(inner) + Laid(indent, depth + 1, list))
              + (Break(st.pretty) + Spaces(current) + TokenText(close))
  {
    hide Laid, Depth, NewLine, TokenText, Spaces, Break, Deeper;
    var inner := Deeper(st, current);
    ReachedDeeper(st, current, indent, depth);
    LaidAppend(indent, depth, [open] + list, [close]);
    LaidAppend(indent, depth, [open], list);
    LaidOne(indent, depth, open);
    LaidOne(indent, depth + 1, close);
    DepthAppend([open], list);
    DepthOne(open);
    Lead(st, inner, indent, depth + 1);
    Lead(st, current, indent, depth);
    BracketsJoined(TokenText(open), Break(st.pretty), Spaces(inner), Laid(indent, depth + 1, list), Spaces(current),
                   TokenText(close));
  }

  lemma BracketsJoined(a: Str, b: Str, c: Str, d: Str, e: Str, f: Str)
    ensures a + (b + c) + d + (b + e) + f == a + b + (c + d) + (b + e + f)
  {
  }

  lemma EmptyLaid(indent: int, depth: int, open: Token, close: Token)
    requires Opening(open) && Closing(close)
    ensures Laid(indent, depth, [open] + [] + [close]) == TokenText(open) + TokenText(close)
  {
    hide Depth, TokenText;
    assert [open] + [] + [close] == [open, close];
    LaidUnfolds(indent, depth, [open, close]);
    assert [open, close][1..] == [close];
    assert TokenText(open) + [] == TokenText(open);
  }

  /** The text of a value is the layout of its tokens, at every depth. */
  lemma {:induction false} DumpedIsLaid(j: Value, st: Style, current: uint32, indent: int, depth: int)
    requires Reached(st, current, indent, depth)
    ensures Dumped(j, st, current) == Laid(indent, depth, TokensOf(j, st.format))
    decreases j, 1, 0
  {
    hide ItemTokens, MemberTokens, DumpedItems, DumpedMembers, SortedKeys, Quote, IntegerText, FloatText, Spaces,
      Deeper, Balanced, Depth, Reached, Break;
    match j
    case Arr(_) => ArrayIsLaid(j, st, current, indent, depth);
    case Obj(o) => ObjectIsLaid(j, SortedKeys(o.Keys), st, current, indent, depth);
    case Float(bits) =>
      ZeroText(st, bits);
      LaidOne(indent, depth, TokensOf(j, st.format)[0]);
    case _ => LaidOne(indent, depth, TokensOf(j, st.format)[0]);
  }

  lemma {:induction false} ArrayIsLaid(j: Value, st: Style, current: uint32, indent: int, depth: int)
    requires j.Arr? && Reached(st, current, indent, depth)
    ensures Dumped(j, st, current) == Laid(indent, depth, TokensOf(j, st.format))
    decreases j, 0, |j.a| + 1
  {
    hide Laid, ItemTokens, DumpedItems, Spaces, Deeper, Balanced, Depth, Reached, Break;
    if j.a == [] {
      EmptyLaid(indent, depth, Mark(BeginArray), Mark(EndArray));
      NoTokens(j, st);
    } else {
      ReachedDeeper(st, current, indent, depth);
      ItemsLaid(j, 0, st, Deeper(st, current), indent, depth + 1);
      ItemsAreBalanced(j, 0, st.format);
      BracketsLaid(st, current, indent, depth, Mark(BeginArray), ItemTokens(j, 0, st.format), Mark(EndArray));
      NothingInFront(Spaces(Deeper(st, current)));
    }
  }

  lemma {:induction false} ObjectIsLaid(j: Value, ks: seq<Str>, st: Style, current: uint32, indent: int, depth: int)
    requires j.Obj? && ks == SortedKeys(j.o.Keys) && Reached(st, current, indent, depth)
    ensures Dumped(j, st, current) == Laid(indent, depth, TokensOf(j, st.format))
    decreases j, 0, |ks| + 1
  {
    hide Laid, MemberTokens, DumpedMembers, SortedKeys, Spaces, Deeper, Balanced, Depth, Reached, Break;
    if j.o == map[] {
      EmptyLaid(indent, depth, Mark(BeginObject), Mark(EndObject));
      NoTokens(j, st);
    } else {
      SomeKey(j.o);
      ReachedDeeper(st, current, indent, depth);
      MembersLaid(j, ks, true, st, Deeper(st, current), indent, depth + 1);
      MembersAreBalanced(j, ks, st.format);
      BracketsLaid(st, current, indent, depth, Mark(BeginObject), MemberTokens(j, ks, st.format), Mark(EndObject));
      NothingInFront(Spaces(Deeper(st, current)));
    }
  }

  lemma ZeroText(st: Style, bits: uint64)
    ensures FloatText(st, bits) == DoubleText(st.format, bits)
  {
  }

  lemma NoTokens(j: Value, st: Style)
    ensures j == Arr([]) ==> ItemTokens(j, 0, st.format) == []
    ensures j == Obj(map[]) ==> MemberTokens(j, SortedKeys(j.o.Keys), st.format) == []
  {
  }

  lemma SomeKey(o: map<Str, Value>)
    requires o != map[]
    ensures SortedKeys(o.Keys) != []
  {
    if k :| k in o { assert k in SortedKeys(o.Keys); }
  }

  lemma NothingInFront(s: Str)
    ensures [] + s == s
  {
  }

  // ---------- the public `dump` ----------

  /** `dump(indent)` prints the layout for this indentation. */
  lemma TextIsLaid(j: Value, format: uint64 -> Str, indent: int)
    requires INT_MIN <= indent <= INT_MAX
    ensures Dumped(j, StyleOf(format, indent), 0) == Laid(indent, 0, TokensOf(j, format))
  {
    hide Dumped, Laid, TokensOf;
    DumpedIsLaid(j, StyleOf(format, indent), 0, indent, 0);
  }

  function Texts(ts: seq<Token>): Str { if ts == [] then [] else TokenText(ts[0]) + Texts(ts[1..]) }

  /** For a negative indentation nothing stands between the tokens. */
  lemma {:induction false} CompactIsTexts(indent: int, depth: int, ts: seq<Token>)
    requires indent < 0
    ensures Laid(indent, depth, ts) == Texts(ts)
    decreases |ts|
  {
    hide TokenText, Depth;
    if |ts| == 1 {
      assert ts[1..] == [];
      assert TokenText(ts[0]) + [] == TokenText(ts[0]);
    } else if |ts| > 1 {
      LaidUnfolds(indent, depth, ts);
      CompactIsTexts(indent, depth + Depth([ts[0]]), ts[1..]);
      assert TokenText(ts[0]) + [] == TokenText(ts[0]);
    }
  }

  /** Without doubles: what is printed is the layout of the tokens of the derivation that means the value. */
  lemma DumpIsLaidOut(j: Value, format: uint64 -> Str, indent: int)
    requires INT_MIN <= indent <= INT_MAX && FloatFree(j)
    ensures Dumped(j, StyleOf(format, indent), 0) == Laid(indent, 0, Yield(TreeOf(j)))
    ensures indent < 0 ==> Dumped(j, StyleOf(format, indent), 0) == Texts(Yield(TreeOf(j)))
  {
    hide Dumped, Laid, TokensOf, Yield, TreeOf, Texts;
    TextIsLaid(j, format, indent);
    TokensAreYield(j, format);
    if indent < 0 { CompactIsTexts(indent, 0, Yield(TreeOf(j))); }
  }
}
