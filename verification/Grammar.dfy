/** The grammar of JSON texts over tokens (RFC 7159, section 2), and the recursive descent of `parse_internal`. */
module Grammar {
  import opened Bytes
  import opened Results
  import opened Values
  import opened Quoting
  import opened Tokens
  import opened TokenLaw
  import opened Numbers

  /** A token; only strings and numbers need their text. */
  datatype Token = StringToken(text: Str) | NumberToken(text: Str) | Mark(kind: TokenType)

  function TokenOf(k: TokenType, text: Str): Token {
    if k == ValueString then StringToken(text) else if k == ValueNumber then NumberToken(text) else Mark(k)
  }

  predicate Final(k: TokenType) { k == EndOfInput || k == ParseError }

  /** The tokens of a text that ends in a NUL, up to its end or its first error. */
  function Lexed(s: Str): (ts: seq<Token>)
    requires s != [] && s[|s| - 1] == 0
    ensures ts != []
    decreases |s|
  {
    var t := s[Blanks(s)..];
    assert t != [] && t[|t| - 1] == 0;
    var (k, n) := Head(t);
    HeadBeforeNul(t);
    if Final(k) then [Mark(k)] else [TokenOf(k, t[..n])] + Lexed(t[n..])
  }

  // ---------- derivations ----------

  /** A derivation of "value". */
  datatype Tree = Leaf(token: Token) | Array(items: Items) | Object(members: Members)

  datatype Items = NoItems | Item(head: Tree, tail: Items)

  datatype Members = NoMembers | Member(key: Str, value: Tree, rest: Members)

  predicate IsScalarToken(t: Token) {
    t.StringToken? || t.NumberToken? || t == Mark(LiteralNull) || t == Mark(LiteralTrue) || t == Mark(LiteralFalse)
  }

  predicate Derived(t: Tree) {
    match t
    case Leaf(token) => IsScalarToken(token)
    case Array(items) => DerivedItems(items)
    case Object(members) => DerivedMembers(members)
  }

  predicate DerivedItems(items: Items) { items.Item? ==> Derived(items.head) && DerivedItems(items.tail) }

  predicate DerivedMembers(ms: Members) { ms.Member? ==> Derived(ms.value) && DerivedMembers(ms.rest) }

  /** The tokens a derivation spells. */
  function Yield(t: Tree): (ts: seq<Token>)
    ensures ts != []
  {
    match t
    case Leaf(token) => [token]
    case Array(items) => [Mark(BeginArray)] + YieldItems(items) + [Mark(EndArray)]
    case Object(members) => [Mark(BeginObject)] + YieldMembers(members) + [Mark(EndObject)]
  }

  function YieldItems(items: Items): seq<Token> {
    match items
    case NoItems => []
    case Item(head, NoItems) => Yield(head)
    case Item(head, tail) => Yield(head) + [Mark(ValueSeparator)] + YieldItems(tail)
  }

  function YieldMembers(ms: Members): seq<Token> {
    match ms
    case NoMembers => []
    case Member(key, value, NoMembers) => [StringToken(key), Mark(NameSeparator)] + Yield(value)
    case Member(key, value, rest) =>
      [StringToken(key), Mark(NameSeparator)] + Yield(value) + [Mark(ValueSeparator)] + YieldMembers(rest)
  }

  /** The string a token denotes. */
  function StringOf(text: Str): (r: Result<Str>)
    ensures r.Err? ==> r.error == InvalidArgument
  {
    if |text| >= 2 && EscapesOk(text[1..|text| - 1]) then Unquoted(text[1..|text| - 1]) else Err(InvalidArgument)
  }

  function TextOf(text: Str): (r: Result<Value>)
    ensures r.Err? ==> r.error == InvalidArgument
  {
    match StringOf(text) case Ok(s) => Ok(Text(s)) case Err(e) => Err(e)
  }

  /** The value a derivation denotes; of equal names the last one counts. */
  function Meaning(strtod: Str -> uint64, t: Tree): (r: Result<Value>)
    ensures r.Err? ==> r.error == InvalidArgument
  {
    match t
    case Leaf(StringToken(text)) => TextOf(text)
    case Leaf(NumberToken(text)) => Ok(NumberValue(strtod, text))
    case Leaf(Mark(LiteralNull)) => Ok(Null)
    case Leaf(Mark(LiteralTrue)) => Ok(Bool(true))
    case Leaf(Mark(LiteralFalse)) => Ok(Bool(false))
    case Leaf(Mark(_)) => Err(InvalidArgument)
    case Array(items) => MeaningItems(strtod, items, [])
    case Object(members) => MeaningMembers(strtod, members, map[])
  }

  function MeaningItems(strtod: Str -> uint64, items: Items, acc: seq<Value>): (r: Result<Value>)
    ensures r.Err? ==> r.error == InvalidArgument
  {
    match items
    case NoItems => Ok(Arr(acc))
    case Item(head, tail) =>
      var v :- Meaning(strtod, head);
      MeaningItems(strtod, tail, acc + [v])
  }

  function MeaningMembers(strtod: Str -> uint64, ms: Members, acc: map<Str, Value>): (r: Result<Value>)
    ensures r.Err? ==> r.error == InvalidArgument
  {
    match ms
    case NoMembers => Ok(Obj(acc))
    case Member(key, value, rest) =>
      var k :- StringOf(key);
      var v :- Meaning(strtod, value);
      MeaningMembers(strtod, rest, acc[k := v])
  }

  // ---------- recursive descent ----------

  type Parsed = Result<(Value, seq<Token>)>

  predicate Next(ts: seq<Token>, k: TokenType) { ts != [] && ts[0] == Mark(k) }

  /** `parse_internal`: a value from the head of `ts`, and the tokens behind it. */
  function ParseValue(strtod: Str -> uint64, ts: seq<Token>): (r: Parsed)
    ensures if r.Ok? then |r.value.1| < |ts| else r.error == InvalidArgument
    decreases |ts|, 0
  {
    if ts == [] then Err(InvalidArgument)
    else
      match ts[0]
      case StringToken(text) =>
        var v :- TextOf(text);
        Ok((v, ts[1..]))
      case NumberToken(text) => Ok((NumberValue(strtod, text), ts[1..]))
      case Mark(LiteralNull) => Ok((Null, ts[1..]))
      case Mark(LiteralTrue) => Ok((Bool(true), ts[1..]))
      case Mark(LiteralFalse) => Ok((Bool(false), ts[1..]))
      case Mark(BeginArray) =>
        if Next(ts[1..], EndArray) then Ok((Arr([]), ts[2..])) else ParseItems(strtod, ts[1..], [])
      case Mark(BeginObject) =>
        if Next(ts[1..], EndObject) then Ok((Obj(map[]), ts[2..])) else ParseMembers(strtod, ts[1..], map[])
      case Mark(_) => Err(InvalidArgument)
  }

  function ParseItems(strtod: Str -> uint64, ts: seq<Token>, acc: seq<Value>): (r: Parsed)
    ensures if r.Ok? then |r.value.1| < |ts| else r.error == InvalidArgument
    decreases |ts|, 1
  {
    var (v, rest) :- ParseValue(strtod, ts);
    if Next(rest, ValueSeparator) then ParseItems(strtod, rest[1..], acc + [v])
    else if Next(rest, EndArray) then Ok((Arr(acc + [v]), rest[1..]))
    else Err(InvalidArgument)
  }

  function ParseMembers(strtod: Str -> uint64, ts: seq<Token>, acc: map<Str, Value>): (r: Parsed)
    ensures if r.Ok? then |r.value.1| < |ts| else r.error == InvalidArgument
    decreases |ts|, 1
  {
    if ts == [] || !ts[0].StringToken? then Err(InvalidArgument)
    else
      var k :- StringOf(ts[0].text);
      if !Next(ts[1..], NameSeparator) then Err(InvalidArgument)
      else
        var (v, rest) :- ParseValue(strtod, ts[2..]);
        if Next(rest, ValueSeparator) then ParseMembers(strtod, rest[1..], acc[k := v])
        else if Next(rest, EndObject) then Ok((Obj(acc[k := v]), rest[1..]))
        else Err(InvalidArgument)
  }

  /** `parse`: one value and then the end of the input. */
  function ParseTokens(strtod: Str -> uint64, ts: seq<Token>): Result<Value> {
    var (v, rest) :- ParseValue(strtod, ts);
    if Next(rest, EndOfInput) then Ok(v) else Err(InvalidArgument)
  }

  function ParseText(strtod: Str -> uint64, content: Str): Result<Value> { ParseTokens(strtod, Lexed(content + [0])) }
}
