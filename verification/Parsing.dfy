/** `parser`: recursive descent with one token of look-ahead. */
module Parsing {
  import opened Bytes
  import opened Results
  import opened Unicode
  import opened Values
  import opened Quoting
  import opened Tokens
  import opened TokenLaw
  import opened Scanner
  import opened Numbers
  import opened Grammar

  /** The tokens of a buffer from position `i` on. */
  ghost function LexedAt(b: Str, i: nat): seq<Token>
    requires i < |b| && b[|b| - 1] == 0
  {
    assert b[i..][|b| - i - 1] == b[|b| - 1];
    Lexed(b[i..])
  }

  /** Scanning once is reading the first of the tokens ahead. */
  lemma ScanIsLexed(b: Str, i: nat)
    requires i < |b| && b[|b| - 1] == 0
    ensures var t := Behind(b, i);
            var (k, n) := Head(t);
            var start := |b| - |t|;
            && start + n <= |b|
            && (if Final(k) then LexedAt(b, i) == [Mark(k)]
                else start + n < |b| && IsToken(k, b[start..start + n])
                     && LexedAt(b, i) == [TokenOf(k, b[start..start + n])] + LexedAt(b, start + n))
  {
    hide Head, IsToken, Lexed, Behind, Blanks, TokenOf;
    var s := b[i..];
    assert s[|s| - 1] == 0;
    var t := Behind(b, i);
    assert t == Behind(s, 0) by { BehindSlice(b, i); }
    var (k, n) := Head(t);
    var start := |b| - |t|;
    BehindIsSlice(b, i);
    LexedUnfolds(s);
    HeadIsLongestToken(t);
    if !Final(k) { HeadBeforeNul(t); }
    PartsOfSlice(b, start, n);
  }

  lemma PartsOfSlice(b: Str, start: nat, n: nat)
    requires start + n <= |b|
    ensures b[start..][..n] == b[start..start + n] && b[start..][n..] == b[start + n..]
  {
  }

  lemma BehindSlice(b: Str, i: nat)
    requires i < |b| && b[|b| - 1] == 0
    ensures Behind(b, i) == Behind(b[i..], 0)
  {
    assert b[i..][0..] == b[i..];
  }

  lemma BehindIsSlice(b: Str, i: nat)
    requires i < |b| && b[|b| - 1] == 0
    ensures |Behind(b, i)| <= |b| && Behind(b, i) == b[|b| - |Behind(b, i)|..]
  {
  }

  lemma LexedUnfolds(s: Str)
    requires s != [] && s[|s| - 1] == 0
    ensures var t := Behind(s, 0);
            var (k, n) := Head(t);
            if Final(k) then Lexed(s) == [Mark(k)]
            else n < |t| && Lexed(s) == [TokenOf(k, t[..n])] + Lexed(t[n..])
  {
    hide Head, TokenOf, Blanks;
    assert s[0..] == s;
    HeadBeforeNul(Behind(s, 0));
  }

  /** The text of a string token reads as `get_string` requires. */
  lemma StringText(text: Str)
    requires IsString(text)
    ensures EscapesOk(text[1..|text| - 1])
  {
    hide EscapesOk;
    UnquotedIsMeaning(text[1..|text| - 1]);
  }

  class Parser {
    const lexer: Lexer
    var lastToken: TokenType

    ghost predicate Valid()
      reads this, lexer
    {
      && lexer.Valid()
      && (!Final(lastToken) ==>
            lexer.cursor <= |lexer.data| && IsToken(lastToken, lexer.Buffer()[lexer.start..lexer.cursor]))
    }

    /** The tokens from the last one read to the end. */
    ghost function Remaining(): (ts: seq<Token>)
      requires Valid()
      reads this, lexer
      ensures ts != []
    {
      if Final(lastToken) then [Mark(lastToken)]
      else [TokenOf(lastToken, lexer.Buffer()[lexer.start..lexer.cursor])] + Lexed(lexer.Buffer()[lexer.cursor..])
    }

    constructor (content: Str)
      ensures fresh(lexer) && lexer.data == content && lexer.Valid() && lexer.cursor == 0
    {
      lexer := new Lexer(content);
      lastToken := Uninitialized;
    }

    method GetToken()
      requires lexer.Valid() && lexer.cursor <= |lexer.data|
      modifies this, lexer
      ensures Valid() && Remaining() == Lexed(lexer.Buffer()[old(lexer.cursor)..])
    {
      hide IsToken, Lexed, Head, Behind, Blanks;
      ScanIsLexed(lexer.Buffer(), lexer.cursor);
      lastToken := lexer.Scan();
    }

    /** The next token of those remaining. */
    method Advance()
      requires Valid() && !Final(lastToken)
      modifies this, lexer
      ensures Valid() && Remaining() == old(Remaining())[1..]
    {
      hide IsToken, Lexed;
      GetToken();
    }

    method ReadString() returns (r: Result<Str>)
      requires Valid() && lastToken == ValueString
      ensures Remaining()[0].StringToken? && r == StringOf(Remaining()[0].text)
    {
      hide EscapesOk, Lexed, IsString, Unquoted;
      var text := lexer.TokenString();
      StringText(text);
      Quoted(text);
      r := GetString(text);
    }

    method ReadNumber(strtod: Str -> uint64) returns (v: Value)
      requires Valid() && lastToken == ValueNumber
      ensures Remaining()[0].NumberToken? && v == NumberValue(strtod, Remaining()[0].text)
    {
      hide Lexed, NumberValue, IsNumber;
      var text := lexer.TokenString();
      EmptyIsNoToken(ValueNumber);
      v := GetNumber(strtod, text);
    }

    lemma LastToken()
      requires Valid()
      ensures Remaining()[0] == TokenOf(lastToken, lexer.Buffer()[lexer.start..lexer.cursor]) || Final(lastToken)
      ensures Final(lastToken) ==> Remaining() == [Mark(lastToken)]
      ensures forall k :: k != ValueString && k != ValueNumber ==> (Grammar.Next(Remaining(), k) <==> lastToken == k)
    {
      hide Lexed, IsToken;
    }

    /** The items of an array, from behind its bracket on. */
    method ParseArray(strtod: Str -> uint64) returns (r: Result<Value>)
      requires Valid() && lastToken != ValueSeparator
      modifies this, lexer
      ensures r.Ok? ==> Valid() && ParseItems(strtod, old(Remaining()), []) == Ok((r.value, Remaining()))
      ensures r.Err? ==> ParseItems(strtod, old(Remaining()), []) == Err(r.error)
      decreases |Remaining()|, 1
    {
      hide ParseValue, ParseItems, Lexed, IsToken, Remaining, Valid;
      ghost var all := ParseItems(strtod, Remaining(), []);
      var items: seq<Value> := [];
      var more := true;
      while more
        invariant Valid() && |Remaining()| <= |old(Remaining())|
        invariant all ==
          if items == [] then ParseItems(strtod, Remaining(), []) else AfterItems(strtod, Remaining(), items)
        invariant if items == [] then more && Remaining() == old(Remaining()) && lastToken != ValueSeparator
                  else (more <==> lastToken == ValueSeparator) && |Remaining()| < |old(Remaining())|
        decreases |Remaining()|
      {
        LastToken();
        if lastToken == ValueSeparator {
          Advance();
        }
        ItemStep(strtod, Remaining(), items);
        var value :- ParseInternal(strtod);
        items := items + [value];
        LastToken();
        more := lastToken == ValueSeparator;
      }
      LastToken();
      if lastToken != EndArray {
        return Err(InvalidArgument);
      }
      Advance();
      return Ok(Arr(items));
    }

    /** The members of an object, from behind its brace on. */
    method ParseObject(strtod: Str -> uint64) returns (r: Result<Value>)
      requires Valid() && lastToken != ValueSeparator
      modifies this, lexer
      ensures r.Ok? ==> Valid() && ParseMembers(strtod, old(Remaining()), map[]) == Ok((r.value, Remaining()))
      ensures r.Err? ==> ParseMembers(strtod, old(Remaining()), map[]) == Err(r.error)
      decreases |Remaining()|, 1
    {
      hide ParseValue, ParseMembers, Lexed, IsToken, Remaining, Valid;
      ghost var all := ParseMembers(strtod, Remaining(), map[]);
      var members: map<Str, Value> := map[];
      var first, more := true, true;
      while more
        invariant Valid() && |Remaining()| <= |old(Remaining())|
        invariant all ==
          if first then ParseMembers(strtod, Remaining(), map[]) else AfterMembers(strtod, Remaining(), members)
        invariant if first then
            more && members == map[] && Remaining() == old(Remaining()) && lastToken != ValueSeparator
                  else (more <==> lastToken == ValueSeparator) && |Remaining()| < |old(Remaining())|
        decreases |Remaining()|
      {
        LastToken();
        if lastToken == ValueSeparator {
          Advance();
        }
        MemberStep(strtod, Remaining(), members);
        LastToken();
        if lastToken != ValueString {
          return Err(InvalidArgument);
        }
        var key :- ReadString();
        Advance();
        LastToken();
        if lastToken != NameSeparator {
          return Err(InvalidArgument);
        }
        Advance();
        var value :- ParseInternal(strtod);
        members := members[key := value];
        LastToken();
        first, more := false, lastToken == ValueSeparator;
      }
      LastToken();
      if lastToken != EndObject {
        return Err(InvalidArgument);
      }
      Advance();
      return Ok(Obj(members));
    }

    /** `parse_internal`. */
    method ParseInternal(strtod: Str -> uint64) returns (r: Result<Value>)
      requires Valid()
      modifies this, lexer
      ensures r.Ok? ==> Valid() && ParseValue(strtod, old(Remaining())) == Ok((r.value, Remaining()))
      ensures r.Err? ==> ParseValue(strtod, old(Remaining())) == Err(r.error)
      decreases |Remaining()|, 0
    {
      hide ParseItems, ParseMembers, Lexed, IsToken, Remaining, Valid, NumberValue, StringOf;
      LastToken();
      match lastToken
      case BeginObject =>
        Advance();
        LastToken();
        if lastToken == EndObject {
          Advance();
          return Ok(Obj(map[]));
        }
        if lastToken == ValueSeparator {
          CommaIsNoMember(strtod, Remaining());
          return Err(InvalidArgument);
        }
        r := ParseObject(strtod);
      case BeginArray =>
        Advance();
        LastToken();
        if lastToken == EndArray {
          Advance();
          return Ok(Arr([]));
        }
        if lastToken == ValueSeparator {
          CommaIsNoItem(strtod, Remaining());
          return Err(InvalidArgument);
        }
        r := ParseArray(strtod);
      case LiteralNull =>
        Advance();
        r := Ok(Null);
      case ValueString =>
        var s :- ReadString();
        Advance();
        r := Ok(Text(s));
      case LiteralTrue =>
        Advance();
        r := Ok(Bool(true));
      case LiteralFalse =>
        Advance();
        r := Ok(Bool(false));
      case ValueNumber =>
        var v := ReadNumber(strtod);
        Advance();
        r := Ok(v);
      case _ =>
        r := Err(InvalidArgument);
    }

    /** `parse`: the whole text. */
    method Parse(strtod: Str -> uint64) returns (r: Result<Value>)
      requires lexer.Valid() && lexer.cursor == 0
      modifies this, lexer
      ensures r == ParseText(strtod, lexer.data)
    {
      hide ParseValue, Lexed, IsToken, Remaining, Valid;
      WholeBuffer(lexer.data);
      GetToken();
      var result :- ParseInternal(strtod);
      LastToken();
      if lastToken != EndOfInput {
        return Err(InvalidArgument);
      }
      return Ok(result);
    }
  }

  /** What has been parsed of an array once `items` are read: the rest of the list, or its end. */
  function AfterItems(strtod: Str -> uint64, ts: seq<Token>, items: seq<Value>): Parsed {
    if Grammar.Next(ts, ValueSeparator) then ParseItems(strtod, ts[1..], items)
    else if Grammar.Next(ts, EndArray) then Ok((Arr(items), ts[1..]))
    else Err(InvalidArgument)
  }

  function AfterMembers(strtod: Str -> uint64, ts: seq<Token>, members: map<Str, Value>): Parsed {
    if Grammar.Next(ts, ValueSeparator) then ParseMembers(strtod, ts[1..], members)
    else if Grammar.Next(ts, EndObject) then Ok((Obj(members), ts[1..]))
    else Err(InvalidArgument)
  }

  lemma ItemStep(strtod: Str -> uint64, ts: seq<Token>, acc: seq<Value>)
    ensures var p := ParseValue(strtod, ts);
            ParseItems(strtod, ts, acc) ==
              if p.Ok? then AfterItems(strtod, p.value.1, acc + [p.value.0]) else Err(p.error)
  {
  }

  lemma MemberStep(strtod: Str -> uint64, ts: seq<Token>, acc: map<Str, Value>)
    ensures ParseMembers(strtod, ts, acc) ==
      if ts == [] || !ts[0].StringToken? || StringOf(ts[0].text).Err? || !Grammar.Next(ts[1..], NameSeparator) then
        Err(InvalidArgument)
      else
        var p := ParseValue(strtod, ts[2..]);
        if p.Ok? then AfterMembers(strtod, p.value.1, acc[StringOf(ts[0].text).value := p.value.0]) else Err(p.error)
  {
  }

  lemma CommaIsNoItem(strtod: Str -> uint64, ts: seq<Token>)
    requires Grammar.Next(ts, ValueSeparator)
    ensures ParseItems(strtod, ts, []) == Err(InvalidArgument)
  {
  }

  lemma CommaIsNoMember(strtod: Str -> uint64, ts: seq<Token>)
    requires Grammar.Next(ts, ValueSeparator)
    ensures ParseMembers(strtod, ts, map[]) == Err(InvalidArgument)
  {
  }

  lemma WholeBuffer(data: Str)
    ensures (data + [0])[0..] == data + [0]
  {
  }

  lemma Quoted(text: Str)
    requires IsString(text)
    ensures |text| >= 2 && text[|text| - 1] == QUOTE
  {
  }
}
