/** The recursive descent accepts exactly what the grammar derives, and computes its meaning. */
module GrammarLaw {
  import opened Bytes
  import opened Results
  import opened Values
  import opened Tokens
  import opened Numbers
  import opened Grammar

  /** A value in front of the tokens that remain. */
  function With(r: Result<Value>, rest: seq<Token>): Parsed {
    match r case Ok(v) => Ok((v, rest)) case Err(e) => Err(e)
  }

  lemma FirstToken(t: Tree)
    requires Derived(t)
    ensures IsScalarToken(Yield(t)[0]) || Yield(t)[0] == Mark(BeginArray) || Yield(t)[0] == Mark(BeginObject)
  {
  }

  lemma Regroup<T>(a: seq<T>, b: seq<T>, c: seq<T>, d: seq<T>)
    ensures a + b + c + d == a + (b + c + d)
    ensures |a + b + c + d| == |a| + |b| + |c| + |d|
    ensures (a + b + c + d)[|a|..] == b + c + d
  {
  }

  lemma Join<T>(a: seq<T>, b: seq<T>)
    ensures (a + b)[|a|..] == b && (a != [] ==> (a + b)[0] == a[0])
  {
  }

  /** Every derivation is parsed to its end, and no further. */
  lemma {:induction false} Complete(strtod: Str -> uint64, t: Tree, rest: seq<Token>)
    requires Derived(t)
    ensures ParseValue(strtod, Yield(t) + rest) == With(Meaning(strtod, t), rest)
    decreases t, 0
  {
    hide ParseItems, ParseMembers, MeaningItems, MeaningMembers, TextOf, NumberValue, YieldItems, YieldMembers;
    var ts := Yield(t) + rest;
    match t
    case Leaf(_) =>
      Join(Yield(t), rest);
    case Array(items) =>
      var body := YieldItems(items);
      Regroup([Mark(BeginArray)], body, [Mark(EndArray)], rest);
      if items == NoItems {
        NothingYielded(strtod);
        assert ts[2..] == rest;
      } else {
        FirstOfItems(items, [Mark(EndArray)] + rest);
        Reassociate(body, [Mark(EndArray)], rest);
        CompleteItems(strtod, items, rest, []);
      }
    case Object(members) =>
      var body := YieldMembers(members);
      Regroup([Mark(BeginObject)], body, [Mark(EndObject)], rest);
      if members == NoMembers {
        NothingYielded(strtod);
        assert ts[2..] == rest;
      } else {
        FirstOfMembers(members, [Mark(EndObject)] + rest);
        Reassociate(body, [Mark(EndObject)], rest);
        CompleteMembers(strtod, members, rest, map[]);
      }
  }

  lemma Reassociate<T>(a: seq<T>, b: seq<T>, c: seq<T>)
    ensures a + b + c == a + (b + c)
  {
  }

  lemma NothingYielded(strtod: Str -> uint64)
    ensures YieldItems(NoItems) == [] && YieldMembers(NoMembers) == []
    ensures MeaningItems(strtod, NoItems, []) == Ok(Arr([]))
    ensures MeaningMembers(strtod, NoMembers, map[]) == Ok(Obj(map[]))
  {
  }

  lemma FirstOfItems(items: Items, rest: seq<Token>)
    requires items.Item? && DerivedItems(items)
    ensures !Grammar.Next(YieldItems(items) + rest, EndArray)
  {
    hide Yield;
    FirstToken(items.head);
    Join(Yield(items.head), rest);
    assert YieldItems(items)[0] == Yield(items.head)[0];
  }

  lemma FirstOfMembers(ms: Members, rest: seq<Token>)
    requires ms.Member?
    ensures !Grammar.Next(YieldMembers(ms) + rest, EndObject)
  {
    hide Yield;
  }

  lemma {:induction false} CompleteItems(strtod: Str -> uint64, items: Items, rest: seq<Token>, acc: seq<Value>)
    requires items.Item? && DerivedItems(items)
    ensures ParseItems(strtod, YieldItems(items) + ([Mark(EndArray)] + rest), acc)
         == With(MeaningItems(strtod, items, acc), rest)
    decreases items, 1
  {
    hide ParseValue, Meaning, Yield;
    var tail, behind := items.tail, [Mark(EndArray)] + rest;
    if tail == NoItems {
      Complete(strtod, items.head, behind);
    } else {
      var more := YieldItems(tail) + behind;
      Regroup(Yield(items.head), [Mark(ValueSeparator)], YieldItems(tail), behind);
      Reassociate([Mark(ValueSeparator)], YieldItems(tail), behind);
      Complete(strtod, items.head, [Mark(ValueSeparator)] + more);
      Join([Mark(ValueSeparator)], more);
      if Meaning(strtod, items.head).Ok? {
        CompleteItems(strtod, tail, rest, acc + [Meaning(strtod, items.head).value]);
      }
    }
  }

  lemma {:induction false} CompleteMembers(strtod: Str -> uint64, ms: Members, rest: seq<Token>, acc: map<Str, Value>)
    requires ms.Member? && DerivedMembers(ms)
    ensures ParseMembers(strtod, YieldMembers(ms) + ([Mark(EndObject)] + rest), acc)
         == With(MeaningMembers(strtod, ms, acc), rest)
    decreases ms, 1
  {
    hide ParseValue, Meaning, Yield, StringOf;
    var tail, behind := ms.rest, [Mark(EndObject)] + rest;
    var name := [StringToken(ms.key), Mark(NameSeparator)];
    if tail == NoMembers {
      Reassociate(name, Yield(ms.value), behind);
      Join(name, Yield(ms.value) + behind);
      Complete(strtod, ms.value, behind);
    } else {
      var more := YieldMembers(tail) + behind;
      Reassociate(name + Yield(ms.value), [Mark(ValueSeparator)], YieldMembers(tail));
      Regroup(name + Yield(ms.value), [Mark(ValueSeparator)], YieldMembers(tail), behind);
      Reassociate([Mark(ValueSeparator)], YieldMembers(tail), behind);
      Reassociate(name, Yield(ms.value), [Mark(ValueSeparator)] + more);
      Join(name, Yield(ms.value) + ([Mark(ValueSeparator)] + more));
      Complete(strtod, ms.value, [Mark(ValueSeparator)] + more);
      Join([Mark(ValueSeparator)], more);
      if StringOf(ms.key).Ok? && Meaning(strtod, ms.value).Ok? {
        CompleteMembers(strtod, tail, rest, acc[StringOf(ms.key).value := Meaning(strtod, ms.value).value]);
      }
    }
  }

  /** Whatever is parsed has a derivation, spelled by exactly the tokens consumed. */
  lemma {:induction false} Sound(strtod: Str -> uint64, ts: seq<Token>) returns (t: Tree)
    requires ParseValue(strtod, ts).Ok?
    ensures var (v, rest) := ParseValue(strtod, ts).value;
            Derived(t) && Yield(t) + rest == ts && Meaning(strtod, t) == Ok(v)
    decreases |ts|, 0
  {
    hide ParseItems, ParseMembers, MeaningItems, MeaningMembers, TextOf, NumberValue, YieldItems, YieldMembers;
    assert ts == [ts[0]] + ts[1..];
    NothingYielded(strtod);
    if ts[0] == Mark(BeginArray) {
      if Grammar.Next(ts[1..], EndArray) {
        t := Array(NoItems);
        assert ts[1..] == [Mark(EndArray)] + ts[2..];
      } else {
        var items := SoundItems(strtod, ts[1..], []);
        t := Array(items);
        Regroup([Mark(BeginArray)], YieldItems(items), [Mark(EndArray)], ParseValue(strtod, ts).value.1);
      }
    } else if ts[0] == Mark(BeginObject) {
      if Grammar.Next(ts[1..], EndObject) {
        t := Object(NoMembers);
        assert ts[1..] == [Mark(EndObject)] + ts[2..];
      } else {
        var members := SoundMembers(strtod, ts[1..], map[]);
        t := Object(members);
        Regroup([Mark(BeginObject)], YieldMembers(members), [Mark(EndObject)], ParseValue(strtod, ts).value.1);
      }
    } else {
      t := Leaf(ts[0]);
    }
  }

  lemma {:induction false} SoundItems(strtod: Str -> uint64, ts: seq<Token>, acc: seq<Value>) returns (items: Items)
    requires ParseItems(strtod, ts, acc).Ok?
    ensures var (v, rest) := ParseItems(strtod, ts, acc).value;
            && items.Item? && DerivedItems(items)
            && YieldItems(items) + [Mark(EndArray)] + rest == ts && MeaningItems(strtod, items, acc) == Ok(v)
    decreases |ts|, 1
  {
    hide ParseValue, Meaning, Yield;
    var head := Sound(strtod, ts);
    var (v, behind) := ParseValue(strtod, ts).value;
    assert behind == [behind[0]] + behind[1..];
    if Grammar.Next(behind, ValueSeparator) {
      var rest := ParseItems(strtod, ts, acc).value.1;
      var tail := SoundItems(strtod, behind[1..], acc + [v]);
      items := Item(head, tail);
      Spelled(Yield(head), [Mark(ValueSeparator)], YieldItems(tail), [Mark(EndArray)], rest);
    } else {
      items := Item(head, NoItems);
      Reassociate(Yield(head), [Mark(EndArray)], behind[1..]);
      assert MeaningItems(strtod, NoItems, acc + [v]) == Ok(Arr(acc + [v]));
    }
  }

  lemma Spelled<T>(a: seq<T>, b: seq<T>, c: seq<T>, d: seq<T>, e: seq<T>)
    ensures a + b + c + d + e == a + (b + (c + d + e))
  {
  }

  lemma {:induction false} SoundMembers(strtod: Str -> uint64, ts: seq<Token>, acc: map<Str, Value>)
    returns (ms: Members)
    requires ParseMembers(strtod, ts, acc).Ok?
    ensures var (v, rest) := ParseMembers(strtod, ts, acc).value;
            && ms.Member? && DerivedMembers(ms)
            && YieldMembers(ms) + [Mark(EndObject)] + rest == ts && MeaningMembers(strtod, ms, acc) == Ok(v)
    decreases |ts|, 1
  {
    hide ParseValue, Meaning, Yield, StringOf;
    var key := ts[0].text;
    var name := [StringToken(key), Mark(NameSeparator)];
    assert ts == name + ts[2..];
    var value := Sound(strtod, ts[2..]);
    var k := StringOf(key).value;
    var (v, behind) := ParseValue(strtod, ts[2..]).value;
    assert behind == [behind[0]] + behind[1..];
    if Grammar.Next(behind, ValueSeparator) {
      var rest := ParseMembers(strtod, ts, acc).value.1;
      var tail := SoundMembers(strtod, behind[1..], acc[k := v]);
      ms := Member(key, value, tail);
      Spelled(name + Yield(value), [Mark(ValueSeparator)], YieldMembers(tail), [Mark(EndObject)], rest);
      Reassociate(name, Yield(value), behind);
    } else {
      ms := Member(key, value, NoMembers);
      Reassociate(name + Yield(value), [Mark(EndObject)], behind[1..]);
      Reassociate(name, Yield(value), behind);
      assert MeaningMembers(strtod, NoMembers, acc[k := v]) == Ok(Obj(acc[k := v]));
    }
  }

  ghost predicate Derivation(strtod: Str -> uint64, t: Tree, ts: seq<Token>, v: Value, rest: seq<Token>) {
    Derived(t) && Yield(t) + rest == ts && Meaning(strtod, t) == Ok(v)
  }

  /** `parse_internal` succeeds exactly when the tokens begin with a derivation of "value", which it consumes. */
  lemma ParseValueIsGrammar(strtod: Str -> uint64, ts: seq<Token>, v: Value, rest: seq<Token>)
    ensures ParseValue(strtod, ts) == Ok((v, rest)) <==> exists t :: Derivation(strtod, t, ts, v, rest)
  {
    hide ParseValue, Meaning, Yield, Derived;
    if ParseValue(strtod, ts) == Ok((v, rest)) {
      var t := Sound(strtod, ts);
      assert Derivation(strtod, t, ts, v, rest);
    }
    if exists t :: Derivation(strtod, t, ts, v, rest) {
      var t :| Derivation(strtod, t, ts, v, rest);
      Complete(strtod, t, rest);
    }
  }

  lemma LexedStep(s: Str)
    requires s != [] && s[|s| - 1] == 0
    ensures |Lexed(s)| == 1 || (
              exists rest ::
                && |rest| < |s| && rest != [] && rest[|rest| - 1] == 0
                && Lexed(s)[1..] == Lexed(rest) && Lexed(s)[0] != Mark(EndOfInput))
  {
    hide Head, Blanks;
    var t := s[Blanks(s)..];
    assert t != [] && t[|t| - 1] == 0;
    var (k, n) := Head(t);
    TokenLaw.HeadBeforeNul(t);
    if !Final(k) {
      var rest := t[n..];
      assert Lexed(s)[1..] == Lexed(rest);
      assert rest[|rest| - 1] == 0;
    }
  }

  /** The end of the input is the last token. */
  lemma {:induction false} LexedEnds(s: Str, i: nat)
    requires s != [] && s[|s| - 1] == 0 && i < |Lexed(s)|
    ensures Lexed(s)[i] == Mark(EndOfInput) ==> i == |Lexed(s)| - 1
    decreases |s|
  {
    hide Lexed;
    LexedStep(s);
    if |Lexed(s)| > 1 && i > 0 {
      var rest :| |rest| < |s| && rest != [] && rest[|rest| - 1] == 0 && Lexed(s)[1..] == Lexed(rest);
      LexedEnds(rest, i - 1);
    }
  }

  /** `parse` accepts a text exactly when its tokens are a derivation followed by the end of the input. */
  lemma ParseTextIsGrammar(strtod: Str -> uint64, content: Str, v: Value)
    ensures ParseText(strtod, content) == Ok(v) <==>
      exists t :: Derivation(strtod, t, Lexed(content + [0]), v, [Mark(EndOfInput)])
  {
    hide ParseValue, Meaning, Yield, Derived, Lexed;
    var ts := Lexed(content + [0]);
    ParseValueIsGrammar(strtod, ts, v, [Mark(EndOfInput)]);
    if ParseText(strtod, content) == Ok(v) {
      var rest := ParseValue(strtod, ts).value.1;
      ParseValueIsGrammar(strtod, ts, v, rest);
      var t :| Derivation(strtod, t, ts, v, rest);
      assert ts[|Yield(t)|] == rest[0];
      LexedEnds(content + [0], |Yield(t)|);
      assert rest == [Mark(EndOfInput)];
    }
  }
}
