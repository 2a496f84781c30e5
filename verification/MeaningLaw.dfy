/** What `parse` makes of arrays, objects and literals. */
module MeaningLaw {
  import opened Bytes
  import opened Results
  import opened Values
  import opened Grammar
  import opened Dumping
  import opened DumpLaw
  import opened DataItems

  // ---------- arrays ----------

  function Elements(items: Items): seq<Tree> {
    match items case NoItems => [] case Item(head, tail) => [head] + Elements(tail)
  }

  lemma {:induction false} ItemsInOrder(strtod: Str -> uint64, items: Items, acc: seq<Value>)
    requires MeaningItems(strtod, items, acc).Ok?
    ensures var v, es := MeaningItems(strtod, items, acc).value, Elements(items);
            && v.Arr? && |v.a| == |acc| + |es| && v.a[..|acc|] == acc
            && forall i | 0 <= i < |es| :: Meaning(strtod, es[i]) == Ok(v.a[|acc| + i])
    decreases items
  {
    hide Meaning;
    if items.Item? {
      var x := Meaning(strtod, items.head).value;
      ItemsInOrder(strtod, items.tail, acc + [x]);
      var v, es := MeaningItems(strtod, items, acc).value, Elements(items);
      assert v.a[..|acc|] == v.a[..|acc| + 1][..|acc|];
      assert v.a[|acc|] == v.a[..|acc| + 1][|acc|];
      forall i | 0 <= i < |es| ensures Meaning(strtod, es[i]) == Ok(v.a[|acc| + i]) {
        if i > 0 { assert es[i] == Elements(items.tail)[i - 1]; }
      }
    }
  }

  /** An array holds the meanings of its elements in their order. */
  lemma ArrayInOrder(strtod: Str -> uint64, items: Items)
    requires Meaning(strtod, Array(items)).Ok?
    ensures var v, es := Meaning(strtod, Array(items)).value, Elements(items);
            v.Arr? && |v.a| == |es| && forall i | 0 <= i < |es| :: Meaning(strtod, es[i]) == Ok(v.a[i])
  {
    ItemsInOrder(strtod, items, []);
  }

  // ---------- objects ----------

  /** Names and values of the members, in the order of the text. */
  function PairsOf(strtod: Str -> uint64, ms: Members): Result<seq<Pair>> {
    match ms
    case NoMembers => Ok([])
    case Member(key, value, rest) =>
      var k :- StringOf(key);
      var v :- Meaning(strtod, value);
      var more :- PairsOf(strtod, rest);
      Ok([(k, v)] + more)
  }

  lemma {:induction false} MembersCollect(strtod: Str -> uint64, ms: Members, acc: map<Str, Value>)
    ensures var r, ps := MeaningMembers(strtod, ms, acc), PairsOf(strtod, ms);
            (r.Ok? <==> ps.Ok?) && (r.Ok? ==> r.value == Obj(Collect(ps.value, acc)))
    decreases ms
  {
    hide Meaning, StringOf;
    if ms.Member? && StringOf(ms.key).Ok? && Meaning(strtod, ms.value).Ok? {
      var k, v := StringOf(ms.key).value, Meaning(strtod, ms.value).value;
      MembersCollect(strtod, ms.rest, acc[k := v]);
      var more := PairsOf(strtod, ms.rest);
      if more.Ok? { assert ([(k, v)] + more.value)[1..] == more.value; }
    }
  }

  /** An object has the names of all its members, each with the value it has last. */
  lemma ObjectGathers(strtod: Str -> uint64, ms: Members)
    ensures Meaning(strtod, Object(ms)).Ok? <==> PairsOf(strtod, ms).Ok?
    ensures Meaning(strtod, Object(ms)).Ok? ==>
      var v := Meaning(strtod, Object(ms)).value; v.Obj? && Gathers(PairsOf(strtod, ms).value, v.o)
  {
    hide PairsOf, Gathers;
    MembersCollect(strtod, ms, map[]);
    if PairsOf(strtod, ms).Ok? { CollectGathers(PairsOf(strtod, ms).value); }
  }

  // ---------- literals ----------

  /** The texts `null`, `true`, `false`, `[]` and `{}`. */
  lemma LiteralTexts(strtod: Str -> uint64)
    ensures ParseText(strtod, [0x6e, 0x75, 0x6c, 0x6c]) == Ok(Null)
    ensures ParseText(strtod, [0x74, 0x72, 0x75, 0x65]) == Ok(Bool(true))
    ensures ParseText(strtod, [0x66, 0x61, 0x6c, 0x73, 0x65]) == Ok(Bool(false))
    ensures ParseText(strtod, [0x5b, 0x5d]) == Ok(Arr([])) && ParseText(strtod, [0x7b, 0x7d]) == Ok(Obj(map[]))
  {
    hide ParseText;
    var st := Style(_ => [], false, 0);
    ParseOfDump(strtod, Null, st, 0);
    ParseOfDump(strtod, Bool(true), st, 0);
    ParseOfDump(strtod, Bool(false), st, 0);
    ParseOfDump(strtod, Arr([]), st, 0);
    ParseOfDump(strtod, Obj(map[]), st, 0);
    assert Norm(Arr([])) == Arr([]) && Norm(Obj(map[])) == Obj(map[]);
  }
}
