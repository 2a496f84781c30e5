/** `flatten` and `unflatten`: a tree as an object of pointer/leaf pairs, and back. */
module Flattening {
  import opened Bytes
  import opened Results
  import opened Decimal
  import opened Values
  import opened Pointers
  import opened Access

  const ZERO_TOKEN: Str := [48]

  // ---------- flatten ----------

  /** What is recorded as one entry: primitives, and empty containers as null. */
  predicate IsLeaf(v: Value) { v.Primitive() || v == Arr([]) || v == Obj(map[]) }

  function LeafValue(v: Value): Value { if v.Primitive() then v else Null }

  /** The tree walk of `flatten`, inserting into `acc`. */
  function FlatFrom(at: Str, v: Value, acc: map<Str, Value>): map<Str, Value>
    decreases v, 1, 0
  {
    if IsLeaf(v) then acc[at := LeafValue(v)]
    else if v.Arr? then FlatElements(at, v, 0, acc)
    else FlatMembers(at, v, SortedKeys(v.o.Keys), acc)
  }

  function FlatElements(at: Str, v: Value, i: nat, acc: map<Str, Value>): map<Str, Value>
    requires v.Arr?
    decreases v, 0, |v.a| - i
  {
    if i >= |v.a| then acc
    else FlatElements(at, v, i + 1, FlatFrom(at + [SLASH] + Dec(i), v.a[i], acc))
  }

  function FlatMembers(at: Str, v: Value, ks: seq<Str>, acc: map<Str, Value>): map<Str, Value>
    requires v.Obj? && forall k | k in ks :: k in v.o
    decreases v, 0, |ks|
  {
    if ks == [] then acc
    else FlatMembers(at, v, ks[1..], FlatFrom(at + [SLASH] + Escaped(ks[0]), v.o[ks[0]], acc))
  }

  lemma FlatUnfolds(at: Str, v: Value, acc: map<Str, Value>)
    ensures v.Arr? && v.a != [] ==> FlatFrom(at, v, acc) == FlatElements(at, v, 0, acc)
    ensures v.Obj? && v.o != map[] ==> FlatFrom(at, v, acc) == FlatMembers(at, v, SortedKeys(v.o.Keys), acc)
    ensures IsLeaf(v) ==> FlatFrom(at, v, acc) == acc[at := LeafValue(v)]
  {
  }

  lemma ElementStep(at: Str, v: Value, i: nat, acc: map<Str, Value>)
    requires v.Arr?
    ensures FlatElements(at, v, i, acc) ==
      if i >= |v.a| then acc else FlatElements(at, v, i + 1, FlatFrom(at + [SLASH] + Dec(i), v.a[i], acc))
  {
    hide FlatFrom;
  }

  lemma MemberStep(at: Str, v: Value, ks: seq<Str>, i: nat, acc: map<Str, Value>)
    requires v.Obj? && i <= |ks| && forall k | k in ks :: k in v.o
    ensures FlatMembers(at, v, ks[i..], acc) ==
      if i == |ks| then acc
      else FlatMembers(at, v, ks[i + 1..], FlatFrom(at + [SLASH] + Escaped(ks[i]), v.o[ks[i]], acc))
  {
    hide FlatFrom, Escaped;
    if i < |ks| { assert ks[i..][1..] == ks[i + 1..]; }
  }

  method FlattenInto(at: Str, value: Value, acc: map<Str, Value>) returns (result: map<Str, Value>)
    ensures result == FlatFrom(at, value, acc)
    decreases value
  {
    hide FlatFrom, FlatElements, FlatMembers, Escaped, Dec, SortedKeys;
    result := acc;
    FlatUnfolds(at, value, acc);
    match value
    case Arr(a) =>
      if |a| == 0 {
        result := result[at := Null];
      } else {
        for i := 0 to |a|
          invariant FlatElements(at, value, i, result) == FlatFrom(at, value, acc)
        {
          ElementStep(at, value, i, result);
          result := FlattenInto(at + [SLASH] + Dec(i), a[i], result);
        }
        ElementStep(at, value, |a|, result);
      }
    case Obj(o) =>
      if |o| == 0 {
        result := result[at := Null];
      } else {
        var ks := SortedKeys(o.Keys);
        assert ks[0..] == ks;
        for i := 0 to |ks|
          invariant FlatMembers(at, value, ks[i..], result) == FlatFrom(at, value, acc)
        {
          MemberStep(at, value, ks, i, result);
          var token := Escape(ks[i]);
          result := FlattenInto(at + [SLASH] + token, o[ks[i]], result);
        }
        MemberStep(at, value, ks, |ks|, result);
      }
    case _ =>
      result := result[at := value];
  }

  method Flatten(value: Value) returns (result: Value)
    ensures result == Obj(FlatFrom([], value, map[]))
  {
    var entries := FlattenInto([], value, map[]);
    return Obj(entries);
  }

  // ---------- unflatten ----------

  /** `get_and_create` along `ts`, followed by the assignment of `leaf`. */
  function Place(j: Value, ts: seq<Str>, leaf: Value): Result<Value>
    decreases |ts|
  {
    if ts == [] then Ok(leaf)
    else match j
      case Null =>
        if ts[0] == ZERO_TOKEN then PutIndex([Null], 0, Place(Null, ts[1..], leaf))
        else PutKey(map[], ts[0], Place(Null, ts[1..], leaf))
      case Obj(o) => PutKey(o, ts[0], Place(if ts[0] in o then o[ts[0]] else Null, ts[1..], leaf))
      case Arr(a) =>
        var i :- Stoi(ts[0]);
        if i < 0 then Err(if i == -1 && a == [] then OutOfBounds else LengthError)
        else
          var p := Padded(a, i + 1);
          PutIndex(p, i, Place(p[i], ts[1..], leaf))
      case _ => Err(DomainError)
  }

  function PlaceMembers(j: Value, o: map<Str, Value>, ks: seq<Str>): Result<Value>
    requires forall k | k in ks :: k in o
    decreases |ks|
  {
    if ks == [] then Ok(j)
    else if !o[ks[0]].Primitive() then Err(DomainError)
    else
      var ts :- Split(ks[0]);
      var next :- Place(j, ts, o[ks[0]]);
      PlaceMembers(next, o, ks[1..])
  }

  function Unflattened(value: Value): Result<Value> {
    if value.Obj? then PlaceMembers(Null, value.o, SortedKeys(value.o.Keys)) else Err(DomainError)
  }

  method Unflatten(value: Value) returns (r: Result<Value>)
    ensures r == Unflattened(value)
  {
    if !value.Obj? { return Err(DomainError); }
    var result := Null;
    var ks := SortedKeys(value.o.Keys);
    var i := 0;
    assert ks[0..] == ks;
    while i < |ks|
      invariant 0 <= i <= |ks|
      invariant PlaceMembers(result, value.o, ks[i..]) == Unflattened(value)
    {
      hide Place, Split, SortedKeys;
      assert ks[i..][1..] == ks[i + 1..];
      var leaf := value.o[ks[i]];
      if !leaf.Primitive() { return Err(DomainError); }
      var ts := Split(ks[i]);
      if ts.Err? { return Err(ts.error); }
      var next := Place(result, ts.value, leaf);
      if next.Err? { return next; }
      result := next.value;
      i := i + 1;
    }
    return Ok(result);
  }
}
