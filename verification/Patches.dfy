/** JSON Patch (RFC 6902): `patch` on its working copy, and `diff`, each proved against its specification. */
module Patches {
  import opened Bytes
  import opened Results
  import opened Decimal
  import opened Values
  import opened Pointers
  import opened Access

  function Ascii(s: string): Str
    requires forall i | 0 <= i < |s| :: s[i] < 128 as char
  {
    seq(|s|, i requires 0 <= i < |s| => s[i] as int as byte)
  }

  const OP := Ascii("op")
  const PATH := Ascii("path")
  const VALUE := Ascii("value")
  const FROM := Ascii("from")
  const ADD := Ascii("add")
  const REMOVE := Ascii("remove")
  const REPLACE := Ascii("replace")
  const MOVE := Ascii("move")
  const COPY := Ascii("copy")
  const TEST := Ascii("test")

  /** The words as they are spelled in a document. */
  lemma Words()
    ensures OP == [0x6f, 0x70] && PATH == [0x70, 0x61, 0x74, 0x68]
    ensures VALUE == [0x76, 0x61, 0x6c, 0x75, 0x65] && FROM == [0x66, 0x72, 0x6f, 0x6d]
    ensures ADD == [0x61, 0x64, 0x64] && REMOVE == [0x72, 0x65, 0x6d, 0x6f, 0x76, 0x65]
    ensures REPLACE == [0x72, 0x65, 0x70, 0x6c, 0x61, 0x63, 0x65] && MOVE == [0x6d, 0x6f, 0x76, 0x65]
    ensures COPY == [0x63, 0x6f, 0x70, 0x79] && TEST == [0x74, 0x65, 0x73, 0x74]
  {
  }

  // ---------- patch ----------

  /** `operation_add`; the top of the pointer is checked only when `top` says so. */
  function AddAt(j: Value, ptr: seq<Str>, v: Value, top: bool := true): Result<Value> {
    if ptr == [] then Ok(v)
    else if top && |ptr| > 1 && Get(j, [ptr[0]]).Err? then Err(Get(j, [ptr[0]]).error)
    else EditUnchecked(j, ptr[..|ptr| - 1], AddChild(ptr[|ptr| - 1], v))
  }

  /** `operation_remove`. */
  function RemoveAt(j: Value, ptr: seq<Str>): Result<Value> {
    if ptr == [] then Err(DomainError)
    else EditChecked(j, ptr[..|ptr| - 1], RemoveChild(ptr[|ptr| - 1]))
  }

  /** `get_value`. */
  function Member(o: map<Str, Value>, name: Str): Result<Value> {
    if name in o then Ok(o[name]) else Err(InvalidArgument)
  }

  function TextMember(o: map<Str, Value>, name: Str): Result<Str> {
    var v :- Member(o, name);
    if v.Text? then Ok(v.s) else Err(InvalidArgument)
  }

  /** One element of a patch document applied to `j`. */
  function PatchStep(j: Value, val: Value): Result<Value> {
    if !val.Obj? then Err(InvalidArgument)
    else
      var op :- TextMember(val.o, OP);
      var path :- TextMember(val.o, PATH);
      var ptr :- Split(path);
      if op == ADD then
        var v :- Member(val.o, VALUE);
        AddAt(j, ptr, v)
      else if op == REMOVE then
        RemoveAt(j, ptr)
      else if op == REPLACE then
        var v :- Member(val.o, VALUE);
        EditChecked(j, ptr, Assign(v))
      else if op == MOVE then
        var from :- TextMember(val.o, FROM);
        var source :- Split(from);
        var v :- Get(j, source);
        var rest :- RemoveAt(j, source);
        AddAt(rest, ptr, v)
      else if op == COPY then
        var from :- TextMember(val.o, FROM);
        var source :- Split(from);
        var v :- Get(j, source);
        EditUnchecked(j, ptr, Assign(v))
      else if op == TEST then
        var found := Get(j, ptr);
        if found == Err(OutOfRange) then Err(DomainError)
        else
          var x :- found;
          var v :- Member(val.o, VALUE);
          if Eq(x, v) then Ok(j) else Err(DomainError)
      else Err(InvalidArgument)
  }

  function PatchSteps(j: Value, vals: seq<Value>): Result<Value>
    decreases |vals|
  {
    if vals == [] then Ok(j)
    else
      var next :- PatchStep(j, vals[0]);
      PatchSteps(next, vals[1..])
  }

  function Patched(j: Value, doc: Value): Result<Value> {
    if doc.Arr? then PatchSteps(j, doc.a) else Err(InvalidArgument)
  }

  /** `operation_add` on the working copy. */
  method OperationAdd(result: Value, ptr: seq<Str>, val: Value) returns (r: Result<Value>)
    ensures r == AddAt(result, ptr, val)
  {
    hide Get, EditUnchecked;
    if ptr == [] {
      return Ok(val);
    }
    var top := [ptr[0]];
    if |ptr| > 1 {
      var _ :- Get(result, top);
    }
    var last, parent := ptr[|ptr| - 1], ptr[..|ptr| - 1];
    r := EditUnchecked(result, parent, AddChild(last, val));
  }

  /** `operation_remove` on the working copy; the root has no parent. */
  method OperationRemove(result: Value, ptr: seq<Str>) returns (r: Result<Value>)
    ensures r == RemoveAt(result, ptr)
  {
    hide EditChecked;
    if ptr == [] {
      return Err(DomainError);
    }
    var last, parent := ptr[|ptr| - 1], ptr[..|ptr| - 1];
    r := EditChecked(result, parent, RemoveChild(last));
  }

  /** One operation of a patch document on the working copy. */
  method ApplyOperation(result: Value, val: Value) returns (r: Result<Value>)
    ensures r == PatchStep(result, val)
  {
    hide AddAt, RemoveAt, Split, Get, EditChecked, EditUnchecked, Eq;
    if !val.Obj? {
      return Err(InvalidArgument);
    }
    var op :- TextMember(val.o, OP);
    var path :- TextMember(val.o, PATH);
    var ptr :- Split(path);
    if op == ADD {
      var v :- Member(val.o, VALUE);
      r := OperationAdd(result, ptr, v);
    } else if op == REMOVE {
      r := OperationRemove(result, ptr);
    } else if op == REPLACE {
      var v :- Member(val.o, VALUE);
      r := EditChecked(result, ptr, Assign(v));
    } else if op == MOVE {
      var from :- TextMember(val.o, FROM);
      var source :- Split(from);
      var v :- Get(result, source);
      var rest :- OperationRemove(result, source);
      r := OperationAdd(rest, ptr, v);
    } else if op == COPY {
      var from :- TextMember(val.o, FROM);
      var source :- Split(from);
      var v :- Get(result, source);
      r := EditUnchecked(result, ptr, Assign(v));
    } else if op == TEST {
      var success := false;
      var found := Get(result, ptr);
      if found != Err(OutOfRange) {
        var x :- found;
        var v :- Member(val.o, VALUE);
        success := Eq(x, v);
      }
      r := if success then Ok(result) else Err(DomainError);
    } else {
      r := Err(InvalidArgument);
    }
  }

  /** `patch`: a working copy is edited operation by operation. */
  method Patch(j: Value, doc: Value) returns (r: Result<Value>)
    ensures r == Patched(j, doc)
  {
    hide PatchStep;
    var result := j;
    if !doc.Arr? {
      return Err(InvalidArgument);
    }
    assert doc.a[0..] == doc.a;
    for i := 0 to |doc.a|
      invariant PatchSteps(j, doc.a) == PatchSteps(result, doc.a[i..])
    {
      assert doc.a[i..][1..] == doc.a[i + 1..];
      result :- ApplyOperation(result, doc.a[i]);
    }
    return Ok(result);
  }

  // ---------- what diff generates ----------

  /** The operations `diff` generates, their pointers relative to the values compared. */
  datatype Op =
    | Add(path: seq<Str>, v: Value)
    | Remove(path: seq<Str>)
    | Replace(path: seq<Str>, v: Value)

  function Lift(t: Str, ops: seq<Op>): (lifted: seq<Op>)
    ensures |lifted| == |ops|
  {
    if ops == [] then []
    else [ops[0].(path := [t] + ops[0].path)] + Lift(t, ops[1..])
  }

  /** Operations that remove indices `hi - 1` down to `lo`. */
  function RemoveDown(hi: nat, lo: nat): seq<Op>
    decreases hi
  {
    if hi <= lo then [] else [Remove([Dec(hi - 1)])] + RemoveDown(hi - 1, lo)
  }

  /** Operations that add the elements of `b` from index `i` on. */
  function AddUp(b: seq<Value>, i: nat): seq<Op>
    decreases |b| - i
  {
    if i >= |b| then [] else [Add([Dec(i)], b[i])] + AddUp(b, i + 1)
  }

  function DiffOps(s: Value, t: Value): seq<Op>
    decreases s, 1, 0
  {
    if Eq(s, t) then []
    else if s.Arr? && t.Arr? then
      DiffElements(s, t, 0) + RemoveDown(|s.a|, |t.a|) + AddUp(t.a, |s.a|)
    else if s.Obj? && t.Obj? then
      DiffMembers(s, t, SortedKeys(s.o.Keys)) + NewMembers(s, t, SortedKeys(t.o.Keys))
    else [Replace([], t)]
  }

  function DiffElements(s: Value, t: Value, i: nat): seq<Op>
    requires s.Arr? && t.Arr?
    decreases s, 0, |s.a| - i
  {
    if i >= |s.a| || i >= |t.a| then []
    else Lift(Dec(i), DiffOps(s.a[i], t.a[i])) + DiffElements(s, t, i + 1)
  }

  function DiffMembers(s: Value, t: Value, ks: seq<Str>): seq<Op>
    requires s.Obj? && t.Obj? && forall k | k in ks :: k in s.o
    decreases s, 0, |ks|
  {
    if ks == [] then []
    else
      (if ks[0] in t.o then Lift(ks[0], DiffOps(s.o[ks[0]], t.o[ks[0]])) else [Remove([ks[0]])])
      + DiffMembers(s, t, ks[1..])
  }

  function NewMembers(s: Value, t: Value, ks: seq<Str>): seq<Op>
    requires s.Obj? && t.Obj? && forall k | k in ks :: k in t.o
  {
    if ks == [] then []
    else (if ks[0] in s.o then [] else [Add([ks[0]], t.o[ks[0]])]) + NewMembers(s, t, ks[1..])
  }

  // ---------- diff ----------

  /** One operation as the JSON object `diff` pushes, below the pointer text `at`. */
  function OpValue(at: Str, op: Op): Value {
    var path := Text(at + ToString(op.path));
    match op
    case Add(_, v) => Obj(map[OP := Text(ADD), PATH := path, VALUE := v])
    case Remove(_) => Obj(map[OP := Text(REMOVE), PATH := path])
    case Replace(_, v) => Obj(map[OP := Text(REPLACE), PATH := path, VALUE := v])
  }

  function OpValues(at: Str, ops: seq<Op>): (vals: seq<Value>)
    ensures |vals| == |ops|
  {
    if ops == [] then [] else [OpValue(at, ops[0])] + OpValues(at, ops[1..])
  }

  lemma {:induction false} OpValuesAppend(at: Str, xs: seq<Op>, ys: seq<Op>)
    ensures OpValues(at, xs + ys) == OpValues(at, xs) + OpValues(at, ys)
  {
    if xs == [] {
      assert xs + ys == ys;
    } else {
      assert (xs + ys)[1..] == xs[1..] + ys;
      OpValuesAppend(at, xs[1..], ys);
    }
  }

  /** Lifting by a token is the same as descending in the pointer text. */
  lemma {:induction false} OpValuesLift(at: Str, t: Str, ops: seq<Op>)
    ensures OpValues(at, Lift(t, ops)) == OpValues(at + [SLASH] + Escaped(t), ops)
  {
    if ops != [] {
      ToStringCons(t, ops[0].path);
      var e := Escaped(t);
      assert at + ([SLASH] + e + ToString(ops[0].path)) == at + [SLASH] + e + ToString(ops[0].path);
      OpValuesLift(at, t, ops[1..]);
    }
  }

  // What one turn of each loop of `diff` contributes.

  lemma ElementsTurn(s: Value, t: Value, i: nat, at: Str)
    requires s.Arr? && t.Arr? && i < |s.a| && i < |t.a|
    ensures OpValues(at, DiffElements(s, t, i)) ==
            OpValues(at + [SLASH] + Dec(i), DiffOps(s.a[i], t.a[i])) + OpValues(at, DiffElements(s, t, i + 1))
  {
    hide DiffOps, OpValue;
    DecNeedsNoEscape(i);
    OpValuesLift(at, Dec(i), DiffOps(s.a[i], t.a[i]));
    OpValuesAppend(at, Lift(Dec(i), DiffOps(s.a[i], t.a[i])), DiffElements(s, t, i + 1));
  }

  lemma ElementsEnd(s: Value, t: Value, i: nat, at: Str)
    requires s.Arr? && t.Arr? && (i >= |s.a| || i >= |t.a|)
    ensures OpValues(at, DiffElements(s, t, i)) == []
  {
  }

  lemma MembersTurn(s: Value, t: Value, ks: seq<Str>, at: Str)
    requires s.Obj? && t.Obj? && ks != [] && forall k | k in ks :: k in s.o
    ensures OpValues(at, DiffMembers(s, t, ks)) ==
            (if ks[0] in t.o then OpValues(at + [SLASH] + Escaped(ks[0]), DiffOps(s.o[ks[0]], t.o[ks[0]]))
             else [OpValue(at, Remove([ks[0]]))])
            + OpValues(at, DiffMembers(s, t, ks[1..]))
  {
    hide DiffOps, OpValue;
    var rest := DiffMembers(s, t, ks[1..]);
    if ks[0] in t.o {
      OpValuesLift(at, ks[0], DiffOps(s.o[ks[0]], t.o[ks[0]]));
      OpValuesAppend(at, Lift(ks[0], DiffOps(s.o[ks[0]], t.o[ks[0]])), rest);
    } else {
      OpValuesAppend(at, [Remove([ks[0]])], rest);
    }
  }

  lemma NewMembersTurn(s: Value, t: Value, ks: seq<Str>, at: Str)
    requires s.Obj? && t.Obj? && ks != [] && forall k | k in ks :: k in t.o
    ensures OpValues(at, NewMembers(s, t, ks)) ==
            (if ks[0] in s.o then [] else [OpValue(at, Add([ks[0]], t.o[ks[0]]))])
            + OpValues(at, NewMembers(s, t, ks[1..]))
  {
    hide OpValue;
    OpValuesAppend(at, if ks[0] in s.o then [] else [Add([ks[0]], t.o[ks[0]])], NewMembers(s, t, ks[1..]));
  }

  lemma Follow<T>(a: seq<T>, b: seq<T>, c: seq<T>)
    ensures a + (b + c) == a + b + c
  {
  }

  lemma NothingNew(s: Value, t: Value, at: Str, result: seq<Value>)
    requires s.Obj? && t.Obj?
    ensures result + OpValues(at, NewMembers(s, t, [])) == result
  {
  }

  lemma NothingKnown(s: Value, t: Value, at: Str, result: seq<Value>)
    requires s.Obj? && t.Obj?
    ensures result + OpValues(at, DiffMembers(s, t, [])) == result
  {
  }

  /** `diff`: operations are pushed and inserted into one array. */
  method Diff(source: Value, target: Value, path: Str) returns (result: seq<Value>)
    ensures result == OpValues(path, DiffOps(source, target))
    decreases source, 1, 0
  {
    hide OpValue, Lift, DiffElements, DiffMembers, NewMembers, RemoveDown, AddUp, SortedKeys, ToString, Eq;
    result := [];
    if Eq(source, target) {
      return;
    }
    if KindOf(source) != KindOf(target) {
      result := result + [OpValue(path, Replace([], target))];
    } else if source.Arr? {
      result := DiffArrays(source, target, path);
    } else if source.Obj? {
      result := DiffObjects(source, target, path);
    } else {
      result := result + [OpValue(path, Replace([], target))];
    }
  }

  method DiffArrays(source: Value, target: Value, path: Str) returns (result: seq<Value>)
    requires source.Arr? && target.Arr?
    ensures result ==
            OpValues(path,
              DiffElements(source, target, 0) + RemoveDown(|source.a|, |target.a|) + AddUp(target.a, |source.a|))
    decreases source, 0
  {
    hide OpValue, DiffOps, ToString;
    ghost var common := DiffElements(source, target, 0);
    var i: nat;
    result, i := DiffCommon(source, target, path);
    var end := |result|;
    ghost var head := result;
    while i < |source.a|
      invariant i <= |source.a| && (i == |source.a| || |target.a| <= i)
      invariant end == |head| && result == head + OpValues(path, RemoveDown(i, |target.a|))
    {
      result := result[..end] + [OpValue(path, Remove([Dec(i)]))] + result[end..];
      i := i + 1;
    }
    OpValuesAppend(path, common, RemoveDown(|source.a|, |target.a|));
    head := result;
    while i < |target.a|
      invariant i >= |source.a|
      invariant result + OpValues(path, AddUp(target.a, i)) == head + OpValues(path, AddUp(target.a, |source.a|))
    {
      result := result + [OpValue(path, Add([Dec(i)], target.a[i]))];
      i := i + 1;
    }
    OpValuesAppend(path, common + RemoveDown(|source.a|, |target.a|), AddUp(target.a, |source.a|));
  }

  /** First pass over arrays; `i` is where the shorter array ends. */
  method DiffCommon(source: Value, target: Value, path: Str) returns (result: seq<Value>, i: nat)
    requires source.Arr? && target.Arr?
    ensures result == OpValues(path, DiffElements(source, target, 0))
    ensures i == if |source.a| < |target.a| then |source.a| else |target.a|
    decreases source, 0, 0
  {
    hide DiffElements, OpValues, DiffOps, Dec;
    result, i := [], 0;
    while i < |source.a| && i < |target.a|
      invariant i <= |source.a| && i <= |target.a|
      invariant result + OpValues(path, DiffElements(source, target, i))
             == OpValues(path, DiffElements(source, target, 0))
    {
      ElementsTurn(source, target, i, path);
      var child := Diff(source.a[i], target.a[i], path + [SLASH] + Dec(i));
      result := result + child;
      i := i + 1;
    }
    ElementsEnd(source, target, i, path);
  }

  method DiffObjects(source: Value, target: Value, path: Str) returns (result: seq<Value>)
    requires source.Obj? && target.Obj?
    ensures result ==
            OpValues(path,
              DiffMembers(source, target, SortedKeys(source.o.Keys))
              + NewMembers(source, target, SortedKeys(target.o.Keys)))
    decreases source, 0, 1
  {
    hide OpValue, OpValues, DiffMembers, NewMembers, DiffOps, SortedKeys;
    var ks, ts := SortedKeys(source.o.Keys), SortedKeys(target.o.Keys);
    result := DiffKnown(source, target, ks, path);
    OpValuesAppend(path, DiffMembers(source, target, ks), NewMembers(source, target, ts));
    result := DiffNew(source, target, ts, path, result);
  }

  /** Second pass over objects: the members `target` adds. */
  method DiffNew(source: Value, target: Value, ts: seq<Str>, path: Str, known: seq<Value>) returns (result: seq<Value>)
    requires source.Obj? && target.Obj? && forall k | k in ts :: k in target.o
    ensures result == known + OpValues(path, NewMembers(source, target, ts))
  {
    hide OpValue, OpValues, NewMembers;
    result := known;
    var i := 0;
    assert ts[0..] == ts;
    while i < |ts|
      invariant 0 <= i <= |ts|
      invariant result + OpValues(path, NewMembers(source, target, ts[i..]))
             == known + OpValues(path, NewMembers(source, target, ts))
    {
      NewMembersTurn(source, target, ts[i..], path);
      assert ts[i..][1..] == ts[i + 1..];
      ghost var rest := OpValues(path, NewMembers(source, target, ts[i + 1..]));
      if ts[i] !in source.o {
        assert result + ([OpValue(path, Add([ts[i]], target.o[ts[i]]))] + rest)
            == result + [OpValue(path, Add([ts[i]], target.o[ts[i]]))] + rest;
        result := result + [OpValue(path, Add([ts[i]], target.o[ts[i]]))];
      } else {
        assert [] + rest == rest;
      }
      i := i + 1;
    }
    assert ts[|ts|..] == [];
    NothingNew(source, target, path, result);
  }

  /** First pass over objects: the members of `source`. */
  method DiffKnown(source: Value, target: Value, ks: seq<Str>, path: Str) returns (result: seq<Value>)
    requires source.Obj? && target.Obj? && forall k | k in ks :: k in source.o
    ensures result == OpValues(path, DiffMembers(source, target, ks))
    decreases source, 0, 0
  {
    hide OpValue, OpValues, DiffOps, DiffMembers, Lift;
    result := [];
    var i := 0;
    ghost var all := OpValues(path, DiffMembers(source, target, ks));
    assert ks[0..] == ks && [] + all == all;
    while i < |ks|
      invariant 0 <= i <= |ks|
      invariant result + OpValues(path, DiffMembers(source, target, ks[i..])) == all
    {
      MembersTurn(source, target, ks[i..], path);
      assert ks[i..][1..] == ks[i + 1..];
      ghost var before, rest := result, OpValues(path, DiffMembers(source, target, ks[i + 1..]));
      var key := Escape(ks[i]);
      var child := [OpValue(path, Remove([ks[i]]))];
      if ks[i] in target.o {
        child := Diff(source.o[ks[i]], target.o[ks[i]], path + [SLASH] + key);
      }
      result := result + child;
      Follow(before, child, rest);
      i := i + 1;
    }
    assert ks[|ks|..] == [];
    NothingKnown(source, target, path, result);
  }
}
