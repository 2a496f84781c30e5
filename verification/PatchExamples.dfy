/** Inputs on which `patch` and RFC 6902 part. */
module PatchExamples {
  import opened Bytes
  import opened Results
  import opened Decimal
  import opened Values
  import opened Pointers
  import opened Access
  import opened Patches
  import opened PatchLaw
  import opened PatchStandard

  /** Below a boolean, `remove` changes nothing and reports nothing; `add` runs into the assertion. */
  lemma BelowPrimitive()
    ensures var j := Obj(map[[97] := Bool(true)]);
            && StandardRemove(j, [[97], [98]]) == None
            && RemoveAt(j, [[97], [98]]) == Ok(j)
            && AddAt(j, [[97], [98]], Null) == Err(AssertionFailure)
  {
    var ptr: seq<Str> := [[97], [98]];
    var o: map<Str, Value> := map[[97] := Bool(true)];
    var at: seq<Str> := [[97]];
    assert ptr[..1] == at && ptr[1..] == [[98]] && at[1..] == [];
    assert o[[97] := Bool(true)] == o;
    assert EditChecked(Obj(o), at, RemoveChild([98]))
        == PutKey(o, [97], EditChecked(Bool(true), [], RemoveChild([98])));
    assert EditUnchecked(Obj(o), at, AddChild([98], Null)) ==
           PutKey(o, [97], EditUnchecked(Bool(true), [], AddChild([98], Null)));
    assert Resolve(Obj(o), at) == Resolve(Bool(true), []);
  }

  /** Behind an existing top, a missing parent is created; a null parent becomes an object. */
  lemma ParentCreated()
    ensures var j := Obj(map[[97] := Null]);
            && StandardAdd(j, [[97], [98]], Bool(true)) == None
            && AddAt(j, [[97], [98]], Bool(true)) == Ok(Obj(map[[97] := Obj(map[[98] := Bool(true)])]))
  {
    var ptr: seq<Str> := [[97], [98]];
    var o: map<Str, Value> := map[[97] := Null];
    assert ptr[..1] == [[97]] && ptr[..1][1..] == [];
    assert o[[97] := Obj(map[[98] := Bool(true)])] == map[[97] := Obj(map[[98] := Bool(true)])];
    assert Resolve(Obj(o), [[97]]) == Resolve(Null, []);
  }

  // "1x", "+1", " 1", "-0" and "01" are no indices, but `stoi` reads them.

  lemma SuffixedToken()
    ensures !IsIndex([49, 120]) && Stoi([49, 120]) == Ok(1)
  {
    OneDigit(49);
    var t: Str := [49, 120];
    assert !IsDigit(t[1]);
    assert t[1..] == [120] && DigitRun([120]) == 0 && t[..1] == [49];
  }

  lemma SignedTokens()
    ensures !IsIndex([43, 49]) && Stoi([43, 49]) == Ok(1)
    ensures !IsIndex([45, 48]) && Stoi([45, 48]) == Ok(0)
  {
    OneDigit(49);
    OneDigit(48);
    var plus: Str, minus: Str := [43, 49], [45, 48];
    assert !IsDigit(plus[0]) && !IsDigit(minus[0]);
    assert plus[1..] == [49] && minus[1..] == [48];
  }

  lemma SpacedToken()
    ensures !IsIndex([32, 49]) && Stoi([32, 49]) == Ok(1)
  {
    OneDigit(49);
    var t: Str := [32, 49];
    assert !IsDigit(t[0]);
    assert t[1..] == [49];
    assert SkipSpace(t) == SkipSpace([49]);
  }

  lemma OneDigit(c: byte)
    requires IsDigit(c)
    ensures SkipSpace([c]) == [c] && DigitRun([c]) == 1 && [c][..1] == [c] && FromDigits([c]) == c as int - 48
  {
    assert [c][1..] == [] && [c][..0] == [];
  }

  lemma StoiOfZeroOne()
    ensures !IsIndex([48, 49]) && Stoi([48, 49]) == Ok(1)
  {
    var t: Str := [48, 49];
    assert SkipSpace(t) == t;
    assert t[1..] == [49];
    assert DigitRun([49]) == 1 + DigitRun([]) == 1;
    assert DigitRun(t) == 2;
    assert t[..2] == t && t[..1] == [48];
    assert FromDigits([48]) == 0;
    assert FromDigits(t) == 1;
  }

  /** A token that is no index is taken for index 1 all the same. */
  predicate TakenForOne(t: Str) {
    var j := Arr([Null, Bool(true)]);
    && Resolve(j, [t]) == None && Get(j, [t]) == (if LeadingZero(t) then Err(DomainError) else Ok(Bool(true)))
    && StandardRemove(j, [t]) == None && RemoveAt(j, [t]) == Ok(Arr([Null]))
    && StandardAdd(j, [t], Bool(false)) == None
    && AddAt(j, [t], Bool(false)) == Ok(Arr([Null, Bool(false), Bool(true)]))
  }

  lemma ReadAsOne(t: Str)
    requires !IsIndex(t) && Stoi(t) == Ok(1)
    ensures TakenForOne(t)
  {
    DashIsNoIndex();
    hide Stoi, IsIndex;
    assert t != DASH;
    assert CheckedIndex(t, 2) == if LeadingZero(t) then Err(DomainError) else Ok(1);
    assert [t][1..] == [];
    var a := [Null, Bool(true)];
    assert Get(Arr(a), [t]) == if LeadingZero(t) then Err(DomainError) else Ok(Bool(true));
    assert a[..1] + a[2..] == [Null];
    assert a[..1] + [Bool(false)] + a[1..] == [Null, Bool(false), Bool(true)];
  }

  lemma ReadAsZero(t: Str)
    requires !IsIndex(t) && Stoi(t) == Ok(0) && !LeadingZero(t)
    ensures var j := Arr([Null, Bool(true)]);
            && Resolve(j, [t]) == None && Get(j, [t]) == Ok(Null)
            && StandardRemove(j, [t]) == None && RemoveAt(j, [t]) == Ok(Arr([Bool(true)]))
  {
    DashIsNoIndex();
    hide Stoi, IsIndex;
    assert [t][1..] == [];
    var a := [Null, Bool(true)];
    assert a[..0] + a[1..] == [Bool(true)];
  }

  /** "1x", "+1", " 1" and "01" are taken for 1, "-0" for 0. */
  lemma LooseExamples()
    ensures TakenForOne([49, 120]) && TakenForOne([43, 49]) && TakenForOne([32, 49]) && TakenForOne([48, 49])
    ensures RemoveAt(Arr([Null, Bool(true)]), [[45, 48]]) == Ok(Arr([Bool(true)]))
    ensures StandardRemove(Arr([Null, Bool(true)]), [[45, 48]]) == None
  {
    hide TakenForOne, Stoi, IsIndex, RemoveAt, StandardRemove;
    SuffixedToken();
    SignedTokens();
    SpacedToken();
    StoiOfZeroOne();
    ReadAsOne([49, 120]);
    ReadAsOne([43, 49]);
    ReadAsOne([32, 49]);
    ReadAsOne([48, 49]);
    ReadAsZero([45, 48]);
  }

  /** An index the standard admits and `stoi` does not. */
  lemma FarIndex()
    ensures var j, t := Arr(seq(INT_MAX + 2, i => Null)), Dec(INT_MAX + 1);
            && Resolve(j, [t]) == Some(Null) && Get(j, [t]).Err?
            && StandardRemove(j, [t]).Some? && RemoveAt(j, [t]).Err?
            && StandardAdd(j, [t], Null).Some? && AddAt(j, [t], Null).Err?
  {
    hide Dec, FromDigits, IsIndex;
    var a := seq(INT_MAX + 2, i => Null);
    var t := Dec(INT_MAX + 1);
    DecIsIndex(INT_MAX + 1);
    StoiOfIndex(t);
    hide Stoi;
    var ts: seq<Str> := [t];
    assert ts[1..] == [];
    assert Resolve(a[INT_MAX + 1], []) == Some(Null);
  }

  /** An operation of a document, with "from". */
  function Transfer(op: Str, ptr: seq<Str>, source: seq<Str>): Value {
    Obj(map[OP := Text(op), PATH := Text(ToString(ptr)), FROM := Text(ToString(source))])
  }

  lemma TransferIs(op: Str, ptr: seq<Str>, source: seq<Str>)
    ensures Operation(Transfer(op, ptr, source), op, ptr) && From(Transfer(op, ptr, source), source)
  {
    hide ToString, Split;
    SplitOfToString(ptr);
    SplitOfToString(source);
    assert |OP| == 2 && |PATH| == 4 && |FROM| == 4 && PATH[0] != FROM[0];
  }

  /** Copying element 0 to "/1" overwrites element 1. */
  lemma CopyOverwrites()
    ensures var j := Arr([Null, Bool(true)]);
            && PatchStep(j, Transfer(COPY, [[49]], [[48]])) == Ok(Arr([Null, Null]))
            && StandardCopy(j, [[49]], [[48]]) == Some(Arr([Null, Null, Bool(true)]))
            && AddAt(j, [[49]], Null) == Ok(Arr([Null, Null, Bool(true)]))
  {
    hide Transfer, Split, Get, EditUnchecked, AddAt, StandardAdd, Resolve;
    var j := Arr([Null, Bool(true)]);
    TransferIs(COPY, [[49]], [[48]]);
    OperationNames();
    AssignedSecond(j);
    AddedSecond(j);
  }

  lemma AssignedSecond(j: Value)
    requires j == Arr([Null, Bool(true)])
    ensures Get(j, [[48]]) == Ok(Null) && Resolve(j, [[48]]) == Some(Null)
    ensures EditUnchecked(j, [[49]], Assign(Null)) == Ok(Arr([Null, Null]))
  {
    SmallIndices();
    hide Stoi, FromDigits, IsIndex;
    assert [[48 as byte]][1..] == [];
    AssignedInArray(j.a, [49], Null);
    assert Padded(j.a, 2)[1 := Null] == [Null, Null];
  }

  lemma AddedSecond(j: Value)
    requires j == Arr([Null, Bool(true)])
    ensures StandardAdd(j, [[49]], Null) == Some(Arr([Null, Null, Bool(true)]))
    ensures AddAt(j, [[49]], Null) == Ok(Arr([Null, Null, Bool(true)]))
  {
    SmallIndices();
    hide Stoi, FromDigits, IsIndex;
    assert j.a[..1] + [Null] + j.a[1..] == [Null, Null, Bool(true)];
  }

  lemma SmallIndices()
    ensures IsIndex([48]) && FromDigits([48]) == 0 && Stoi([48]) == Ok(0)
    ensures IsIndex([49]) && FromDigits([49]) == 1 && Stoi([49]) == Ok(1)
  {
    OneDigit(48);
    OneDigit(49);
    StoiOfIndex([48]);
    StoiOfIndex([49]);
  }

  /** Copying pads an array, and creates the top of the document. */
  lemma CopyCreates()
    ensures PatchStep(Arr([]), Transfer(COPY, [[49]], [])) == Ok(Arr([Null, Arr([])]))
    ensures PatchStep(Obj(map[]), Transfer(COPY, [[97], [98]], []))
         == Ok(Obj(map[[97] := Obj(map[[98] := Obj(map[])])]))
    ensures AddAt(Arr([]), [[49]], Arr([])).Err? && AddAt(Obj(map[]), [[97], [98]], Obj(map[])).Err?
  {
    SmallIndices();
    hide Transfer, Stoi, Split, FromDigits, IsIndex;
    TransferIs(COPY, [[49]], []);
    TransferIs(COPY, [[97], [98]], []);
    OperationNames();
    assert [[49 as byte]][1..] == [];
    assert Padded([], 2)[1 := Arr([])] == [Null, Arr([])];
    var ptr: seq<Str> := [[97], [98]];
    assert ptr[1..] == [[98]] && ptr[1..][1..] == [];
    assert EditUnchecked(Null, ptr[1..], Assign(Obj(map[]))) == Ok(Obj(map[[98] := Obj(map[])]));
  }

  /** A member is moved into itself; at the top of the document it is not. */
  lemma MoveIntoItself()
    ensures PatchStep(Obj(map[[97] := Obj(map[[98] := Bool(true)])]),
                      Transfer(MOVE, [[97], [98], [99]], [[97], [98]]))
         == Ok(Obj(map[[97] := Obj(map[[98] := Obj(map[[99] := Bool(true)])])]))
    ensures PatchStep(Obj(map[[97] := Bool(true)]), Transfer(MOVE, [[97], [98]], [[97]])).Err?
  {
    hide Transfer, Split;
    OperationNames();
    MemberTaken();
    TransferIs(MOVE, [[97], [98], [99]], [[97], [98]]);
    MoveStep(Obj(map[[97] := Obj(map[[98] := Bool(true)])]),
             Transfer(MOVE, [[97], [98], [99]], [[97], [98]]), [[97], [98], [99]], [[97], [98]]);
    MemberAdded();
    TransferIs(MOVE, [[97], [98]], [[97]]);
    TopTaken();
  }

  lemma MemberTaken()
    ensures var j, ptr := Obj(map[[97] := Obj(map[[98] := Bool(true)])]), [[97], [98]];
            && Get(j, ptr) == Ok(Bool(true))
            && RemoveAt(j, ptr) == Ok(Obj(map[[97] := Obj(map[])]))
  {
    var ptr: seq<Str> := [[97], [98]];
    var o: map<Str, Value> := map[[97] := Obj(map[[98] := Bool(true)])];
    var inner: map<Str, Value> := map[[98] := Bool(true)];
    assert ptr[..1] == [[97]] && ptr[1..] == [[98]] && ptr[1..][1..] == [] && ptr[..1][1..] == [];
    assert inner - {[98]} == map[];
    assert EditChecked(Obj(inner), [], RemoveChild([98])) == Ok(Obj(map[]));
    assert o[[97] := Obj(map[])] == map[[97] := Obj(map[])];
  }

  lemma MemberAdded()
    ensures AddAt(Obj(map[[97] := Obj(map[])]), [[97], [98], [99]], Bool(true))
         == Ok(Obj(map[[97] := Obj(map[[98] := Obj(map[[99] := Bool(true)])])]))
  {
    var ptr: seq<Str> := [[97], [98], [99]];
    var o: map<Str, Value> := map[[97] := Obj(map[])];
    var at: seq<Str> := ptr[..2];
    assert at == [[97], [98]] && at[1..] == [[98]] && at[1..][1..] == [];
    var e := AddChild([99], Bool(true));
    assert EditUnchecked(Null, [], e) == Ok(Obj(map[[99] := Bool(true)]));
    var none: map<Str, Value> := map[];
    assert EditUnchecked(Obj(none), at[1..], e) == PutKey(none, [98], EditUnchecked(Null, [], e));
    assert none[[98] := Obj(map[[99] := Bool(true)])] == map[[98] := Obj(map[[99] := Bool(true)])];
    assert EditUnchecked(Obj(o), at, e) == PutKey(o, [97], EditUnchecked(Obj(none), at[1..], e));
    var x := Obj(map[[98] := Obj(map[[99] := Bool(true)])]);
    assert o[[97] := x] == map[[97] := x];
    assert Get(Obj(o), [ptr[0]]) == Ok(Obj(none));
  }

  lemma TopTaken()
    ensures var j, ptr := Obj(map[[97] := Bool(true)]), [[97]];
            && Get(j, ptr) == Ok(Bool(true))
            && RemoveAt(j, ptr) == Ok(Obj(map[]))
            && AddAt(Obj(map[]), [[97], [98]], Bool(true)).Err?
  {
    var ptr: seq<Str> := [[97]];
    var o: map<Str, Value> := map[[97] := Bool(true)];
    assert ptr[..0] == [] && ptr[1..] == [];
    assert o - {[97]} == map[];
  }
}
