/** RFC 6901 and RFC 6902 in their own terms, and exactly where `patch` departs from them. */
module PatchStandard {
  import opened Bytes
  import opened Results
  import opened Decimal
  import opened Values
  import opened Pointers
  import opened Access
  import opened Patches
  import opened PatchLaw

  // ---------- the standards ----------

  /** An array index (RFC 6901, section 4): a zero, or digits of which the first is none. */
  predicate IsIndex(t: Str) {
    && t != []
    && (forall i | 0 <= i < |t| :: IsDigit(t[i]))
    && (t[0] == ZERO ==> |t| == 1)
  }

  predicate IndexBelow(t: Str, n: nat) { IsIndex(t) && FromDigits(t) < n }

  /** What a pointer refers to (RFC 6901, section 4); "-" names no existing element. */
  function Resolve(j: Value, ts: seq<Str>): Option<Value>
    decreases |ts|
  {
    if ts == [] then Some(j)
    else match j
      case Obj(o) => if ts[0] in o then Resolve(o[ts[0]], ts[1..]) else None
      case Arr(a) => if IndexBelow(ts[0], |a|) then Resolve(a[FromDigits(ts[0])], ts[1..]) else None
      case _ => None
  }

  /** The document with `x` in place of what the pointer refers to. */
  function Replaced(j: Value, ts: seq<Str>, x: Value): Value
    requires Resolve(j, ts).Some?
    decreases |ts|
  {
    if ts == [] then x
    else match j
      case Obj(o) => Obj(o[ts[0] := Replaced(o[ts[0]], ts[1..], x)])
      case Arr(a) => var i := FromDigits(ts[0]); Arr(a[i := Replaced(a[i], ts[1..], x)])
  }

  /** A parent with one more child (RFC 6902, section 4.1). */
  function Inserted(p: Value, t: Str, v: Value): Option<Value> {
    match p
    case Obj(o) => Some(Obj(o[t := v]))
    case Arr(a) =>
      if t == DASH then Some(Arr(a + [v]))
      else if IndexBelow(t, |a| + 1) then var i := FromDigits(t); Some(Arr(a[..i] + [v] + a[i..]))
      else None
    case _ => None
  }

  /** A parent with one child less (RFC 6902, section 4.2). */
  function Taken(p: Value, t: Str): Option<Value> {
    match p
    case Obj(o) => if t in o then Some(Obj(o - {t})) else None
    case Arr(a) => if IndexBelow(t, |a|) then var i := FromDigits(t); Some(Arr(a[..i] + a[i + 1..])) else None
    case _ => None
  }

  /** "add" (RFC 6902, section 4.1). */
  function StandardAdd(j: Value, ptr: seq<Str>, v: Value): Option<Value> {
    if ptr == [] then Some(v)
    else
      var parent := Resolve(j, Init(ptr));
      if parent.None? then None
      else
        var p := Inserted(parent.value, Last(ptr), v);
        if p.None? then None else Some(Replaced(j, Init(ptr), p.value))
  }

  /** "remove" (RFC 6902, section 4.2), of anything but the document itself. */
  function StandardRemove(j: Value, ptr: seq<Str>): Option<Value>
    requires ptr != []
  {
    var parent := Resolve(j, Init(ptr));
    if parent.None? then None
    else
      var p := Taken(parent.value, Last(ptr));
      if p.None? then None else Some(Replaced(j, Init(ptr), p.value))
  }

  /** "replace" (RFC 6902, section 4.3). */
  function StandardReplace(j: Value, ptr: seq<Str>, v: Value): Option<Value> {
    if Resolve(j, ptr).Some? then Some(Replaced(j, ptr, v)) else None
  }

  // ---------- indices ----------

  /** The indices of the standard are the decimal texts that `to_string` writes. */
  lemma IndexIsDec(t: Str)
    requires IsIndex(t)
    ensures Dec(FromDigits(t)) == t
  {
    DecOfDigits(t);
  }

  lemma DecIsIndex(n: nat)
    ensures IsIndex(Dec(n)) && FromDigits(Dec(n)) == n
  {
    DecLeadingDigit(n);
    FromDigitsDec(n);
  }

  /** What `stoi` makes of an index, and what else the code lets pass for one. */
  lemma StoiOfIndex(t: Str)
    requires IsIndex(t)
    ensures Stoi(t) == if FromDigits(t) <= INT_MAX then Ok(FromDigits(t)) else Err(OutOfRange)
    ensures !LeadingZero(t) && t != DASH
  {
    hide Stoi, Dec;
    IndexIsDec(t);
    StoiOfDec(FromDigits(t));
    assert IsDigit(t[0]);
  }

  lemma CheckedIsIndex(t: Str, n: nat)
    requires IsIndex(t)
    ensures CheckedIndex(t, n).Ok? <==> FromDigits(t) < n && FromDigits(t) <= INT_MAX
    ensures CheckedIndex(t, n).Ok? ==> CheckedIndex(t, n).value == FromDigits(t)
  {
    hide Stoi, FromDigits, IsIndex;
    StoiOfIndex(t);
  }

  // ---------- pointers ----------

  /** On the way that `at` takes, an array is indexed by a token that is no index. */
  predicate Loose(j: Value, ts: seq<Str>)
    decreases |ts|
  {
    ts != [] &&
    match j
    case Obj(o) => ts[0] in o && Loose(o[ts[0]], ts[1..])
    case Arr(a) =>
      var i := CheckedIndex(ts[0], |a|);
      i.Ok? && (!IsIndex(ts[0]) || Loose(a[i.value], ts[1..]))
    case _ => false
  }

  /** On the way of the standard, an array is indexed beyond the range of `int`. */
  predicate Far(j: Value, ts: seq<Str>)
    decreases |ts|
  {
    ts != [] &&
    match j
    case Obj(o) => ts[0] in o && Far(o[ts[0]], ts[1..])
    case Arr(a) =>
      IsIndex(ts[0])
      && (FromDigits(ts[0]) > INT_MAX || (FromDigits(ts[0]) < |a| && Far(a[FromDigits(ts[0])], ts[1..])))
    case _ => false
  }

  /** `at` resolves a pointer as RFC 6901 does, but for tokens that are no index, and for indices beyond `int`. */
  lemma {:induction false} GetIsResolve(j: Value, ts: seq<Str>)
    ensures Get(j, ts).Ok? && Resolve(j, ts).Some? ==> Get(j, ts).value == Resolve(j, ts).value
    ensures Get(j, ts).Ok? ==> (Resolve(j, ts).None? <==> Loose(j, ts))
    ensures Resolve(j, ts).Some? ==> (Get(j, ts).Err? <==> Far(j, ts))
    decreases |ts|
  {
    hide CheckedIndex, FromDigits;
    if ts != [] {
      match j
      case Obj(o) => if ts[0] in o { GetIsResolve(o[ts[0]], ts[1..]); }
      case Arr(a) =>
        if IsIndex(ts[0]) {
          CheckedIsIndex(ts[0], |a|);
          if FromDigits(ts[0]) < |a| { GetIsResolve(a[FromDigits(ts[0])], ts[1..]); }
        }
      case _ =>
    }
  }

  /** Where both resolve, an edit through `at` replaces what the standard refers to. */
  lemma {:induction false} EditIsReplaced(j: Value, ts: seq<Str>, e: Edit)
    requires Get(j, ts).Ok? && Resolve(j, ts).Some? && ApplyEdit(Get(j, ts).value, e).Ok?
    ensures EditChecked(j, ts, e) == Ok(Replaced(j, ts, ApplyEdit(Get(j, ts).value, e).value))
    decreases |ts|
  {
    hide CheckedIndex, ApplyEdit, FromDigits;
    if ts != [] {
      match j
      case Obj(o) => EditIsReplaced(o[ts[0]], ts[1..], e);
      case Arr(a) =>
        CheckedIsIndex(ts[0], |a|);
        EditIsReplaced(a[FromDigits(ts[0])], ts[1..], e);
      case _ =>
    }
  }

  lemma {:induction false} FarLast(j: Value, at: seq<Str>, t: Str)
    requires Resolve(j, at).Some?
    ensures Far(j, at + [t]) <==>
      Far(j, at) || (Resolve(j, at).value.Arr? && IsIndex(t) && FromDigits(t) > INT_MAX)
    decreases |at|
  {
    hide FromDigits;
    if at == [] {
      assert at + [t] == [t];
      NothingFar(j, t);
    } else {
      assert (at + [t])[1..] == at[1..] + [t];
      match j
      case Obj(o) => FarLast(o[at[0]], at[1..], t);
      case Arr(a) => FarLast(a[FromDigits(at[0])], at[1..], t);
      case _ =>
    }
  }

  lemma NothingFar(j: Value, t: Str)
    ensures Far(j, [t]) <==> j.Arr? && IsIndex(t) && FromDigits(t) > INT_MAX
  {
    hide FromDigits, IsIndex;
    assert [t][1..] == [];
  }

  lemma Whole(ptr: seq<Str>)
    requires ptr != []
    ensures Init(ptr) + [Last(ptr)] == ptr
  {
  }

  // ---------- remove and replace ----------

  /** Removing a child: as the standard does, where the token is an index in range of `int`. */
  lemma TakenIs(p: Value, t: Str)
    ensures var r, s := ApplyEdit(p, RemoveChild(t)), Taken(p, t);
            && (r.Ok? && s.Some? ==> r.value == s.value)
            && (r.Ok? ==> (s.None? <==> p.Primitive() || (p.Arr? && !IsIndex(t))))
            && (s.Some? ==> (r.Err? <==> p.Arr? && FromDigits(t) > INT_MAX))
  {
    hide Stoi, FromDigits, IsIndex;
    if IsIndex(t) { StoiOfIndex(t); }
  }

  /**
   * Where `remove` departs from RFC 6902: it succeeds below a primitive parent, and on tokens that are no index; it
   * fails on indices beyond `int`. Otherwise it does what the standard says.
   */
  lemma RemoveIsStandard(j: Value, ptr: seq<Str>)
    requires ptr != []
    ensures var r, s, parent, last := RemoveAt(j, ptr), StandardRemove(j, ptr), Get(j, Init(ptr)), Last(ptr);
            && (r.Ok? && s.Some? ==> r.value == s.value)
            && (r.Ok? && s.None? <==>
                  parent.Ok?
                  && (parent.value.Primitive()
                      || (HasChild(parent.value, last)
                          && (Loose(j, Init(ptr)) || (parent.value.Arr? && !IsIndex(last))))))
            && (s.Some? ==> (r.Err? <==> Far(j, ptr)))
  {
    hide Get, EditChecked, ApplyEdit, HasChild, Taken, Loose, Far, Resolve, Replaced, IsIndex, FromDigits;
    var at, t := Init(ptr), Last(ptr);
    EditCheckedIs(j, at, RemoveChild(t));
    RemoveAtIs(j, ptr);
    GetIsResolve(j, at);
    Whole(ptr);
    if Resolve(j, at).Some? {
      FarLast(j, at, t);
      TakenIs(Resolve(j, at).value, t);
      TakenIndex(Resolve(j, at).value, t);
      if Get(j, at).Ok? && ApplyEdit(Get(j, at).value, RemoveChild(t)).Ok? { EditIsReplaced(j, at, RemoveChild(t)); }
    }
  }

  lemma TakenIndex(p: Value, t: Str)
    ensures Taken(p, t).Some? && p.Arr? ==> IsIndex(t)
  {
    hide IsIndex, FromDigits;
  }

  /** `replace` departs from RFC 6902 on tokens that are no index, and on indices beyond `int`, and nowhere else. */
  lemma ReplaceIsStandard(j: Value, val: Value, ptr: seq<Str>)
    requires Operation(val, REPLACE, ptr) && VALUE in val.o
    ensures var r, s := PatchStep(j, val), StandardReplace(j, ptr, val.o[VALUE]);
            && (r.Ok? && s.Some? ==> r.value == s.value)
            && (r.Ok? && s.None? <==> Get(j, ptr).Ok? && Loose(j, ptr))
            && (s.Some? ==> (r.Err? <==> Far(j, ptr)))
  {
    hide Get, EditChecked, Split, Loose, Far, Resolve, Replaced;
    OperationNames();
    var e := Assign(val.o[VALUE]);
    EditCheckedIs(j, ptr, e);
    GetIsResolve(j, ptr);
    if Get(j, ptr).Ok? && Resolve(j, ptr).Some? { EditIsReplaced(j, ptr, e); }
  }

  // ---------- add ----------

  /** Adding a child: as the standard does, where the token is "-" or an index in range of `int`. */
  lemma InsertedIs(p: Value, t: Str, v: Value)
    ensures var r, s := ApplyEdit(p, AddChild(t, v)), Inserted(p, t, v);
            && (r.Ok? && s.Some? ==> r.value == s.value)
            && (r.Ok? ==> (s.None? <==> p.Null? || (p.Arr? && t != DASH && !IsIndex(t))))
            && (s.Some? ==> (r.Err? <==> p.Arr? && IsIndex(t) && FromDigits(t) > INT_MAX))
  {
    hide Stoi, FromDigits, IsIndex;
    if IsIndex(t) { StoiOfIndex(t); }
  }

  /** The ways in which `add` goes beyond the standard. */
  predicate AddsLoosely(j: Value, ptr: seq<Str>) {
    ptr != [] &&
    var parent, last := Get(j, Init(ptr)), Last(ptr);
    || parent.Err?
    || Loose(j, Init(ptr))
    || parent.value.Null?
    || (parent.value.Arr? && last != DASH && !IsIndex(last))
  }

  /**
   * Where `add` departs from RFC 6902: it creates a parent that is missing, turns a null one into an object, and takes
   * tokens that are no index; it fails on indices beyond `int`. Otherwise it does what the standard says.
   */
  lemma AddIsStandard(j: Value, ptr: seq<Str>, v: Value)
    requires ptr != []
    ensures var r, s, parent := AddAt(j, ptr, v), StandardAdd(j, ptr, v), Reach(j, Init(ptr));
            && (r.Ok? && s.Some? ==> r.value == s.value)
            && (r.Ok? && s.None? <==>
                  TopExists(j, ptr) && parent.Ok? && TakesChild(parent.value, Last(ptr)) && AddsLoosely(j, ptr))
            && (s.Some? ==> (r.Err? <==> Far(j, ptr)))
  {
    hide Get, Reach, TopExists, TakesChild, EditChecked, EditUnchecked, ApplyEdit, Inserted, Loose, Far, Resolve,
      Replaced, IsIndex, FromDigits;
    var at, t := Init(ptr), Last(ptr);
    var e := AddChild(t, v);
    AddAtIs(j, ptr, v);
    GetIsResolve(j, at);
    Whole(ptr);
    if Resolve(j, at).Some? {
      FarLast(j, at, t);
      InsertedIs(Resolve(j, at).value, t, v);
    }
    if Get(j, at).Ok? {
      TopOfExisting(j, ptr);
      UncheckedAgrees(j, at, e);
      EditCheckedIs(j, at, e);
      if Resolve(j, at).Some? && ApplyEdit(Get(j, at).value, e).Ok? { EditIsReplaced(j, at, e); }
    } else if Resolve(j, at).Some? {
      MissingParent(j, ptr, v);
    }
  }

  /** Behind an index that `at` cannot read, `operator[]` creates nothing. */
  lemma MissingParent(j: Value, ptr: seq<Str>, v: Value)
    requires ptr != [] && Get(j, Init(ptr)).Err? && Resolve(j, Init(ptr)).Some?
    ensures AddAt(j, ptr, v).Err?
  {
    hide Get, EditUnchecked, Resolve, Reach;
    FarIsUnreached(j, Init(ptr));
    EditUncheckedIs(j, Init(ptr), AddChild(Last(ptr), v));
  }

  lemma {:induction false} FarIsUnreached(j: Value, ts: seq<Str>)
    requires Get(j, ts).Err? && Resolve(j, ts).Some?
    ensures Reach(j, ts).Err?
    decreases |ts|
  {
    hide CheckedIndex, FromDigits, Stoi, Padded;
    match j
    case Obj(o) => FarIsUnreached(o[ts[0]], ts[1..]);
    case Arr(a) =>
      StoiOfIndex(ts[0]);
      CheckedIsIndex(ts[0], |a|);
      if FromDigits(ts[0]) <= INT_MAX {
        IndexAgrees(ts[0], a);
        FarIsUnreached(a[FromDigits(ts[0])], ts[1..]);
      }
    case _ =>
  }

  // ---------- copy ----------

  /** Success with the same document, or failure of both. */
  predicate SameOutcome(x: Result<Value>, y: Result<Value>) { if x.Ok? then x == y else y.Err? }

  /** Assigning below `p` comes to the same as adding below it. */
  predicate AssignsAsAdds(p: Value, t: Str) {
    match p
    case Null => Opened(p, t).Obj?
    case Arr(a) =>
      || t == DASH
      || (if LeadingZero(t) then !LooseIndex(t, |a| + 1)
          else Stoi(t).Ok? && Stoi(t).value >= 0 ==> Stoi(t).value == |a|)
    case _ => true
  }

  lemma AssignedInArray(a: seq<Value>, t: Str, v: Value)
    ensures var r, i := EditUnchecked(Arr(a), [t], Assign(v)), UncheckedIndex(t, |a|);
            if i.Err? then r == Err(i.error) else r == Ok(Arr(Padded(a, i.value + 1)[i.value := v]))
  {
    hide UncheckedIndex, Padded;
    assert [t][1..] == [];
  }

  lemma AssignOrAdd(p: Value, t: Str, v: Value)
    ensures SameOutcome(EditUnchecked(p, [t], Assign(v)), EditUnchecked(p, [], AddChild(t, v))) <==> AssignsAsAdds(p, t)
  {
    hide Stoi, EditUnchecked, Padded;
    match p
    case Null => AssignInNull(t, v);
    case Obj(o) => AssignElsewhere(p, t, v);
    case Arr(a) => AssignInArray(a, t, v);
    case _ => AssignElsewhere(p, t, v);
  }

  lemma AssignInArray(a: seq<Value>, t: Str, v: Value)
    ensures var x, y := EditUnchecked(Arr(a), [t], Assign(v)), EditUnchecked(Arr(a), [], AddChild(t, v));
            SameOutcome(x, y) <==> AssignsAsAdds(Arr(a), t)
  {
    hide Stoi, EditUnchecked, Padded;
    DashIsNoIndex();
    AssignedInArray(a, t, v);
    AddedInArray(a, t, v);
    assert a + [v] == Padded(a, |a| + 1)[|a| := v];
    var i := Stoi(t);
    if i.Ok? && 0 <= i.value <= |a| {
      assert |a[..i.value] + [v] + a[i.value..]| == |a| + 1;
      if i.value == |a| { assert a[..i.value] + [v] + a[i.value..] == a + [v]; }
    }
  }

  lemma AddedInArray(a: seq<Value>, t: Str, v: Value)
    ensures EditUnchecked(Arr(a), [], AddChild(t, v)) == ApplyEdit(Arr(a), AddChild(t, v))
  {
  }

  lemma AssignElsewhere(p: Value, t: Str, v: Value)
    requires !p.Null? && !p.Arr?
    ensures SameOutcome(EditUnchecked(p, [t], Assign(v)), EditUnchecked(p, [], AddChild(t, v)))
  {
    assert [t][1..] == [];
    if p.Obj? { assert EditUnchecked(if t in p.o then p.o[t] else Null, [], Assign(v)) == Ok(v); }
  }

  lemma AssignInNull(t: Str, v: Value)
    ensures var x, y := EditUnchecked(Null, [t], Assign(v)), EditUnchecked(Null, [], AddChild(t, v));
            SameOutcome(x, y) <==> Opened(Null, t).Obj?
  {
    hide UncheckedIndex, Padded;
    assert [t][1..] == [];
    assert map[][t := v] == map[t := v];
  }

  lemma ReadBackSame(x: Result<Value>, y: Result<Value>, o: map<Str, Value>, k: Str)
    ensures SameOutcome(PutKey(o, k, x), PutKey(o, k, y)) <==> SameOutcome(x, y)
  {
    if x.Ok? && y.Ok? { assert o[k := x.value][k] == x.value && o[k := y.value][k] == y.value; }
  }

  lemma ElementSame(x: Result<Value>, y: Result<Value>, a: seq<Value>, i: nat)
    requires i < |a|
    ensures SameOutcome(PutIndex(a, i, x), PutIndex(a, i, y)) <==> SameOutcome(x, y)
  {
    if x.Ok? && y.Ok? { assert a[i := x.value][i] == x.value && a[i := y.value][i] == y.value; }
  }

  /** At any depth: assigning and adding differ exactly where they differ at the parent. */
  lemma {:induction false} AssignOrAddBelow(j: Value, at: seq<Str>, t: Str, v: Value)
    ensures SameOutcome(EditUnchecked(j, at + [t], Assign(v)), EditUnchecked(j, at, AddChild(t, v))) <==>
      Reach(j, at).Err? || AssignsAsAdds(Reach(j, at).value, t)
    decreases |at|
  {
    hide UncheckedIndex, Padded, Opened, AssignsAsAdds, PutKey, PutIndex, SameOutcome, ApplyEdit;
    if at == [] {
      assert at + [t] == [t];
      AssignOrAdd(j, t, v);
    } else {
      assert (at + [t])[0] == at[0] && (at + [t])[1..] == at[1..] + [t];
      match Opened(j, at[0])
      case Obj(o) =>
        var x := if at[0] in o then o[at[0]] else Null;
        AssignOrAddBelow(x, at[1..], t, v);
        ReadBackSame(EditUnchecked(x, at[1..] + [t], Assign(v)), EditUnchecked(x, at[1..], AddChild(t, v)), o, at[0]);
      case Arr(a) =>
        var i := UncheckedIndex(at[0], |a|);
        if i.Ok? {
          var p := Padded(a, i.value + 1);
          var x := p[i.value];
          AssignOrAddBelow(x, at[1..], t, v);
          ElementSame(
            EditUnchecked(x, at[1..] + [t], Assign(v)), EditUnchecked(x, at[1..], AddChild(t, v)), p, i.value);
        } else {
          BothFail();
        }
      case _ => BothFail();
    }
  }

  lemma BothFail()
    ensures forall x: Error, y: Error :: SameOutcome(Err(x), Err(y))
  {
  }

  /**
   * RFC 6902, section 4.5, makes "copy" the "add" of the copied value. The code assigns instead. This comes to the same
   * exactly if both fail, or the top of the pointer exists and the parent is an object, an array that is appended to,
   * or null in front of a token that makes it an object.
   */
  lemma CopyIsAdd(j: Value, val: Value, ptr: seq<Str>, source: seq<Str>)
    requires Operation(val, COPY, ptr) && From(val, source) && Get(j, source).Ok? && ptr != []
    ensures var parent := Reach(j, Init(ptr));
            SameOutcome(PatchStep(j, val), AddAt(j, ptr, Get(j, source).value)) <==>
              if !TopExists(j, ptr) then Reach(j, ptr).Err?
              else parent.Err? || AssignsAsAdds(parent.value, Last(ptr))
  {
    hide Get, EditUnchecked, Split, Reach, AssignsAsAdds;
    OperationNames();
    var v := Get(j, source).value;
    Whole(ptr);
    EditUncheckedIs(j, ptr, Assign(v));
    AssignOrAddBelow(j, Init(ptr), Last(ptr), v);
  }

  /** An edit below what exists is an edit of what exists. */
  lemma {:induction false} EditThrough(j: Value, at: seq<Str>, q: seq<Str>, e: Edit)
    requires Get(j, at).Ok?
    ensures var x := EditUnchecked(Get(j, at).value, q, e);
            EditUnchecked(j, at + q, e) == if x.Ok? then EditChecked(j, at, Assign(x.value)) else x
    decreases |at|
  {
    hide CheckedIndex, UncheckedIndex, Padded, ApplyEdit;
    if at == [] {
      assert at + q == q;
      Assigned(j, EditUnchecked(j, q, e));
    } else {
      assert (at + q)[0] == at[0] && (at + q)[1..] == at[1..] + q;
      match j
      case Obj(o) => EditThrough(o[at[0]], at[1..], q, e);
      case Arr(a) =>
        IndexAgrees(at[0], a);
        EditThrough(a[CheckedIndex(at[0], |a|).value], at[1..], q, e);
      case _ =>
    }
  }

  lemma Assigned(j: Value, x: Result<Value>)
    ensures x.Ok? ==> EditChecked(j, [], Assign(x.value)) == x
  {
  }

  lemma {:induction false} ReplacedIsThere(j: Value, at: seq<Str>, x: Value)
    requires Resolve(j, at).Some?
    ensures Resolve(Replaced(j, at, x), at) == Some(x)
    decreases |at|
  {
    hide FromDigits;
    if at != [] {
      match j
      case Obj(o) => ReplacedIsThere(o[at[0]], at[1..], x);
      case Arr(a) => ReplacedIsThere(a[FromDigits(at[0])], at[1..], x);
      case _ =>
    }
  }

  lemma CopiedChild(p: Value, t: Str, v: Value)
    ensures var x, y := EditUnchecked(p, [t], Assign(v)), Inserted(p, t, v);
            && (x.Ok? && y.Some? ==> (x.value == y.value <==> !(p.Arr? && IndexBelow(t, |p.a|))))
            && (x.Ok? ==> (y.None? <==> p.Null? || (p.Arr? && t != DASH && !IndexBelow(t, |p.a| + 1))))
            && (y.Some? ==> (x.Err? <==> p.Arr? && IsIndex(t) && FromDigits(t) > INT_MAX))
  {
    hide Stoi, EditUnchecked, Padded, FromDigits;
    match p
    case Arr(a) =>
      AssignedInArray(a, t, v);
      if IsIndex(t) {
        StoiOfIndex(t);
        var i := FromDigits(t);
        if i <= |a| {
          assert |a[..i] + [v] + a[i..]| == |a| + 1;
          if i == |a| { assert Padded(a, i + 1)[i := v] == a[..i] + [v] + a[i..]; }
        }
      }
      assert a + [v] == Padded(a, |a| + 1)[|a| := v];
    case _ => CopiedElsewhere(p, t, v);
  }

  lemma CopiedElsewhere(p: Value, t: Str, v: Value)
    requires !p.Arr?
    ensures var x, y := EditUnchecked(p, [t], Assign(v)), Inserted(p, t, v);
            && (y.Some? <==> p.Obj?)
            && (x.Ok? ==> p.Obj? || p.Null?)
            && (p.Obj? ==> x.Ok? && x.value == y.value)
  {
    hide UncheckedIndex, Padded;
    assert [t][1..] == [];
    if p.Obj? { assert EditUnchecked(if t in p.o then p.o[t] else Null, [], Assign(v)) == Ok(v); }
  }

  /** `copy` overwrites an element that is there already. */
  predicate Overwrites(j: Value, ptr: seq<Str>) {
    ptr != [] &&
    var parent := Resolve(j, Init(ptr));
    parent.Some? && parent.value.Arr? && IndexBelow(Last(ptr), |parent.value.a|)
  }

  /** The ways in which assigning through `operator[]` goes beyond the "add" of the standard. */
  predicate CopiesLoosely(j: Value, ptr: seq<Str>) {
    ptr != [] &&
    var parent, last := Get(j, Init(ptr)), Last(ptr);
    || parent.Err?
    || Loose(j, Init(ptr))
    || parent.value.Null?
    || (parent.value.Arr? && last != DASH && !IndexBelow(last, |parent.value.a| + 1))
  }

  lemma AssignIsStandard(j: Value, ptr: seq<Str>, v: Value)
    requires ptr != []
    ensures var r, s := EditUnchecked(j, ptr, Assign(v)), StandardAdd(j, ptr, v);
            && (r.Ok? && s.Some? ==> (r.value == s.value <==> !Overwrites(j, ptr)))
            && (r.Ok? ==> (s.None? <==> CopiesLoosely(j, ptr)))
            && (s.Some? ==> (r.Err? <==> Far(j, ptr)))
  {
    hide Get, EditChecked, EditUnchecked, ApplyEdit, Inserted, Loose, Far, Resolve, Replaced, FromDigits, Reach;
    var at, t := Init(ptr), Last(ptr);
    GetIsResolve(j, at);
    Whole(ptr);
    if Resolve(j, at).Some? {
      var p := Resolve(j, at).value;
      FarLast(j, at, t);
      CopiedChild(p, t, v);
      if Get(j, at).Ok? {
        EditThrough(j, at, [t], Assign(v));
        var x, y := EditUnchecked(p, [t], Assign(v)), Inserted(p, t, v);
        if x.Ok? {
          AssignIsReplaced(j, at, x.value);
          ReplacedIsThere(j, at, x.value);
        }
        if y.Some? { ReplacedIsThere(j, at, y.value); }
      } else {
        FarIsUnreached(j, at);
        ReachAppend(j, at, [t]);
        EditUncheckedIs(j, ptr, Assign(v));
      }
    }
  }

  lemma AssignIsReplaced(j: Value, at: seq<Str>, x: Value)
    requires Get(j, at).Ok? && Resolve(j, at).Some?
    ensures EditChecked(j, at, Assign(x)) == Ok(Replaced(j, at, x))
  {
    hide Get, EditChecked, Resolve, Replaced;
    EditIsReplaced(j, at, Assign(x));
  }

  /** "copy" (RFC 6902, section 4.5). */
  function StandardCopy(j: Value, ptr: seq<Str>, source: seq<Str>): Option<Value> {
    if Resolve(j, source).Some? then StandardAdd(j, ptr, Resolve(j, source).value) else None
  }

  /**
   * Where `copy` departs from RFC 6902: it overwrites array elements instead of inserting in front of them, and it
   * creates missing parents, pads arrays and takes tokens that are no index; it fails on indices beyond `int`.
   */
  lemma CopyIsStandard(j: Value, val: Value, ptr: seq<Str>, source: seq<Str>)
    requires Operation(val, COPY, ptr) && From(val, source)
    ensures var r, s := PatchStep(j, val), StandardCopy(j, ptr, source);
            && (r.Ok? && s.Some? ==> (r.value == s.value <==> !Overwrites(j, ptr)))
            && (r.Ok? && s.None? <==>
                  Get(j, source).Ok? && Reach(j, ptr).Ok? && (Loose(j, source) || CopiesLoosely(j, ptr)))
            && (s.Some? ==> (r.Err? <==> Far(j, source) || Far(j, ptr)))
  {
    hide Get, EditUnchecked, Split, Reach, StandardAdd, Overwrites, CopiesLoosely, Loose, Far, Resolve, ApplyEdit;
    CopyStep(j, val, ptr, source);
    OperationNames();
    GetIsResolve(j, source);
    if Get(j, source).Ok? {
      var v := Get(j, source).value;
      EditUncheckedIs(j, ptr, Assign(v));
      if ptr == [] { CopyToRoot(j, v); } else { AssignIsStandard(j, ptr, v); }
    }
  }

  lemma CopyToRoot(j: Value, v: Value)
    ensures EditUnchecked(j, [], Assign(v)) == Ok(v) && StandardAdd(j, [], v) == Some(v)
    ensures !Overwrites(j, []) && !CopiesLoosely(j, []) && !Far(j, []) && Reach(j, []).Ok?
  {
  }

  // ---------- move ----------

  lemma {:induction false} ReachAppend(j: Value, p: seq<Str>, q: seq<Str>)
    ensures Reach(j, p + q) == if Reach(j, p).Ok? then Reach(Reach(j, p).value, q) else Reach(j, p)
    decreases |p|
  {
    hide UncheckedIndex, Padded, Opened;
    if p == [] {
      assert p + q == q;
    } else {
      assert (p + q)[0] == p[0] && (p + q)[1..] == p[1..] + q;
      match Opened(j, p[0])
      case Obj(o) => ReachAppend(if p[0] in o then o[p[0]] else Null, p[1..], q);
      case Arr(a) =>
        var i := UncheckedIndex(p[0], |a|);
        if i.Ok? { ReachAppend(Padded(a, i.value + 1)[i.value], p[1..], q); }
      case _ =>
    }
  }

  /** What stands in the place of a child once it is removed: the next element of an array, otherwise nothing. */
  function Successor(p: Value, t: Str): Value {
    if p.Arr? && LooseIndex(t, |p.a| - 1) then p.a[Stoi(t).value + 1] else Null
  }

  lemma ReachSuccessor(p: Value, t: Str)
    requires Get(p, [t]).Ok?
    ensures var rest := ApplyEdit(p, RemoveChild(t)); rest.Ok? && Reach(rest.value, [t]) == Ok(Successor(p, t))
    ensures var rest := ApplyEdit(p, RemoveChild(t)).value; Get(rest, [t]).Ok? <==> p.Arr? && LooseIndex(t, |p.a| - 1)
  {
    GetChild(p, t);
    DashIsNoIndex();
    hide Stoi;
    assert [t][1..] == [];
    if p.Arr? {
      var i := Stoi(t).value;
      var rest := p.a[..i] + p.a[i + 1..];
      assert i < |rest| ==> rest[i] == p.a[i + 1];
    }
  }

  /** The pointer leads somewhere new below a value: its parent is reached and takes the child. */
  predicate Takes(x: Value, ptr: seq<Str>)
    requires ptr != []
  {
    Reach(x, Init(ptr)).Ok? && TakesChild(Reach(x, Init(ptr)).value, Last(ptr))
  }

  /**
   * RFC 6902, section 4.4, forbids to move a value into one of its children. The code does it exactly where what stands
   * in the place of the removed value takes the rest of the pointer, and the top of the document still exists.
   */
  lemma MoveIntoChild(j: Value, val: Value, source: seq<Str>, below: seq<Str>)
    requires Operation(val, MOVE, source + below) && From(val, source)
    requires source != [] && below != [] && Get(j, source).Ok?
    ensures var parent, last := Get(j, Init(source)), Last(source);
            && parent.Ok?
            && (PatchStep(j, val).Ok? <==>
                  && (|source| > 1 || (parent.value.Arr? && LooseIndex(last, |parent.value.a| - 1)))
                  && Takes(Successor(parent.value, last), below))
  {
    hide Get, AddAt, RemoveAt, Split, Reach, LooseIndex, Successor, TakesChild, ApplyEdit;
    var ptr, at, t := source + below, Init(source), Last(source);
    var v := Get(j, source).value;
    MoveStep(j, val, ptr, source);
    GetLast(j, source);
    var p := Get(j, at).value;
    ReachSuccessor(p, t);
    var rest := RemoveAt(j, source).value;
    Removed(j, source);
    var child := ApplyEdit(p, RemoveChild(t)).value;
    UncheckedAgrees(rest, at, Assign(Null));
    ReachAppend(rest, at, [t]);
    Whole(source);
    ReachAppend(rest, source, Init(below));
    assert Init(ptr) == source + Init(below) && Last(ptr) == Last(below);
    AddAtIs(rest, ptr, v);
    TopAfterRemoval(rest, source, ptr, child);
  }

  lemma Removed(j: Value, ptr: seq<Str>)
    requires ptr != [] && RemoveAt(j, ptr).Ok?
    ensures Get(j, Init(ptr)).Ok?
    ensures Get(RemoveAt(j, ptr).value, Init(ptr)) == ApplyEdit(Get(j, Init(ptr)).value, RemoveChild(Last(ptr)))
  {
    hide Get, EditChecked, ApplyEdit;
    EditCheckedIs(j, Init(ptr), RemoveChild(Last(ptr)));
  }

  lemma TopAfterRemoval(rest: Value, source: seq<Str>, ptr: seq<Str>, child: Value)
    requires source != [] && |ptr| > |source| && source == ptr[..|source|]
    requires Get(rest, Init(source)) == Ok(child)
    ensures TopExists(rest, ptr) <==> |source| > 1 || Get(child, [Last(source)]).Ok?
  {
    hide Get;
    assert ptr[0] == source[0];
    if |source| > 1 {
      TopOfExisting(rest, source);
    } else {
      EmptyPointer(rest);
      assert Init(source) == [] && Last(source) == ptr[0];
    }
  }

  lemma EmptyPointer(j: Value)
    ensures Get(j, []) == Ok(j)
  {
  }

  /** "move" (RFC 6902, section 4.4), of anything but the whole document. */
  function StandardMove(j: Value, ptr: seq<Str>, source: seq<Str>): Option<Value>
    requires source != []
  {
    if (|source| < |ptr| && source == ptr[..|source|]) || Resolve(j, source).None? then None
    else
      var rest := StandardRemove(j, source);
      if rest.None? then None else StandardAdd(rest.value, ptr, Resolve(j, source).value)
  }

  lemma {:induction false} ResolveAppend(j: Value, at: seq<Str>, t: Str)
    ensures Resolve(j, at + [t]) == if Resolve(j, at).Some? then Resolve(Resolve(j, at).value, [t]) else None
    decreases |at|
  {
    hide FromDigits;
    if at == [] {
      assert at + [t] == [t];
    } else {
      assert (at + [t])[0] == at[0] && (at + [t])[1..] == at[1..] + [t];
      match j
      case Obj(o) => if at[0] in o { ResolveAppend(o[at[0]], at[1..], t); }
      case Arr(a) => if IndexBelow(at[0], |a|) { ResolveAppend(a[FromDigits(at[0])], at[1..], t); }
      case _ =>
    }
  }

  /** The standard removes exactly what exists. */
  lemma RemovesWhatExists(j: Value, ptr: seq<Str>)
    requires ptr != []
    ensures StandardRemove(j, ptr).Some? <==> Resolve(j, ptr).Some?
  {
    hide Resolve, Replaced, Taken;
    Whole(ptr);
    ResolveAppend(j, Init(ptr), Last(ptr));
    if Resolve(j, Init(ptr)).Some? { TakenExists(Resolve(j, Init(ptr)).value, Last(ptr)); }
  }

  lemma TakenExists(p: Value, t: Str)
    ensures Taken(p, t).Some? <==> Resolve(p, [t]).Some?
  {
    hide FromDigits;
    assert [t][1..] == [];
  }

  /**
   * Where `move` departs from RFC 6902: it moves a value into its own child, takes tokens that are no index at "from",
   * and adds what it has removed as loosely as `add`; it fails on indices beyond `int`.
   */
  lemma MoveIsStandard(j: Value, val: Value, ptr: seq<Str>, source: seq<Str>)
    requires Operation(val, MOVE, ptr) && From(val, source) && source != []
    ensures var r, s, rest := PatchStep(j, val), StandardMove(j, ptr, source), RemoveAt(j, source);
            && (r.Ok? && s.Some? ==> r.value == s.value)
            && (r.Ok? ==> rest.Ok?)
            && (r.Ok? ==> (s.None? <==>
                  || (|source| < |ptr| && source == ptr[..|source|])
                  || Loose(j, source)
                  || AddsLoosely(rest.value, ptr)))
            && (s.Some? ==> StandardRemove(j, source).Some?)
            && (s.Some? ==> (r.Err? <==> Far(j, source) || Far(StandardRemove(j, source).value, ptr)))
  {
    hide Get, AddAt, RemoveAt, StandardAdd, StandardRemove, Split, Loose, Far, AddsLoosely, Resolve, TakesChild;
    MoveStep(j, val, ptr, source);
    GetIsResolve(j, source);
    RemovesWhatExists(j, source);
    if Get(j, source).Ok? && Resolve(j, source).Some? {
      RemoveAgrees(j, source);
      AddAgrees(RemoveAt(j, source).value, ptr, Get(j, source).value);
    }
  }

  lemma RemoveAgrees(j: Value, ptr: seq<Str>)
    requires ptr != [] && RemoveAt(j, ptr).Ok? && StandardRemove(j, ptr).Some?
    ensures RemoveAt(j, ptr).value == StandardRemove(j, ptr).value
  {
    hide RemoveAt, StandardRemove;
    RemoveIsStandard(j, ptr);
  }

  lemma AddAgrees(j: Value, ptr: seq<Str>, v: Value)
    ensures var r, s := AddAt(j, ptr, v), StandardAdd(j, ptr, v);
            && (r.Ok? && s.Some? ==> r.value == s.value)
            && (r.Ok? ==> (s.None? <==> AddsLoosely(j, ptr)))
            && (s.Some? ==> (r.Err? <==> Far(j, ptr)))
  {
    if ptr != [] {
      hide AddAt, StandardAdd, AddsLoosely, Far, TakesChild;
      AddAtIs(j, ptr, v);
      AddIsStandard(j, ptr, v);
    }
  }

  /** `test` departs from RFC 6902 on tokens that are no index, and on indices beyond `int`, equality being `Eq`. */
  lemma TestIsStandard(j: Value, val: Value, ptr: seq<Str>)
    requires Operation(val, TEST, ptr) && VALUE in val.o
    ensures var r := PatchStep(j, val);
            var s := Resolve(j, ptr).Some? && Eq(Resolve(j, ptr).value, val.o[VALUE]);
            && (r.Ok? && !s <==> Get(j, ptr).Ok? && Eq(Get(j, ptr).value, val.o[VALUE]) && Loose(j, ptr))
            && (s ==> (r.Err? <==> Far(j, ptr)))
  {
    hide Get, PatchStep, Operation, Eq, Loose, Far, Resolve;
    TestStep(j, val, ptr);
    GetIsResolve(j, ptr);
  }
}
