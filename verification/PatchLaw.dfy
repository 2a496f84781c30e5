/** What one operation of a JSON Patch does to the value, seen through pointers. */
module PatchLaw {
  import opened Bytes
  import opened Results
  import opened Decimal
  import opened Values
  import opened Pointers
  import opened Access
  import opened Patches

  // ---------- edits seen through pointers ----------

  lemma {:induction false} GetAppend(j: Value, p: seq<Str>, q: seq<Str>)
    ensures Get(j, p + q) == if Get(j, p).Ok? then Get(Get(j, p).value, q) else Get(j, p)
    decreases |p|
  {
    hide CheckedIndex;
    if p == [] {
      assert p + q == q;
    } else {
      assert (p + q)[1..] == p[1..] + q;
      match j
      case Obj(o) => if p[0] in o { GetAppend(o[p[0]], p[1..], q); }
      case Arr(a) =>
        var i := CheckedIndex(p[0], |a|);
        if i.Ok? { GetAppend(a[i.value], p[1..], q); }
      case _ =>
    }
  }

  /** `at` refers to what it refers to: an edit through it fails where reading fails, and is read back there. */
  lemma {:induction false} EditCheckedIs(j: Value, ts: seq<Str>, e: Edit)
    ensures var r := EditChecked(j, ts, e);
            match Get(j, ts)
            case Err(x) => r == Err(x)
            case Ok(p) =>
              if ApplyEdit(p, e).Err? then r == Err(ApplyEdit(p, e).error)
              else r.Ok? && Get(r.value, ts) == ApplyEdit(p, e)
    decreases |ts|
  {
    hide CheckedIndex, ApplyEdit;
    if ts != [] {
      match j
      case Obj(o) => if ts[0] in o { EditCheckedIs(o[ts[0]], ts[1..], e); }
      case Arr(a) =>
        var i := CheckedIndex(ts[0], |a|);
        if i.Ok? { EditCheckedIs(a[i.value], ts[1..], e); }
      case _ =>
    }
  }

  /** What `operator[](ptr)` refers to, once everything missing is created. */
  function Reach(j: Value, ts: seq<Str>): (r: Result<Value>)
    ensures r.Err? ==> r.error != AssertionFailure
    decreases |ts|
  {
    if ts == [] then Ok(j)
    else match Opened(j, ts[0])
      case Obj(o) => Reach(if ts[0] in o then o[ts[0]] else Null, ts[1..])
      case Arr(a) =>
        var i :- UncheckedIndex(ts[0], |a|);
        Reach(Padded(a, i + 1)[i], ts[1..])
      case _ => Err(OutOfRange)
  }

  /** Whether the way leads through "-", a new last element of an array. */
  predicate Appends(j: Value, ts: seq<Str>)
    decreases |ts|
  {
    ts != [] &&
    match Opened(j, ts[0])
    case Obj(o) => Appends(if ts[0] in o then o[ts[0]] else Null, ts[1..])
    case Arr(a) =>
      var i := UncheckedIndex(ts[0], |a|);
      ts[0] == DASH || (i.Ok? && Appends(Padded(a, i.value + 1)[i.value], ts[1..]))
    case _ => false
  }

  lemma IndexAfter(t: Str, n: nat, m: nat)
    requires UncheckedIndex(t, n).Ok? && UncheckedIndex(t, n).value < m
    ensures CheckedIndex(t, m) == if t == DASH then Err(OutOfRange) else UncheckedIndex(t, n)
  {
    hide Stoi;
  }

  lemma GetThroughKey(o: map<Str, Value>, ts: seq<Str>, x: Value)
    requires ts != []
    ensures Get(Obj(o[ts[0] := x]), ts) == Get(x, ts[1..])
  {
  }

  lemma GetThroughIndex(p: seq<Value>, ts: seq<Str>, i: nat, x: Value)
    requires ts != [] && i < |p| && (CheckedIndex(ts[0], |p|).Ok? ==> CheckedIndex(ts[0], |p|).value == i)
    ensures if CheckedIndex(ts[0], |p|).Ok? then Get(Arr(p[i := x]), ts) == Get(x, ts[1..])
            else Get(Arr(p[i := x]), ts).Err?
  {
    hide CheckedIndex;
  }

  /** The edit fails where the way or the edit itself fails; otherwise it is read back, unless the pointer appends. */
  predicate ReadBack(j: Value, ts: seq<Str>, e: Edit) {
    var r := EditUnchecked(j, ts, e);
    match Reach(j, ts)
    case Err(x) => r == Err(x)
    case Ok(p) =>
      if ApplyEdit(p, e).Err? then r == Err(ApplyEdit(p, e).error)
      else r.Ok? && if Appends(j, ts) then Get(r.value, ts).Err? else Get(r.value, ts) == ApplyEdit(p, e)
  }

  lemma ReadBackThroughKey(j: Value, ts: seq<Str>, e: Edit)
    requires ts != [] && Opened(j, ts[0]).Obj?
    requires var o := Opened(j, ts[0]).o; ReadBack(if ts[0] in o then o[ts[0]] else Null, ts[1..], e)
    ensures ReadBack(j, ts, e)
  {
    hide ApplyEdit, Opened, Get;
    var o := Opened(j, ts[0]).o;
    var x := EditUnchecked(if ts[0] in o then o[ts[0]] else Null, ts[1..], e);
    if x.Ok? { GetThroughKey(o, ts, x.value); }
  }

  lemma ReadBackThroughIndex(j: Value, ts: seq<Str>, e: Edit)
    requires ts != [] && Opened(j, ts[0]).Arr?
    requires var a := Opened(j, ts[0]).a;
             var i := UncheckedIndex(ts[0], |a|);
             i.Ok? ==> ReadBack(Padded(a, i.value + 1)[i.value], ts[1..], e)
    ensures ReadBack(j, ts, e)
  {
    hide CheckedIndex, UncheckedIndex, ApplyEdit, Opened, Padded, Get, EditUnchecked, Reach, Appends;
    var a := Opened(j, ts[0]).a;
    var i := UncheckedIndex(ts[0], |a|);
    ThroughIndexUnfolds(j, ts, e);
    if i.Ok? {
      var p := Padded(a, i.value + 1);
      var x := EditUnchecked(p[i.value], ts[1..], e);
      IndexAfter(ts[0], |a|, |p|);
      if x.Ok? { GetThroughIndex(p, ts, i.value, x.value); }
    }
  }

  lemma ThroughIndexUnfolds(j: Value, ts: seq<Str>, e: Edit)
    requires ts != [] && Opened(j, ts[0]).Arr?
    ensures var a := Opened(j, ts[0]).a;
            var i := UncheckedIndex(ts[0], |a|);
            if i.Err? then EditUnchecked(j, ts, e) == Err(i.error) && Reach(j, ts) == Err(i.error)
            else
              var p := Padded(a, i.value + 1);
              && EditUnchecked(j, ts, e) == PutIndex(p, i.value, EditUnchecked(p[i.value], ts[1..], e))
              && Reach(j, ts) == Reach(p[i.value], ts[1..])
              && (Appends(j, ts) <==> ts[0] == DASH || Appends(p[i.value], ts[1..]))
  {
    hide CheckedIndex, UncheckedIndex, ApplyEdit, Opened, Padded;
  }

  /** An edit through `operator[]` is read back at the same pointer, unless the pointer appends. */
  lemma {:induction false} EditUncheckedIs(j: Value, ts: seq<Str>, e: Edit)
    ensures ReadBack(j, ts, e)
    decreases |ts|
  {
    if ts != [] {
      hide ReadBack, UncheckedIndex, Padded;
      match Opened(j, ts[0])
      case Obj(o) =>
        EditUncheckedIs(if ts[0] in o then o[ts[0]] else Null, ts[1..], e);
        ReadBackThroughKey(j, ts, e);
      case Arr(a) =>
        var i := UncheckedIndex(ts[0], |a|);
        if i.Ok? { EditUncheckedIs(Padded(a, i.value + 1)[i.value], ts[1..], e); }
        ReadBackThroughIndex(j, ts, e);
      case _ => Unreached(j, ts, e);
    }
  }

  lemma Unreached(j: Value, ts: seq<Str>, e: Edit)
    requires ts != [] && !Opened(j, ts[0]).Obj? && !Opened(j, ts[0]).Arr?
    ensures ReadBack(j, ts, e)
  {
  }

  lemma IndexAgrees(t: Str, a: seq<Value>)
    requires CheckedIndex(t, |a|).Ok?
    ensures UncheckedIndex(t, |a|) == CheckedIndex(t, |a|) && t != DASH
    ensures Padded(a, CheckedIndex(t, |a|).value + 1) == a
  {
    hide Stoi;
  }

  /** Where nothing has to be created, the two kinds of access agree. */
  lemma {:induction false} UncheckedAgrees(j: Value, ts: seq<Str>, e: Edit)
    requires Get(j, ts).Ok?
    ensures Reach(j, ts) == Get(j, ts) && !Appends(j, ts) && EditUnchecked(j, ts, e) == EditChecked(j, ts, e)
    decreases |ts|
  {
    hide CheckedIndex, UncheckedIndex, ApplyEdit, Padded;
    if ts != [] {
      match j
      case Obj(o) => UncheckedAgrees(o[ts[0]], ts[1..], e);
      case Arr(a) =>
        IndexAgrees(ts[0], a);
        UncheckedAgrees(a[CheckedIndex(ts[0], |a|).value], ts[1..], e);
      case _ =>
    }
  }

  /** `q` parts from `p` at some object or array: another key, another index. */
  predicate Parts(j: Value, p: seq<Str>, q: seq<Str>)
    decreases |p|
  {
    p != [] && q != [] &&
    match j
    case Obj(o) => p[0] != q[0] || (q[0] in o && Parts(o[q[0]], p[1..], q[1..]))
    case Arr(a) =>
      var i, k := UncheckedIndex(p[0], |a|), CheckedIndex(q[0], |a|);
      i.Ok? && k.Ok? && (i.value != k.value || Parts(a[k.value], p[1..], q[1..]))
    case _ => false
  }

  lemma SameIndex(t: Str, n: nat, m: nat)
    requires n <= m && CheckedIndex(t, n).Ok?
    ensures CheckedIndex(t, m) == CheckedIndex(t, n)
  {
    hide Stoi;
  }

  /** Whatever else resolves keeps its value. */
  lemma {:induction false} Frame(j: Value, p: seq<Str>, e: Edit, q: seq<Str>)
    requires EditUnchecked(j, p, e).Ok? && Get(j, q).Ok? && Parts(j, p, q)
    ensures Get(EditUnchecked(j, p, e).value, q) == Get(j, q)
    decreases |p|
  {
    hide CheckedIndex, UncheckedIndex, ApplyEdit, Padded;
    match j
    case Obj(o) =>
      if p[0] == q[0] { Frame(o[q[0]], p[1..], e, q[1..]); }
    case Arr(a) =>
      var i, k := UncheckedIndex(p[0], |a|).value, CheckedIndex(q[0], |a|).value;
      var padded := Padded(a, i + 1);
      SameIndex(q[0], |a|, |padded|);
      if i == k { Frame(a[k], p[1..], e, q[1..]); }
    case _ =>
  }

  lemma FrameChecked(j: Value, p: seq<Str>, e: Edit, q: seq<Str>)
    requires EditChecked(j, p, e).Ok? && Get(j, q).Ok? && Parts(j, p, q)
    ensures Get(EditChecked(j, p, e).value, q) == Get(j, q)
  {
    hide EditChecked, EditUnchecked, Get, Parts;
    EditCheckedIs(j, p, e);
    UncheckedAgrees(j, p, e);
    Frame(j, p, e, q);
  }

  // ---------- remove ----------

  function Init(ptr: seq<Str>): seq<Str>
    requires ptr != []
  {
    ptr[..|ptr| - 1]
  }

  function Last(ptr: seq<Str>): Str
    requires ptr != []
  {
    ptr[|ptr| - 1]
  }

  /** What `stoi` reads as an index below `n`: digits behind white space, signs and zeros, whatever follows. */
  predicate LooseIndex(t: Str, n: int) { Stoi(t).Ok? && 0 <= Stoi(t).value < n }

  predicate LeadingZero(t: Str) { |t| > 1 && t[0] == ZERO }

  predicate HasChild(p: Value, t: Str) {
    match p
    case Obj(o) => t in o
    case Arr(a) => LooseIndex(t, |a|)
    case _ => false
  }

  lemma StoiErrors(t: Str)
    ensures Stoi(t).Err? ==> Stoi(t).error != AssertionFailure
  {
  }

  lemma DashIsNoIndex()
    ensures Stoi(DASH) == Err(InvalidArgument)
  {
    assert SkipSpace(DASH) == DASH;
    assert DASH[1..] == [];
    assert DigitRun([]) == 0;
  }

  /** Reading a child: as for removing it, except for indices with a leading zero. */
  lemma GetChild(p: Value, t: Str)
    ensures Get(p, [t]).Ok? <==> HasChild(p, t) && (p.Arr? ==> !LeadingZero(t))
    ensures Get(p, [t]).Ok? ==> Get(p, [t]).value == if p.Obj? then p.o[t] else p.a[Stoi(t).value]
    ensures Get(p, [t]).Err? ==> Get(p, [t]).error != AssertionFailure
  {
    DashIsNoIndex();
    StoiErrors(t);
    hide Stoi;
    assert [t][1..] == [];
  }

  lemma GetLast(j: Value, ptr: seq<Str>)
    requires ptr != []
    ensures Get(j, ptr) ==
      if Get(j, Init(ptr)).Ok? then Get(Get(j, Init(ptr)).value, [Last(ptr)]) else Get(j, Init(ptr))
  {
    assert ptr == Init(ptr) + [Last(ptr)];
    GetAppend(j, Init(ptr), [Last(ptr)]);
  }

  /** `remove` succeeds on every child that exists, and below every primitive; the parent loses exactly that child. */
  lemma RemoveAtIs(j: Value, ptr: seq<Str>)
    requires ptr != []
    ensures var r, parent, last := RemoveAt(j, ptr), Get(j, Init(ptr)), Last(ptr);
            && (r.Ok? <==> parent.Ok? && (parent.value.Primitive() || HasChild(parent.value, last)))
            && (r.Ok? ==>
                  Get(r.value, Init(ptr)) == Ok(match parent.value
                                                case Obj(o) => Obj(o - {last})
                                                case Arr(a) => var i := Stoi(last).value; Arr(a[..i] + a[i + 1..])
                                                case p => p))
  {
    hide Get, EditChecked, Stoi;
    EditCheckedIs(j, Init(ptr), RemoveChild(Last(ptr)));
  }

  /** `remove` succeeds where `at` fails: below a primitive parent, and at an index with a leading zero. */
  lemma RemoveBeyondAt(j: Value, ptr: seq<Str>)
    requires ptr != []
    ensures RemoveAt(j, ptr).Ok? && Get(j, ptr).Err? <==>
            var parent, last := Get(j, Init(ptr)), Last(ptr);
            && parent.Ok?
            && (parent.value.Primitive()
                || (parent.value.Arr? && LeadingZero(last) && LooseIndex(last, |parent.value.a|)))
    ensures Get(j, ptr).Ok? ==> RemoveAt(j, ptr).Ok?
  {
    hide Get, RemoveAt, LeadingZero, LooseIndex;
    RemoveAtIs(j, ptr);
    GetLast(j, ptr);
    if Get(j, Init(ptr)).Ok? { GetChild(Get(j, Init(ptr)).value, Last(ptr)); }
  }

  // ---------- add ----------

  /** All but a pointer of one token must begin at something that exists. */
  predicate TopExists(j: Value, ptr: seq<Str>)
    requires ptr != []
  {
    |ptr| > 1 ==> Get(j, [ptr[0]]).Ok?
  }

  predicate TakesChild(p: Value, t: Str) {
    match p
    case Null => true
    case Obj(_) => true
    case Arr(a) => t == DASH || LooseIndex(t, |a| + 1)
    case _ => false
  }

  /** The parent with its new child. */
  function WithChild(p: Value, t: Str, v: Value): Value
    requires TakesChild(p, t)
  {
    match p
    case Null => Obj(map[t := v])
    case Obj(o) => Obj(o[t := v])
    case Arr(a) => if t == DASH then Arr(a + [v]) else var i := Stoi(t).value; Arr(a[..i] + [v] + a[i..])
  }

  lemma ChildAdded(p: Value, t: Str, v: Value)
    ensures ApplyEdit(p, AddChild(t, v)).Ok? <==> TakesChild(p, t)
    ensures TakesChild(p, t) ==> ApplyEdit(p, AddChild(t, v)) == Ok(WithChild(p, t, v))
    ensures ApplyEdit(p, AddChild(t, v)) == Err(AssertionFailure) <==> p.Primitive() && !p.Null?
    ensures TakesChild(p, t) ==>
      (Get(WithChild(p, t, v), [t]) == Ok(v) <==> !(p.Arr? && (t == DASH || LeadingZero(t))))
    ensures TakesChild(p, t) && p.Arr? && (t == DASH || LeadingZero(t)) ==> Get(WithChild(p, t, v), [t]).Err?
  {
    DashIsNoIndex();
    StoiErrors(t);
    hide Stoi;
    assert [t][1..] == [];
  }

  lemma GetErrors(j: Value, ts: seq<Str>)
    ensures Get(j, ts).Err? ==> Get(j, ts).error != AssertionFailure
    decreases |ts|
  {
    if ts != [] {
      StoiErrors(ts[0]);
      hide Stoi;
      match j
      case Obj(o) => if ts[0] in o { GetErrors(o[ts[0]], ts[1..]); }
      case Arr(a) =>
        var i := CheckedIndex(ts[0], |a|);
        if i.Ok? { GetErrors(a[i.value], ts[1..]); }
      case _ =>
    }
  }

  /** Exactly when `add` succeeds, exactly when it violates the assertion in the source, and what the parent becomes. */
  lemma AddAtIs(j: Value, ptr: seq<Str>, v: Value)
    requires ptr != []
    ensures var r, parent, last := AddAt(j, ptr, v), Reach(j, Init(ptr)), Last(ptr);
            && (r.Ok? <==> TopExists(j, ptr) && parent.Ok? && TakesChild(parent.value, last))
            && (r == Err(AssertionFailure) <==>
                  TopExists(j, ptr) && parent.Ok? && parent.value.Primitive() && !parent.value.Null?)
            && (r.Ok? && !Appends(j, Init(ptr)) ==> Get(r.value, Init(ptr)) == Ok(WithChild(parent.value, last, v)))
            && (r.Ok? && Appends(j, Init(ptr)) ==> Get(r.value, Init(ptr)).Err?)
  {
    hide Get, Reach, EditUnchecked, TakesChild, WithChild, ApplyEdit, Appends;
    GetErrors(j, [ptr[0]]);
    EditUncheckedIs(j, Init(ptr), AddChild(Last(ptr), v));
    var parent := Reach(j, Init(ptr));
    if parent.Ok? { ChildAdded(parent.value, Last(ptr), v); }
  }

  /** After `add` the pointer resolves to the new value, unless it appends or its index has a leading zero. */
  lemma AddResolves(j: Value, ptr: seq<Str>, v: Value)
    requires ptr != [] && AddAt(j, ptr, v).Ok?
    ensures Reach(j, Init(ptr)).Ok?
    ensures var parent, last := Reach(j, Init(ptr)).value, Last(ptr);
            Get(AddAt(j, ptr, v).value, ptr) == Ok(v) <==>
              !Appends(j, Init(ptr)) && !(parent.Arr? && (last == DASH || LeadingZero(last)))
  {
    hide Get, AddAt, TakesChild, WithChild, LeadingZero;
    AddAtIs(j, ptr, v);
    GetLast(AddAt(j, ptr, v).value, ptr);
    ChildAdded(Reach(j, Init(ptr)).value, Last(ptr), v);
  }

  lemma TopOfExisting(j: Value, ptr: seq<Str>)
    requires ptr != [] && Get(j, Init(ptr)).Ok?
    ensures TopExists(j, ptr)
  {
    if |ptr| > 1 {
      assert Init(ptr) == [ptr[0]] + ptr[1..|ptr| - 1];
      GetAppend(j, [ptr[0]], ptr[1..|ptr| - 1]);
    }
  }

  /** Below an existing parent, what resolves elsewhere is untouched. */
  lemma AddFrame(j: Value, ptr: seq<Str>, v: Value, q: seq<Str>)
    requires ptr != [] && AddAt(j, ptr, v).Ok? && Get(j, q).Ok? && Parts(j, Init(ptr), q)
    ensures Get(AddAt(j, ptr, v).value, q) == Get(j, q)
  {
    hide Get, EditUnchecked, Parts;
    Frame(j, Init(ptr), AddChild(Last(ptr), v), q);
  }

  lemma RemoveFrame(j: Value, ptr: seq<Str>, q: seq<Str>)
    requires ptr != [] && RemoveAt(j, ptr).Ok? && Get(j, q).Ok? && Parts(j, Init(ptr), q)
    ensures Get(RemoveAt(j, ptr).value, q) == Get(j, q)
  {
    hide Get, EditChecked, Parts;
    FrameChecked(j, Init(ptr), RemoveChild(Last(ptr)), q);
  }

  /** Inserting into an array: the elements from the index on move up by one, whatever they hold. */
  lemma AddShifts(j: Value, at: seq<Str>, i: nat, v: Value, k: nat, q: seq<Str>)
    requires Get(j, at).Ok? && Get(j, at).value.Arr? && i <= |Get(j, at).value.a| <= INT_MAX
    requires k <= |Get(j, at).value.a| && k != i
    ensures AddAt(j, at + [Dec(i)], v).Ok?
    ensures var r := AddAt(j, at + [Dec(i)], v).value;
            && Get(r, at + [Dec(i)]) == Ok(v)
            && Get(r, at + [Dec(k)] + q) == Get(j, at + [Dec(if k < i then k else k - 1)] + q)
  {
    hide Get, AddAt, Reach, Dec, Stoi, Appends;
    var ptr, a := at + [Dec(i)], Get(j, at).value.a;
    assert Init(ptr) == at && Last(ptr) == Dec(i);
    StoiOfDec(i);
    IndexOfDec(i, 0);
    DecLeadingDigit(i);
    AddAtIs(j, ptr, v);
    TopOfExisting(j, ptr);
    UncheckedAgrees(j, at, Assign(Null));
    AddResolves(j, ptr, v);
    DecHasNoZero(i);
    var r, from := AddAt(j, ptr, v).value, if k < i then k else k - 1;
    GetAppend(r, at, [Dec(k)] + q);
    GetAppend(j, at, [Dec(from)] + q);
    assert at + [Dec(k)] + q == at + ([Dec(k)] + q) && at + [Dec(from)] + q == at + ([Dec(from)] + q);
    GetElement(a[..i] + [v] + a[i..], k, q);
    GetElement(a, from, q);
  }

  lemma DecHasNoZero(i: nat)
    ensures !LeadingZero(Dec(i))
  {
    DecLeadingDigit(i);
  }

  lemma GetElement(a: seq<Value>, k: nat, q: seq<Str>)
    requires k < |a| && k <= INT_MAX
    ensures Get(Arr(a), [Dec(k)] + q) == Get(a[k], q)
  {
    hide Dec, CheckedIndex;
    IndexOfDec(k, |a|);
    assert ([Dec(k)] + q)[1..] == q;
  }

  // ---------- a removed child put back ----------

  /** Undoing an edit of what a pointer refers to restores the whole value. */
  lemma {:induction false} EditBack(j: Value, ts: seq<Str>, e: Edit, back: Edit)
    requires Get(j, ts).Ok? && ApplyEdit(Get(j, ts).value, e).Ok?
    requires ApplyEdit(ApplyEdit(Get(j, ts).value, e).value, back) == Ok(Get(j, ts).value)
    ensures EditChecked(j, ts, e).Ok? && EditChecked(EditChecked(j, ts, e).value, ts, back) == Ok(j)
    decreases |ts|
  {
    hide CheckedIndex, ApplyEdit;
    if ts != [] {
      match j
      case Obj(o) =>
        EditBack(o[ts[0]], ts[1..], e, back);
        assert o[ts[0] := o[ts[0]]] == o;
        var x := EditChecked(o[ts[0]], ts[1..], e).value;
        assert o[ts[0] := x][ts[0] := o[ts[0]]] == o;
      case Arr(a) =>
        var i := CheckedIndex(ts[0], |a|).value;
        EditBack(a[i], ts[1..], e, back);
        var x := EditChecked(a[i], ts[1..], e).value;
        assert a[i := x][i := a[i]] == a;
      case _ =>
    }
  }

  lemma ChildPutBack(p: Value, t: Str)
    requires Get(p, [t]).Ok?
    ensures var v := Get(p, [t]).value;
            ApplyEdit(p, RemoveChild(t)).Ok? && ApplyEdit(ApplyEdit(p, RemoveChild(t)).value, AddChild(t, v)) == Ok(p)
  {
    DashIsNoIndex();
    GetChild(p, t);
    hide Stoi;
    match p
    case Obj(o) => assert (o - {t})[t := o[t]] == o;
    case Arr(a) =>
      var i := Stoi(t).value;
      var rest := a[..i] + a[i + 1..];
      assert rest[..i] + [a[i]] + rest[i..] == a;
    case _ =>
  }

  /** What `remove` takes away from an existing place, `add` puts back: the value is restored exactly. */
  lemma AddUndoesRemove(j: Value, ptr: seq<Str>)
    requires ptr != [] && Get(j, ptr).Ok?
    ensures RemoveAt(j, ptr).Ok? && AddAt(RemoveAt(j, ptr).value, ptr, Get(j, ptr).value) == Ok(j)
  {
    hide Get, ApplyEdit, EditChecked, EditUnchecked;
    var at, t := Init(ptr), Last(ptr);
    GetLast(j, ptr);
    var p := Get(j, at).value;
    ChildPutBack(p, t);
    EditBack(j, at, RemoveChild(t), AddChild(t, Get(j, ptr).value));
    EditCheckedIs(j, at, RemoveChild(t));
    var rest := RemoveAt(j, ptr).value;
    UncheckedAgrees(rest, at, AddChild(t, Get(j, ptr).value));
    TopOfExisting(rest, ptr);
  }

  // ---------- what null turns into ----------

  /** `operator[]` on null: an index makes an array filled up with null, "-" one element, any other token an object. */
  lemma NullBecomes(t: Str, i: nat, v: Value)
    ensures i <= INT_MAX ==> EditUnchecked(Null, [Dec(i)], Assign(v)) == Ok(Arr(seq(i, _ => Null) + [v]))
    ensures EditUnchecked(Null, [[0x2d]], Assign(v)) == Ok(Arr([v]))
    ensures EditUnchecked(Null, [[]], Assign(v)) == Err(InvalidArgument)
    ensures (exists k | 0 <= k < |t| :: !(0x30 <= t[k] <= 0x39)) && t != [0x2d] ==>
      EditUnchecked(Null, [t], Assign(v)) == Ok(Obj(map[t := v]))
  {
    NullAtIndex(i, v);
    NullElsewhere(t, v);
  }

  lemma NullAtIndex(i: nat, v: Value)
    ensures i <= INT_MAX ==> EditUnchecked(Null, [Dec(i)], Assign(v)) == Ok(Arr(seq(i, _ => Null) + [v]))
  {
    IndexOfDec(i, 0);
    hide Dec, UncheckedIndex;
    var ts := [Dec(i)];
    assert ts[1..] == [];
    if i <= INT_MAX { assert Padded([], i + 1)[i := v] == seq(i, _ => Null) + [v]; }
  }

  lemma NullElsewhere(t: Str, v: Value)
    ensures EditUnchecked(Null, [[0x2d]], Assign(v)) == Ok(Arr([v]))
    ensures EditUnchecked(Null, [[]], Assign(v)) == Err(InvalidArgument)
    ensures (exists k | 0 <= k < |t| :: !(0x30 <= t[k] <= 0x39)) && t != [0x2d] ==>
      EditUnchecked(Null, [t], Assign(v)) == Ok(Obj(map[t := v]))
  {
    assert [t][1..] == [];
    var dash: seq<Str>, nothing: seq<Str> := [[0x2d]], [[]];
    assert dash[1..] == [] && nothing[1..] == [];
    assert Padded([], 1)[0 := v] == [v];
    assert Stoi([]) == Err(InvalidArgument);
    assert map[][t := v] == map[t := v];
  }

  // ---------- the operations of a document ----------

  /** An element of a patch document with the operation and the pointer it names. */
  ghost predicate Operation(val: Value, op: Str, ptr: seq<Str>) {
    && val.Obj?
    && OP in val.o && val.o[OP] == Text(op)
    && PATH in val.o && val.o[PATH].Text? && Split(val.o[PATH].s) == Ok(ptr)
  }

  /** The pointer a member "from" holds. */
  ghost predicate From(val: Value, ptr: seq<Str>)
    requires val.Obj?
  {
    FROM in val.o && val.o[FROM].Text? && Split(val.o[FROM].s) == Ok(ptr)
  }

  lemma OperationNames()
    ensures |ADD| == 3 && |TEST| == 4 && |MOVE| == 4 && |COPY| == 4 && |REMOVE| == 6 && |REPLACE| == 7
    ensures TEST != MOVE && TEST != COPY && MOVE != COPY
  {
    assert TEST[0] != MOVE[0] && TEST[0] != COPY[0] && MOVE[0] != COPY[0];
  }

  /** `test` succeeds if and only if the place exists and equals the given value; it changes nothing. */
  lemma TestStep(j: Value, val: Value, ptr: seq<Str>)
    requires Operation(val, TEST, ptr)
    ensures PatchStep(j, val).Ok? <==> Get(j, ptr).Ok? && VALUE in val.o && Eq(Get(j, ptr).value, val.o[VALUE])
    ensures PatchStep(j, val).Ok? ==> PatchStep(j, val).value == j
  {
    hide Get, Eq, Split;
    OperationNames();
  }

  /** `replace` succeeds if and only if the place exists; then it holds the value, and nothing else is touched. */
  lemma ReplaceStep(j: Value, val: Value, ptr: seq<Str>)
    requires Operation(val, REPLACE, ptr)
    ensures PatchStep(j, val).Ok? <==> Get(j, ptr).Ok? && VALUE in val.o
    ensures PatchStep(j, val).Ok? ==>
      var r := PatchStep(j, val).value;
      Get(r, ptr) == Ok(val.o[VALUE]) && forall q | Get(j, q).Ok? && Parts(j, ptr, q) :: Get(r, q) == Get(j, q)
  {
    hide Get, EditChecked, Split, Parts;
    OperationNames();
    if VALUE in val.o {
      var e := Assign(val.o[VALUE]);
      EditCheckedIs(j, ptr, e);
      forall q | EditChecked(j, ptr, e).Ok? && Get(j, q).Ok? && Parts(j, ptr, q)
        ensures Get(EditChecked(j, ptr, e).value, q) == Get(j, q)
      {
        FrameChecked(j, ptr, e, q);
      }
    }
  }

  /** `copy`: what resolves at "from" resolves at "path" as well, unless the path appends; nothing else is touched. */
  lemma CopyStep(j: Value, val: Value, ptr: seq<Str>, source: seq<Str>)
    requires Operation(val, COPY, ptr) && From(val, source)
    ensures PatchStep(j, val).Ok? <==> Get(j, source).Ok? && Reach(j, ptr).Ok?
    ensures PatchStep(j, val).Ok? ==>
      var r := PatchStep(j, val).value;
      && (if Appends(j, ptr) then Get(r, ptr).Err? else Get(r, ptr) == Get(j, source))
      && forall q | Get(j, q).Ok? && Parts(j, ptr, q) :: Get(r, q) == Get(j, q)
  {
    hide Get, EditUnchecked, Split, Parts, Reach, Appends;
    OperationNames();
    if Get(j, source).Ok? {
      var e := Assign(Get(j, source).value);
      EditUncheckedIs(j, ptr, e);
      forall q | EditUnchecked(j, ptr, e).Ok? && Get(j, q).Ok? && Parts(j, ptr, q)
        ensures Get(EditUnchecked(j, ptr, e).value, q) == Get(j, q)
      {
        Frame(j, ptr, e, q);
      }
    }
  }

  /** `add` and `remove` of a document are the edits above. */
  lemma AddRemoveSteps(j: Value, val: Value, ptr: seq<Str>)
    ensures Operation(val, REMOVE, ptr) ==> PatchStep(j, val) == RemoveAt(j, ptr)
    ensures Operation(val, ADD, ptr) ==>
      PatchStep(j, val) == if VALUE in val.o then AddAt(j, ptr, val.o[VALUE]) else Err(InvalidArgument)
  {
    hide AddAt, RemoveAt, Split;
    OperationNames();
  }

  /**
   * `move` takes the value at "from", which must exist and not be the root, out of the document and adds it at "path";
   * moving a value onto itself changes nothing.
   */
  lemma MoveStep(j: Value, val: Value, ptr: seq<Str>, source: seq<Str>)
    requires Operation(val, MOVE, ptr) && From(val, source)
    ensures Get(j, source).Ok? && source != [] ==>
      RemoveAt(j, source).Ok? && PatchStep(j, val) == AddAt(RemoveAt(j, source).value, ptr, Get(j, source).value)
    ensures PatchStep(j, val).Ok? ==> Get(j, source).Ok? && source != []
    ensures ptr == source && Get(j, source).Ok? && source != [] ==> PatchStep(j, val) == Ok(j)
  {
    hide Get, AddAt, Split, EditChecked;
    OperationNames();
    if Get(j, source).Ok? && source != [] { AddUndoesRemove(j, source); }
  }
}
