/** The law of `diff` in terms of what source and target denote. */
module DiffMeaning {
  import opened Bytes
  import opened Results
  import opened Decimal
  import opened Values
  import opened Pointers
  import opened Access
  import opened Patches
  import opened PatchLaw
  import opened DiffLaw
  import opened EqualityMeaning

  // ---------- patching brings in no double ----------

  predicate EditFloatFree(e: Edit) { e.RemoveChild? || FloatFree(e.v) }

  lemma EditedFloatFree(j: Value, e: Edit)
    requires FloatFree(j) && EditFloatFree(e)
    ensures ApplyEdit(j, e).Ok? ==> FloatFree(ApplyEdit(j, e).value)
  {
    hide Stoi;
  }

  lemma MemberFloatFree(o: map<Str, Value>, k: Str, r: Result<Value>)
    requires FloatFree(Obj(o)) && (r.Ok? ==> FloatFree(r.value))
    ensures PutKey(o, k, r).Ok? ==> FloatFree(PutKey(o, k, r).value)
  {
  }

  lemma ElementFloatFree(a: seq<Value>, i: nat, r: Result<Value>)
    requires i < |a| && FloatFree(Arr(a)) && (r.Ok? ==> FloatFree(r.value))
    ensures PutIndex(a, i, r).Ok? ==> FloatFree(PutIndex(a, i, r).value)
  {
  }

  lemma {:induction false} CheckedFloatFree(j: Value, ts: seq<Str>, e: Edit)
    requires FloatFree(j) && EditFloatFree(e)
    ensures EditChecked(j, ts, e).Ok? ==> FloatFree(EditChecked(j, ts, e).value)
    decreases |ts|
  {
    hide CheckedIndex, ApplyEdit, EditFloatFree, PutKey, PutIndex;
    if ts == [] {
      EditedFloatFree(j, e);
    } else {
      match j
      case Obj(o) =>
        if ts[0] in o {
          CheckedFloatFree(o[ts[0]], ts[1..], e);
          MemberFloatFree(o, ts[0], EditChecked(o[ts[0]], ts[1..], e));
        }
      case Arr(a) =>
        var i := CheckedIndex(ts[0], |a|);
        if i.Ok? {
          CheckedFloatFree(a[i.value], ts[1..], e);
          ElementFloatFree(a, i.value, EditChecked(a[i.value], ts[1..], e));
        }
      case _ =>
    }
  }

  lemma {:induction false} UncheckedFloatFree(j: Value, ts: seq<Str>, e: Edit)
    requires FloatFree(j) && EditFloatFree(e)
    ensures EditUnchecked(j, ts, e).Ok? ==> FloatFree(EditUnchecked(j, ts, e).value)
    decreases |ts|
  {
    hide UncheckedIndex, ApplyEdit, EditFloatFree, PutKey, PutIndex;
    if ts == [] {
      EditedFloatFree(j, e);
    } else {
      match Opened(j, ts[0])
      case Obj(o) =>
        var x := if ts[0] in o then o[ts[0]] else Null;
        UncheckedFloatFree(x, ts[1..], e);
        MemberFloatFree(o, ts[0], EditUnchecked(x, ts[1..], e));
      case Arr(a) =>
        var i := UncheckedIndex(ts[0], |a|);
        if i.Ok? {
          var p := Padded(a, i.value + 1);
          UncheckedFloatFree(p[i.value], ts[1..], e);
          ElementFloatFree(p, i.value, EditUnchecked(p[i.value], ts[1..], e));
        }
      case _ =>
    }
  }

  lemma {:induction false} GetFloatFree(j: Value, ts: seq<Str>)
    requires FloatFree(j)
    ensures Get(j, ts).Ok? ==> FloatFree(Get(j, ts).value)
    decreases |ts|
  {
    hide CheckedIndex;
    if ts != [] {
      match j
      case Obj(o) => if ts[0] in o { GetFloatFree(o[ts[0]], ts[1..]); }
      case Arr(a) =>
        var i := CheckedIndex(ts[0], |a|);
        if i.Ok? { GetFloatFree(a[i.value], ts[1..]); }
      case _ =>
    }
  }

  lemma AddFloatFree(j: Value, ptr: seq<Str>, v: Value)
    requires FloatFree(j) && FloatFree(v)
    ensures AddAt(j, ptr, v).Ok? ==> FloatFree(AddAt(j, ptr, v).value)
  {
    hide EditUnchecked, Get, FloatFree;
    if ptr != [] { UncheckedFloatFree(j, Init(ptr), AddChild(Last(ptr), v)); }
  }

  lemma RemoveFloatFree(j: Value, ptr: seq<Str>)
    requires FloatFree(j)
    ensures RemoveAt(j, ptr).Ok? ==> FloatFree(RemoveAt(j, ptr).value)
  {
    hide EditChecked, FloatFree;
    if ptr != [] { CheckedFloatFree(j, Init(ptr), RemoveChild(Last(ptr))); }
  }

  /** One operation, whichever it is. */
  lemma StepFloatFree(j: Value, val: Value)
    requires FloatFree(j) && FloatFree(val)
    ensures PatchStep(j, val).Ok? ==> FloatFree(PatchStep(j, val).value)
  {
    hide AddAt, RemoveAt, EditChecked, EditUnchecked, Get, Split, Eq;
    if PatchStep(j, val).Ok? {
      var ptr := Split(val.o[PATH].s).value;
      if VALUE in val.o {
        AddFloatFree(j, ptr, val.o[VALUE]);
        CheckedFloatFree(j, ptr, Assign(val.o[VALUE]));
      }
      RemoveFloatFree(j, ptr);
      if FROM in val.o && val.o[FROM].Text? && Split(val.o[FROM].s).Ok? {
        var source := Split(val.o[FROM].s).value;
        GetFloatFree(j, source);
        RemoveFloatFree(j, source);
        if Get(j, source).Ok? {
          var v := Get(j, source).value;
          UncheckedFloatFree(j, ptr, Assign(v));
          if RemoveAt(j, source).Ok? { AddFloatFree(RemoveAt(j, source).value, ptr, v); }
        }
      }
    }
  }

  lemma {:induction false} StepsFloatFree(j: Value, vals: seq<Value>)
    requires FloatFree(j) && forall i | 0 <= i < |vals| :: FloatFree(vals[i])
    ensures PatchSteps(j, vals).Ok? ==> FloatFree(PatchSteps(j, vals).value)
    decreases |vals|
  {
    hide PatchStep, FloatFree;
    if vals != [] {
      StepFloatFree(j, vals[0]);
      var next := PatchStep(j, vals[0]);
      if next.Ok? { StepsFloatFree(next.value, vals[1..]); }
    }
  }

  /** A patch document without doubles brings none in. */
  lemma PatchedFloatFree(j: Value, doc: Value)
    requires FloatFree(j) && FloatFree(doc)
    ensures Patched(j, doc).Ok? ==> FloatFree(Patched(j, doc).value)
  {
    hide PatchSteps;
    if doc.Arr? { StepsFloatFree(j, doc.a); }
  }

  // ---------- the difference holds values of the target only ----------

  ghost predicate OpsFloatFree(ops: seq<Op>) { forall op | op in ops :: op.Remove? || FloatFree(op.v) }

  lemma {:induction false} LiftFloatFree(t: Str, ops: seq<Op>)
    requires OpsFloatFree(ops)
    ensures OpsFloatFree(Lift(t, ops))
  {
    hide FloatFree;
    if ops != [] { LiftFloatFree(t, ops[1..]); }
  }

  lemma {:induction false} AddUpFloatFree(b: seq<Value>, i: nat)
    requires FloatFree(Arr(b))
    ensures OpsFloatFree(AddUp(b, i))
    decreases |b| - i
  {
    if i < |b| { AddUpFloatFree(b, i + 1); }
  }

  lemma {:induction false} RemoveDownFloatFree(hi: nat, lo: nat)
    ensures OpsFloatFree(RemoveDown(hi, lo))
    decreases hi
  {
    if hi > lo { RemoveDownFloatFree(hi - 1, lo); }
  }

  lemma {:induction false} ElementsFloatFree(s: Value, t: Value, i: nat)
    requires s.Arr? && t.Arr? && FloatFree(t)
    ensures OpsFloatFree(DiffElements(s, t, i))
    decreases s, 0, |s.a| - i
  {
    hide DiffOps;
    if i < |s.a| && i < |t.a| {
      DiffFloatFree(s.a[i], t.a[i]);
      LiftFloatFree(Dec(i), DiffOps(s.a[i], t.a[i]));
      ElementsFloatFree(s, t, i + 1);
    }
  }

  lemma {:induction false} MembersFloatFree(s: Value, t: Value, ks: seq<Str>)
    requires s.Obj? && t.Obj? && FloatFree(t) && forall k | k in ks :: k in s.o
    ensures OpsFloatFree(DiffMembers(s, t, ks))
    decreases s, 0, |ks|
  {
    hide DiffOps;
    if ks != [] {
      if ks[0] in t.o {
        DiffFloatFree(s.o[ks[0]], t.o[ks[0]]);
        LiftFloatFree(ks[0], DiffOps(s.o[ks[0]], t.o[ks[0]]));
      }
      MembersFloatFree(s, t, ks[1..]);
    }
  }

  lemma {:induction false} NewFloatFree(s: Value, t: Value, ks: seq<Str>)
    requires s.Obj? && t.Obj? && FloatFree(t) && forall k | k in ks :: k in t.o
    ensures OpsFloatFree(NewMembers(s, t, ks))
  {
    if ks != [] {
      assert ks[0] in t.o;
      NewFloatFree(s, t, ks[1..]);
    }
  }

  lemma {:induction false} DiffFloatFree(s: Value, t: Value)
    requires FloatFree(t)
    ensures OpsFloatFree(DiffOps(s, t))
    decreases s, 1, 0
  {
    hide FloatFree, Eq, DiffElements, DiffMembers, NewMembers, RemoveDown, AddUp, SortedKeys;
    if s.Arr? && t.Arr? {
      ElementsFloatFree(s, t, 0);
      RemoveDownFloatFree(|s.a|, |t.a|);
      AddUpFloatFree(t.a, |s.a|);
    } else if s.Obj? && t.Obj? {
      MembersFloatFree(s, t, SortedKeys(s.o.Keys));
      NewFloatFree(s, t, SortedKeys(t.o.Keys));
    }
  }

  lemma {:induction false} DocumentFloatFree(ops: seq<Op>)
    requires OpsFloatFree(ops)
    ensures forall i | 0 <= i < |ops| :: FloatFree(OpValues([], ops)[i])
  {
    hide ToString;
    if ops != [] {
      OperationFloatFree(ops[0]);
      DocumentFloatFree(ops[1..]);
      hide FloatFree, OpValue;
      assert forall i | 0 < i < |ops| :: OpValues([], ops)[i] == OpValues([], ops[1..])[i - 1];
    }
  }

  lemma OperationFloatFree(op: Op)
    requires op.Remove? || FloatFree(op.v)
    ensures FloatFree(OpValue([], op))
  {
    hide ToString;
  }

  // ---------- the law ----------

  /** Without doubles, patching the source with the difference yields what denotes the same as the target. */
  lemma PatchOfDiffDenotes(s: Value, t: Value)
    requires FloatFree(s) && FloatFree(t) && Patchable(s, t)
    ensures var r := Patched(s, DiffDocument(s, t)); r.Ok? && Denote(r.value) == Denote(t)
  {
    hide FloatFree, Patched, DiffOps, OpValues, Patchable, NaNFree, Denote, Eq;
    PatchOfDiff(s, t);
    DiffFloatFree(s, t);
    DocumentFloatFree(DiffOps(s, t));
    ListFloatFree(OpValues([], DiffOps(s, t)));
    PatchedFloatFree(s, DiffDocument(s, t));
    NoFloatNoNaN(t);
    EqWithoutDoubles(Patched(s, DiffDocument(s, t)).value, t);
  }

  lemma ListFloatFree(vals: seq<Value>)
    requires forall i | 0 <= i < |vals| :: FloatFree(vals[i])
    ensures FloatFree(Arr(vals))
  {
  }

  /** With doubles: the same, where an integer beside a double stands for the nearest double. */
  lemma PatchOfDiffAligned(s: Value, t: Value)
    requires NaNFree(t) && Patchable(s, t)
    ensures var r := Patched(s, DiffDocument(s, t));
            r.Ok? && Denote(Aligned(r.value, t)) == Denote(Aligned(t, r.value))
  {
    hide NaNFree, Patched, DiffDocument, Patchable, Denote, Aligned, Eq;
    PatchOfDiff(s, t);
    EqIsDenotation(Patched(s, DiffDocument(s, t)).value, t);
  }

  /** Without doubles, `diff` is empty exactly if both denote the same. */
  lemma EmptyIffSame(s: Value, t: Value)
    requires FloatFree(s) && FloatFree(t)
    ensures DiffOps(s, t) == [] <==> Denote(s) == Denote(t)
  {
    hide FloatFree, DiffOps, Denote, Eq;
    EmptyIffEqual(s, t);
    EqWithoutDoubles(s, t);
  }
}
