/** The law of `diff`: patching the source with the difference yields the target. */
module DiffLaw {
  import opened Bytes
  import opened Results
  import opened Decimal
  import opened Values
  import opened Pointers
  import opened Access
  import opened Patches

  // ---------- running generated operations ----------

  /** One generated operation; `top` as in `AddAt`. */
  function Apply(j: Value, op: Op, top: bool): Result<Value> {
    match op
    case Add(path, v) => AddAt(j, path, v, top)
    case Remove(path) => RemoveAt(j, path)
    case Replace(path, v) => EditChecked(j, path, Assign(v))
  }

  function Run(j: Value, ops: seq<Op>, top: bool): Result<Value>
    decreases |ops|
  {
    if ops == [] then Ok(j)
    else
      var next :- Apply(j, ops[0], top);
      Run(next, ops[1..], top)
  }

  /** Only `replace` addresses the compared value itself. */
  predicate Below(op: Op) { op.Replace? || op.path != [] }

  ghost predicate AllBelow(ops: seq<Op>) { forall op | op in ops :: Below(op) }

  lemma {:induction false} RunAppend(j: Value, xs: seq<Op>, ys: seq<Op>, top: bool)
    ensures Run(j, xs + ys, top) ==
      if Run(j, xs, top).Err? then Run(j, xs, top) else Run(Run(j, xs, top).value, ys, top)
    decreases |xs|
  {
    hide Apply;
    if xs == [] {
      assert xs + ys == ys;
    } else {
      assert (xs + ys)[1..] == xs[1..] + ys;
      var next := Apply(j, xs[0], top);
      if next.Ok? { RunAppend(next.value, xs[1..], ys, top); }
    }
  }

  // ---------- an operation lifted below a member or an element ----------

  lemma CheckedBelowKey(o: map<Str, Value>, k: Str, ts: seq<Str>, e: Edit)
    requires k in o
    ensures EditChecked(Obj(o), [k] + ts, e) == PutKey(o, k, EditChecked(o[k], ts, e))
    ensures EditUnchecked(Obj(o), [k] + ts, e) == PutKey(o, k, EditUnchecked(o[k], ts, e))
    ensures Get(Obj(o), [k]) == Ok(o[k])
  {
    assert ([k] + ts)[1..] == ts;
    assert [k][1..] == [];
  }

  /** What `PutIndex` makes of the walk through index `i`, were it to fit an `int`. */
  function ThroughIndex(a: seq<Value>, i: nat, r: Result<Value>): Result<Value>
    requires i < |a|
  {
    if i > INT_MAX then Err(OutOfRange) else PutIndex(a, i, r)
  }

  lemma CheckedBelowIndex(a: seq<Value>, i: nat, ts: seq<Str>, e: Edit)
    requires i < |a|
    ensures EditChecked(Arr(a), [Dec(i)] + ts, e) == ThroughIndex(a, i, EditChecked(a[i], ts, e))
    ensures EditUnchecked(Arr(a), [Dec(i)] + ts, e) == ThroughIndex(a, i, EditUnchecked(a[i], ts, e))
    ensures Get(Arr(a), [Dec(i)]) == if i > INT_MAX then Err(OutOfRange) else Ok(a[i])
  {
    IndexOfDec(i, |a|);
    assert ([Dec(i)] + ts)[1..] == ts;
    assert [Dec(i)][1..] == [];
    assert Padded(a, i + 1) == a;
  }

  lemma InitOfCons(t: Str, ts: seq<Str>)
    requires ts != []
    ensures ([t] + ts)[..|ts|] == [t] + ts[..|ts| - 1]
    ensures ([t] + ts)[|ts|] == ts[|ts| - 1]
  {
  }

  lemma ApplyBelowKey(o: map<Str, Value>, k: Str, op: Op, top: bool)
    requires k in o && Below(op)
    ensures Apply(Obj(o), op.(path := [k] + op.path), top) == PutKey(o, k, Apply(o[k], op, false))
  {
    hide EditChecked, EditUnchecked, Get;
    var n := |op.path|;
    if n > 0 { InitOfCons(k, op.path); }
    match op
    case Add(path, v) => CheckedBelowKey(o, k, path[..n - 1], AddChild(path[n - 1], v));
    case Remove(path) => CheckedBelowKey(o, k, path[..n - 1], RemoveChild(path[n - 1]));
    case Replace(path, v) => CheckedBelowKey(o, k, path, Assign(v));
  }

  lemma ApplyBelowIndex(a: seq<Value>, i: nat, op: Op, top: bool)
    requires i < |a| && Below(op)
    ensures Apply(Arr(a), op.(path := [Dec(i)] + op.path), top) == ThroughIndex(a, i, Apply(a[i], op, false))
  {
    hide EditChecked, EditUnchecked, Get;
    var n := |op.path|;
    if n > 0 { InitOfCons(Dec(i), op.path); }
    match op
    case Add(path, v) => CheckedBelowIndex(a, i, path[..n - 1], AddChild(path[n - 1], v));
    case Remove(path) => CheckedBelowIndex(a, i, path[..n - 1], RemoveChild(path[n - 1]));
    case Replace(path, v) => CheckedBelowIndex(a, i, path, Assign(v));
  }

  lemma {:induction false} RunBelowKey(o: map<Str, Value>, k: Str, ops: seq<Op>, top: bool)
    requires k in o && AllBelow(ops)
    ensures Run(Obj(o), Lift(k, ops), top) == PutKey(o, k, Run(o[k], ops, false))
    decreases |ops|
  {
    hide Apply;
    if ops == [] {
      assert o[k := o[k]] == o;
    } else {
      ApplyBelowKey(o, k, ops[0], top);
      var next := Apply(o[k], ops[0], false);
      if next.Ok? {
        RunBelowKey(o[k := next.value], k, ops[1..], top);
        ghost var r := Run(next.value, ops[1..], false);
        assert r.Ok? ==> o[k := next.value][k := r.value] == o[k := r.value];
      }
    }
  }

  lemma {:induction false} RunBelowIndex(a: seq<Value>, i: nat, ops: seq<Op>, top: bool)
    requires i < |a| && AllBelow(ops)
    ensures Run(Arr(a), Lift(Dec(i), ops), top) ==
            if ops == [] then Ok(Arr(a)) else ThroughIndex(a, i, Run(a[i], ops, false))
    decreases |ops|
  {
    hide Apply;
    if ops != [] {
      ApplyBelowIndex(a, i, ops[0], top);
      var next := Apply(a[i], ops[0], false);
      if next.Ok? && i <= INT_MAX {
        RunBelowIndex(a[i := next.value], i, ops[1..], top);
        ghost var r := Run(next.value, ops[1..], false);
        assert a[i := next.value][i] == next.value;
        assert r.Ok? ==> a[i := next.value][i := r.value] == a[i := r.value];
      }
    }
  }

  // ---------- when the law holds ----------

  /** Every array index that `diff` has to mention fits the `int` that `stoi` yields. */
  predicate Patchable(s: Value, t: Value)
    decreases s
  {
    || Eq(s, t)
    || match (s, t)
       case (Arr(a), Arr(b)) =>
         && (forall i | 0 <= i < |a| && i < |b| :: Eq(a[i], b[i]) || (i <= INT_MAX && Patchable(a[i], b[i])))
         && (|a| != |b| ==> |a| <= INT_MAX + 1 && |b| <= INT_MAX + 1)
       case (Obj(p), Obj(q)) => forall k | k in p && k in q :: Patchable(p[k], q[k])
       case _ => true
  }

  predicate Reaches(x: Value, y: Value, i: nat) {
    Eq(x, y) || (i <= INT_MAX && Patchable(x, y))
  }

  ghost predicate Meets(x: Value, y: Value) { Eq(x, y) <==> NaNFree(y) }

  // ---------- the operations of diff stay below what they compare ----------

  lemma LiftBelow(t: Str, ops: seq<Op>)
    ensures AllBelow(Lift(t, ops))
  {
    if ops != [] { LiftBelow(t, ops[1..]); }
  }

  lemma RemoveDownBelow(hi: nat, lo: nat)
    ensures AllBelow(RemoveDown(hi, lo))
    decreases hi
  {
  }

  lemma AddUpBelow(b: seq<Value>, i: nat)
    ensures AllBelow(AddUp(b, i))
    decreases |b| - i
  {
  }

  lemma NewMembersBelow(s: Value, t: Value, ks: seq<Str>)
    requires s.Obj? && t.Obj? && forall k | k in ks :: k in t.o
    ensures AllBelow(NewMembers(s, t, ks))
  {
  }

  lemma ElementsBelow(s: Value, t: Value, i: nat)
    requires s.Arr? && t.Arr?
    ensures AllBelow(DiffElements(s, t, i))
    decreases |s.a| - i
  {
    hide DiffOps;
    if i < |s.a| && i < |t.a| {
      LiftBelow(Dec(i), DiffOps(s.a[i], t.a[i]));
      ElementsBelow(s, t, i + 1);
    }
  }

  lemma MembersBelow(s: Value, t: Value, ks: seq<Str>)
    requires s.Obj? && t.Obj? && forall k | k in ks :: k in s.o
    ensures AllBelow(DiffMembers(s, t, ks))
  {
    hide DiffOps;
    if ks != [] {
      if ks[0] in t.o { LiftBelow(ks[0], DiffOps(s.o[ks[0]], t.o[ks[0]])); }
      MembersBelow(s, t, ks[1..]);
    }
  }

  lemma DiffBelow(s: Value, t: Value)
    ensures AllBelow(DiffOps(s, t))
  {
    hide DiffElements, DiffMembers, NewMembers, RemoveDown, AddUp;
    if s.Arr? && t.Arr? {
      ElementsBelow(s, t, 0);
      RemoveDownBelow(|s.a|, |t.a|);
      AddUpBelow(t.a, |s.a|);
    } else if s.Obj? && t.Obj? {
      MembersBelow(s, t, SortedKeys(s.o.Keys));
      NewMembersBelow(s, t, SortedKeys(t.o.Keys));
    }
  }

  // ---------- no difference, no operation ----------

  lemma NothingToAdd(b: seq<Value>, i: nat)
    requires i >= |b|
    ensures AddUp(b, i) == []
  {
  }

  lemma NothingToRemove(hi: nat, lo: nat)
    requires hi <= lo
    ensures RemoveDown(hi, lo) == []
  {
  }

  lemma SomethingToAdd(b: seq<Value>, i: nat)
    requires i < |b|
    ensures AddUp(b, i) != []
  {
  }

  lemma SomethingToRemove(hi: nat, lo: nat)
    requires lo < hi
    ensures RemoveDown(hi, lo) != []
  {
  }

  lemma {:induction false} NoElementsDiffer(s: Value, t: Value, i: nat)
    requires s.Arr? && t.Arr?
    ensures DiffElements(s, t, i) == [] <==> forall k | i <= k < |s.a| && k < |t.a| :: Eq(s.a[k], t.a[k])
    decreases s, 0, |s.a| - i
  {
    if i < |s.a| && i < |t.a| {
      EmptyIffEqual(s.a[i], t.a[i]);
      NoElementsDiffer(s, t, i + 1);
    }
  }

  lemma {:induction false} NoMembersDiffer(s: Value, t: Value, ks: seq<Str>)
    requires s.Obj? && t.Obj? && forall k | k in ks :: k in s.o
    ensures DiffMembers(s, t, ks) == [] <==> forall k | k in ks :: k in t.o && Eq(s.o[k], t.o[k])
    decreases s, 0, |ks|
  {
    if ks != [] {
      if ks[0] in t.o { EmptyIffEqual(s.o[ks[0]], t.o[ks[0]]); }
      NoMembersDiffer(s, t, ks[1..]);
      assert forall k :: k in ks <==> k == ks[0] || k in ks[1..];
    }
  }

  lemma {:induction false} NoMembersNew(s: Value, t: Value, ks: seq<Str>)
    requires s.Obj? && t.Obj? && forall k | k in ks :: k in t.o
    ensures NewMembers(s, t, ks) == [] <==> forall k | k in ks :: k in s.o
  {
    if ks != [] {
      NoMembersNew(s, t, ks[1..]);
      assert forall k :: k in ks <==> k == ks[0] || k in ks[1..];
    }
  }

  /** `diff` yields the empty patch for equal values, and for no others. */
  lemma {:induction false} EmptyIffEqual(s: Value, t: Value)
    ensures DiffOps(s, t) == [] <==> Eq(s, t)
    decreases s, 1, 0
  {
    hide Eq, DiffElements, DiffMembers, NewMembers, SortedKeys, RemoveDown, AddUp;
    if s.Arr? && t.Arr? {
      if |s.a| > |t.a| { SomethingToRemove(|s.a|, |t.a|); } else { NothingToRemove(|s.a|, |t.a|); }
      if |s.a| < |t.a| { SomethingToAdd(t.a, |s.a|); } else { NothingToAdd(t.a, |s.a|); }
      NoElementsDiffer(s, t, 0);
      EqOfArrays(s, t);
    } else if s.Obj? && t.Obj? {
      NoMembersDiffer(s, t, SortedKeys(s.o.Keys));
      NoMembersNew(s, t, SortedKeys(t.o.Keys));
      EqOfObjects(s, t);
    }
  }

  lemma EqOfArrays(s: Value, t: Value)
    requires s.Arr? && t.Arr?
    ensures Eq(s, t) <==> |s.a| == |t.a| && forall i | 0 <= i < |s.a| && i < |t.a| :: Eq(s.a[i], t.a[i])
  {
  }

  lemma EqOfObjects(s: Value, t: Value)
    requires s.Obj? && t.Obj?
    ensures Eq(s, t) <==>
            (forall k | k in s.o :: k in t.o && Eq(s.o[k], t.o[k])) && (forall k | k in t.o :: k in s.o)
  {
    assert s.o.Keys == t.o.Keys <==> (forall k | k in s.o :: k in t.o) && (forall k | k in t.o :: k in s.o);
  }

  // ---------- arrays ----------

  lemma {:induction false} RemovalsRun(cur: seq<Value>, lo: nat, top: bool)
    requires lo <= |cur|
    ensures Run(Arr(cur), RemoveDown(|cur|, lo), top) ==
            if |cur| > lo && |cur| - 1 > INT_MAX then Err(OutOfRange) else Ok(Arr(cur[..lo]))
    decreases |cur|
  {
    if |cur| > lo {
      var n := |cur| - 1;
      StoiOfDec(n);
      assert [Dec(n)][..0] == [];
      assert Apply(Arr(cur), Remove([Dec(n)]), top) ==
             if n > INT_MAX then Err(OutOfRange) else Ok(Arr(cur[..n] + cur[n + 1..]));
      assert cur[..n] + cur[n + 1..] == cur[..n];
      RemovalsRun(cur[..n], lo, top);
      assert cur[..n][..lo] == cur[..lo];
    } else {
      assert cur[..lo] == cur;
    }
  }

  lemma InitOfOne(t: Str)
    ensures [t][..0] == []
  {
  }

  lemma AppendAt(cur: seq<Value>, v: Value, token: Str, top: bool)
    requires token != DASH && Stoi(token) == if |cur| > INT_MAX then Err(OutOfRange) else Ok(|cur|)
    ensures AddAt(Arr(cur), [token], v, top) == if |cur| > INT_MAX then Err(OutOfRange) else Ok(Arr(cur + [v]))
  {
    hide Stoi;
    InitOfOne(token);
    assert cur[..|cur|] + [v] + cur[|cur|..] == cur + [v];
  }

  lemma AppendRun(cur: seq<Value>, v: Value, top: bool)
    ensures Apply(Arr(cur), Add([Dec(|cur|)], v), top) ==
            if |cur| > INT_MAX then Err(OutOfRange) else Ok(Arr(cur + [v]))
  {
    hide Dec, Stoi, AddAt;
    IndexOfDec(|cur|, |cur|);
    StoiOfDec(|cur|);
    AppendAt(cur, v, Dec(|cur|), top);
  }

  lemma {:induction false} AdditionsRun(cur: seq<Value>, b: seq<Value>, top: bool)
    ensures Run(Arr(cur), AddUp(b, |cur|), top).Ok? <==> |b| <= |cur| || |b| - 1 <= INT_MAX
    ensures Run(Arr(cur), AddUp(b, |cur|), top).Ok? && |cur| <= |b| ==>
            Run(Arr(cur), AddUp(b, |cur|), top).value == Arr(cur + b[|cur|..])
    decreases |b| - |cur|
  {
    hide Apply;
    var n := |cur|;
    if n < |b| {
      AppendRun(cur, b[n], top);
      AdditionsRun(cur + [b[n]], b, top);
      assert cur + [b[n]] + b[n + 1..] == cur + b[n..];
    }
  }

  /** The first pass over arrays, from index `i` on. */
  lemma {:induction false} ElementsRun(s: Value, t: Value, i: nat, cur: seq<Value>, top: bool)
    requires s.Arr? && t.Arr? && |cur| == |s.a| && forall k | i <= k < |cur| :: cur[k] == s.a[k]
    ensures var r := Run(Arr(cur), DiffElements(s, t, i), top);
            && (r.Ok? <==> forall k | i <= k < |s.a| && k < |t.a| :: Reaches(s.a[k], t.a[k], k))
            && (r.Ok? ==> && r.value.Arr? && |r.value.a| == |cur|
                          && (forall k | 0 <= k < |cur| && (k < i || k >= |t.a|) :: r.value.a[k] == cur[k])
                          && (forall k | i <= k < |cur| && k < |t.a| :: Meets(r.value.a[k], t.a[k])))
    decreases s, 0, |s.a| - i
  {
    hide DiffOps, Patchable, Apply;
    if i < |s.a| && i < |t.a| {
      var x, y := s.a[i], t.a[i];
      var ops := DiffOps(x, y);
      DiffRun(x, y, false);
      EmptyIffEqual(x, y);
      DiffBelow(x, y);
      RunBelowIndex(cur, i, ops, top);
      RunAppend(Arr(cur), Lift(Dec(i), ops), DiffElements(s, t, i + 1), top);
      EqImpliesMeets(x, y);
      if Reaches(x, y, i) {
        var next := if ops == [] then cur else cur[i := Run(x, ops, false).value];
        ElementsRun(s, t, i + 1, next, top);
      }
    }
  }

  lemma EqImpliesMeets(x: Value, y: Value)
    ensures Eq(x, y) ==> Meets(x, y) && Patchable(x, y)
  {
    if Eq(x, y) { EqNeedsNaNFree(x, y); }
  }

  // ---------- objects ----------

  lemma {:induction false} MembersRun(s: Value, t: Value, ks: seq<Str>, cur: map<Str, Value>, top: bool)
    requires s.Obj? && t.Obj? && Ascending(ks)
    requires forall k | k in ks :: k in s.o && k in cur && cur[k] == s.o[k]
    ensures var r := Run(Obj(cur), DiffMembers(s, t, ks), top);
            && (r.Ok? <==> forall k | k in ks && k in t.o :: Patchable(s.o[k], t.o[k]))
            && (r.Ok? ==> && r.value.Obj?
                          && r.value.o.Keys == (set k | k in cur && (k in ks ==> k in t.o))
                          && (forall k | k in cur && k !in ks :: r.value.o[k] == cur[k])
                          && (forall k | k in ks && k in t.o :: Meets(r.value.o[k], t.o[k])))
    decreases s, 0, |ks|
  {
    hide DiffOps, Patchable, Apply;
    if ks != [] {
      var k, rest := ks[0], ks[1..];
      KeyAhead(ks);
      if k in t.o {
        var ops := DiffOps(s.o[k], t.o[k]);
        DiffRun(s.o[k], t.o[k], false);
        DiffBelow(s.o[k], t.o[k]);
        RunBelowKey(cur, k, ops, top);
        RunAppend(Obj(cur), Lift(k, ops), DiffMembers(s, t, rest), top);
        if Patchable(s.o[k], t.o[k]) {
          MembersRun(s, t, rest, cur[k := Run(s.o[k], ops, false).value], top);
        }
      } else {
        RemoveKeyRun(cur, k, top);
        RunAppend(Obj(cur), [Remove([k])], DiffMembers(s, t, rest), top);
        MembersRun(s, t, rest, cur - {k}, top);
      }
    }
  }

  lemma KeyAhead(ks: seq<Str>)
    requires ks != [] && Ascending(ks)
    ensures ks[0] !in ks[1..] && Ascending(ks[1..])
    ensures forall k :: k in ks <==> k == ks[0] || k in ks[1..]
  {
    if ks[0] in ks[1..] {
      var i :| 0 <= i < |ks[1..]| && ks[1..][i] == ks[0];
      assert Less(ks[0], ks[i + 1]);
      LessIrreflexive(ks[0]);
    }
  }

  lemma RemoveKeyRun(o: map<Str, Value>, k: Str, top: bool)
    requires k in o
    ensures Run(Obj(o), [Remove([k])], top) == Ok(Obj(o - {k}))
  {
    assert [k][..0] == [];
    assert [Remove([k])][1..] == [];
  }

  lemma AddKeyRun(o: map<Str, Value>, k: Str, v: Value, top: bool)
    ensures Apply(Obj(o), Add([k], v), top) == Ok(Obj(o[k := v]))
  {
    assert [k][..0] == [];
  }

  function NewKeys(s: Value, t: Value, ks: seq<Str>): map<Str, Value>
    requires s.Obj? && t.Obj? && forall k | k in ks :: k in t.o
  {
    map k | k in ks && k !in s.o :: t.o[k]
  }

  lemma NewKeysCons(s: Value, t: Value, ks: seq<Str>, cur: map<Str, Value>)
    requires s.Obj? && t.Obj? && ks != [] && forall k | k in ks :: k in t.o
    ensures cur + NewKeys(s, t, ks) == (if ks[0] in s.o then cur else cur[ks[0] := t.o[ks[0]]]) + NewKeys(s, t, ks[1..])
  {
    assert forall k :: k in ks <==> k == ks[0] || k in ks[1..];
  }

  lemma {:induction false} NewMembersRun(s: Value, t: Value, ks: seq<Str>, cur: map<Str, Value>, top: bool)
    requires s.Obj? && t.Obj? && forall k | k in ks :: k in t.o
    ensures Run(Obj(cur), NewMembers(s, t, ks), top) == Ok(Obj(cur + NewKeys(s, t, ks)))
    decreases |ks|
  {
    hide Apply;
    if ks == [] {
      assert cur + NewKeys(s, t, ks) == cur;
    } else {
      hide NewKeys;
      AddKeyRun(cur, ks[0], t.o[ks[0]], top);
      NewKeysCons(s, t, ks, cur);
      var next := if ks[0] in s.o then cur else cur[ks[0] := t.o[ks[0]]];
      NewMembersRun(s, t, ks[1..], next, top);
      if ks[0] in s.o {
        assert [] + NewMembers(s, t, ks[1..]) == NewMembers(s, t, ks[1..]);
      } else {
        assert ([Add([ks[0]], t.o[ks[0]])] + NewMembers(s, t, ks[1..]))[1..] == NewMembers(s, t, ks[1..]);
      }
    }
  }

  // ---------- the law ----------

  /** Running the difference succeeds exactly when it is patchable, and then meets the target. */
  lemma {:induction false} DiffRun(s: Value, t: Value, top: bool)
    ensures Run(s, DiffOps(s, t), top).Ok? <==> Patchable(s, t)
    ensures Run(s, DiffOps(s, t), top).Ok? ==> Meets(Run(s, DiffOps(s, t), top).value, t)
    decreases s, 2, 0
  {
    EqImpliesMeets(s, t);
    if Eq(s, t) {
    } else if s.Arr? && t.Arr? {
      ArraysRun(s, t, top);
    } else if s.Obj? && t.Obj? {
      ObjectsRun(s, t, top);
    } else {
      EqReflexive(t);
      assert DiffOps(s, t)[1..] == [];
    }
  }

  lemma {:induction false} ArraysRun(s: Value, t: Value, top: bool)
    requires s.Arr? && t.Arr? && !Eq(s, t)
    ensures Run(s, DiffOps(s, t), top).Ok? <==> Patchable(s, t)
    ensures Run(s, DiffOps(s, t), top).Ok? ==> Meets(Run(s, DiffOps(s, t), top).value, t)
    decreases s, 1, 0
  {
    hide Apply, DiffElements, RemoveDown, AddUp;
    var e, d, u := DiffElements(s, t, 0), RemoveDown(|s.a|, |t.a|), AddUp(t.a, |s.a|);
    ElementsRun(s, t, 0, s.a, top);
    RunAppend(s, e + d, u, top);
    RunAppend(s, e, d, top);
    var first := Run(s, e, top);
    if first.Ok? {
      var c := first.value.a;
      if |s.a| > |t.a| {
        RemovalsRun(c, |t.a|, top);
        NothingToAdd(t.a, |s.a|);
      } else {
        NothingToRemove(|s.a|, |t.a|);
        AdditionsRun(c, t.a, top);
        forall k | |s.a| <= k < |t.a| ensures Meets(t.a[k], t.a[k]) { EqReflexive(t.a[k]); }
      }
    }
  }

  lemma {:induction false} ObjectsRun(s: Value, t: Value, top: bool)
    requires s.Obj? && t.Obj? && !Eq(s, t)
    ensures Run(s, DiffOps(s, t), top).Ok? <==> Patchable(s, t)
    ensures Run(s, DiffOps(s, t), top).Ok? ==> Meets(Run(s, DiffOps(s, t), top).value, t)
    decreases s, 1, 0
  {
    hide Run, DiffOps, Patchable, DiffMembers, NewMembers, SortedKeys, Eq, NewKeys;
    OnObjects(s, t);
    var ks, ts := SortedKeys(s.o.Keys), SortedKeys(t.o.Keys);
    MembersRun(s, t, ks, s.o, top);
    RunAppend(s, DiffMembers(s, t, ks), NewMembers(s, t, ts), top);
    var first := Run(s, DiffMembers(s, t, ks), top);
    if first.Ok? {
      NewMembersRun(s, t, ts, first.value.o, top);
      NewKeysAre(s, t, ts);
      MembersMeet(s.o, t.o, first.value.o, first.value.o + NewKeys(s, t, ts));
    }
  }

  lemma OnObjects(s: Value, t: Value)
    requires s.Obj? && t.Obj? && !Eq(s, t)
    ensures DiffOps(s, t) == DiffMembers(s, t, SortedKeys(s.o.Keys)) + NewMembers(s, t, SortedKeys(t.o.Keys))
    ensures Patchable(s, t) <==> forall k | k in s.o && k in t.o :: Patchable(s.o[k], t.o[k])
  {
    hide Eq, SortedKeys, DiffMembers, NewMembers;
  }

  lemma NewKeysAre(s: Value, t: Value, ks: seq<Str>)
    requires s.Obj? && t.Obj? && forall k :: k in ks <==> k in t.o
    ensures NewKeys(s, t, ks) == map k | k in t.o && k !in s.o :: t.o[k]
  {
  }

  /** Kept members meet the target, dropped ones are gone, new ones are copies: so the objects meet. */
  lemma MembersMeet(p: map<Str, Value>, q: map<Str, Value>, kept: map<Str, Value>, all: map<Str, Value>)
    requires kept.Keys == (set k | k in p && k in q)
    requires forall k | k in kept :: Meets(kept[k], q[k])
    requires all == kept + (map k | k in q && k !in p :: q[k])
    ensures Meets(Obj(all), Obj(q))
  {
    assert all.Keys == q.Keys;
    forall k | k in q ensures Meets(all[k], q[k]) { EqReflexive(q[k]); }
  }

  // ---------- back to the JSON document ----------

  /** The object that `diff` pushes for an operation is read back by `patch` as that operation. */
  lemma StepOfOpValue(j: Value, op: Op)
    ensures PatchStep(j, OpValue([], op)) == Apply(j, op, true)
  {
    SplitOfToString(op.path);
    assert [] + ToString(op.path) == ToString(op.path);
    NamesDiffer();
  }

  lemma NamesDiffer()
    ensures OP != PATH && OP != VALUE && PATH != VALUE
    ensures ADD != REMOVE && ADD != REPLACE && REMOVE != REPLACE
  {
    assert |OP| == 2 && |PATH| == 4 && |VALUE| == 5;
    assert |ADD| == 3 && |REMOVE| == 6 && |REPLACE| == 7;
  }

  lemma {:induction false} StepsOfOpValues(j: Value, ops: seq<Op>)
    ensures PatchSteps(j, OpValues([], ops)) == Run(j, ops, true)
    decreases |ops|
  {
    hide PatchStep, Apply, OpValue;
    if ops != [] {
      StepOfOpValue(j, ops[0]);
      var next := Apply(j, ops[0], true);
      if next.Ok? { StepsOfOpValues(next.value, ops[1..]); }
    }
  }

  /** The patch document `diff(s, t)` (its `path` argument empty, as by default). */
  function DiffDocument(s: Value, t: Value): Value { Arr(OpValues([], DiffOps(s, t))) }

  /** `s.patch(diff(s, t)) == t`: when it runs at all, and when the result equals the target. */
  lemma PatchOfDiff(s: Value, t: Value)
    ensures Patched(s, DiffDocument(s, t)).Ok? <==> Patchable(s, t)
    ensures Patchable(s, t) ==> (Eq(Patched(s, DiffDocument(s, t)).value, t) <==> NaNFree(t))
  {
    hide Run, DiffOps, PatchSteps, Patchable;
    StepsOfOpValues(s, DiffOps(s, t));
    DiffRun(s, t, true);
  }

  lemma {:induction false} IndexableIsPatchable(s: Value, t: Value)
    requires Indexable(s) && Indexable(t)
    ensures Patchable(s, t)
    decreases s
  {
    match (s, t)
    case (Arr(a), Arr(b)) =>
      forall i | 0 <= i < |a| && i < |b| ensures Patchable(a[i], b[i]) { IndexableIsPatchable(a[i], b[i]); }
    case (Obj(p), Obj(q)) =>
      forall k | k in p && k in q ensures Patchable(p[k], q[k]) { IndexableIsPatchable(p[k], q[k]); }
    case _ =>
  }

  /** The law as the documentation states it, on values of ordinary size without NaN. */
  lemma PatchOfDiffIsTarget(s: Value, t: Value)
    requires Indexable(s) && Indexable(t) && NaNFree(t)
    ensures var r := Patched(s, DiffDocument(s, t)); r.Ok? && Eq(r.value, t)
  {
    IndexableIsPatchable(s, t);
    PatchOfDiff(s, t);
  }

  /**
   * Inputs on which the documented law fails: an array one element too long, and a NaN. Constructors, the parser and
   * the decoders turn a NaN into null; one gets into a value only by a write through a reference to its number.
   */
  lemma LawHasExceptions()
    ensures Patched(Arr([]), DiffDocument(Arr([]), Arr(seq(INT_MAX + 2, i => Null)))).Err?
    ensures var nan := Float(0x7ff8_0000_0000_0000);
            var r := Patched(Null, DiffDocument(Null, nan)); r.Ok? && !Eq(r.value, nan)
  {
    var long := Arr(seq(INT_MAX + 2, i => Null));
    PatchOfDiff(Arr([]), long);
    PatchOfDiff(Null, Float(0x7ff8_0000_0000_0000));
  }
}
