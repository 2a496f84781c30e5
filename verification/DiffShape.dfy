/** Which operations `diff` generates. */
module DiffShape {
  import opened Bytes
  import opened Decimal
  import opened Values
  import opened Patches
  import opened DiffLaw

  function Under(t: Str, op: Op): Op { op.(path := [t] + op.path) }

  lemma {:induction false} LiftedIs(t: Str, ops: seq<Op>, op: Op)
    ensures op in Lift(t, ops) <==> exists c :: c in ops && op == Under(t, c)
  {
    if ops != [] {
      LiftedIs(t, ops[1..], op);
      var first := ops[0];
      assert Lift(t, ops) == [Under(t, first)] + Lift(t, ops[1..]);
      if c :| c in ops && op == Under(t, c) { assert c == first || c in ops[1..]; }
      if c :| c in ops[1..] && op == Under(t, c) { assert c in ops; }
      if op == Under(t, first) { assert first in ops; }
    }
  }

  // ---------- arrays ----------

  /** An operation on a common element that differs. */
  ghost predicate OnElement(s: Value, t: Value, from: nat, op: Op)
    requires s.Arr? && t.Arr?
  {
    exists i, c | from <= i < |s.a| && i < |t.a| :: c in DiffOps(s.a[i], t.a[i]) && op == Under(Dec(i), c)
  }

  lemma {:induction false} ElementOps(s: Value, t: Value, i: nat, op: Op)
    requires s.Arr? && t.Arr?
    ensures op in DiffElements(s, t, i) <==> OnElement(s, t, i, op)
    decreases |s.a| - i
  {
    hide DiffOps, Dec;
    if i < |s.a| && i < |t.a| {
      ElementOps(s, t, i + 1, op);
      LiftedIs(Dec(i), DiffOps(s.a[i], t.a[i]), op);
    }
  }

  ghost predicate RemovesOne(lo: nat, hi: nat, op: Op) { exists i | lo <= i < hi :: op == Remove([Dec(i)]) }

  lemma {:induction false} RemoveOps(hi: nat, lo: nat, op: Op)
    ensures op in RemoveDown(hi, lo) <==> RemovesOne(lo, hi, op)
    decreases hi
  {
    hide Dec;
    if hi > lo {
      var first := Remove([Dec(hi - 1)]);
      assert RemoveDown(hi, lo) == [first] + RemoveDown(hi - 1, lo);
      RemoveOps(hi - 1, lo, op);
      if RemovesOne(lo, hi, op) && op != first {
        var i :| lo <= i < hi && op == Remove([Dec(i)]);
        assert i < hi - 1;
        assert RemovesOne(lo, hi - 1, op);
      }
    }
  }

  ghost predicate AddsOne(b: seq<Value>, from: nat, op: Op) { exists i | from <= i < |b| :: op == Add([Dec(i)], b[i]) }

  lemma {:induction false} AddOps(b: seq<Value>, from: nat, op: Op)
    ensures op in AddUp(b, from) <==> AddsOne(b, from, op)
    decreases |b| - from
  {
    hide Dec;
    if from < |b| {
      var first := Add([Dec(from)], b[from]);
      assert AddUp(b, from) == [first] + AddUp(b, from + 1);
      AddOps(b, from + 1, op);
      if AddsOne(b, from, op) && op != first {
        var i :| from <= i < |b| && op == Add([Dec(i)], b[i]);
        assert i > from;
        assert AddsOne(b, from + 1, op);
      }
    }
  }

  /** Between different arrays: what `diff` generates for common elements, removals and additions, and nothing else. */
  lemma ArrayOps(s: Value, t: Value, op: Op)
    requires s.Arr? && t.Arr? && !Eq(s, t)
    ensures op in DiffOps(s, t) <==>
      || OnElement(s, t, 0, op)
      || RemovesOne(|t.a|, |s.a|, op)
      || AddsOne(t.a, |s.a|, op)
  {
    hide Eq, DiffElements, RemoveDown, AddUp, OnElement, RemovesOne, AddsOne;
    ElementOps(s, t, 0, op);
    RemoveOps(|s.a|, |t.a|, op);
    AddOps(t.a, |s.a|, op);
  }

  // ---------- objects ----------

  /** An operation on a common member that differs. */
  ghost predicate OnMember(s: Value, t: Value, ks: seq<Str>, op: Op)
    requires s.Obj? && t.Obj? && forall k | k in ks :: k in s.o
  {
    exists k, c | k in ks && k in t.o :: c in DiffOps(s.o[k], t.o[k]) && op == Under(k, c)
  }

  lemma {:induction false} MemberOps(s: Value, t: Value, ks: seq<Str>, op: Op)
    requires s.Obj? && t.Obj? && forall k | k in ks :: k in s.o
    ensures op in DiffMembers(s, t, ks) <==>
      OnMember(s, t, ks, op) || exists k | k in ks && k !in t.o :: op == Remove([k])
  {
    hide DiffOps;
    if ks != [] {
      var k := ks[0];
      MemberOps(s, t, ks[1..], op);
      assert forall x :: x in ks <==> x == k || x in ks[1..];
      if k in t.o { LiftedIs(k, DiffOps(s.o[k], t.o[k]), op); }
    }
  }

  lemma {:induction false} NewOps(s: Value, t: Value, ks: seq<Str>, op: Op)
    requires s.Obj? && t.Obj? && forall k | k in ks :: k in t.o
    ensures op in NewMembers(s, t, ks) <==> exists k | k in ks && k !in s.o :: op == Add([k], t.o[k])
  {
    if ks != [] {
      NewOps(s, t, ks[1..], op);
      assert forall x :: x in ks <==> x == ks[0] || x in ks[1..];
    }
  }

  /** Between different objects: what `diff` generates for common members, removals and additions, and nothing else. */
  lemma ObjectOps(s: Value, t: Value, op: Op)
    requires s.Obj? && t.Obj? && !Eq(s, t)
    ensures op in DiffOps(s, t) <==>
      || (exists k, c | k in s.o && k in t.o :: c in DiffOps(s.o[k], t.o[k]) && op == Under(k, c))
      || (exists k | k in s.o && k !in t.o :: op == Remove([k]))
      || (exists k | k in t.o && k !in s.o :: op == Add([k], t.o[k]))
  {
    hide Eq, DiffMembers, NewMembers;
    MemberOps(s, t, SortedKeys(s.o.Keys), op);
    NewOps(s, t, SortedKeys(t.o.Keys), op);
  }

  // ---------- what is left alone ----------

  /** No operation leads to a member or an element that is equal on both sides. */
  lemma EqualIsLeftAlone(s: Value, t: Value, op: Op)
    requires op in DiffOps(s, t)
    ensures s.Obj? && t.Obj? ==> op.path != [] && (op.path[0] in s.o && op.path[0] in t.o ==>
                                                     !Eq(s.o[op.path[0]], t.o[op.path[0]]))
    ensures s.Arr? && t.Arr? ==> op.path != [] && forall i | 0 <= i < |s.a| && i < |t.a| && op.path[0] == Dec(i) ::
                                                     !Eq(s.a[i], t.a[i])
    ensures s.Primitive() || t.Primitive() ==> op == Replace([], t)
  {
    hide DiffOps, Eq, Dec;
    EmptyIffEqual(s, t);
    if s.Obj? && t.Obj? {
      ObjectOps(s, t, op);
      if op.path[0] in s.o && op.path[0] in t.o { EmptyIffEqual(s.o[op.path[0]], t.o[op.path[0]]); }
    } else if s.Arr? && t.Arr? {
      ArrayOps(s, t, op);
      forall i | 0 <= i < |s.a| && i < |t.a| && op.path[0] == Dec(i) ensures !Eq(s.a[i], t.a[i]) {
        EmptyIffEqual(s.a[i], t.a[i]);
        SameIndices(s, t, op, i);
      }
    } else {
      Replaced(s, t);
    }
  }

  lemma SameIndices(s: Value, t: Value, op: Op, i: nat)
    requires s.Arr? && t.Arr? && i < |s.a| && i < |t.a| && op.path != [] && op.path[0] == Dec(i)
    requires OnElement(s, t, 0, op) || RemovesOne(|t.a|, |s.a|, op) || AddsOne(t.a, |s.a|, op)
    ensures DiffOps(s.a[i], t.a[i]) != []
  {
    hide DiffOps, Dec;
    if OnElement(s, t, 0, op) {
      var m, c :| 0 <= m < |s.a| && m < |t.a| && c in DiffOps(s.a[m], t.a[m]) && op == Under(Dec(m), c);
      DecInjective(m, i);
    } else if RemovesOne(|t.a|, |s.a|, op) {
      var m :| |t.a| <= m < |s.a| && op == Remove([Dec(m)]);
      DecInjective(m, i);
    } else {
      var m :| |s.a| <= m < |t.a| && op == Add([Dec(m)], t.a[m]);
      DecInjective(m, i);
    }
  }

  lemma Replaced(s: Value, t: Value)
    requires !Eq(s, t) && !(s.Arr? && t.Arr?) && !(s.Obj? && t.Obj?)
    ensures DiffOps(s, t) == [Replace([], t)]
  {
  }
}
