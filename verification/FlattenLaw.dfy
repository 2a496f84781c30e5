/** What `flatten` records: the paths of exactly the leaves, each with the value of its leaf. */
module FlattenLaw {
  import opened Bytes
  import opened Decimal
  import opened Values
  import opened Pointers
  import opened Flattening

  // ---------- flatten maps exactly the leaves ----------

  type Path = seq<Str>

  /** The paths from `v` to its leaves. */
  ghost function LeafPaths(v: Value): set<Path>
    decreases v
  {
    if IsLeaf(v) then {[]}
    else if v.Arr? then set i, p | 0 <= i < |v.a| && p in LeafPaths(v.a[i]) :: [Dec(i)] + p
    else set k, p | k in v.o && p in LeafPaths(v.o[k]) :: [k] + p
  }

  /** The number a token writes (zero when it writes none). */
  function TokenIndex(t: Str): nat {
    if forall i | 0 <= i < |t| :: IsDigit(t[i]) then FromDigits(t) else 0
  }

  /** The leaf a path leads to (some value when it leads to none). */
  function LeafAt(v: Value, p: Path): Value
    decreases v
  {
    if IsLeaf(v) || p == [] then LeafValue(v)
    else if v.Arr? then if TokenIndex(p[0]) < |v.a| then LeafAt(v.a[TokenIndex(p[0])], p[1..]) else Null
    else if p[0] in v.o then LeafAt(v.o[p[0]], p[1..])
    else Null
  }

  lemma LeafBelowIndex(v: Value, i: nat, p: Path)
    requires v.Arr? && i < |v.a|
    ensures LeafAt(v, [Dec(i)] + p) == LeafAt(v.a[i], p)
    ensures p in LeafPaths(v.a[i]) <==> [Dec(i)] + p in LeafPaths(v)
  {
    hide Dec, FromDigits;
    var q := [Dec(i)] + p;
    assert q[1..] == p && q[0] == Dec(i);
    FromDigitsDec(i);
    if q in LeafPaths(v) {
      var k, r :| 0 <= k < |v.a| && r in LeafPaths(v.a[k]) && [Dec(k)] + r == q;
      assert ([Dec(k)] + r)[1..] == r && ([Dec(k)] + r)[0] == Dec(k);
      DecInjective(i, k);
    }
  }

  lemma LeafBelowKey(v: Value, k: Str, p: Path)
    requires v.Obj? && k in v.o
    ensures LeafAt(v, [k] + p) == LeafAt(v.o[k], p)
    ensures p in LeafPaths(v.o[k]) <==> [k] + p in LeafPaths(v)
  {
    var q := [k] + p;
    assert q[1..] == p && q[0] == k;
    if q in LeafPaths(v) {
      var k', r :| k' in v.o && r in LeafPaths(v.o[k']) && [k'] + r == q;
      assert ([k'] + r)[1..] == r && ([k'] + r)[0] == k';
    }
  }

  ghost predicate Names(s: Str, at: Str, ps: set<Path>) { exists p :: p in ps && s == at + ToString(p) }

  /** `m` is `acc` with the leaves of `v` at the paths `ps` recorded under `at`. */
  ghost predicate Records(m: map<Str, Value>, acc: map<Str, Value>, at: Str, ps: set<Path>, v: Value) {
    && (forall s :: s in m <==> s in acc || Names(s, at, ps))
    && (forall p | p in ps :: at + ToString(p) in m && m[at + ToString(p)] == LeafAt(v, p))
    && (forall s | s in acc && !Names(s, at, ps) :: s in m && m[s] == acc[s])
  }

  lemma SuffixInjective(at: Str, p: Path, q: Path)
    requires at + ToString(p) == at + ToString(q)
    ensures p == q
  {
    assert (at + ToString(p))[|at|..] == ToString(p);
    assert (at + ToString(q))[|at|..] == ToString(q);
    ToStringInjective(p, q);
  }

  lemma RecordsBoth(
    m2: map<Str, Value>, m1: map<Str, Value>, m0: map<Str, Value>,
    at: Str, ps: set<Path>, qs: set<Path>, v: Value
  )
    requires Records(m1, m0, at, ps, v) && Records(m2, m1, at, qs, v)
    ensures Records(m2, m0, at, ps + qs, v)
  {
    hide ToString, LeafAt;
    forall s ensures Names(s, at, ps + qs) <==> Names(s, at, ps) || Names(s, at, qs) {
      if Names(s, at, ps) {
        var p :| p in ps && s == at + ToString(p);
        assert p in ps + qs;
      } else if Names(s, at, qs) {
        var p :| p in qs && s == at + ToString(p);
        assert p in ps + qs;
      }
    }
    forall p | p in ps + qs
      ensures at + ToString(p) in m2 && m2[at + ToString(p)] == LeafAt(v, p)
    {
      var s := at + ToString(p);
      if p !in qs && Names(s, at, qs) {
        var q :| q in qs && s == at + ToString(q);
        SuffixInjective(at, p, q);
      }
    }
  }

  /** Paths through the child `t`. */
  ghost function Through(t: Str, ps: set<Path>): set<Path> { set p | p in ps :: [t] + p }

  lemma RecordsThrough(m: map<Str, Value>, acc: map<Str, Value>, at: Str, t: Str, v: Value, child: Value)
    requires Records(m, acc, at + [SLASH] + Escaped(t), LeafPaths(child), child)
    requires forall p :: LeafAt(v, [t] + p) == LeafAt(child, p)
    ensures Records(m, acc, at, Through(t, LeafPaths(child)), v)
  {
    hide ToString, LeafAt, Escaped, LeafPaths;
    var ps, low := LeafPaths(child), at + [SLASH] + Escaped(t);
    forall p ensures low + ToString(p) == at + ToString([t] + p) {
      ToStringCons(t, p);
      assert low + ToString(p) == at + ([SLASH] + Escaped(t) + ToString(p));
    }
    forall s ensures Names(s, at, Through(t, ps)) <==> Names(s, low, ps) {
      if Names(s, low, ps) {
        var p :| p in ps && s == low + ToString(p);
        assert [t] + p in Through(t, ps);
      }
      if Names(s, at, Through(t, ps)) {
        var q :| q in Through(t, ps) && s == at + ToString(q);
        var p :| p in ps && [t] + p == q;
        assert s == low + ToString(p);
      }
    }
    forall q | q in Through(t, ps)
      ensures at + ToString(q) in m && m[at + ToString(q)] == LeafAt(v, q)
    {
      var p :| p in ps && [t] + p == q;
    }
  }

  ghost function PathsFrom(v: Value, i: nat): set<Path>
    requires v.Arr?
    decreases |v.a| - i
  {
    if i >= |v.a| then {} else Through(Dec(i), LeafPaths(v.a[i])) + PathsFrom(v, i + 1)
  }

  ghost predicate IsStep(v: Value, k: nat, p: Path, q: Path)
    requires v.Arr? && k < |v.a|
  {
    p in LeafPaths(v.a[k]) && q == [Dec(k)] + p
  }

  lemma {:induction false} PathsFromAre(v: Value, i: nat)
    requires v.Arr?
    ensures forall q :: q in PathsFrom(v, i) <==> exists k: nat, p :: i <= k < |v.a| && IsStep(v, k, p, q)
    decreases |v.a| - i
  {
    if i < |v.a| {
      PathsFromAre(v, i + 1);
      forall q ensures q in Through(Dec(i), LeafPaths(v.a[i])) <==> exists p :: IsStep(v, i, p, q) {
        if q in Through(Dec(i), LeafPaths(v.a[i])) {
          var p :| p in LeafPaths(v.a[i]) && [Dec(i)] + p == q;
          assert IsStep(v, i, p, q);
        }
      }
      forall q | q in PathsFrom(v, i) ensures exists k: nat, p :: i <= k < |v.a| && IsStep(v, k, p, q) {
        if q in Through(Dec(i), LeafPaths(v.a[i])) {
          var p :| IsStep(v, i, p, q);
        } else {
          assert q in PathsFrom(v, i + 1);
          var k: nat, p :| i + 1 <= k < |v.a| && IsStep(v, k, p, q);
          assert i <= k;
        }
      }
    }
  }

  ghost function PathsOf(v: Value, ks: seq<Str>): set<Path>
    requires v.Obj? && forall k | k in ks :: k in v.o
  {
    if ks == [] then {} else Through(ks[0], LeafPaths(v.o[ks[0]])) + PathsOf(v, ks[1..])
  }

  lemma {:induction false} PathsOfAre(v: Value, ks: seq<Str>)
    requires v.Obj? && forall k | k in ks :: k in v.o
    ensures forall q :: q in PathsOf(v, ks) <==> exists k, p :: k in ks && p in LeafPaths(v.o[k]) && q == [k] + p
  {
    hide LeafPaths;
    if ks != [] {
      PathsOfAre(v, ks[1..]);
      assert forall k :: k in ks <==> k == ks[0] || k in ks[1..];
    }
  }

  lemma {:induction false} ElementsRecord(at: Str, v: Value, i: nat, acc: map<Str, Value>)
    requires v.Arr?
    ensures Records(FlatElements(at, v, i, acc), acc, at, PathsFrom(v, i), v)
    decreases v, 0, |v.a| - i
  {
    hide FlatFrom, Records, LeafAt, LeafPaths;
    if i >= |v.a| {
      assert Records(acc, acc, at, {}, v) by { RecordsNothing(acc, at, v); }
    } else {
      FlatRecords(at + [SLASH] + Dec(i), v.a[i], acc);
      var next := FlatFrom(at + [SLASH] + Dec(i), v.a[i], acc);
      DecNeedsNoEscape(i);
      forall p ensures LeafAt(v, [Dec(i)] + p) == LeafAt(v.a[i], p) { LeafBelowIndex(v, i, p); }
      RecordsThrough(next, acc, at, Dec(i), v, v.a[i]);
      ElementsRecord(at, v, i + 1, next);
      RecordsBoth(
        FlatElements(at, v, i + 1, next), next, acc, at, Through(Dec(i), LeafPaths(v.a[i])), PathsFrom(v, i + 1), v);
    }
  }

  lemma RecordsNothing(acc: map<Str, Value>, at: Str, v: Value)
    ensures Records(acc, acc, at, {}, v)
  {
  }

  lemma {:induction false} MembersRecord(at: Str, v: Value, ks: seq<Str>, acc: map<Str, Value>)
    requires v.Obj? && forall k | k in ks :: k in v.o
    ensures Records(FlatMembers(at, v, ks, acc), acc, at, PathsOf(v, ks), v)
    decreases v, 0, |ks|
  {
    hide FlatFrom, Records, LeafAt, LeafPaths;
    if ks == [] {
      RecordsNothing(acc, at, v);
    } else {
      var k, low := ks[0], at + [SLASH] + Escaped(ks[0]);
      FlatRecords(low, v.o[k], acc);
      var next := FlatFrom(low, v.o[k], acc);
      forall p ensures LeafAt(v, [k] + p) == LeafAt(v.o[k], p) { LeafBelowKey(v, k, p); }
      RecordsThrough(next, acc, at, k, v, v.o[k]);
      MembersRecord(at, v, ks[1..], next);
      RecordsBoth(
        FlatMembers(at, v, ks[1..], next), next, acc, at, Through(k, LeafPaths(v.o[k])), PathsOf(v, ks[1..]), v);
    }
  }

  lemma OneName(at: Str)
    ensures forall s :: Names(s, at, {[]}) <==> s == at
  {
    var root: Path := [];
    assert at + ToString(root) == at;
    assert root in {[]};
  }

  lemma AllPaths(v: Value)
    requires v.Arr? && !IsLeaf(v)
    requires forall q :: q in PathsFrom(v, 0) <==> exists k: nat, p :: 0 <= k < |v.a| && IsStep(v, k, p, q)
    ensures PathsFrom(v, 0) == LeafPaths(v)
  {
    forall q ensures q in PathsFrom(v, 0) <==> q in LeafPaths(v) {
      if q in LeafPaths(v) {
        var k, p :| 0 <= k < |v.a| && p in LeafPaths(v.a[k]) && [Dec(k)] + p == q;
        assert IsStep(v, k, p, q);
      }
    }
  }

  /** `flatten` records exactly the leaves, each under its own pointer. */
  lemma {:induction false} FlatRecords(at: Str, v: Value, acc: map<Str, Value>)
    ensures Records(FlatFrom(at, v, acc), acc, at, LeafPaths(v), v)
    decreases v, 1, 0
  {
    hide FlatElements, FlatMembers, SortedKeys;
    if IsLeaf(v) {
      var m := acc[at := LeafValue(v)];
      assert at + ToString([]) == at;
      assert forall s :: Names(s, at, {[]}) <==> s == at by { OneName(at); }
    } else if v.Arr? {
      ElementsRecord(at, v, 0, acc);
      PathsFromAre(v, 0);
      AllPaths(v);
    } else {
      var ks := SortedKeys(v.o.Keys);
      MembersRecord(at, v, ks, acc);
      PathsOfAre(v, ks);
      assert PathsOf(v, ks) == LeafPaths(v);
    }
  }
}
