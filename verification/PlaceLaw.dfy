/** Where `unflatten` puts the values of an object, whichever it is. */
module PlaceLaw {
  import opened Bytes
  import opened Results
  import opened Decimal
  import opened Values
  import opened Pointers
  import opened Access
  import opened Flattening
  import opened PatchLaw
  import opened PatchStandard

  /** On the way to the place, an index of an array is written with a leading zero. */
  predicate ThroughZero(j: Value, ts: seq<Str>)
    decreases |ts|
  {
    ts != [] &&
    match j
    case Obj(o) => ThroughZero(if ts[0] in o then o[ts[0]] else Null, ts[1..])
    case Arr(a) =>
      var i := Stoi(ts[0]);
      LeadingZero(ts[0]) || (i.Ok? && i.value >= 0 && ThroughZero(Padded(a, i.value + 1)[i.value], ts[1..]))
    case _ => false
  }

  lemma IndexBack(t: Str, n: nat)
    requires Stoi(t).Ok? && 0 <= Stoi(t).value < n
    ensures LeadingZero(t) ==> CheckedIndex(t, n).Err?
    ensures !LeadingZero(t) ==> CheckedIndex(t, n) == Ok(Stoi(t).value)
  {
    DashIsNoIndex();
    hide Stoi;
  }

  lemma NothingThrough(ts: seq<Str>)
    ensures !ThroughZero(Null, ts)
  {
  }

  lemma ZeroIsRead()
    ensures CheckedIndex(ZERO_TOKEN, 1) == Ok(0)
  {
    DecIsIndex(0);
    assert Dec(0) == ZERO_TOKEN;
    CheckedIsIndex(ZERO_TOKEN, 1);
  }

  /** The value is found at its pointer afterwards, unless an index has a leading zero, which `at` rejects. */
  lemma {:induction false} PlaceIsRead(j: Value, ts: seq<Str>, leaf: Value)
    requires Place(j, ts, leaf).Ok?
    ensures Get(Place(j, ts, leaf).value, ts) == Ok(leaf) <==> !ThroughZero(j, ts)
    ensures ThroughZero(j, ts) ==> Get(Place(j, ts, leaf).value, ts).Err?
    decreases |ts|
  {
    hide CheckedIndex, Stoi, Padded;
    if ts != [] {
      match j
      case Null =>
        PlaceIsRead(Null, ts[1..], leaf);
        NothingThrough(ts[1..]);
        if ts[0] == ZERO_TOKEN { ZeroIsRead(); }
      case Obj(o) => PlaceIsRead(if ts[0] in o then o[ts[0]] else Null, ts[1..], leaf);
      case Arr(a) =>
        var i := Stoi(ts[0]).value;
        var p := Padded(a, i + 1);
        PlaceIsRead(p[i], ts[1..], leaf);
        IndexBack(ts[0], |p|);
      case _ =>
    }
  }

  /** `q` parts from `p` at some object or array. */
  predicate PartsFrom(j: Value, p: seq<Str>, q: seq<Str>)
    decreases |p|
  {
    p != [] && q != [] &&
    match j
    case Obj(o) => p[0] != q[0] || (q[0] in o && PartsFrom(o[q[0]], p[1..], q[1..]))
    case Arr(a) =>
      var i, k := Stoi(p[0]), CheckedIndex(q[0], |a|);
      i.Ok? && k.Ok? && (i.value != k.value || PartsFrom(a[k.value], p[1..], q[1..]))
    case _ => false
  }

  /** Whatever else is found keeps its value. */
  lemma {:induction false} PlaceKeeps(j: Value, p: seq<Str>, leaf: Value, q: seq<Str>)
    requires Place(j, p, leaf).Ok? && Get(j, q).Ok? && PartsFrom(j, p, q)
    ensures Get(Place(j, p, leaf).value, q) == Get(j, q)
    decreases |p|
  {
    hide CheckedIndex, Stoi, Padded;
    match j
    case Obj(o) => if p[0] == q[0] { PlaceKeeps(o[q[0]], p[1..], leaf, q[1..]); }
    case Arr(a) =>
      var i, k := Stoi(p[0]).value, CheckedIndex(q[0], |a|).value;
      var padded := Padded(a, i + 1);
      SameIndex(q[0], |a|, |padded|);
      if i == k { PlaceKeeps(a[k], p[1..], leaf, q[1..]); }
    case _ =>
  }

  // ---------- all values of an object ----------

  /** A token that `stoi` reads as an index only if it is one. */
  predicate Honest(t: Str) { Stoi(t).Ok? ==> IsIndex(t) }

  ghost predicate AllHonest(ts: seq<Str>) { forall t | t in ts :: Honest(t) }

  /** Neither pointer is the beginning of the other. */
  predicate Diverge(p: seq<Str>, q: seq<Str>)
    decreases |p|
  {
    p != [] && q != [] && (p[0] != q[0] || Diverge(p[1..], q[1..]))
  }

  lemma SameToken(s: Str, t: Str)
    requires IsIndex(s) && IsIndex(t) && Stoi(s).Ok? && Stoi(s) == Stoi(t)
    ensures s == t
  {
    hide Stoi, Dec;
    StoiOfIndex(s);
    StoiOfIndex(t);
    IndexIsDec(s);
    IndexIsDec(t);
  }

  lemma CheckedIsStoi(t: Str, n: nat)
    requires CheckedIndex(t, n).Ok?
    ensures Stoi(t) == Ok(CheckedIndex(t, n).value)
  {
    hide Stoi;
  }

  lemma {:induction false} DivergeParts(j: Value, p: seq<Str>, leaf: Value, q: seq<Str>)
    requires Place(j, p, leaf).Ok? && Get(j, q).Ok? && Diverge(p, q) && AllHonest(p) && AllHonest(q)
    ensures PartsFrom(j, p, q)
    decreases |p|
  {
    hide CheckedIndex, Stoi, Padded, IsIndex;
    match j
    case Obj(o) => if p[0] == q[0] { DivergeParts(o[q[0]], p[1..], leaf, q[1..]); }
    case Arr(a) =>
      var i, k := Stoi(p[0]).value, CheckedIndex(q[0], |a|).value;
      CheckedIsStoi(q[0], |a|);
      assert p[0] in p && q[0] in q;
      if i == k {
        SameToken(p[0], q[0]);
        DivergeParts(a[k], p[1..], leaf, q[1..]);
      }
    case _ =>
  }

  lemma {:induction false} HonestHasNoZero(j: Value, ts: seq<Str>)
    requires AllHonest(ts)
    ensures (forall k | 0 <= k < |ts| :: Stoi(ts[k]).Ok? ==> !LeadingZero(ts[k]))
  {
    hide Stoi, LeadingZero;
    forall k | 0 <= k < |ts| && Stoi(ts[k]).Ok? ensures !LeadingZero(ts[k]) {
      assert ts[k] in ts;
      StoiOfIndex(ts[k]);
    }
  }

  lemma {:induction false} NotThroughZero(j: Value, ts: seq<Str>, leaf: Value)
    requires Place(j, ts, leaf).Ok? && AllHonest(ts)
    ensures !ThroughZero(j, ts)
    decreases |ts|
  {
    hide Stoi, Padded, LeadingZero;
    HonestHasNoZero(j, ts);
    if ts != [] {
      match j
      case Obj(o) => NotThroughZero(if ts[0] in o then o[ts[0]] else Null, ts[1..], leaf);
      case Arr(a) =>
        var i := Stoi(ts[0]).value;
        NotThroughZero(Padded(a, i + 1)[i], ts[1..], leaf);
      case _ =>
    }
  }

  /** The keys are pointers, no one the beginning of another, without tokens that only look like indices to `stoi`. */
  ghost predicate Independent(ks: seq<Str>) {
    && (forall k | k in ks :: Split(k).Ok? && AllHonest(Split(k).value))
    && (forall i, m | 0 <= i < |ks| && 0 <= m < |ks| && i != m :: Diverge(Split(ks[i]).value, Split(ks[m]).value))
  }

  lemma {:induction false} MembersPlaced(j: Value, o: map<Str, Value>, all: seq<Str>, done: nat)
    requires done <= |all| && Independent(all) && (forall k | k in all :: k in o)
    requires forall i | 0 <= i < done :: Get(j, Split(all[i]).value) == Ok(o[all[i]])
    requires PlaceMembers(j, o, all[done..]).Ok?
    ensures forall i | 0 <= i < |all| ::
              Get(PlaceMembers(j, o, all[done..]).value, Split(all[i]).value) == Ok(o[all[i]])
    decreases |all| - done
  {
    hide Place, Split, Get, Diverge, AllHonest;
    if done < |all| {
      var ks := all[done..];
      assert ks[0] == all[done] && ks[1..] == all[done + 1..];
      assert all[done] in all;
      var ts, leaf := Split(all[done]).value, o[all[done]];
      var next := Place(j, ts, leaf).value;
      PlaceIsRead(j, ts, leaf);
      NotThroughZero(j, ts, leaf);
      forall i | 0 <= i < done ensures Get(next, Split(all[i]).value) == Ok(o[all[i]]) {
        assert all[i] in all;
        DivergeParts(j, ts, leaf, Split(all[i]).value);
        PlaceKeeps(j, ts, leaf, Split(all[i]).value);
      }
      MembersPlaced(next, o, all, done + 1);
    }
  }

  /** What `unflatten` makes of an object with such keys has every value at its pointer. */
  lemma UnflattenPlaces(o: map<Str, Value>, k: Str)
    requires Independent(SortedKeys(o.Keys)) && Unflattened(Obj(o)).Ok? && k in o
    ensures Split(k).Ok? && Get(Unflattened(Obj(o)).value, Split(k).value) == Ok(o[k])
  {
    hide PlaceMembers, Split, Get, Independent;
    var ks := SortedKeys(o.Keys);
    assert ks[0..] == ks;
    assert k in ks;
    KeySplits(ks, k);
    MembersPlaced(Null, o, ks, 0);
    var i :| 0 <= i < |ks| && ks[i] == k;
  }

  lemma KeySplits(ks: seq<Str>, k: Str)
    requires Independent(ks) && k in ks
    ensures Split(k).Ok?
  {
    hide Split;
  }

  lemma {:induction false} PlacedArePrimitive(j: Value, o: map<Str, Value>, ks: seq<Str>)
    requires (forall k | k in ks :: k in o) && PlaceMembers(j, o, ks).Ok?
    ensures forall k | k in ks :: o[k].Primitive() && Split(k).Ok?
    decreases |ks|
  {
    hide Place, Split;
    if ks != [] {
      PlacedArePrimitive(Place(j, Split(ks[0]).value, o[ks[0]]).value, o, ks[1..]);
      assert forall k :: k in ks <==> k == ks[0] || k in ks[1..];
    }
  }

  /** `unflatten` takes only objects, whose keys are pointers and whose values are primitive. */
  lemma UnflattenNeeds(v: Value)
    requires Unflattened(v).Ok?
    ensures v.Obj? && forall k | k in v.o :: v.o[k].Primitive() && Split(k).Ok?
  {
    hide PlaceMembers, Split;
    PlacedArePrimitive(Null, v.o, SortedKeys(v.o.Keys));
  }
}
