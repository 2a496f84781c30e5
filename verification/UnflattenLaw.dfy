/** Which values survive `flatten` followed by `unflatten`: exactly the rebuildable ones. */
module UnflattenLaw {
  import opened Bytes
  import opened Results
  import opened Decimal
  import opened Values
  import opened Pointers
  import opened Access
  import opened Flattening
  import opened FlattenLaw

  // ---------- entries in the order unflatten meets them ----------

  datatype Entry = Entry(path: Path, leaf: Value)

  predicate Before(e: Entry, f: Entry) { Less(ToString(e.path), ToString(f.path)) }

  ghost predicate InOrder(es: seq<Entry>) {
    es == [] || ((forall f | f in es[1..] :: Before(es[0], f)) && InOrder(es[1..]))
  }

  /** `es` lists the leaves of `v`, each once, in the order of their pointer texts. */
  ghost predicate Lists(es: seq<Entry>, v: Value) {
    && InOrder(es)
    && (forall e | e in es :: e.path in LeafPaths(v) && e.leaf == LeafAt(v, e.path))
    && (forall p | p in LeafPaths(v) :: Entry(p, LeafAt(v, p)) in es)
  }

  /** The entries below the child `k`, their paths shortened. */
  function Under(es: seq<Entry>, k: Str): seq<Entry> {
    if es == [] then []
    else
      (if es[0].path != [] && es[0].path[0] == k then [Entry(es[0].path[1..], es[0].leaf)] else [])
      + Under(es[1..], k)
  }

  lemma {:induction false} UnderAre(es: seq<Entry>, k: Str)
    ensures forall p, x :: Entry(p, x) in Under(es, k) <==> Entry([k] + p, x) in es
  {
    if es != [] {
      UnderAre(es[1..], k);
      forall p, x ensures Entry(p, x) in Under(es, k) <==> Entry([k] + p, x) in es {
        assert Entry([k] + p, x) in es <==> es[0] == Entry([k] + p, x) || Entry([k] + p, x) in es[1..];
        assert ([k] + p)[1..] == p;
        if es[0].path != [] && es[0].path[0] == k {
          assert es[0].path == [k] + es[0].path[1..];
        }
      }
    }
  }

  lemma {:induction false} UnderInOrder(es: seq<Entry>, k: Str)
    requires InOrder(es)
    ensures InOrder(Under(es, k))
  {
    hide Before, Under;
    UnderUnfolds(es, k);
    if es != [] {
      var below := Under(es[1..], k);
      UnderInOrder(es[1..], k);
      if es[0].path != [] && es[0].path[0] == k {
        var first := Entry(es[0].path[1..], es[0].leaf);
        assert ([first] + below)[1..] == below;
        UnderAre(es[1..], k);
        forall f | f in below ensures Before(first, f) {
          assert Entry([k] + f.path, f.leaf) in es[1..];
          BeforeBelow(k, es[0], first, f);
        }
      }
    }
  }

  lemma UnderUnfolds(es: seq<Entry>, k: Str)
    ensures Under(es, k) ==
      if es == [] then []
      else if es[0].path != [] && es[0].path[0] == k then [Entry(es[0].path[1..], es[0].leaf)] + Under(es[1..], k)
      else Under(es[1..], k)
  {
    if es != [] { assert [] + Under(es[1..], k) == Under(es[1..], k); }
  }

  lemma BeforeBelow(k: Str, e: Entry, first: Entry, f: Entry)
    requires e.path == [k] + first.path
    requires Before(e, Entry([k] + f.path, f.leaf))
    ensures Before(first, f)
  {
    hide ToString, Less, Escaped;
    ToStringCons(k, first.path);
    ToStringCons(k, f.path);
    LessAfterPrefix([SLASH] + Escaped(k), ToString(first.path), ToString(f.path));
  }

  lemma UnderLists(es: seq<Entry>, v: Value, k: Str, child: Value)
    requires Lists(es, v)
    requires forall p :: LeafAt(v, [k] + p) == LeafAt(child, p)
    requires forall p :: p in LeafPaths(child) <==> [k] + p in LeafPaths(v)
    ensures Lists(Under(es, k), child)
  {
    hide LeafAt, LeafPaths, InOrder, Under;
    UnderAre(es, k);
    UnderInOrder(es, k);
    forall e | e in Under(es, k) ensures e.path in LeafPaths(child) && e.leaf == LeafAt(child, e.path) {
      assert e == Entry(e.path, e.leaf);
    }
  }

  lemma {:induction false} LeafPathsExist(v: Value)
    ensures LeafPaths(v) != {}
    decreases v
  {
    if IsLeaf(v) {
    } else if v.Arr? {
      LeafPathsExist(v.a[0]);
      var p :| p in LeafPaths(v.a[0]);
      LeafBelowIndex(v, 0, p);
    } else {
      var k :| k in v.o;
      LeafPathsExist(v.o[k]);
      var p :| p in LeafPaths(v.o[k]);
      LeafBelowKey(v, k, p);
    }
  }

  // ---------- building a tree from entries ----------

  function Build(j: Value, es: seq<Entry>): Result<Value>
    decreases |es|
  {
    if es == [] then Ok(j)
    else
      var next :- Place(j, es[0].path, es[0].leaf);
      Build(next, es[1..])
  }

  predicate AllNested(es: seq<Entry>) { es == [] || (es[0].path != [] && AllNested(es[1..])) }

  function Heads(es: seq<Entry>): set<Str>
    requires AllNested(es)
  {
    if es == [] then {} else {es[0].path[0]} + Heads(es[1..])
  }

  function Child(m: map<Str, Value>, k: Str): Value { if k in m then m[k] else Null }

  lemma {:induction false} UnderNothing(es: seq<Entry>, k: Str)
    requires AllNested(es) && k !in Heads(es)
    ensures Under(es, k) == []
  {
    if es != [] {
      UnderNothing(es[1..], k);
    }
  }

  lemma PlaceInObject(m: map<Str, Value>, e: Entry)
    requires e.path != []
    ensures Place(Obj(m), e.path, e.leaf) == PutKey(m, e.path[0], Place(Child(m, e.path[0]), e.path[1..], e.leaf))
  {
  }

  lemma UnderFirst(es: seq<Entry>, k: Str)
    requires es != [] && es[0].path != [] && es[0].path[0] == k
    ensures Under(es, k) == [Entry(es[0].path[1..], es[0].leaf)] + Under(es[1..], k)
  {
  }

  lemma UnderOther(es: seq<Entry>, k: Str)
    requires es != [] && es[0].path != [] && es[0].path[0] != k
    ensures Under(es, k) == Under(es[1..], k)
  {
  }

  /** What the entries below `k` make of that member of `m`. */
  function BuiltKey(m: map<Str, Value>, es: seq<Entry>, k: Str): Result<Value> { Build(Child(m, k), Under(es, k)) }

  lemma BuiltKeyFirst(m: map<Str, Value>, es: seq<Entry>, k: Str)
    requires es != [] && es[0].path != [] && es[0].path[0] == k
    ensures var step := Place(Child(m, k), es[0].path[1..], es[0].leaf);
            BuiltKey(m, es, k) == if step.Ok? then BuiltKey(m[k := step.value], es[1..], k) else step
  {
    hide Place, Under;
    UnderFirst(es, k);
    BuildStep(Child(m, k), Under(es, k));
  }

  lemma BuiltKeyOther(m: map<Str, Value>, es: seq<Entry>, k: Str, v: Value)
    requires es != [] && es[0].path != [] && es[0].path[0] != k
    ensures BuiltKey(m, es, k) == BuiltKey(m[es[0].path[0] := v], es[1..], k)
  {
    hide Build, Under;
    UnderOther(es, k);
  }

  lemma BuiltKeyNone(m: map<Str, Value>, es: seq<Entry>, k: Str)
    requires AllNested(es) && k !in Heads(es)
    ensures BuiltKey(m, es, k) == Ok(Child(m, k))
  {
    UnderNothing(es, k);
  }

  /** `r` is an object built from `m`, each member by itself; or some member could not be built. */
  ghost predicate ObjectOf(r: Result<Value>, m: map<Str, Value>, es: seq<Entry>)
    requires AllNested(es)
  {
    && (r.Ok? <==> forall k | k in Heads(es) :: BuiltKey(m, es, k).Ok?)
    && (r.Ok? ==> r.value.Obj? && r.value.o.Keys == m.Keys + Heads(es)
                  && forall k | k in r.value.o :: Ok(r.value.o[k]) == BuiltKey(m, es, k))
  }

  lemma ObjectStep(r: Result<Value>, m: map<Str, Value>, es: seq<Entry>, v: Value)
    requires es != [] && AllNested(es)
    requires var k := es[0].path[0];
             && ObjectOf(r, m[k := v], es[1..])
             && BuiltKey(m, es, k) == BuiltKey(m[k := v], es[1..], k)
             && (k in Heads(es[1..]) || BuiltKey(m, es, k).Ok?)
    ensures ObjectOf(r, m, es)
  {
    hide Build, Under, BuiltKey;
    var k, rest := es[0].path[0], es[1..];
    forall x ensures BuiltKey(m, es, x) == BuiltKey(m[k := v], rest, x) {
      if x != k { BuiltKeyOther(m, es, x, v); }
    }
    assert Heads(es) == {k} + Heads(rest);
  }

  lemma ObjectFails(m: map<Str, Value>, es: seq<Entry>, e: Error)
    requires es != [] && AllNested(es)
    requires BuiltKey(m, es, es[0].path[0]).Err?
    ensures ObjectOf(Err(e), m, es)
  {
    assert es[0].path[0] in Heads(es);
  }

  /** Members of an object are built independently of each other. */
  lemma {:induction false} BuildObject(m: map<Str, Value>, es: seq<Entry>)
    requires AllNested(es)
    ensures ObjectOf(Build(Obj(m), es), m, es)
    decreases |es|
  {
    hide Place, Under;
    if es == [] {
      forall k | k in m ensures Ok(m[k]) == BuiltKey(m, es, k) { BuiltKeyNone(m, es, k); }
    } else {
      hide BuiltKey, Build, ObjectOf, Child;
      var e, rest, k := es[0], es[1..], es[0].path[0];
      var step := Place(Child(m, k), e.path[1..], e.leaf);
      PlaceInObject(m, e);
      BuildStep(Obj(m), es);
      BuiltKeyFirst(m, es, k);
      if step.Ok? {
        var m1 := m[k := step.value];
        BuildObject(m1, rest);
        if k !in Heads(rest) { BuiltKeyNone(m1, rest, k); }
        ObjectStep(Build(Obj(m1), rest), m, es, step.value);
      } else {
        ObjectFails(m, es, step.error);
      }
    }
  }

  /** Every entry goes through an array index. */
  predicate AllIndexed(es: seq<Entry>) {
    es == [] || (es[0].path != [] && es[0].path[0] == Dec(TokenIndex(es[0].path[0])) && AllIndexed(es[1..]))
  }

  function Indices(es: seq<Entry>): set<nat>
    requires AllIndexed(es)
  {
    if es == [] then {} else {TokenIndex(es[0].path[0])} + Indices(es[1..])
  }

  function Element(a: seq<Value>, i: nat): Value { if i < |a| then a[i] else Null }

  lemma PlaceInArray(a: seq<Value>, e: Entry, i: nat)
    requires e.path != [] && e.path[0] == Dec(i)
    ensures var step := Place(Element(a, i), e.path[1..], e.leaf);
            Place(Arr(a), e.path, e.leaf) ==
            if i > INT_MAX then Err(OutOfRange) else if step.Ok? then Ok(Arr(Grown(a, i, step.value))) else step
  {
    StoiOfDec(i);
  }

  lemma {:induction false} UnderNoIndex(es: seq<Entry>, i: nat)
    requires AllIndexed(es) && i !in Indices(es)
    ensures Under(es, Dec(i)) == []
  {
    if es != [] {
      hide Dec, TokenIndex;
      IndexToken(i);
      UnderNoIndex(es[1..], i);
    }
  }

  lemma IndexToken(i: nat)
    ensures TokenIndex(Dec(i)) == i
  {
    FromDigitsDec(i);
  }

  /** What the entries below index `i` make of that element of `a`. */
  function BuiltIndex(a: seq<Value>, es: seq<Entry>, i: nat): Result<Value> { Build(Element(a, i), Under(es, Dec(i))) }

  function Grown(a: seq<Value>, i: nat, v: Value): seq<Value> { Padded(a, i + 1)[i := v] }

  lemma GrownElements(a: seq<Value>, i: nat, v: Value)
    ensures Element(Grown(a, i, v), i) == v
    ensures forall k: nat | k != i :: Element(Grown(a, i, v), k) == Element(a, k)
  {
  }

  lemma BuiltIndexFirst(a: seq<Value>, es: seq<Entry>, i: nat)
    requires es != [] && es[0].path != [] && es[0].path[0] == Dec(i)
    ensures var step := Place(Element(a, i), es[0].path[1..], es[0].leaf);
            BuiltIndex(a, es, i) == if step.Ok? then BuiltIndex(Grown(a, i, step.value), es[1..], i) else step
  {
    hide Place, Under, Dec, Grown, Element;
    UnderFirst(es, Dec(i));
    BuildStep(Element(a, i), Under(es, Dec(i)));
    var step := Place(Element(a, i), es[0].path[1..], es[0].leaf);
    if step.Ok? { GrownElements(a, i, step.value); }
  }

  lemma BuiltIndexOther(a: seq<Value>, es: seq<Entry>, k: nat, i: nat, v: Value)
    requires es != [] && es[0].path != [] && es[0].path[0] == Dec(i) && k != i
    ensures BuiltIndex(a, es, k) == BuiltIndex(Grown(a, i, v), es[1..], k)
  {
    hide Build, Under, Dec, Grown, Element;
    if Dec(k) == Dec(i) { DecInjective(k, i); }
    UnderOther(es, Dec(k));
    GrownElements(a, i, v);
  }

  lemma BuiltIndexNone(a: seq<Value>, es: seq<Entry>, i: nat)
    requires AllIndexed(es) && i !in Indices(es)
    ensures BuiltIndex(a, es, i) == Ok(Element(a, i))
  {
    UnderNoIndex(es, i);
  }

  /** `r` is an array built from `a`, each element by itself; or some element could not be built. */
  ghost predicate ArrayOf(r: Result<Value>, a: seq<Value>, es: seq<Entry>)
    requires AllIndexed(es)
  {
    && (r.Ok? <==> forall i | i in Indices(es) :: i <= INT_MAX && BuiltIndex(a, es, i).Ok?)
    && (r.Ok? ==> && r.value.Arr? && |a| <= |r.value.a|
                  && (|r.value.a| == |a| || |r.value.a| - 1 in Indices(es))
                  && (forall i | i in Indices(es) :: i < |r.value.a|)
                  && forall i: nat | i < |r.value.a| :: Ok(r.value.a[i]) == BuiltIndex(a, es, i))
  }

  lemma ArrayStep(r: Result<Value>, a: seq<Value>, es: seq<Entry>, i: nat, v: Value)
    requires es != [] && AllIndexed(es) && i == TokenIndex(es[0].path[0]) && i <= INT_MAX
    requires ArrayOf(r, Grown(a, i, v), es[1..])
    requires BuiltIndex(a, es, i) == BuiltIndex(Grown(a, i, v), es[1..], i)
    requires i in Indices(es[1..]) || BuiltIndex(a, es, i).Ok?
    ensures ArrayOf(r, a, es)
  {
    hide Build, Under, BuiltIndex, Dec, TokenIndex, Element;
    var a1, rest := Grown(a, i, v), es[1..];
    forall x: nat ensures BuiltIndex(a, es, x) == BuiltIndex(a1, rest, x) {
      if x != i { BuiltIndexOther(a, es, x, i, v); }
    }
    assert Indices(es) == {i} + Indices(rest);
    assert |a1| == if |a| < i + 1 then i + 1 else |a|;
  }

  lemma ArrayFails(a: seq<Value>, es: seq<Entry>, e: Error)
    requires es != [] && AllIndexed(es)
    requires var i := TokenIndex(es[0].path[0]); i > INT_MAX || BuiltIndex(a, es, i).Err?
    ensures ArrayOf(Err(e), a, es)
  {
    assert TokenIndex(es[0].path[0]) in Indices(es);
  }

  /** Elements of an array are built independently of each other; gaps are null. */
  lemma {:induction false} BuildArray(a: seq<Value>, es: seq<Entry>)
    requires AllIndexed(es)
    ensures ArrayOf(Build(Arr(a), es), a, es)
    decreases |es|
  {
    hide Place, Under, Dec, TokenIndex, Grown;
    if es == [] {
      forall i: nat | i < |a| ensures Ok(a[i]) == BuiltIndex(a, es, i) { BuiltIndexNone(a, es, i); }
    } else {
      hide BuiltIndex, Build, ArrayOf, Element;
      var e, rest, i := es[0], es[1..], TokenIndex(es[0].path[0]);
      var step := Place(Element(a, i), e.path[1..], e.leaf);
      PlaceInArray(a, e, i);
      BuildStep(Arr(a), es);
      BuiltIndexFirst(a, es, i);
      if step.Ok? && i <= INT_MAX {
        var a1 := Grown(a, i, step.value);
        BuildArray(a1, rest);
        if i !in Indices(rest) { BuiltIndexNone(a1, rest, i); }
        ArrayStep(Build(Arr(a1), rest), a, es, i, step.value);
      } else {
        ArrayFails(a, es, Build(Arr(a), es).error);
      }
    }
  }

  /** An array stays an array, whatever nested entries follow. */
  lemma {:induction false} BuildStaysArray(a: seq<Value>, es: seq<Entry>)
    requires AllNested(es)
    ensures Build(Arr(a), es).Ok? ==> Build(Arr(a), es).value.Arr?
    decreases |es|
  {
    if es != [] {
      var next := Place(Arr(a), es[0].path, es[0].leaf);
      if next.Ok? { BuildStaysArray(next.value.a, es[1..]); }
    }
  }

  /** The first token met decides the kind of container a null turns into. */
  lemma FirstTokenDecides(es: seq<Entry>)
    requires es != [] && es[0].path != []
    ensures Build(Null, es) == Build(if es[0].path[0] == ZERO_TOKEN then Arr([]) else Obj(map[]), es)
  {
    hide Build;
    var ts, leaf := es[0].path, es[0].leaf;
    StoiOfDec(0);
    assert Padded([], 1) == [Null];
    assert Place(Null, ts, leaf) == Place(if ts[0] == ZERO_TOKEN then Arr([]) else Obj(map[]), ts, leaf);
    BuildStep(Null, es);
    BuildStep(if ts[0] == ZERO_TOKEN then Arr([]) else Obj(map[]), es);
  }

  lemma BuildStep(j: Value, es: seq<Entry>)
    requires es != []
    ensures var next := Place(j, es[0].path, es[0].leaf);
            Build(j, es) == if next.Ok? then Build(next.value, es[1..]) else next
  {
  }

  // ---------- which container a node turns into ----------

  /** Whether the leaves below key `k` come before those below key "0" (a leaf or not). */
  predicate ComesBeforeZero(k: Str, zeroIsLeaf: bool) {
    k == [] || k[0] < SLASH || (!zeroIsLeaf && |k| >= 2 && k[0] == ZERO && k[1] < SLASH)
  }

  /** The members of an object start with a key that makes it an object again. */
  predicate StaysObject(o: map<Str, Value>) {
    ZERO_TOKEN in o ==> exists k | k in o :: ComesBeforeZero(k, IsLeaf(o[ZERO_TOKEN]))
  }

  /** What `unflatten(flatten(v))` gives back as it was. */
  predicate Rebuildable(v: Value)
    decreases v
  {
    match v
    case Arr(a) => 0 < |a| <= INT_MAX + 1 && forall i | 0 <= i < |a| :: Rebuildable(a[i])
    case Obj(o) => o != map[] && StaysObject(o) && forall k | k in o :: Rebuildable(o[k])
    case _ => true
  }

  lemma LessAtHead(a: Str, b: Str)
    requires b != [] && (a == [] || a[0] < b[0])
    ensures Less([SLASH] + a, [SLASH] + b)
  {
    assert ([SLASH] + a)[1..] == a;
    assert ([SLASH] + b)[1..] == b;
  }

  lemma LessAtSecond(c: byte, a: Str, b: Str)
    requires b != [] && (a == [] || a[0] < b[0])
    ensures Less([SLASH, c] + a, [SLASH, c] + b)
  {
    assert ([SLASH, c] + a)[1..] == [c] + a;
    assert ([SLASH, c] + b)[1..] == [c] + b;
    assert ([c] + a)[1..] == a;
    assert ([c] + b)[1..] == b;
  }

  /** The text below key `k`: slash, escaped key, and nothing or another slash. */
  lemma TextShape(k: Str, p: Path)
    ensures ToString([k] + p) == [SLASH] + Escaped(k) + ToString(p)
    ensures p == [] ==> ToString(p) == []
    ensures p != [] ==> ToString(p) != [] && ToString(p)[0] == SLASH
  {
    ToStringCons(k, p);
    if p != [] {
      ToStringCons(p[0], p[1..]);
      assert p == [p[0]] + p[1..];
    }
  }

  lemma EscapedHead(k: Str)
    requires k != []
    ensures Escaped(k) != []
    ensures k[0] < SLASH ==> Escaped(k)[0] == k[0]
    ensures k[0] >= SLASH ==> Escaped(k)[0] > SLASH
    ensures k[0] == ZERO ==> Escaped(k) == [ZERO] + Escaped(k[1..])
    ensures k[0] > ZERO || k[0] == SLASH ==> Escaped(k)[0] > ZERO
  {
  }

  lemma ZeroText(r: Path)
    ensures ToString([ZERO_TOKEN] + r) == [SLASH, ZERO] + ToString(r)
  {
    TextShape(ZERO_TOKEN, r);
    assert Escaped(ZERO_TOKEN) == [ZERO] by { assert ZERO_TOKEN[1..] == []; }
    assert [SLASH] + [ZERO] == [SLASH, ZERO];
  }

  /** The order of the leaves below "0" and below another key is decided by the two keys alone. */
  lemma KeyOrder(k: Str, p: Path, r: Path)
    requires k != ZERO_TOKEN
    ensures ComesBeforeZero(k, r == []) ==> Less(ToString([k] + p), ToString([ZERO_TOKEN] + r))
    ensures !ComesBeforeZero(k, r == []) ==> Less(ToString([ZERO_TOKEN] + r), ToString([k] + p))
  {
    hide ToString, Less, Escaped;
    TextShape(k, p);
    TextShape(ZERO_TOKEN, r);
    ZeroText(r);
    var e, t, z := Escaped(k), ToString(p), ToString(r);
    assert [SLASH, ZERO] + z == [SLASH] + ([ZERO] + z);
    assert [SLASH] + e + t == [SLASH] + (e + t);
    if k == [] {
      EscapedEmpty();
      assert e + t == t;
      LessAtHead(t, [ZERO] + z);
    } else {
      EscapedHead(k);
      assert (e + t)[0] == e[0];
      if k[0] == ZERO {
        var e1 := Escaped(k[1..]);
        assert k == [ZERO] + k[1..];
        assert [ZERO] + [] == ZERO_TOKEN;
        EscapedHead(k[1..]);
        assert [SLASH] + e + t == [SLASH, ZERO] + (e1 + t);
        assert (e1 + t)[0] == e1[0];
        if ComesBeforeZero(k, r == []) {
          LessAtSecond(ZERO, e1 + t, z);
        } else {
          LessAtSecond(ZERO, z, e1 + t);
        }
      } else if k[0] < SLASH {
        LessAtHead(e + t, [ZERO] + z);
      } else {
        LessAtHead([ZERO] + z, e + t);
      }
    }
  }

  lemma EscapedEmpty()
    ensures Escaped([]) == []
  {
  }

  /** The first entry of an array goes to index 0. */
  lemma FirstOfArray(es: seq<Entry>, v: Value)
    requires Lists(es, v) && v.Arr? && v.a != []
    ensures es != [] && es[0].path != [] && es[0].path[0] == ZERO_TOKEN
  {
    hide Less, ToString, InOrder, LeafAt, Dec;
    LeafPathsExist(v.a[0]);
    var r :| r in LeafPaths(v.a[0]);
    LeafBelowIndex(v, 0, r);
    DecLeadingDigit(0);
    assert ZERO_TOKEN == Dec(0);
    var f := Entry([ZERO_TOKEN] + r, LeafAt(v, [ZERO_TOKEN] + r));
    assert f in es;
    var e := es[0];
    assert e in es;
    var i, p :| 0 <= i < |v.a| && p in LeafPaths(v.a[i]) && [Dec(i)] + p == e.path;
    if i != 0 {
      DecLeadingDigit(i);
      assert IsDigit(Dec(i)[0]);
      assert ZERO_TOKEN[0] == ZERO;
      KeyOrder(Dec(i), p, r);
      EarlierIsFirst(es, f);
      LessTotal(ToString(e.path), ToString(f.path));
      assert false;
    }
  }

  lemma EarlierIsFirst(es: seq<Entry>, f: Entry)
    requires InOrder(es) && f in es
    ensures es != [] && (f == es[0] || Before(es[0], f))
  {
    assert f == es[0] || f in es[1..];
  }

  /** The first entry of an object goes to key "0" exactly when no other key comes before it. */
  lemma FirstOfObject(es: seq<Entry>, v: Value)
    requires Lists(es, v) && v.Obj? && v.o != map[]
    ensures es != [] && es[0].path != []
    ensures es[0].path[0] == ZERO_TOKEN <==> !StaysObject(v.o)
  {
    hide Less, ToString, InOrder, LeafAt;
    LeafPathsExist(v);
    var some :| some in LeafPaths(v);
    assert Entry(some, LeafAt(v, some)) in es;
    var e := es[0];
    assert e in es;
    var k, p :| k in v.o && p in LeafPaths(v.o[k]) && [k] + p == e.path;
    if ZERO_TOKEN in v.o {
      if k == ZERO_TOKEN {
        LeafOrNested(v.o[k], p);
        forall x | x in v.o ensures !ComesBeforeZero(x, IsLeaf(v.o[ZERO_TOKEN])) {
          if x != k { NotEarlier(es, v, x, p); }
        }
      } else {
        LeafPathsExist(v.o[ZERO_TOKEN]);
        var r :| r in LeafPaths(v.o[ZERO_TOKEN]);
        LeafOrNested(v.o[ZERO_TOKEN], r);
        LeafBelowKey(v, ZERO_TOKEN, r);
        var f := Entry([ZERO_TOKEN] + r, LeafAt(v, [ZERO_TOKEN] + r));
        EarlierIsFirst(es, f);
        KeyOrder(k, p, r);
        LessTotal(ToString(e.path), ToString(f.path));
        assert f.path[0] != e.path[0];
        assert ComesBeforeZero(k, IsLeaf(v.o[ZERO_TOKEN]));
      }
    }
  }

  lemma LeafOrNested(v: Value, p: Path)
    requires p in LeafPaths(v)
    ensures IsLeaf(v) <==> p == []
  {
  }

  lemma NotEarlier(es: seq<Entry>, v: Value, x: Str, p: Path)
    requires Lists(es, v) && v.Obj? && v.o != map[] && x in v.o && x != ZERO_TOKEN
    requires es != [] && es[0].path == [ZERO_TOKEN] + p
    ensures !ComesBeforeZero(x, p == [])
  {
    hide Less, ToString, InOrder, LeafAt;
    LeafPathsExist(v.o[x]);
    var q :| q in LeafPaths(v.o[x]);
    LeafBelowKey(v, x, q);
    var f := Entry([x] + q, LeafAt(v, [x] + q));
    EarlierIsFirst(es, f);
    assert f.path[0] != es[0].path[0];
    KeyOrder(x, q, p);
    LessTotal(ToString(es[0].path), ToString(f.path));
  }

  // ---------- the law ----------

  lemma {:induction false} IndexedAll(es: seq<Entry>)
    requires forall e | e in es :: e.path != [] && e.path[0] == Dec(TokenIndex(e.path[0]))
    ensures AllIndexed(es)
    ensures forall i :: i in Indices(es) <==> exists e :: e in es && TokenIndex(e.path[0]) == i
  {
    hide Dec, TokenIndex;
    if es != [] {
      assert es[0] in es;
      assert forall e :: e in es <==> e == es[0] || e in es[1..];
      IndexedAll(es[1..]);
    }
  }

  lemma {:induction false} NestedAll(es: seq<Entry>)
    requires forall e | e in es :: e.path != []
    ensures AllNested(es)
    ensures forall k :: k in Heads(es) <==> exists e :: e in es && e.path[0] == k
  {
    if es != [] {
      assert es[0] in es;
      assert forall e :: e in es <==> e == es[0] || e in es[1..];
      NestedAll(es[1..]);
    }
  }

  lemma IndicesAre(es: seq<Entry>, v: Value)
    requires Lists(es, v) && v.Arr? && v.a != []
    ensures AllIndexed(es) && forall i: nat :: i in Indices(es) <==> i < |v.a|
  {
    hide Dec, TokenIndex, LeafAt, InOrder;
    forall e | e in es
      ensures e.path != [] && e.path[0] == Dec(TokenIndex(e.path[0])) && TokenIndex(e.path[0]) < |v.a|
    {
      var i, p :| 0 <= i < |v.a| && p in LeafPaths(v.a[i]) && [Dec(i)] + p == e.path;
      IndexToken(i);
    }
    IndexedAll(es);
    forall i: nat | i < |v.a| ensures i in Indices(es) {
      LeafPathsExist(v.a[i]);
      var p :| p in LeafPaths(v.a[i]);
      LeafBelowIndex(v, i, p);
      IndexToken(i);
      var e := Entry([Dec(i)] + p, LeafAt(v, [Dec(i)] + p));
      assert e in es && TokenIndex(e.path[0]) == i;
    }
  }

  lemma HeadsAre(es: seq<Entry>, v: Value)
    requires Lists(es, v) && v.Obj? && v.o != map[]
    ensures AllNested(es) && Heads(es) == v.o.Keys
  {
    hide LeafAt, InOrder;
    forall e | e in es ensures e.path != [] && e.path[0] in v.o {
      var k, p :| k in v.o && p in LeafPaths(v.o[k]) && [k] + p == e.path;
    }
    NestedAll(es);
    forall k | k in v.o ensures k in Heads(es) {
      LeafPathsExist(v.o[k]);
      var p :| p in LeafPaths(v.o[k]);
      LeafBelowKey(v, k, p);
      var e := Entry([k] + p, LeafAt(v, [k] + p));
      assert e in es && e.path[0] == k;
    }
  }

  lemma SecondInTail(es: seq<Entry>)
    ensures |es| > 1 ==> es[1] in es[1..]
  {
  }

  lemma LeafBuilt(es: seq<Entry>, v: Value)
    requires Lists(es, v) && IsLeaf(v)
    ensures Build(Null, es) == Ok(LeafValue(v))
  {
    var e := Entry([], LeafValue(v));
    assert LeafAt(v, []) == LeafValue(v);
    assert e in es;
    assert forall f | f in es :: f == e;
    assert es[0] == e;
    LessIrreflexive(ToString(e.path));
    SecondInTail(es);
    assert es == [e];
    assert es[1..] == [];
  }

  /** From the entries of a value, its tree is rebuilt exactly when it is rebuildable. */
  lemma {:induction false} Rebuilds(v: Value, es: seq<Entry>)
    requires Lists(es, v)
    ensures Rebuildable(v) ==> Build(Null, es) == Ok(v)
    ensures Build(Null, es).Ok? && Eq(Build(Null, es).value, v) ==> Rebuildable(v)
    decreases v
  {
    hide Build, Lists;
    if IsLeaf(v) {
      LeafBuilt(es, v);
    } else if v.Arr? {
      FirstOfArray(es, v);
      FirstTokenDecides(es);
      IndicesAre(es, v);
      BuildArray([], es);
      forall i | 0 <= i < |v.a|
        ensures var r := BuiltIndex([], es, i);
                (Rebuildable(v.a[i]) ==> r == Ok(v.a[i])) && (r.Ok? && Eq(r.value, v.a[i]) ==> Rebuildable(v.a[i]))
      {
        forall p ensures LeafAt(v, [Dec(i)] + p) == LeafAt(v.a[i], p)
                      && (p in LeafPaths(v.a[i]) <==> [Dec(i)] + p in LeafPaths(v))
        {
          LeafBelowIndex(v, i, p);
        }
        UnderLists(es, v, Dec(i), v.a[i]);
        Rebuilds(v.a[i], Under(es, Dec(i)));
      }
      ArrayBack(Build(Arr([]), es), v.a, es);
    } else {
      FirstOfObject(es, v);
      FirstTokenDecides(es);
      HeadsAre(es, v);
      BuildStaysArray([], es);
      BuildObject(map[], es);
      forall k | k in v.o
        ensures var r := BuiltKey(map[], es, k);
                (Rebuildable(v.o[k]) ==> r == Ok(v.o[k])) && (r.Ok? && Eq(r.value, v.o[k]) ==> Rebuildable(v.o[k]))
      {
        forall p ensures LeafAt(v, [k] + p) == LeafAt(v.o[k], p)
                      && (p in LeafPaths(v.o[k]) <==> [k] + p in LeafPaths(v))
        {
          LeafBelowKey(v, k, p);
        }
        UnderLists(es, v, k, v.o[k]);
        Rebuilds(v.o[k], Under(es, k));
      }
      ObjectBack(Build(Obj(map[]), es), v.o, es);
    }
  }

  lemma ArrayBack(r: Result<Value>, a: seq<Value>, es: seq<Entry>)
    requires a != [] && AllIndexed(es) && (forall i: nat :: i in Indices(es) <==> i < |a|) && ArrayOf(r, [], es)
    requires forall i | 0 <= i < |a| ::
               var b := BuiltIndex([], es, i);
               (Rebuildable(a[i]) ==> b == Ok(a[i])) && (b.Ok? && Eq(b.value, a[i]) ==> Rebuildable(a[i]))
    ensures Rebuildable(Arr(a)) ==> r == Ok(Arr(a))
    ensures r.Ok? && Eq(r.value, Arr(a)) ==> Rebuildable(Arr(a))
  {
    hide BuiltIndex, Build;
    if Rebuildable(Arr(a)) {
      assert r.Ok?;
      assert |r.value.a| == |a| by { assert |a| - 1 in Indices(es); }
      forall i | 0 <= i < |a| ensures r.value.a[i] == a[i] {
        assert Ok(r.value.a[i]) == BuiltIndex([], es, i);
      }
      assert r.value.a == a;
    }
    if r.Ok? && Eq(r.value, Arr(a)) {
      var last: nat := |a| - 1;
      assert last in Indices(es);
      assert last <= INT_MAX;
      forall i | 0 <= i < |a| ensures Rebuildable(a[i]) {
        assert Ok(r.value.a[i]) == BuiltIndex([], es, i);
        assert Eq(r.value.a[i], a[i]);
      }
    }
  }

  lemma ObjectBack(r: Result<Value>, o: map<Str, Value>, es: seq<Entry>)
    requires o != map[] && AllNested(es) && Heads(es) == o.Keys && ObjectOf(r, map[], es)
    requires forall k | k in o ::
               var b := BuiltKey(map[], es, k);
               (Rebuildable(o[k]) ==> b == Ok(o[k])) && (b.Ok? && Eq(b.value, o[k]) ==> Rebuildable(o[k]))
    ensures (forall k | k in o :: Rebuildable(o[k])) ==> r == Ok(Obj(o))
    ensures r.Ok? && Eq(r.value, Obj(o)) ==> forall k | k in o :: Rebuildable(o[k])
  {
    hide BuiltKey, Build;
    if forall k | k in o :: Rebuildable(o[k]) {
      assert r.Ok?;
      assert r.value.o == o;
    }
    if r.Ok? && Eq(r.value, Obj(o)) {
      forall k | k in o ensures Rebuildable(o[k]) {
        assert Ok(r.value.o[k]) == BuiltKey(map[], es, k);
      }
    }
  }

  // ---------- flatten's object as a list of entries ----------

  /** The entries in the order in which `unflatten` walks the object. */
  function EntriesOf(o: map<Str, Value>, ks: seq<Str>): seq<Entry>
    requires forall k | k in ks :: k in o && Split(k).Ok?
  {
    if ks == [] then [] else [Entry(Split(ks[0]).value, o[ks[0]])] + EntriesOf(o, ks[1..])
  }

  lemma {:induction false} MembersBuild(j: Value, o: map<Str, Value>, ks: seq<Str>)
    requires forall k | k in ks :: k in o && Split(k).Ok? && o[k].Primitive()
    ensures PlaceMembers(j, o, ks) == Build(j, EntriesOf(o, ks))
    decreases |ks|
  {
    hide Place, Split;
    if ks != [] {
      assert ks[0] in ks;
      var next := Place(j, Split(ks[0]).value, o[ks[0]]);
      if next.Ok? { MembersBuild(next.value, o, ks[1..]); }
    }
  }

  lemma {:induction false} EntriesInOrder(o: map<Str, Value>, ks: seq<Str>)
    requires forall k | k in ks :: k in o && Split(k).Ok?
    requires Ascending(ks)
    ensures InOrder(EntriesOf(o, ks))
    ensures forall e :: e in EntriesOf(o, ks) <==> exists k :: k in ks && e == Entry(Split(k).value, o[k])
  {
    hide Split, Less, ToString;
    if ks != [] {
      var first, rest := Entry(Split(ks[0]).value, o[ks[0]]), EntriesOf(o, ks[1..]);
      EntriesInOrder(o, ks[1..]);
      assert forall k :: k in ks <==> k == ks[0] || k in ks[1..];
      assert EntriesOf(o, ks)[1..] == rest;
      forall f | f in rest ensures Before(first, f) {
        var k :| k in ks[1..] && f == Entry(Split(k).value, o[k]);
        var i :| 0 <= i < |ks[1..]| && ks[1..][i] == k;
        ToStringOfSplit(ks[0]);
        ToStringOfSplit(k);
        assert Less(ks[0], ks[i + 1]);
      }
    }
  }

  lemma {:induction false} LeavesArePrimitive(v: Value, p: Path)
    ensures LeafAt(v, p).Primitive()
    decreases v
  {
    if IsLeaf(v) || p == [] {
    } else if v.Arr? {
      if TokenIndex(p[0]) < |v.a| { LeavesArePrimitive(v.a[TokenIndex(p[0])], p[1..]); }
    } else if p[0] in v.o {
      LeavesArePrimitive(v.o[p[0]], p[1..]);
    }
  }

  lemma FlatKeys(v: Value)
    ensures var m := FlatFrom([], v, map[]);
            && (forall k :: k in m <==> exists p :: p in LeafPaths(v) && k == ToString(p))
            && (forall p | p in LeafPaths(v) :: ToString(p) in m && m[ToString(p)] == LeafAt(v, p))
  {
    hide FlatFrom, LeafPaths, LeafAt, ToString;
    FlatRecords([], v, map[]);
    var m := FlatFrom([], v, map[]);
    forall p ensures [] + ToString(p) == ToString(p) { }
    forall k ensures k in m <==> exists p :: p in LeafPaths(v) && k == ToString(p) {
      assert k in m <==> Names(k, [], LeafPaths(v));
    }
  }

  lemma PathOfKey(v: Value, k: Str) returns (p: Path)
    requires k in FlatFrom([], v, map[])
    ensures p in LeafPaths(v) && k == ToString(p)
  {
    hide FlatFrom;
    FlatKeys(v);
    p :| p in LeafPaths(v) && k == ToString(p);
  }

  lemma FlatLists(v: Value, ks: seq<Str>)
    requires Ascending(ks) && forall k :: k in ks <==> k in FlatFrom([], v, map[])
    ensures var m := FlatFrom([], v, map[]);
            && (forall k | k in ks :: k in m && Split(k).Ok? && m[k].Primitive())
            && Lists(EntriesOf(m, ks), v)
  {
    hide FlatFrom, LeafPaths, LeafAt, ToString, Split, InOrder, EntriesOf;
    var m := FlatFrom([], v, map[]);
    forall k | k in ks ensures k in m && Split(k).Ok? && m[k].Primitive() { KeyEntry(v, k); }
    EntriesInOrder(m, ks);
    forall e | e in EntriesOf(m, ks) ensures e.path in LeafPaths(v) && e.leaf == LeafAt(v, e.path) {
      var k :| k in ks && e == Entry(Split(k).value, m[k]);
      KeyEntry(v, k);
    }
    forall p | p in LeafPaths(v) ensures Entry(p, LeafAt(v, p)) in EntriesOf(m, ks) {
      LeafEntry(v, p);
      assert ToString(p) in ks;
    }
  }

  lemma KeyEntry(v: Value, k: Str)
    requires k in FlatFrom([], v, map[])
    ensures var m := FlatFrom([], v, map[]);
            Split(k).Ok? && m[k].Primitive() && Split(k).value in LeafPaths(v) && m[k] == LeafAt(v, Split(k).value)
  {
    hide FlatFrom, LeafPaths, LeafAt, ToString, Split;
    FlatKeys(v);
    var p := PathOfKey(v, k);
    SplitOfToString(p);
    LeavesArePrimitive(v, p);
  }

  lemma LeafEntry(v: Value, p: Path)
    requires p in LeafPaths(v)
    ensures var m := FlatFrom([], v, map[]);
            ToString(p) in m && Split(ToString(p)) == Ok(p) && m[ToString(p)] == LeafAt(v, p)
  {
    hide FlatFrom, LeafPaths, LeafAt, ToString, Split;
    FlatKeys(v);
    SplitOfToString(p);
  }

  /** `at` follows a leaf's path to that leaf. */
  lemma {:induction false} LeafResolves(v: Value, p: Path)
    requires Indexable(v) && p in LeafPaths(v)
    ensures Get(v, p).Ok? && IsLeaf(Get(v, p).value) && LeafValue(Get(v, p).value) == LeafAt(v, p)
    decreases v
  {
    if IsLeaf(v) {
    } else if v.Arr? {
      var i, q :| 0 <= i < |v.a| && q in LeafPaths(v.a[i]) && [Dec(i)] + q == p;
      assert p[1..] == q && p[0] == Dec(i);
      IndexOfDec(i, |v.a|);
      LeafBelowIndex(v, i, q);
      LeafResolves(v.a[i], q);
    } else {
      var k, q :| k in v.o && q in LeafPaths(v.o[k]) && [k] + q == p;
      assert p[1..] == q && p[0] == k;
      LeafBelowKey(v, k, q);
      LeafResolves(v.o[k], q);
    }
  }

  /** Every key of `flatten` is a pointer that `at` resolves to the leaf recorded under it. */
  lemma FlattenMapsLeaves(v: Value, key: Str)
    requires Indexable(v)
    ensures var m := FlatFrom([], v, map[]);
            key in m ==>
              Split(key).Ok? && Get(v, Split(key).value).Ok?
              && IsLeaf(Get(v, Split(key).value).value) && m[key] == LeafValue(Get(v, Split(key).value).value)
  {
    hide FlatFrom, LeafPaths, LeafAt, ToString, Split, Get, Indexable;
    if key in FlatFrom([], v, map[]) {
      var p := PathOfKey(v, key);
      FlatKeys(v);
      SplitOfToString(p);
      LeafResolves(v, p);
    }
  }

  /** `j.flatten().unflatten()`. */
  function FlattenUnflatten(v: Value): Result<Value> { Unflattened(Obj(FlatFrom([], v, map[]))) }

  /** A rebuildable value comes back identical; any other comes back different, or not at all. */
  lemma UnflattenOfFlatten(v: Value)
    ensures Rebuildable(v) ==> FlattenUnflatten(v) == Ok(v)
    ensures FlattenUnflatten(v).Ok? && Eq(FlattenUnflatten(v).value, v) <==> Rebuildable(v) && NaNFree(v)
  {
    hide FlatFrom, SortedKeys, PlaceMembers, Build, Lists, Rebuildable, Split, EntriesOf, Eq;
    var m := FlatFrom([], v, map[]);
    var ks := SortedKeys(m.Keys);
    FlatLists(v, ks);
    MembersBuild(Null, m, ks);
    Rebuilds(v, EntriesOf(m, ks));
    EqReflexive(v);
    var r := FlattenUnflatten(v);
    if r.Ok? && Eq(r.value, v) { EqNeedsNaNFree(r.value, v); }
  }

  lemma ZeroIsSplit()
    ensures Escaped(ZERO_TOKEN) == ZERO_TOKEN && Split([SLASH, 48]) == Ok([ZERO_TOKEN])
  {
    hide Split;
    DigitsNeedNoEscape(ZERO_TOKEN);
    SplitOfToString([ZERO_TOKEN]);
    assert ToString([ZERO_TOKEN]) == [SLASH, 48];
  }

  lemma LetterIsSplit()
    ensures Escaped([65]) == [65] && Split([SLASH, 65]) == Ok([[65]])
  {
    hide Split;
    assert Escaped([65]) == [65] + Escaped([]);
    SplitOfToString([[65]]);
    assert ToString([[65]]) == [SLASH, 65];
  }

  lemma FlatNulls(v: Value, ks: seq<Str>, i: nat, acc: map<Str, Value>)
    requires v.Obj? && i < |ks| && forall k | k in ks :: k in v.o && v.o[k] == Null
    ensures FlatMembers([], v, ks[i..], acc) == FlatMembers([], v, ks[i + 1..], acc[[SLASH] + Escaped(ks[i]) := Null])
  {
    hide Escaped;
    MemberStep([], v, ks, i, acc);
    assert [] + [SLASH] + Escaped(ks[i]) == [SLASH] + Escaped(ks[i]);
  }

  lemma FlatInOrder(v: Value, ks: seq<Str>)
    requires v.Obj? && v.o != map[] && Ascending(ks) && forall k :: k in ks <==> k in v.o
    ensures FlatFrom([], v, map[]) == FlatMembers([], v, ks[0..], map[])
  {
    hide FlatFrom, FlatMembers;
    FlatUnfolds([], v, map[]);
    AscendingUnique(SortedKeys(v.o.Keys), ks);
    assert ks[0..] == ks;
  }

  lemma PlacedInOrder(m: map<Str, Value>, ks: seq<Str>)
    requires Ascending(ks) && forall k :: k in ks <==> k in m
    ensures Unflattened(Obj(m)) == PlaceMembers(Null, m, ks)
  {
    hide PlaceMembers;
    AscendingUnique(SortedKeys(m.Keys), ks);
  }

  lemma ZeroPlaced()
    ensures Place(Null, [ZERO_TOKEN], Null) == Ok(Arr([Null]))
    ensures Place(Arr([Null]), [[65]], Null) == Err(InvalidArgument)
  {
    assert Place(Null, [ZERO_TOKEN][1..], Null) == Ok(Null);
    assert [Null][0 := Null] == [Null];
    assert Stoi([65]) == Err(InvalidArgument);
  }

  /** An object turned into an array. */
  lemma ZeroKeyBecomesArray()
    ensures FlattenUnflatten(Obj(map[ZERO_TOKEN := Null])) == Ok(Arr([Null]))
  {
    hide SortedKeys, Split, Escaped, FlatFrom, Place, Unflattened;
    var v := Obj(map[ZERO_TOKEN := Null]);
    assert ZERO_TOKEN in v.o;
    FlatInOrder(v, [ZERO_TOKEN]);
    ZeroIsSplit();
    FlatNulls(v, [ZERO_TOKEN], 0, map[]);
    var m: map<Str, Value> := map[[SLASH] + ZERO_TOKEN := Null];
    assert FlatMembers([], v, [ZERO_TOKEN][1..], m) == m;
    PlacedInOrder(m, [[SLASH] + ZERO_TOKEN]);
    assert [SLASH] + ZERO_TOKEN == [SLASH, 48];
    ZeroPlaced();
  }

  /** An object turned into an array, in which another of its keys is no index. */
  lemma ZeroKeyBreaksOff()
    ensures FlattenUnflatten(Obj(map[ZERO_TOKEN := Null, [65] := Null])) == Err(InvalidArgument)
  {
    hide SortedKeys, Split, Escaped, FlatFrom, FlatMembers, Place, Unflattened, PlaceMembers;
    var v := Obj(map[ZERO_TOKEN := Null, [65] := Null]);
    var ks := [ZERO_TOKEN, [65]];
    assert ZERO_TOKEN in v.o;
    FlatInOrder(v, ks);
    ZeroIsSplit();
    LetterIsSplit();
    FlatNulls(v, ks, 0, map[]);
    var m: map<Str, Value> := map[[SLASH] + ZERO_TOKEN := Null];
    FlatNulls(v, ks, 1, m);
    var both := m[[SLASH] + [65] := Null];
    assert FlatMembers([], v, ks[2..], both) == both by { MemberStep([], v, ks, 2, both); }
    BothPlaced(both);
  }

  lemma BothPlaced(m: map<Str, Value>)
    requires m == map[[SLASH] + ZERO_TOKEN := Null][[SLASH] + [65] := Null]
    ensures Unflattened(Obj(m)) == Err(InvalidArgument)
  {
    hide Split, Place, Unflattened;
    ZeroIsSplit();
    LetterIsSplit();
    var ps := [[SLASH] + ZERO_TOKEN, [SLASH] + [65]];
    LessAtHead(ZERO_TOKEN, [65]);
    PlacedInOrder(m, ps);
    assert [SLASH] + ZERO_TOKEN == [SLASH, 48] && [SLASH] + [65] == [SLASH, 65];
    ZeroPlaced();
    assert ps[1..] == [[SLASH, 65]];
  }

  /** A key `"0"` makes an array of an object, unless another key sorts in front of it. */
  lemma ZeroKeyExamples()
    ensures FlattenUnflatten(Obj(map[ZERO_TOKEN := Null])) == Ok(Arr([Null]))
    ensures FlattenUnflatten(Obj(map[ZERO_TOKEN := Null, [65] := Null])) == Err(InvalidArgument)
    ensures var saved := Obj(map[ZERO_TOKEN := Null, [] := Null]); FlattenUnflatten(saved) == Ok(saved)
  {
    hide FlattenUnflatten, Rebuildable;
    ZeroKeyBecomesArray();
    ZeroKeyBreaksOff();
    EmptyKeySaves();
    UnflattenOfFlatten(Obj(map[ZERO_TOKEN := Null, [] := Null]));
  }

  lemma EmptyKeySaves()
    ensures Rebuildable(Obj(map[ZERO_TOKEN := Null, [] := Null]))
  {
    var saved: map<Str, Value> := map[ZERO_TOKEN := Null, [] := Null];
    assert [] in saved && saved != map[];
  }
}
