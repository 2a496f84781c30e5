/** What both binary formats are made of: numbers in bytes, doubles, and names with values. */
module DataItems {
  import opened Bytes
  import opened Results
  import opened Values
  import opened BigEndian
  import opened HalfLaw

  // ---------- numbers ----------

  /** The number of one, two, four or eight bytes, most significant first. */
  function Weighed(b: Str): nat
    requires |b| in {1, 2, 4, 8}
  {
    if |b| == 1 then b[0]
    else if |b| == 2 then 0x100 * (b[0] as int) + b[1]
    else if |b| == 4 then 0x100_0000 * (b[0] as int) + 0x1_0000 * (b[1] as int) + 0x100 * (b[2] as int) + b[3]
    else
      0x100_0000_0000_0000 * (b[0] as int) + 0x1_0000_0000_0000 * (b[1] as int)
      + 0x100_0000_0000 * (b[2] as int) + 0x1_0000_0000 * (b[3] as int)
      + 0x100_0000 * (b[4] as int) + 0x1_0000 * (b[5] as int) + 0x100 * (b[6] as int) + b[7]
  }

  /** The bytes of a finite number of four bytes behind `first`, and the double that denotes it. */
  predicate SingleItem(b: Str, first: byte, bits: uint64) {
    && |b| == 5 && b[0] == first
    && var s := Weighed(b[1..]);
       s / 0x80_0000 % 0x100 != 255 && Denotes(bits, s >= 0x8000_0000, SingleNumber(s))
  }

  predicate DoubleItem(b: Str, first: byte, bits: uint64) {
    |b| == 9 && b[0] == first && bits == Weighed(b[1..]) && IsFinite(bits)
  }

  predicate InfiniteSingle(b: Str, first: byte) {
    |b| == 5 && b[0] == first && Weighed(b[1..]) / 0x80_0000 % 0x100 == 255
  }

  predicate InfiniteDouble(b: Str, first: byte) {
    |b| == 9 && b[0] == first && Weighed(b[1..]) / 0x10_0000_0000_0000 % 0x800 == 2047
  }

  lemma WeighedIs(b: Str)
    requires |b| in {1, 2, 4, 8}
    ensures Weighed(b) == FromBE(b)
  {
    hide FromBE;
    if |b| == 8 {
      FromBEEight(b);
    } else {
      FromBEShort(b);
      if |b| >= 2 { FromBEPair(b); }
      if |b| == 4 { FromBEPair(b[..2]); }
      FromBEShort([]);
    }
  }

  lemma FromBEEight(b: Str)
    requires |b| == 8
    ensures FromBE(b) == Weighed(b)
  {
    hide FromBE;
    var six, four, two := b[..6], b[..4], b[..2];
    assert six[..4] == four && four[..2] == two && two[..0] == [];
    FromBEPair(b);
    FromBEPair(six);
    FromBEPair(four);
    FromBEPair(two);
    FromBEShort([]);
  }

  lemma FromBEShort(b: Str)
    ensures b == [] ==> FromBE(b) == 0
    ensures |b| == 1 ==> FromBE(b) == b[0]
  {
    if |b| == 1 { assert b[..0] == []; }
  }

  lemma FromBEPair(b: Str)
    requires |b| >= 2
    ensures FromBE(b) == 0x1_0000 * FromBE(b[..|b| - 2]) + 0x100 * (b[|b| - 2] as int) + b[|b| - 1]
  {
    var c := b[..|b| - 1];
    assert c[..|c| - 1] == b[..|b| - 2];
  }

  lemma NumberIs(v: Str, at: nat, b: Str)
    requires |b| in {2, 3, 5, 9} && Stands(v, at, b)
    ensures NumberAt(v, at, |b| - 1) == Ok(Weighed(b[1..]))
  {
    hide FromBE, Weighed;
    WeighedIs(b[1..]);
    assert v[at + 1..at + |b|] == v[at..at + |b|][1..] == b[1..];
  }

  lemma WeighedBound(b: Str)
    requires |b| in {1, 2, 4, 8}
    ensures Weighed(b) <= UINT64_MAX
    ensures (|b| == 2 ==> Weighed(b) < 0x1_0000) && (|b| == 4 ==> Weighed(b) < 0x1_0000_0000)
  {
  }

  lemma FiniteBits(bits: uint64)
    ensures IsFinite(bits) <==> bits / 0x10_0000_0000_0000 % 0x800 != 2047
  {
  }

  lemma FirstOf(v: Str, at: nat, b: Str)
    requires b != [] && Stands(v, at, b)
    ensures v[at] == b[0]
  {
    assert v[at..at + |b|][0] == v[at];
  }

  // ---------- names and values ----------

  type Pair = (Str, Value)

  predicate Distinct(ps: seq<Pair>) { forall i, k | 0 <= i < k < |ps| :: ps[i].0 != ps[k].0 }

  /** The object that has the names of all pairs, each with the value it has last. */
  ghost predicate Gathers(ps: seq<Pair>, o: map<Str, Value>) {
    && (forall i | 0 <= i < |ps| :: ps[i].0 in o)
    && (forall k | k in o :: exists i :: 0 <= i < |ps| && LastOf(ps, i) && ps[i] == (k, o[k]))
  }

  predicate LastOf(ps: seq<Pair>, i: nat)
    requires i < |ps|
  {
    forall k | i < k < |ps| :: ps[k].0 != ps[i].0
  }

  /** Inserting the pairs in order. */
  function Collect(ps: seq<Pair>, acc: map<Str, Value>): map<Str, Value> {
    if ps == [] then acc else Collect(ps[1..], acc[ps[0].0 := ps[0].1])
  }

  lemma {:induction false} CollectLast(ps: seq<Pair>, p: Pair, acc: map<Str, Value>)
    ensures Collect(ps + [p], acc) == Collect(ps, acc)[p.0 := p.1]
  {
    if ps == [] {
      assert [p][1..] == [] && ps + [p] == [p];
    } else {
      assert (ps + [p])[1..] == ps[1..] + [p];
      CollectLast(ps[1..], p, acc[ps[0].0 := ps[0].1]);
    }
  }

  lemma GathersOneMore(ps: seq<Pair>, p: Pair, o: map<Str, Value>)
    requires Gathers(ps, o)
    ensures Gathers(ps + [p], o[p.0 := p.1])
  {
    var all, next := ps + [p], o[p.0 := p.1];
    forall k | k in next
      ensures exists i :: 0 <= i < |all| && LastOf(all, i) && all[i] == (k, next[k])
    {
      if k == p.0 {
        assert LastOf(all, |ps|) && all[|ps|] == (k, next[k]);
      } else {
        var i :| 0 <= i < |ps| && LastOf(ps, i) && ps[i] == (k, o[k]);
        assert all[i] == ps[i];
        assert LastOf(all, i);
      }
    }
  }

  /** Inserting in order gathers the pairs. */
  lemma {:induction false} CollectGathers(ps: seq<Pair>)
    ensures Gathers(ps, Collect(ps, map[]))
    decreases |ps|
  {
    if ps != [] {
      var front, p := ps[..|ps| - 1], ps[|ps| - 1];
      assert ps == front + [p];
      CollectGathers(front);
      CollectLast(front, p, map[]);
      GathersOneMore(front, p, Collect(front, map[]));
    }
  }

  lemma GathersOnce(ps: seq<Pair>, o: map<Str, Value>, p: map<Str, Value>)
    requires Gathers(ps, o) && Gathers(ps, p)
    ensures o == p
  {
    forall k | k in o
      ensures k in p && o[k] == p[k]
    {
      var i :| 0 <= i < |ps| && LastOf(ps, i) && ps[i] == (k, o[k]);
      assert ps[i].0 in p;
      var m :| 0 <= m < |ps| && LastOf(ps, m) && ps[m] == (k, p[k]);
      assert i == m;
    }
    forall k | k in p
      ensures k in o
    {
      var i :| 0 <= i < |ps| && LastOf(ps, i) && ps[i] == (k, p[k]);
      assert ps[i].0 in o;
    }
  }

  /** Names and values in the order of the names. */
  function NormPairs(o: map<Str, Value>, ks: seq<Str>): seq<Pair>
    requires forall k | k in ks :: k in o
  {
    seq(|ks|, i requires 0 <= i < |ks| => (ks[i], Norm(o[ks[i]])))
  }

  lemma PairsGather(o: map<Str, Value>, ks: seq<Str>)
    requires Ascending(ks) && forall k :: k in ks <==> k in o
    ensures Gathers(NormPairs(o, ks), Norm(Obj(o)).o) && Distinct(NormPairs(o, ks))
  {
    var ps, p := NormPairs(o, ks), Norm(Obj(o)).o;
    forall i, k | 0 <= i < k < |ps|
      ensures ps[i].0 != ps[k].0
    {
      assert Less(ks[i], ks[k]);
      LessIrreflexive(ks[i]);
    }
    forall k | k in p
      ensures exists i :: 0 <= i < |ps| && LastOf(ps, i) && ps[i] == (k, p[k])
    {
      var i :| 0 <= i < |ks| && ks[i] == k;
      assert LastOf(ps, i) && ps[i] == (k, p[k]);
    }
  }

  // ---------- parts of what stands in a vector ----------

  lemma Halved(v: Str, at: nat, b: Str, k: nat)
    requires k <= |b| && Stands(v, at, b)
    ensures Stands(v, at, b[..k]) && Stands(v, at + k, b[k..])
  {
    assert b == b[..k] + b[k..];
    StandsSplit(v, at, b[..k], b[k..]);
  }

  lemma Thirds(v: Str, at: nat, b: Str, k: nat, m: nat)
    requires k <= m <= |b| && Stands(v, at, b)
    ensures Stands(v, at, b[..k]) && Stands(v, at + k, b[k..m]) && Stands(v, at + m, b[m..])
  {
    Halved(v, at, b, m);
    Halved(v, at, b[..m], k);
    assert b[..m][..k] == b[..k] && b[..m][k..] == b[k..m];
  }

  lemma Slices(v: Str, at: nat, next: nat, end: nat)
    requires at <= next <= end <= |v|
    ensures v[at..end][..next - at] == v[at..next] && v[at..end][next - at..] == v[next..end]
  {
  }

  lemma Inner(v: Str, at: nat, mid: nat, next: nat, end: nat)
    requires at <= mid <= next <= end <= |v|
    ensures v[at..end][..mid - at] == v[at..mid] && v[at..end][mid - at..next - at] == v[mid..next]
    ensures v[at..end][next - at..] == v[next..end]
  {
    Slices(v, at, next, end);
    Slices(v, at, mid, next);
    assert v[at..end][mid - at..next - at] == v[at..end][..next - at][mid - at..];
  }

  lemma AppendedHead(h: Str, s: Str)
    requires h != []
    ensures (h + s)[..|h|] == h && (h + s)[|h|..] == s
  {
  }

  lemma MemberParts(a: Str, b: Str, c: Str)
    ensures var s, m := a + b + c, |a| + |b|; s[..|a|] == a && s[|a|..m] == b && s[m..] == c
  {
  }
}
