/** `from_cbor` reads the data items of RFC 7049, as what they stand for, and nothing else. */
module CborMeaning {
  import opened Bytes
  import opened Results
  import opened Values
  import opened BigEndian
  import opened Halves
  import opened HalfLaw
  import opened Cbor
  import opened CborLaw
  import opened DataItems
  import opened CborStandard

  // ---------- heads ----------

  /** A head is read as such, in every width. */
  lemma HeadRead(v: Str, at: nat, h: Str, major: nat, n: nat)
    requires major < 7 && IsHead(h, major, n) && Stands(v, at, h)
    ensures h != [] && v[at] == h[0] && v[at] / 32 == major && v[at] % 32 < 28 && n <= UINT64_MAX
    ensures Argument(v, at, v[at] % 32) == Ok((n, at + |h|))
  {
    hide Weighed, NumberAt;
    assert v[at..at + |h|][0] == v[at];
    if |h| > 1 {
      NumberIs(v, at, h);
      WeighedBound(h[1..]);
    }
  }

  /** What is read as a head is one. */
  lemma HeadFound(v: Str, at: nat)
    requires at < |v| && v[at] / 32 < 7 && v[at] % 32 < 28 && Argument(v, at, v[at] % 32).Ok?
    ensures var (n, next) := Argument(v, at, v[at] % 32).value;
            at < next <= |v| && IsHead(v[at..next], v[at] / 32, n)
  {
    hide Weighed, NumberAt;
    var info := v[at] % 32;
    if info < 24 {
      assert v[at..at + 1] == [v[at]];
    } else {
      var b := v[at..at + 1 + WidthOf(info)];
      assert Stands(v, at, b);
      NumberIs(v, at, b);
      assert b[0] == v[at];
    }
  }

  // ---------- floating-point numbers ----------

  lemma FloatRead(v: Str, at: nat, b: Str, bits: uint64)
    requires FloatItem(b, bits) && Stands(v, at, b)
    ensures Decode(v, at) == Ok((Float(bits), at + |b|))
  {
    hide Weighed, NumberAt, HalfToDouble, SingleToDouble, Denotes, HalfNumber, SingleNumber, IsFinite;
    Powers();
    FirstOf(v, at, b);
    NumberIs(v, at, b);
    WeighedBound(b[1..]);
    var n := Weighed(b[1..]);
    if |b| == 5 {
      SingleDenotes(n);
      SingleIsFinite(n);
      DenotesOnce(bits, SingleToDouble(n), n >= 0x8000_0000, SingleNumber(n));
    } else if |b| == 3 {
      HalfDenotes(n);
      HalfIsFinite(n);
      DenotesOnce(bits, HalfToDouble(n), n >= 0x8000, HalfNumber(n));
    }
  }

  lemma InfiniteRead(v: Str, at: nat, b: Str)
    requires InfiniteItem(b) && Stands(v, at, b)
    ensures Decode(v, at) == Ok((Null, at + |b|))
  {
    hide Weighed, NumberAt, HalfToDouble, SingleToDouble, IsFinite;
    Powers();
    FirstOf(v, at, b);
    NumberIs(v, at, b);
    WeighedBound(b[1..]);
    var n := Weighed(b[1..]);
    if |b| == 9 { FiniteBits(n); }
    if |b| == 5 { SingleIsFinite(n); }
    if |b| == 3 { HalfIsFinite(n); }
  }

  lemma SimpleFound(v: Str, at: nat)
    requires at < |v| && v[at] / 32 == 7 && SimpleAt(v, at).Ok?
    ensures var (x, next) := SimpleAt(v, at).value; Represents(v[at..next], x, false)
  {
    hide Weighed, NumberAt, HalfToDouble, SingleToDouble, Denotes, HalfNumber, SingleNumber, IsFinite;
    Powers();
    var (x, next) := SimpleAt(v, at).value;
    var b := v[at..next];
    assert b[0] == v[at];
    assert Stands(v, at, b);
    if |b| > 1 {
      NumberIs(v, at, b);
      var n := Weighed(b[1..]);
      if |b| == 9 { FiniteBits(n); }
      if |b| == 5 {
        SingleIsFinite(n);
        if IsFinite(SingleToDouble(n)) { SingleDenotes(n); }
      }
      if |b| == 3 {
        HalfIsFinite(n);
        if IsFinite(HalfToDouble(n)) { HalfDenotes(n); }
      }
    }
  }

  // ---------- what stands for a value is read as it ----------

  lemma NotBreak(b: Str, x: Value)
    requires Represents(b, x, false)
    ensures b != [] && b[0] != 0xff
  {
    hide Weighed, FloatItem;
    match x
    case Null => InfiniteFirst(b);
    case Float(bits) => FloatFirst(b, bits);
    case Text(s) => TextFirst(b, s);
    case Arr(a) =>
      if k :| 0 < k <= |b| && IsHead(b[..k], 4, |a|) && Items(b[k..], a, false) { HeadFirst(b[..k], 4, |a|); }
    case Obj(o) =>
      var ps: seq<Pair> :| Gathers(ps, o) && MapItem(b, ps, false);
      if k :| 0 < k <= |b| && IsHead(b[..k], 5, |ps|) && Pairs(b[k..], ps, false) { HeadFirst(b[..k], 5, |ps|); }
    case _ =>
  }

  lemma InfiniteFirst(b: Str)
    ensures InfiniteItem(b) ==> b != [] && b[0] != 0xff
  {
    hide Weighed;
  }

  lemma FloatFirst(b: Str, bits: uint64)
    requires FloatItem(b, bits)
    ensures b != [] && b[0] in {0xf9, 0xfa, 0xfb}
  {
    hide Weighed, Denotes, HalfNumber, SingleNumber;
  }

  lemma HeadFirst(h: Str, major: nat, n: nat)
    requires major < 7 && IsHead(h, major, n)
    ensures h != [] && 0x20 * major <= h[0] < 0x20 * major + 28
  {
    hide Weighed;
  }

  lemma TextFirst(b: Str, s: Str)
    requires TextItem(b, s, false)
    ensures b != [] && b[0] != 0xff
  {
    if k :| 0 < k <= |b| && IsHead(b[..k], 3, |s|) && b[k..] == s { HeadFirst(b[..k], 3, |s|); }
  }

  lemma OpenStands(v: Str, at: nat, b: Str, first: byte)
    requires Open(b, first) && Stands(v, at, b)
    ensures v[at] == first && Stands(v, at + 1, b[1..|b| - 1]) && at + |b| <= |v| && v[at + |b| - 1] == 0xff
  {
    FirstOf(v, at, b);
    Halved(v, at, b, |b| - 1);
    Halved(v, at, b[..|b| - 1], 1);
    assert b[..|b| - 1][1..] == b[1..|b| - 1];
    FirstOf(v, at + |b| - 1, b[|b| - 1..]);
  }

  lemma {:induction false} ItemsAreRead(v: Str, at: nat, b: Str, a: seq<Value>, acc: seq<Value>)
    requires Items(b, a, false) && Stands(v, at, b)
    ensures DecodeItems(v, at, |a|, acc) == Ok((Arr(acc + a), at + |b|))
    decreases |b|, 2
  {
    hide Decode, Represents;
    if a == [] {
      assert acc + a == acc;
    } else {
      var k :| 0 < k <= |b| && Represents(b[..k], a[0], false) && Items(b[k..], a[1..], false);
      Halved(v, at, b, k);
      IsRead(v, at, b[..k], a[0]);
      ItemsAreRead(v, at + k, b[k..], a[1..], acc + [a[0]]);
      assert acc + [a[0]] + a[1..] == acc + a;
    }
  }

  lemma {:induction false} OpenItemsAreRead(v: Str, at: nat, b: Str, a: seq<Value>, acc: seq<Value>)
    requires Items(b, a, false) && Stands(v, at, b) && at + |b| < |v| && v[at + |b|] == 0xff
    ensures DecodeOpenItems(v, at, acc) == Ok((Arr(acc + a), at + |b| + 1))
    decreases |b|, 2
  {
    hide Decode, Represents;
    if a == [] {
      assert acc + a == acc;
    } else {
      var k :| 0 < k <= |b| && Represents(b[..k], a[0], false) && Items(b[k..], a[1..], false);
      Halved(v, at, b, k);
      NotBreak(b[..k], a[0]);
      FirstOf(v, at, b[..k]);
      IsRead(v, at, b[..k], a[0]);
      OpenItemsAreRead(v, at + k, b[k..], a[1..], acc + [a[0]]);
      assert acc + [a[0]] + a[1..] == acc + a;
    }
  }

  lemma {:induction false} ChunksAreRead(v: Str, at: nat, b: Str, s: Str, acc: Str)
    requires Chunks(b, s, false) && Stands(v, at, b) && at + |b| < |v| && v[at + |b|] == 0xff
    ensures DecodeChunks(v, at, acc) == Ok((Text(acc + s), at + |b| + 1))
    decreases |b|, 2
  {
    hide Decode, TextItem, DecodeChunks;
    if b == [] {
      NoChunk(v, at, acc);
      assert acc + s == acc;
    } else {
      var k, m :| 0 < k <= |b| && 0 <= m <= |s| && TextItem(b[..k], s[..m], false) && Chunks(b[k..], s[m..], false);
      Halved(v, at, b, k);
      TextFirst(b[..k], s[..m]);
      FirstOf(v, at, b[..k]);
      TextIsRead(v, at, b[..k], s[..m]);
      ChunkStep(v, at, acc, s[..m], at + k);
      ChunksAreRead(v, at + k, b[k..], s[m..], acc + s[..m]);
      assert acc + s[..m] + s[m..] == acc + s;
    }
  }

  lemma NoChunk(v: Str, at: nat, acc: Str)
    requires at < |v| && v[at] == 0xff
    ensures DecodeChunks(v, at, acc) == Ok((Text(acc), at + 1))
  {
  }

  lemma ChunkStep(v: Str, at: nat, acc: Str, s: Str, next: nat)
    requires at < |v| && v[at] != 0xff && Decode(v, at) == Ok((Text(s), next))
    ensures next <= |v| && DecodeChunks(v, at, acc) == DecodeChunks(v, next, acc + s)
  {
    hide Decode;
  }

  lemma {:induction false} TextIsRead(v: Str, at: nat, b: Str, s: Str)
    requires TextItem(b, s, false) && Stands(v, at, b)
    ensures Decode(v, at) == Ok((Text(s), at + |b|))
    decreases |b|, 0
  {
    hide IsHead, Argument, DecodeChunks;
    if k :| 0 < k <= |b| && IsHead(b[..k], 3, |s|) && b[k..] == s {
      Halved(v, at, b, k);
      HeadRead(v, at, b[..k], 3, |s|);
      assert v[at + k..at + k + |s|] == s;
    } else {
      OpenStands(v, at, b, 0x7f);
      ChunksAreRead(v, at + 1, b[1..|b| - 1], s, []);
      assert [] + s == s;
    }
  }

  lemma PairsParts(b: Str, ps: seq<Pair>) returns (k: nat, m: nat)
    requires ps != [] && Pairs(b, ps, false)
    ensures 0 < k < m <= |b| && TextItem(b[..k], ps[0].0, false) && Represents(b[k..m], ps[0].1, false)
    ensures Pairs(b[m..], ps[1..], false)
  {
    hide TextItem, Represents;
    k, m :| 0 < k < m <= |b| && TextItem(b[..k], ps[0].0, false) && Represents(b[k..m], ps[0].1, false)
            && Pairs(b[m..], ps[1..], false);
  }

  lemma NoPairs(b: Str)
    requires Pairs(b, [], false)
    ensures b == []
  {
  }

  lemma {:induction false} PairsAreRead(v: Str, at: nat, b: Str, ps: seq<Pair>, acc: map<Str, Value>)
    requires Pairs(b, ps, false) && Stands(v, at, b)
    ensures DecodeMembers(v, at, |ps|, acc) == Ok((Obj(Collect(ps, acc)), at + |b|))
    decreases |b|, 2
  {
    hide Decode, Represents, TextItem, DecodeMembers, Pairs;
    if ps == [] {
      NoPairs(b);
      NoMember(v, at, acc);
    } else {
      var k, m := PairsParts(b, ps);
      Thirds(v, at, b, k, m);
      TextIsRead(v, at, b[..k], ps[0].0);
      IsRead(v, at + k, b[k..m], ps[0].1);
      MemberStep(v, at, |ps|, acc, ps[0].0, at + k, ps[0].1, at + m);
      PairsAreRead(v, at + m, b[m..], ps[1..], acc[ps[0].0 := ps[0].1]);
    }
  }

  lemma NoMember(v: Str, at: nat, acc: map<Str, Value>)
    requires at <= |v|
    ensures DecodeMembers(v, at, 0, acc) == Ok((Obj(acc), at))
  {
  }

  lemma {:induction false} OpenPairsAreRead(v: Str, at: nat, b: Str, ps: seq<Pair>, acc: map<Str, Value>)
    requires Pairs(b, ps, false) && Stands(v, at, b) && at + |b| < |v| && v[at + |b|] == 0xff
    ensures DecodeOpenMembers(v, at, acc) == Ok((Obj(Collect(ps, acc)), at + |b| + 1))
    decreases |b|, 2
  {
    hide Decode, Represents, TextItem, DecodeOpenMembers, Pairs;
    if ps == [] {
      NoPairs(b);
      NoOpenMember(v, at, acc);
    } else {
      var k, m := PairsParts(b, ps);
      Thirds(v, at, b, k, m);
      TextFirst(b[..k], ps[0].0);
      FirstOf(v, at, b[..k]);
      TextIsRead(v, at, b[..k], ps[0].0);
      IsRead(v, at + k, b[k..m], ps[0].1);
      OpenMemberStep(v, at, acc, ps[0].0, at + k, ps[0].1, at + m);
      OpenPairsAreRead(v, at + m, b[m..], ps[1..], acc[ps[0].0 := ps[0].1]);
    }
  }

  lemma NoOpenMember(v: Str, at: nat, acc: map<Str, Value>)
    requires at < |v| && v[at] == 0xff
    ensures DecodeOpenMembers(v, at, acc) == Ok((Obj(acc), at + 1))
  {
  }

  lemma OpenMemberStep(v: Str, at: nat, acc: map<Str, Value>, k: Str, mid: nat, x: Value, next: nat)
    requires at < |v| && v[at] != 0xff && Decode(v, at) == Ok((Text(k), mid)) && Decode(v, mid) == Ok((x, next))
    ensures next <= |v| && DecodeOpenMembers(v, at, acc) == DecodeOpenMembers(v, next, acc[k := x])
  {
    hide Decode;
  }

  lemma {:induction false} ArrayIsRead(v: Str, at: nat, b: Str, a: seq<Value>)
    requires Represents(b, Arr(a), false) && Stands(v, at, b)
    ensures Decode(v, at) == Ok((Arr(a), at + |b|))
    decreases |b|, 0
  {
    hide IsHead, Argument, DecodeItems, DecodeOpenItems, Items;
    if k :| 0 < k <= |b| && IsHead(b[..k], 4, |a|) && Items(b[k..], a, false) {
      Halved(v, at, b, k);
      HeadRead(v, at, b[..k], 4, |a|);
      ItemsAreRead(v, at + k, b[k..], a, []);
    } else {
      OpenStands(v, at, b, 0x9f);
      OpenItemsAreRead(v, at + 1, b[1..|b| - 1], a, []);
    }
    assert [] + a == a;
  }

  lemma {:induction false} MapIsRead(v: Str, at: nat, b: Str, ps: seq<Pair>)
    requires MapItem(b, ps, false) && Stands(v, at, b)
    ensures Decode(v, at) == Ok((Obj(Collect(ps, map[])), at + |b|))
    decreases |b|, 0
  {
    hide IsHead, Argument, DecodeMembers, DecodeOpenMembers, Pairs, Collect;
    if k :| 0 < k <= |b| && IsHead(b[..k], 5, |ps|) && Pairs(b[k..], ps, false) {
      Halved(v, at, b, k);
      HeadRead(v, at, b[..k], 5, |ps|);
      PairsAreRead(v, at + k, b[k..], ps, map[]);
    } else {
      OpenStands(v, at, b, 0xbf);
      OpenPairsAreRead(v, at + 1, b[1..|b| - 1], ps, map[]);
    }
  }

  lemma IntegerRead(v: Str, at: nat, b: Str, x: Value)
    requires (x.UInt? || x.Int?) && Represents(b, x, false) && Stands(v, at, b)
    ensures Decode(v, at) == Ok((x, at + |b|))
  {
    hide IsHead, Argument;
    match x
    case UInt(u) => HeadRead(v, at, b, 0, u);
    case Int(i) => HeadRead(v, at, b, 1, (-1 - i) % 0x1_0000_0000_0000_0000);
  }

  lemma LiteralRead(v: Str, at: nat, b: Str, x: Value)
    requires Stands(v, at, b)
    requires (x.Bool? && b == [if x.b then 0xf5 else 0xf4]) || (x.Null? && b == [0xf6])
    ensures Decode(v, at) == Ok((x, at + |b|))
  {
    FirstOf(v, at, b);
  }

  /** Wherever a data item stands, it is read as what it stands for, and nothing behind it. */
  lemma {:induction false} IsRead(v: Str, at: nat, b: Str, x: Value)
    requires Represents(b, x, false) && Stands(v, at, b)
    ensures Decode(v, at) == Ok((x, at + |b|))
    decreases |b|, 1
  {
    hide Decode, Items, MapItem, TextItem, Gathers, FloatItem, InfiniteItem, IsHead;
    match x
    case Null => if InfiniteItem(b) { InfiniteRead(v, at, b); } else { LiteralRead(v, at, b, x); }
    case Bool(_) => LiteralRead(v, at, b, x);
    case UInt(_) => IntegerRead(v, at, b, x);
    case Int(_) => IntegerRead(v, at, b, x);
    case Float(bits) => FloatRead(v, at, b, bits);
    case Text(s) => TextIsRead(v, at, b, s);
    case Arr(a) => ArrayIsRead(v, at, b, a);
    case Obj(o) =>
      var ps: seq<Pair> :| Gathers(ps, o) && MapItem(b, ps, false);
      MapIsRead(v, at, b, ps);
      CollectGathers(ps);
      GathersOnce(ps, o, Collect(ps, map[]));
  }

  // ---------- what is read stands for the value ----------

  lemma {:induction false} ItemsFound(v: Str, at: nat, n: nat, acc: seq<Value>) returns (a: seq<Value>)
    requires at <= |v| && DecodeItems(v, at, n, acc).Ok?
    ensures var (x, end) := DecodeItems(v, at, n, acc).value;
            |a| == n && x == Arr(acc + a) && Items(v[at..end], a, false)
    decreases |v| - at, 2, n
  {
    hide Decode, Represents;
    var end := DecodeItems(v, at, n, acc).value.1;
    if n == 0 {
      a := [];
      assert acc + a == acc;
    } else {
      var (item, next) := Decode(v, at).value;
      IsFound(v, at);
      var rest := ItemsFound(v, next, n - 1, acc + [item]);
      a := [item] + rest;
      assert a[1..] == rest && acc + [item] + rest == acc + a;
      Slices(v, at, next, end);
    }
  }

  lemma {:induction false} OpenItemsFound(v: Str, at: nat, acc: seq<Value>) returns (a: seq<Value>)
    requires at <= |v| && DecodeOpenItems(v, at, acc).Ok?
    ensures var (x, end) := DecodeOpenItems(v, at, acc).value;
            at < end && v[end - 1] == 0xff && x == Arr(acc + a) && Items(v[at..end - 1], a, false)
    decreases |v| - at, 2
  {
    hide Decode, Represents;
    var end := DecodeOpenItems(v, at, acc).value.1;
    if v[at] == 0xff {
      a := [];
      assert acc + a == acc;
    } else {
      var (item, next) := Decode(v, at).value;
      IsFound(v, at);
      var rest := OpenItemsFound(v, next, acc + [item]);
      a := [item] + rest;
      assert a[1..] == rest && acc + [item] + rest == acc + a;
      Slices(v, at, next, end - 1);
    }
  }

  lemma {:induction false} ChunksFound(v: Str, at: nat, acc: Str) returns (s: Str)
    requires at <= |v| && DecodeChunks(v, at, acc).Ok?
    ensures var (x, end) := DecodeChunks(v, at, acc).value;
            at < end && v[end - 1] == 0xff && x == Text(acc + s) && Chunks(v[at..end - 1], s, false)
    decreases |v| - at, 2
  {
    hide Decode, TextItem;
    var end := DecodeChunks(v, at, acc).value.1;
    if v[at] == 0xff {
      s := [];
      assert acc + s == acc;
    } else {
      var (chunk, next) := Decode(v, at).value;
      IsFound(v, at);
      var rest := ChunksFound(v, next, acc + chunk.s);
      s := chunk.s + rest;
      assert s[..|chunk.s|] == chunk.s && s[|chunk.s|..] == rest && acc + chunk.s + rest == acc + s;
      Slices(v, at, next, end - 1);
    }
  }

  lemma {:induction false} PairsFound(v: Str, at: nat, n: nat, acc: map<Str, Value>) returns (ps: seq<Pair>)
    requires at <= |v| && DecodeMembers(v, at, n, acc).Ok?
    ensures var (x, end) := DecodeMembers(v, at, n, acc).value;
            |ps| == n && x == Obj(Collect(ps, acc)) && Pairs(v[at..end], ps, false)
    decreases |v| - at, 2, n
  {
    hide Decode, TextItem;
    var end := DecodeMembers(v, at, n, acc).value.1;
    if n == 0 {
      ps := [];
    } else {
      var (key, mid) := Decode(v, at).value;
      var (item, next) := Decode(v, mid).value;
      IsFound(v, at);
      IsFound(v, mid);
      hide Represents;
      var rest := PairsFound(v, next, n - 1, acc[key.s := item]);
      ps := [(key.s, item)] + rest;
      assert ps[1..] == rest;
      Inner(v, at, mid, next, end);
    }
  }

  lemma {:induction false} OpenPairsFound(v: Str, at: nat, acc: map<Str, Value>) returns (ps: seq<Pair>)
    requires at <= |v| && DecodeOpenMembers(v, at, acc).Ok?
    ensures var (x, end) := DecodeOpenMembers(v, at, acc).value;
            at < end && v[end - 1] == 0xff && x == Obj(Collect(ps, acc)) && Pairs(v[at..end - 1], ps, false)
    decreases |v| - at, 2
  {
    hide Decode, TextItem;
    var end := DecodeOpenMembers(v, at, acc).value.1;
    if v[at] == 0xff {
      ps := [];
    } else {
      var (key, mid) := Decode(v, at).value;
      var (item, next) := Decode(v, mid).value;
      IsFound(v, at);
      IsFound(v, mid);
      hide Represents;
      var rest := OpenPairsFound(v, next, acc[key.s := item]);
      ps := [(key.s, item)] + rest;
      assert ps[1..] == rest;
      Inner(v, at, mid, next, end - 1);
    }
  }

  lemma OpenIs(v: Str, at: nat, end: nat, first: byte)
    requires at + 1 < end <= |v| && v[at] == first && v[end - 1] == 0xff
    ensures var b := v[at..end]; Open(b, first) && b[1..|b| - 1] == v[at + 1..end - 1]
  {
    var b := v[at..end];
    assert b[0] == v[at] && b[|b| - 1] == v[end - 1];
    Inner(v, at, at + 1, end - 1, end);
  }

  lemma {:induction false} OpenIsFound(v: Str, at: nat)
    requires at < |v| && v[at] % 32 == 31 && v[at] / 32 != 7 && Decode(v, at).Ok?
    ensures var (x, end) := Decode(v, at).value; Represents(v[at..end], x, false)
    decreases |v| - at, 0
  {
    hide DecodeOpenItems, DecodeOpenMembers, DecodeChunks, Collect, Gathers, Items, Pairs, Chunks, Open, MapItem;
    var (x, end) := Decode(v, at).value;
    var major := v[at] / 32;
    assert v[at] == 32 * major + 31;
    if major == 3 {
      var s := ChunksFound(v, at + 1, []);
      assert [] + s == s;
      OpenIs(v, at, end, 0x7f);
    } else if major == 4 {
      var a := OpenItemsFound(v, at + 1, []);
      assert [] + a == a;
      OpenIs(v, at, end, 0x9f);
    } else {
      var ps := OpenPairsFound(v, at + 1, map[]);
      OpenIs(v, at, end, 0xbf);
      CollectGathers(ps);
      OpenMapIs(v[at..end], ps);
    }
  }

  lemma OpenMapIs(b: Str, ps: seq<Pair>)
    requires Open(b, 0xbf) && Pairs(b[1..|b| - 1], ps, false)
    ensures MapItem(b, ps, false)
  {
    hide Pairs;
  }

  lemma ClosedMapIs(b: Str, k: nat, ps: seq<Pair>)
    requires 0 < k <= |b| && IsHead(b[..k], 5, |ps|) && Pairs(b[k..], ps, false)
    ensures MapItem(b, ps, false)
  {
    hide Pairs, IsHead;
  }

  lemma NumberFound(b: Str, major: nat, n: nat)
    requires major < 2 && IsHead(b, major, n) && n <= UINT64_MAX
    ensures Represents(b, if major == 0 then UInt(n) else Int(-1 - ToSigned(n)), false)
  {
    hide IsHead;
    NegativeIs(n);
  }

  lemma TextFound(b: Str, k: nat, n: nat, s: Str)
    requires 0 < k <= |b| && IsHead(b[..k], 3, n) && b[k..] == s && |s| == n
    ensures Represents(b, Text(s), false)
  {
    hide IsHead;
  }

  lemma ListFound(b: Str, k: nat, n: nat, a: seq<Value>)
    requires 0 < k <= |b| && IsHead(b[..k], 4, n) && Items(b[k..], a, false) && |a| == n
    ensures Represents(b, Arr(a), false)
  {
    hide IsHead, Items;
  }

  lemma {:induction false} ClosedIsFound(v: Str, at: nat)
    requires at < |v| && v[at] % 32 < 28 && v[at] / 32 != 7 && Decode(v, at).Ok?
    ensures var (x, end) := Decode(v, at).value; Represents(v[at..end], x, false)
    decreases |v| - at, 0
  {
    hide Argument, DecodeItems, DecodeMembers, IsHead, Collect, Gathers, Items, Pairs, MapItem;
    var (x, end) := Decode(v, at).value;
    var major, info := v[at] / 32, v[at] % 32;
    var (n, next) := Argument(v, at, info).value;
    HeadFound(v, at);
    if major < 2 {
      NumberFound(v[at..end], major, n);
    } else {
      Slices(v, at, next, end);
      var b, k := v[at..end], next - at;
      if major == 3 {
        TextFound(b, k, n, x.s);
      } else if major == 4 {
        var a := ItemsFound(v, next, n, []);
        assert [] + a == a;
        ListFound(b, k, n, a);
      } else {
        var ps := PairsFound(v, next, n, map[]);
        CollectGathers(ps);
        ClosedMapIs(b, k, ps);
      }
    }
  }

  /** Whatever is read are the bytes of a data item that stands for the value. */
  lemma {:induction false} IsFound(v: Str, at: nat)
    requires Decode(v, at).Ok?
    ensures var (x, end) := Decode(v, at).value; Represents(v[at..end], x, false)
    decreases if at <= |v| then |v| - at else 0, 1
  {
    hide Represents;
    if v[at] / 32 == 7 {
      SimpleFound(v, at);
    } else if v[at] % 32 == 31 {
      OpenIsFound(v, at);
    } else {
      ClosedIsFound(v, at);
    }
  }

  lemma NegativeIs(n: nat)
    requires n <= UINT64_MAX
    ensures (-1 - (-1 - ToSigned(n))) % 0x1_0000_0000_0000_0000 == n
  {
  }

  /** `from_cbor` reads a value exactly where a data item stands for it, and stops behind the item. */
  lemma DecodeIsRepresents(v: Str, at: nat, x: Value, end: nat)
    ensures Decode(v, at) == Ok((x, end)) <==> at < end <= |v| && Represents(v[at..end], x, false)
  {
    hide Decode, Represents;
    if Decode(v, at).Ok? { IsFound(v, at); }
    if at < end <= |v| && Represents(v[at..end], x, false) { IsRead(v, at, v[at..end], x); }
  }
}
