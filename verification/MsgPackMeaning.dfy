/** `from_msgpack` reads the objects of the MessagePack format, as what they stand for, and nothing else. */
module MsgPackMeaning {
  import opened Bytes
  import opened Results
  import opened Values
  import opened BigEndian
  import opened Halves
  import opened HalfLaw
  import opened Reading
  import opened MsgPack
  import opened DataItems
  import opened MsgPackStandard

  // ---------- first bytes ----------

  lemma NumberedRead(v: Str, at: nat, b: Str, first: byte, width: nat, n: nat)
    requires width in {1, 2, 4, 8} && Numbered(b, first, width, n) && Stands(v, at, b)
    ensures v[at] == first && NumberAt(v, at, width) == Ok(n) && n <= UINT64_MAX
    ensures width == 1 ==> n < 0x100
    ensures width == 2 ==> n < 0x1_0000
    ensures width == 4 ==> n < 0x1_0000_0000
  {
    hide Weighed, NumberAt;
    FirstOf(v, at, b);
    NumberIs(v, at, b);
    WeighedBound(b[1..]);
    if width == 1 { ByteBound(b[1..]); }
  }

  lemma ByteBound(b: Str)
    requires |b| == 1
    ensures Weighed(b) < 0x100
  {
  }

  lemma NumberedFound(v: Str, at: nat, width: nat)
    requires at < |v| && width in {1, 2, 4, 8} && NumberAt(v, at, width).Ok?
    ensures at + 1 + width <= |v|
    ensures Numbered(v[at..at + 1 + width], v[at], width, NumberAt(v, at, width).value)
  {
    hide Weighed, NumberAt;
    var b := v[at..at + 1 + width];
    assert Stands(v, at, b);
    NumberIs(v, at, b);
    assert b[0] == v[at];
  }

  lemma InlineFound(v: Str, at: nat)
    requires at < |v|
    ensures v[at..at + 1] == [v[at]]
  {
  }

  // ---------- integers ----------

  lemma UnsignedRead(v: Str, at: nat, b: Str, n: nat)
    requires UnsignedForm(b, n) && Stands(v, at, b)
    ensures n <= UINT64_MAX && Unpack(v, at) == Ok((UInt(n), at + |b|))
  {
    hide NumberAt, Numbered;
    if n < 0x80 && b == [n] {
      FirstOf(v, at, b);
    } else if Numbered(b, 0xcc, 1, n) {
      NumberedLong(b, 0xcc, 1, n);
      NumberedRead(v, at, b, 0xcc, 1, n);
    } else if Numbered(b, 0xcd, 2, n) {
      NumberedLong(b, 0xcd, 2, n);
      NumberedRead(v, at, b, 0xcd, 2, n);
    } else if Numbered(b, 0xce, 4, n) {
      NumberedLong(b, 0xce, 4, n);
      NumberedRead(v, at, b, 0xce, 4, n);
    } else {
      NumberedLong(b, 0xcf, 8, n);
      NumberedRead(v, at, b, 0xcf, 8, n);
    }
  }

  lemma NumberedLong(b: Str, first: byte, width: nat, n: nat)
    requires width in {1, 2, 4, 8} && Numbered(b, first, width, n)
    ensures |b| == 1 + width
  {
  }

  lemma SignedIs(i: int, half: nat, width: nat)
    requires width > 0 && Pow256(width) == 2 * half && InRange(i, half)
    ensures AsSigned(Wrapped(i, 2 * half), width) == i
  {
  }

  lemma SignedOf(n: nat, half: nat, width: nat)
    requires width > 0 && Pow256(width) == 2 * half && n < 2 * half
    ensures var i := AsSigned(n, width); InRange(i, half) && Wrapped(i, 2 * half) == n
  {
  }

  lemma WideSignedRead(v: Str, at: nat, b: Str, i: int, first: byte, width: nat, half: nat)
    requires 0xd0 <= first <= 0xd3 && width == [1, 2, 4, 8][first - 0xd0] && Pow256(width) == 2 * half
    requires InRange(i, half) && Numbered(b, first, width, Wrapped(i, 2 * half)) && Stands(v, at, b)
    requires INT64_MIN <= i <= INT64_MAX
    ensures Unpack(v, at) == Ok((Int(i), at + |b|))
  {
    hide NumberAt, Pow256, AsSigned;
    var n := Wrapped(i, 2 * half);
    NumberedRead(v, at, b, first, width, n);
    SignedIs(i, half, width);
  }

  lemma SignedRead(v: Str, at: nat, b: Str, i: int)
    requires SignedForm(b, i) && Stands(v, at, b)
    ensures INT64_MIN <= i <= INT64_MAX && Unpack(v, at) == Ok((Int(i), at + |b|))
  {
    hide Unpack, Numbered, Pow256;
    Powers();
    if -32 <= i < 0 && b == [0x100 + i] {
      FixRead(v, at, b, i);
    } else if InRange(i, 0x80) && Numbered(b, 0xd0, 1, Wrapped(i, 0x100)) {
      WideSignedRead(v, at, b, i, 0xd0, 1, 0x80);
    } else if InRange(i, 0x8000) && Numbered(b, 0xd1, 2, Wrapped(i, 0x1_0000)) {
      WideSignedRead(v, at, b, i, 0xd1, 2, 0x8000);
    } else if InRange(i, 0x8000_0000) && Numbered(b, 0xd2, 4, Wrapped(i, 0x1_0000_0000)) {
      WideSignedRead(v, at, b, i, 0xd2, 4, 0x8000_0000);
    } else {
      WideSignedRead(v, at, b, i, 0xd3, 8, 0x8000_0000_0000_0000);
    }
  }

  lemma FixRead(v: Str, at: nat, b: Str, i: int)
    requires -32 <= i < 0 && b == [0x100 + i] && Stands(v, at, b)
    ensures Unpack(v, at) == Ok((Int(i), at + 1))
  {
    FirstOf(v, at, b);
    Powers();
  }

  lemma UnsignedFound(v: Str, at: nat)
    requires at < |v| && FamilyOf(v[at]).Some? && FamilyOf(v[at]).value.0 == Family.Unsigned && Unpack(v, at).Ok?
    ensures var (x, end) := Unpack(v, at).value; Represents(v[at..end], x, false)
  {
    hide NumberAt, Numbered;
    var width := FamilyOf(v[at]).value.1;
    if width == 0 { InlineFound(v, at); } else { NumberedFound(v, at, width); }
  }

  lemma SignedFound(v: Str, at: nat)
    requires at < |v| && FamilyOf(v[at]).Some? && FamilyOf(v[at]).value.0 == Signed && Unpack(v, at).Ok?
    ensures var (x, end) := Unpack(v, at).value; Represents(v[at..end], x, false)
  {
    hide NumberAt, Numbered, AsSigned, Pow256;
    Powers();
    var width := FamilyOf(v[at]).value.1;
    if width == 0 {
      InlineFound(v, at);
      SignedOf(v[at], 0x80, 1);
      FixedIs(v[at]);
    } else {
      NumberedFound(v, at, width);
      var half := if width == 1 then 0x80 else if width == 2 then 0x8000 else if width == 4 then 0x8000_0000
                  else 0x8000_0000_0000_0000;
      SignedOf(NumberAt(v, at, width).value, half, width);
    }
  }

  lemma FixedIs(b: byte)
    requires b >= 0xe0
    ensures AsSigned(b, 0) == b as int - 0x100
  {
    Powers();
  }

  // ---------- strings, arrays and maps: their heads ----------

  /** The number in a first byte of this family, or behind it. */
  predicate HeadIs(v: Str, at: nat, family: Family, n: nat, size: nat) {
    && at < |v|
    && FamilyOf(v[at]).Some?
    && var (f, width) := FamilyOf(v[at]).value; f == family && Carried(v, at, width) == Ok(n) && size == 1 + width
  }

  lemma TextHeadRead(v: Str, at: nat, h: Str, n: nat)
    requires TextForm(h, n) && Stands(v, at, h)
    ensures h != [] && HeadIs(v, at, StringOf, n, |h|)
  {
    hide NumberAt;
    if n < 32 && h == [0xa0 + n] { FirstOf(v, at, h); }
    if Numbered(h, 0xd9, 1, n) { NumberedRead(v, at, h, 0xd9, 1, n); }
    if Numbered(h, 0xda, 2, n) { NumberedRead(v, at, h, 0xda, 2, n); }
    if Numbered(h, 0xdb, 4, n) { NumberedRead(v, at, h, 0xdb, 4, n); }
  }

  lemma ArrayHeadRead(v: Str, at: nat, h: Str, n: nat)
    requires ArrayForm(h, n) && Stands(v, at, h)
    ensures h != [] && HeadIs(v, at, ItemsOf, n, |h|)
  {
    hide NumberAt;
    if n < 16 && h == [0x90 + n] { FirstOf(v, at, h); }
    if Numbered(h, 0xdc, 2, n) { NumberedRead(v, at, h, 0xdc, 2, n); }
    if Numbered(h, 0xdd, 4, n) { NumberedRead(v, at, h, 0xdd, 4, n); }
  }

  lemma MapHeadRead(v: Str, at: nat, h: Str, n: nat)
    requires MapForm(h, n) && Stands(v, at, h)
    ensures h != [] && HeadIs(v, at, MembersOf, n, |h|)
  {
    hide NumberAt;
    if n < 16 && h == [0x80 + n] { FirstOf(v, at, h); }
    if Numbered(h, 0xde, 2, n) { NumberedRead(v, at, h, 0xde, 2, n); }
    if Numbered(h, 0xdf, 4, n) { NumberedRead(v, at, h, 0xdf, 4, n); }
  }

  lemma HeadFound(v: Str, at: nat, family: Family, n: nat, size: nat)
    requires HeadIs(v, at, family, n, size) && family != Family.Unsigned && family != Signed
    ensures at + size <= |v| && size > 0
    ensures family == StringOf ==> TextForm(v[at..at + size], n)
    ensures family == ItemsOf ==> ArrayForm(v[at..at + size], n)
    ensures family == MembersOf ==> MapForm(v[at..at + size], n)
  {
    hide NumberAt, Numbered;
    var width := FamilyOf(v[at]).value.1;
    if width == 0 { InlineFound(v, at); } else { NumberedFound(v, at, width); }
  }

  lemma HeadUsed(v: Str, at: nat, family: Family, n: nat, size: nat)
    requires HeadIs(v, at, family, n, size) && family != Family.Unsigned && family != Signed
    ensures at + size <= |v|
    ensures Unpack(v, at) == if family == StringOf then TextAt(v, at + size, n)
                             else if family == ItemsOf then UnpackItems(v, at + size, n, [])
                             else UnpackMembers(v, at + size, n, map[])
  {
    hide NumberAt, UnpackItems, UnpackMembers;
  }

  // ---------- null, booleans and doubles ----------

  lemma LiteralRead(v: Str, at: nat, b: Str, x: Value)
    requires Stands(v, at, b)
    requires (x.Bool? && b == [if x.b then 0xc3 else 0xc2]) || (x.Null? && b == [0xc0])
    ensures Unpack(v, at) == Ok((x, at + |b|))
  {
    FirstOf(v, at, b);
  }

  lemma FloatRead(v: Str, at: nat, b: Str, bits: uint64)
    requires (DoubleItem(b, 0xcb, bits) || SingleItem(b, 0xca, bits)) && Stands(v, at, b)
    ensures Unpack(v, at) == Ok((Float(bits), at + |b|))
  {
    hide Weighed, NumberAt, SingleToDouble, Denotes, SingleNumber, IsFinite;
    Powers();
    FirstOf(v, at, b);
    NumberIs(v, at, b);
    WeighedBound(b[1..]);
    var n := Weighed(b[1..]);
    if |b| == 5 {
      SingleDenotes(n);
      SingleIsFinite(n);
      DenotesOnce(bits, SingleToDouble(n), n >= 0x8000_0000, SingleNumber(n));
    }
  }

  lemma InfiniteRead(v: Str, at: nat, b: Str)
    requires (InfiniteDouble(b, 0xcb) || InfiniteSingle(b, 0xca)) && Stands(v, at, b)
    ensures Unpack(v, at) == Ok((Null, at + |b|))
  {
    hide Weighed, NumberAt, SingleToDouble, IsFinite;
    Powers();
    FirstOf(v, at, b);
    NumberIs(v, at, b);
    WeighedBound(b[1..]);
    var n := Weighed(b[1..]);
    if |b| == 9 { FiniteBits(n); } else { SingleIsFinite(n); }
  }

  lemma OtherFound(v: Str, at: nat)
    requires at < |v| && OtherAt(v, at).Ok?
    ensures var (x, next) := OtherAt(v, at).value; Represents(v[at..next], x, false)
  {
    hide Weighed, NumberAt, SingleToDouble, Denotes, SingleNumber, IsFinite;
    Powers();
    var (x, next) := OtherAt(v, at).value;
    var b := v[at..next];
    assert b[0] == v[at];
    assert Stands(v, at, b);
    if |b| > 1 {
      NumberIs(v, at, b);
      var n := Weighed(b[1..]);
      if |b| == 9 { FiniteBits(n); }
      if |b| == 5 {
        SingleIsFinite(n);
        if IsFinite(SingleToDouble(n)) { SingleDenotes(n); }
      }
    }
  }

  // ---------- what stands for a value is read as it ----------

  lemma TextIsRead(v: Str, at: nat, b: Str, s: Str)
    requires TextItem(b, s) && Stands(v, at, b)
    ensures Unpack(v, at) == Ok((Text(s), at + |b|))
  {
    hide TextForm, HeadIs, Unpack;
    var k :| 0 < k <= |b| && TextForm(b[..k], |s|) && b[k..] == s;
    Halved(v, at, b, k);
    TextHeadRead(v, at, b[..k], |s|);
    HeadUsed(v, at, StringOf, |s|, k);
    assert v[at + k..at + k + |s|] == s;
  }

  lemma {:induction false} ItemsAreRead(v: Str, at: nat, b: Str, a: seq<Value>, acc: seq<Value>)
    requires Items(b, a, false) && Stands(v, at, b)
    ensures UnpackItems(v, at, |a|, acc) == Ok((Arr(acc + a), at + |b|))
    decreases |b|, 2
  {
    hide Unpack, Represents;
    if a == [] {
      assert acc + a == acc;
    } else {
      var k :| 0 < k <= |b| && Represents(b[..k], a[0], false) && Items(b[k..], a[1..], false);
      Halved(v, at, b, k);
      IsRead(v, at, b[..k], a[0]);
      ItemsAreRead(v, at + k, b[k..], a[1..], acc + [a[0]]);
      assert acc + [a[0]] + a[1..] == acc + a;
    }
  }

  lemma PairsParts(b: Str, ps: seq<Pair>) returns (k: nat, m: nat)
    requires ps != [] && Pairs(b, ps, false)
    ensures 0 < k < m <= |b| && TextItem(b[..k], ps[0].0) && Represents(b[k..m], ps[0].1, false)
    ensures Pairs(b[m..], ps[1..], false)
  {
    hide TextItem, Represents;
    k, m :| 0 < k < m <= |b| && TextItem(b[..k], ps[0].0) && Represents(b[k..m], ps[0].1, false)
            && Pairs(b[m..], ps[1..], false);
  }

  lemma NoPairs(v: Str, at: nat, b: Str, acc: map<Str, Value>)
    requires Pairs(b, [], false) && at <= |v|
    ensures b == [] && UnpackMembers(v, at, 0, acc) == Ok((Obj(acc), at))
  {
  }

  lemma MemberStep(v: Str, at: nat, n: nat, acc: map<Str, Value>, k: Str, mid: nat, x: Value, next: nat)
    requires at <= |v| && n > 0 && Unpack(v, at) == Ok((Text(k), mid)) && Unpack(v, mid) == Ok((x, next))
    ensures next <= |v| && UnpackMembers(v, at, n, acc) == UnpackMembers(v, next, n - 1, acc[k := x])
  {
    hide Unpack;
  }

  lemma {:induction false} PairsAreRead(v: Str, at: nat, b: Str, ps: seq<Pair>, acc: map<Str, Value>)
    requires Pairs(b, ps, false) && Stands(v, at, b)
    ensures UnpackMembers(v, at, |ps|, acc) == Ok((Obj(Collect(ps, acc)), at + |b|))
    decreases |b|, 2
  {
    hide Unpack, Represents, TextItem, UnpackMembers, Pairs;
    if ps == [] {
      NoPairs(v, at, b, acc);
    } else {
      var k, m := PairsParts(b, ps);
      Thirds(v, at, b, k, m);
      TextIsRead(v, at, b[..k], ps[0].0);
      IsRead(v, at + k, b[k..m], ps[0].1);
      MemberStep(v, at, |ps|, acc, ps[0].0, at + k, ps[0].1, at + m);
      PairsAreRead(v, at + m, b[m..], ps[1..], acc[ps[0].0 := ps[0].1]);
    }
  }

  lemma {:induction false} ArrayIsRead(v: Str, at: nat, b: Str, a: seq<Value>)
    requires Represents(b, Arr(a), false) && Stands(v, at, b)
    ensures Unpack(v, at) == Ok((Arr(a), at + |b|))
    decreases |b|, 0
  {
    hide ArrayForm, HeadIs, Unpack, UnpackItems, Items;
    var k :| 0 < k <= |b| && ArrayForm(b[..k], |a|) && Items(b[k..], a, false);
    Halved(v, at, b, k);
    ArrayHeadRead(v, at, b[..k], |a|);
    HeadUsed(v, at, ItemsOf, |a|, k);
    ItemsAreRead(v, at + k, b[k..], a, []);
    assert [] + a == a;
  }

  lemma {:induction false} MapIsRead(v: Str, at: nat, b: Str, ps: seq<Pair>)
    requires MapItem(b, ps, false) && Stands(v, at, b)
    ensures Unpack(v, at) == Ok((Obj(Collect(ps, map[])), at + |b|))
    decreases |b|, 0
  {
    hide MapForm, HeadIs, Unpack, UnpackMembers, Pairs, Collect;
    var k :| 0 < k <= |b| && MapForm(b[..k], |ps|) && Pairs(b[k..], ps, false);
    Halved(v, at, b, k);
    MapHeadRead(v, at, b[..k], |ps|);
    HeadUsed(v, at, MembersOf, |ps|, k);
    PairsAreRead(v, at + k, b[k..], ps, map[]);
  }

  /** Wherever an object of the format stands, it is read as what it stands for, and nothing behind it. */
  lemma {:induction false} IsRead(v: Str, at: nat, b: Str, x: Value)
    requires Represents(b, x, false) && Stands(v, at, b)
    ensures Unpack(v, at) == Ok((x, at + |b|))
    decreases |b|, 1
  {
    hide Unpack, Items, MapItem, TextItem, Gathers, DoubleItem, SingleItem, InfiniteDouble, InfiniteSingle, ArrayForm,
      UnsignedForm, SignedForm;
    match x
    case Null =>
      if InfiniteDouble(b, 0xcb) || InfiniteSingle(b, 0xca) {
        InfiniteRead(v, at, b);
      } else {
        LiteralRead(v, at, b, x);
      }
    case Bool(_) => LiteralRead(v, at, b, x);
    case UInt(u) => UnsignedRead(v, at, b, u);
    case Int(i) => SignedRead(v, at, b, i);
    case Float(bits) => FloatRead(v, at, b, bits);
    case Text(s) => TextIsRead(v, at, b, s);
    case Arr(a) => ArrayIsRead(v, at, b, a);
    case Obj(o) =>
      var ps: seq<Pair> :| Gathers(ps, o) && MapItem(b, ps, false);
      MapIsRead(v, at, b, ps);
      CollectGathers(ps);
      GathersOnce(ps, o, Collect(ps, map[]));
  }

  // ---------- what is read stands for the value ----------

  lemma {:induction false} ItemsFound(v: Str, at: nat, n: nat, acc: seq<Value>) returns (a: seq<Value>)
    requires at <= |v| && UnpackItems(v, at, n, acc).Ok?
    ensures var (x, end) := UnpackItems(v, at, n, acc).value;
            |a| == n && x == Arr(acc + a) && Items(v[at..end], a, false)
    decreases |v| - at, 2, n
  {
    hide Unpack, Represents;
    var end := UnpackItems(v, at, n, acc).value.1;
    if n == 0 {
      a := [];
      assert acc + a == acc;
    } else {
      var (item, next) := Unpack(v, at).value;
      IsFound(v, at);
      var rest := ItemsFound(v, next, n - 1, acc + [item]);
      a := [item] + rest;
      assert a[1..] == rest && acc + [item] + rest == acc + a;
      Slices(v, at, next, end);
    }
  }

  lemma {:induction false} PairsFound(v: Str, at: nat, n: nat, acc: map<Str, Value>) returns (ps: seq<Pair>)
    requires at <= |v| && UnpackMembers(v, at, n, acc).Ok?
    ensures var (x, end) := UnpackMembers(v, at, n, acc).value;
            |ps| == n && x == Obj(Collect(ps, acc)) && Pairs(v[at..end], ps, false)
    decreases |v| - at, 2, n
  {
    hide Unpack, TextItem;
    var end := UnpackMembers(v, at, n, acc).value.1;
    if n == 0 {
      ps := [];
    } else {
      var (key, mid) := Unpack(v, at).value;
      var (item, next) := Unpack(v, mid).value;
      IsFound(v, at);
      IsFound(v, mid);
      hide Represents;
      var rest := PairsFound(v, next, n - 1, acc[key.s := item]);
      ps := [(key.s, item)] + rest;
      assert ps[1..] == rest;
      Inner(v, at, mid, next, end);
    }
  }

  lemma TextFound(b: Str, k: nat, n: nat, s: Str)
    requires 0 < k <= |b| && TextForm(b[..k], n) && b[k..] == s && |s| == n
    ensures Represents(b, Text(s), false)
  {
    hide TextForm;
  }

  lemma ListFound(b: Str, k: nat, n: nat, a: seq<Value>)
    requires 0 < k <= |b| && ArrayForm(b[..k], n) && Items(b[k..], a, false) && |a| == n
    ensures Represents(b, Arr(a), false)
  {
    hide ArrayForm, Items;
  }

  lemma MapFound(b: Str, k: nat, n: nat, ps: seq<Pair>, o: map<Str, Value>)
    requires 0 < k <= |b| && MapForm(b[..k], n) && Pairs(b[k..], ps, false) && |ps| == n && Gathers(ps, o)
    ensures Represents(b, Obj(o), false)
  {
    hide MapForm, Pairs, Gathers;
    assert MapItem(b, ps, false);
  }

  lemma {:induction false} LongFound(v: Str, at: nat)
    requires at < |v| && FamilyOf(v[at]).Some? && FamilyOf(v[at]).value.0 in {StringOf, ItemsOf, MembersOf}
    requires Unpack(v, at).Ok?
    ensures var (x, end) := Unpack(v, at).value; Represents(v[at..end], x, false)
    decreases |v| - at, 0
  {
    hide Represents, Items, Pairs, UnpackItems, UnpackMembers, TextForm, ArrayForm, MapForm, Collect, Gathers, NumberAt;
    var (x, end) := Unpack(v, at).value;
    var (family, width) := FamilyOf(v[at]).value;
    var n := Carried(v, at, width).value;
    var next := at + 1 + width;
    HeadFound(v, at, family, n, 1 + width);
    HeadUsed(v, at, family, n, 1 + width);
    Slices(v, at, next, end);
    var b, k := v[at..end], next - at;
    if family == StringOf {
      TextFound(b, k, n, x.s);
    } else if family == ItemsOf {
      var a := ItemsFound(v, next, n, []);
      assert [] + a == a;
      ListFound(b, k, n, a);
    } else {
      var ps := PairsFound(v, next, n, map[]);
      CollectGathers(ps);
      MapFound(b, k, n, ps, Collect(ps, map[]));
    }
  }

  /** Whatever is read are the bytes of an object of the format that stands for the value. */
  lemma {:induction false} IsFound(v: Str, at: nat)
    requires Unpack(v, at).Ok?
    ensures var (x, end) := Unpack(v, at).value; Represents(v[at..end], x, false)
    decreases if at <= |v| then |v| - at else 0, 1
  {
    hide Represents, UnpackItems, UnpackMembers, OtherAt, FamilyOf, Carried;
    var f := FamilyOf(v[at]);
    if f.None? {
      OtherFound(v, at);
    } else if f.value.0 == Family.Unsigned {
      UnsignedFound(v, at);
    } else if f.value.0 == Signed {
      SignedFound(v, at);
    } else {
      LongFound(v, at);
    }
  }

  /** `from_msgpack` reads a value exactly where an object of the format stands for it, and stops behind it. */
  lemma UnpackIsRepresents(v: Str, at: nat, x: Value, end: nat)
    ensures Unpack(v, at) == Ok((x, end)) <==> at < end <= |v| && Represents(v[at..end], x, false)
  {
    hide Unpack, Represents;
    if Unpack(v, at).Ok? { IsFound(v, at); }
    if at < end <= |v| && Represents(v[at..end], x, false) { IsRead(v, at, v[at..end], x); }
  }
}
