/** What `to_msgpack` writes is read back by `from_msgpack` exactly when every length fits 32 bits. */
module MsgPackLaw {
  import opened Bytes
  import opened Results
  import opened Values
  import opened BigEndian
  import opened Halves
  import opened MsgPack

  lemma UnsignedReads(v: Str, at: nat, n: nat)
    requires n <= UINT64_MAX && Stands(v, at, PackedUnsigned(n))
    ensures Unpack(v, at) == Ok((UInt(n), at + |PackedUnsigned(n)|))
  {
    hide BE, Pow256;
    Powers();
    if n < 128 {
      assert v[at..at + 1][0] == v[at];
    } else if n <= 0xff {
      WideHead(v, at, 0xcc, n, 1);
    } else if n <= 0xffff {
      WideHead(v, at, 0xcd, n, 2);
    } else if n <= 0xffff_ffff {
      WideHead(v, at, 0xce, n, 4);
    } else {
      WideHead(v, at, 0xcf, n, 8);
    }
  }

  /** A negative number in `width` bytes behind a first byte is read as itself. */
  lemma WideNegative(v: Str, at: nat, first: byte, n: int, width: nat)
    requires width > 0 && n < 0 && 2 * n + Pow256(width) >= 0 && Stands(v, at, [first] + BE(n, width))
    ensures v[at] == first && NumberAt(v, at, width).Ok? && AsSigned(NumberAt(v, at, width).value, width) == n
  {
    hide BE, FromBE, Pow256;
    StandsSplit(v, at, [first], BE(n, width));
    assert v[at..at + 1][0] == v[at];
    FromBEOfBE(n, width);
  }

  lemma SmallNegativeReads(v: Str, at: nat, n: int64)
    requires -32 <= n < 0 && Stands(v, at, BE(n, 1))
    ensures Unpack(v, at) == Ok((Int(n), at + 1))
  {
    hide UnpackItems, UnpackMembers, FromBE;
    Powers();
    FallThrough(n);
    assert v[at..at + 1][0] == v[at];
    assert n % 256 == n + 256;
  }

  lemma WideNegativeReads(v: Str, at: nat, first: byte, n: int64, width: nat)
    requires 0xd0 <= first <= 0xd3 && width == [1, 2, 4, 8][first - 0xd0]
    requires n < 0 && 2 * n + Pow256(width) >= 0 && Stands(v, at, [first] + BE(n, width))
    ensures Unpack(v, at) == Ok((Int(n), at + 1 + width))
  {
    hide BE, FromBE, Pow256, UnpackItems, UnpackMembers, AsSigned;
    WideNegative(v, at, first, n, width);
  }

  lemma NegativeReads(v: Str, at: nat, n: int64)
    requires n < 0 && Stands(v, at, PackedNegative(n))
    ensures Unpack(v, at) == Ok((Int(n), at + |PackedNegative(n)|))
  {
    hide BE, Pow256, Unpack;
    Powers();
    if n >= -32 {
      SmallNegativeReads(v, at, n);
    } else if n >= -0x80 {
      WideNegativeReads(v, at, 0xd0, n, 1);
    } else if n >= -0x8000 {
      WideNegativeReads(v, at, 0xd1, n, 2);
    } else if n >= -0x8000_0000 {
      WideNegativeReads(v, at, 0xd2, n, 4);
    } else {
      WideNegativeReads(v, at, 0xd3, n, 8);
    }
  }

  lemma FloatReads(v: Str, at: nat, bits: uint64)
    requires Stands(v, at, [0xcb] + BE(bits, 8))
    ensures Unpack(v, at) == Ok((FloatValue(bits), at + 9))
  {
    hide BE, Pow256;
    Powers();
    WideHead(v, at, 0xcb, bits, 8);
  }

  /** `h` is the header of a family member with the number `n`. */
  predicate IsHead(v: Str, at: nat, family: Family, n: nat, size: nat) {
    && at < |v|
    && match FamilyOf(v[at])
       case Some((f, width)) => f == family && Carried(v, at, width) == Ok(n) && size == 1 + width
       case None => false
  }

  lemma TextHeadReads(v: Str, at: nat, n: nat)
    requires n <= UINT32_MAX && Stands(v, at, TextHead(n))
    ensures IsHead(v, at, StringOf, n, |TextHead(n)|)
  {
    hide BE, Pow256;
    Powers();
    if n <= 31 {
      assert v[at..at + 1][0] == v[at];
    } else if n <= 0xff {
      WideHead(v, at, 0xd9, n, 1);
    } else if n <= 0xffff {
      WideHead(v, at, 0xda, n, 2);
    } else {
      WideHead(v, at, 0xdb, n, 4);
    }
  }

  lemma ItemsHeadReads(v: Str, at: nat, n: nat)
    requires n <= UINT32_MAX && Stands(v, at, ItemsHead(n))
    ensures IsHead(v, at, ItemsOf, n, |ItemsHead(n)|)
  {
    hide BE, Pow256;
    Powers();
    if n <= 15 {
      assert v[at..at + 1][0] == v[at];
    } else if n <= 0xffff {
      WideHead(v, at, 0xdc, n, 2);
    } else {
      WideHead(v, at, 0xdd, n, 4);
    }
  }

  lemma MembersHeadReads(v: Str, at: nat, n: nat)
    requires n <= UINT32_MAX && Stands(v, at, MembersHead(n))
    ensures IsHead(v, at, MembersOf, n, |MembersHead(n)|)
  {
    hide BE, Pow256;
    Powers();
    if n <= 15 {
      assert v[at..at + 1][0] == v[at];
    } else if n <= 0xffff {
      WideHead(v, at, 0xde, n, 2);
    } else {
      WideHead(v, at, 0xdf, n, 4);
    }
  }

  lemma TextReads(v: Str, at: nat, s: Str)
    requires |s| <= UINT32_MAX && Stands(v, at, TextHead(|s|) + s)
    ensures Unpack(v, at) == Ok((Text(s), at + |TextHead(|s|)| + |s|))
  {
    hide TextHead, FamilyOf, Carried;
    StandsSplit(v, at, TextHead(|s|), s);
    TextHeadReads(v, at, |s|);
  }

  lemma {:induction false} ItemsRead(v: Str, at: nat, j: Value, i: nat, acc: seq<Value>)
    requires j.Arr? && Packable(j) && i <= |j.a| && Stands(v, at, PackedItems(j, i))
    ensures UnpackItems(v, at, |j.a| - i, acc) == Ok((Arr(acc + NormItems(j.a)[i..]), at + |PackedItems(j, i)|))
    decreases j, 0, |j.a| - i
  {
    hide Packed, Unpack, Norm;
    if i < |j.a| {
      StandsSplit(v, at, Packed(j.a[i]), PackedItems(j, i + 1));
      ReadsBack(v, at, j.a[i]);
      ItemsRead(v, at + |Packed(j.a[i])|, j, i + 1, acc + [Norm(j.a[i])]);
      assert acc + [Norm(j.a[i])] + NormItems(j.a)[i + 1..] == acc + NormItems(j.a)[i..];
    } else {
      assert acc + NormItems(j.a)[i..] == acc;
    }
  }

  /** One member read: its key, then its value. */
  lemma MemberStep(v: Str, at: nat, n: nat, acc: map<Str, Value>, k: Str, mid: nat, x: Value, next: nat)
    requires at <= |v| && n > 0 && Unpack(v, at) == Ok((Text(k), mid)) && Unpack(v, mid) == Ok((x, next))
    ensures next <= |v| && UnpackMembers(v, at, n, acc) == UnpackMembers(v, next, n - 1, acc[k := x])
  {
    hide Unpack;
  }

  lemma MembersStand(v: Str, at: nat, j: Value, ks: seq<Str>)
    requires j.Obj? && ks != [] && forall k | k in ks :: k in j.o
    requires Stands(v, at, PackedMembers(j, ks))
    ensures var (name, item) := (TextHead(|ks[0]|) + ks[0], Packed(j.o[ks[0]]));
            && Stands(v, at, name) && Stands(v, at + |name|, item)
            && Stands(v, at + |name| + |item|, PackedMembers(j, ks[1..]))
            && |PackedMembers(j, ks)| == |name| + |item| + |PackedMembers(j, ks[1..])|
  {
    hide Packed, TextHead;
    var name, item := TextHead(|ks[0]|) + ks[0], Packed(j.o[ks[0]]);
    StandsSplit(v, at, name + item, PackedMembers(j, ks[1..]));
    StandsSplit(v, at, name, item);
  }

  lemma MembersEnd(v: Str, at: nat, j: Value, acc: map<Str, Value>)
    requires j.Obj? && Stands(v, at, PackedMembers(j, []))
    ensures PackedMembers(j, []) == [] && UnpackMembers(v, at, 0, acc) == Ok((Obj(acc), at))
  {
  }

  lemma {:induction false} MembersRead(v: Str, at: nat, j: Value, ks: seq<Str>, acc: map<Str, Value>)
    requires j.Obj? && Packable(j) && Ascending(ks) && forall k | k in ks :: k in j.o
    requires Stands(v, at, PackedMembers(j, ks))
    ensures UnpackMembers(v, at, |ks|, acc) == Ok((Obj(acc + NormMembers(j.o, ks)), at + |PackedMembers(j, ks)|))
    decreases j, 0, |ks|
  {
    hide Packed, Unpack, Norm, TextHead, NormMembers, Ascending, PackedMembers, UnpackMembers, Stands;
    if ks == [] {
      NormNothing(j.o, acc);
      MembersEnd(v, at, j, acc);
    } else {
      var k, item := ks[0], Packed(j.o[ks[0]]);
      var mid := at + |TextHead(|k|) + k|;
      assert k in j.o;
      MembersStand(v, at, j, ks);
      TextReads(v, at, k);
      ReadsBack(v, mid, j.o[k]);
      MemberStep(v, at, |ks|, acc, k, mid, Norm(j.o[k]), mid + |item|);
      NormMembersCons(j.o, ks, acc);
      MembersRead(v, mid + |item|, j, ks[1..], acc[k := Norm(j.o[k])]);
    }
  }

  lemma {:induction false} ArrayReads(v: Str, at: nat, j: Value)
    requires j.Arr? && Packable(j) && Stands(v, at, ItemsHead(|j.a|) + PackedItems(j, 0))
    ensures Unpack(v, at) == Ok((Norm(j), at + |ItemsHead(|j.a|)| + |PackedItems(j, 0)|))
    decreases j, 1, 0
  {
    hide ItemsHead, FamilyOf, Carried, UnpackItems, PackedItems;
    StandsSplit(v, at, ItemsHead(|j.a|), PackedItems(j, 0));
    ItemsHeadReads(v, at, |j.a|);
    ItemsRead(v, at + |ItemsHead(|j.a|)|, j, 0, []);
    assert [] + NormItems(j.a)[0..] == NormItems(j.a);
  }

  lemma {:induction false} ObjectReads(v: Str, at: nat, j: Value, ks: seq<Str>)
    requires j.Obj? && Packable(j) && Ascending(ks) && |ks| == |j.o| && forall k :: k in ks <==> k in j.o
    requires Stands(v, at, MembersHead(|j.o|) + PackedMembers(j, ks))
    ensures Unpack(v, at) == Ok((Norm(j), at + |MembersHead(|j.o|)| + |PackedMembers(j, ks)|))
    decreases j, 1, 0
  {
    hide MembersHead, FamilyOf, Carried, UnpackMembers, PackedMembers, Ascending, Norm, NormMembers;
    StandsSplit(v, at, MembersHead(|j.o|), PackedMembers(j, ks));
    MembersHeadReads(v, at, |j.o|);
    MembersRead(v, at + |MembersHead(|j.o|)|, j, ks, map[]);
    NormOfObject(j.o, ks);
  }

  lemma LiteralReads(v: Str, at: nat, j: Value)
    requires (j.Null? || j.Bool?) && Stands(v, at, Packed(j))
    ensures Unpack(v, at) == Ok((j, at + 1)) && |Packed(j)| == 1
  {
    assert v[at..at + 1][0] == v[at];
  }

  lemma {:induction false} ReadsBack(v: Str, at: nat, j: Value)
    requires Packable(j) && Stands(v, at, Packed(j))
    ensures Unpack(v, at) == Ok((Norm(j), at + |Packed(j)|))
    decreases j, 2, 0
  {
    hide TextHead, ItemsHead, MembersHead, PackedUnsigned, PackedNegative, BE, PackedItems, PackedMembers, SortedKeys,
      Unpack;
    match j
    case Null => LiteralReads(v, at, j);
    case Bool(b) => LiteralReads(v, at, j);
    case Int(i) => if i >= 0 { UnsignedReads(v, at, i); } else { NegativeReads(v, at, i); }
    case UInt(u) => UnsignedReads(v, at, u);
    case Float(bits) => FloatReads(v, at, bits);
    case Text(s) => TextReads(v, at, s);
    case Arr(a) => ArrayReads(v, at, j);
    case Obj(o) => ObjectReads(v, at, j, SortedKeys(o.Keys));
  }

  // ---------- the limits are real: lengths read have 32 bits, numbers read are finite ----------

  /** What the decoder can yield. */
  predicate Readable(j: Value) { Packable(j) && AllFinite(j) }

  lemma {:induction false} ItemsReadable(v: Str, at: nat, n: nat, acc: seq<Value>)
    requires at <= |v| && |acc| + n <= UINT32_MAX && forall i | 0 <= i < |acc| :: Readable(acc[i])
    ensures UnpackItems(v, at, n, acc).Ok? ==> Readable(UnpackItems(v, at, n, acc).value.0)
    decreases |v| - at, 2, n
  {
    hide Unpack;
    if n > 0 {
      UnpackedReadable(v, at);
      var item := Unpack(v, at);
      if item.Ok? { ItemsReadable(v, item.value.1, n - 1, acc + [item.value.0]); }
    }
  }

  /** Members are read only behind a name and a value. */
  lemma MembersStart(v: Str, at: nat, n: nat, acc: map<Str, Value>)
    requires at <= |v|
    ensures n == 0 ==> UnpackMembers(v, at, n, acc) == Ok((Obj(acc), at))
    ensures n > 0 && UnpackMembers(v, at, n, acc).Ok? ==>
      Unpack(v, at).Ok? && Unpack(v, at).value.0.Text? && Unpack(v, Unpack(v, at).value.1).Ok?
  {
    hide Unpack;
  }

  lemma {:induction false} MembersReadable(v: Str, at: nat, n: nat, acc: map<Str, Value>)
    requires at <= |v| && |acc| + n <= UINT32_MAX && forall k | k in acc :: |k| <= UINT32_MAX && Readable(acc[k])
    ensures UnpackMembers(v, at, n, acc).Ok? ==> Readable(UnpackMembers(v, at, n, acc).value.0)
    decreases |v| - at, 2, n
  {
    hide Unpack, UnpackMembers;
    MembersStart(v, at, n, acc);
    if n > 0 {
      UnpackedReadable(v, at);
      var key := Unpack(v, at);
      if key.Ok? && key.value.0.Text? {
        UnpackedReadable(v, key.value.1);
        var item := Unpack(v, key.value.1);
        if item.Ok? {
          var k := key.value.0.s;
          GrowsByOne(acc, k, item.value.0);
          MemberStep(v, at, n, acc, k, key.value.1, item.value.0, item.value.1);
          MembersReadable(v, item.value.1, n - 1, acc[k := item.value.0]);
        }
      }
    }
  }

  lemma GrowsByOne(acc: map<Str, Value>, k: Str, x: Value)
    ensures |acc[k := x]| <= |acc| + 1
  {
    assert acc[k := x].Keys == acc.Keys + {k};
  }

  lemma CarriedFits(v: Str, at: nat)
    requires at < |v| && FamilyOf(v[at]).Some?
    ensures var (family, width) := FamilyOf(v[at]).value;
            (family == StringOf || family == ItemsOf || family == MembersOf) && Carried(v, at, width).Ok? ==>
              Carried(v, at, width).value <= UINT32_MAX
  {
    hide NumberAt;
    Powers();
  }

  lemma OtherReadable(v: Str, at: nat)
    requires at < |v|
    ensures OtherAt(v, at).Ok? ==> Readable(OtherAt(v, at).value.0)
  {
    hide NumberAt, SingleToDouble;
  }

  /** Whatever the bytes, no length of 2^32 or more is read from them, and no infinity or NaN. */
  lemma {:induction false} UnpackedReadable(v: Str, at: nat)
    ensures Unpack(v, at).Ok? ==> Readable(Unpack(v, at).value.0)
    decreases if at <= |v| then |v| - at else 0, 1
  {
    hide UnpackItems, UnpackMembers, FamilyOf, Carried, OtherAt;
    if at < |v| && FamilyOf(v[at]).None? { OtherReadable(v, at); }
    if at < |v| && FamilyOf(v[at]).Some? {
      CarriedFits(v, at);
      var (family, width) := FamilyOf(v[at]).value;
      var n := Carried(v, at, width);
      if n.Ok? && family == ItemsOf { ItemsReadable(v, at + 1 + width, n.value, []); }
      if n.Ok? && family == MembersOf { MembersReadable(v, at + 1 + width, n.value, map[]); }
    }
  }

  lemma {:induction false} EqKeepsPackable(x: Value, y: Value)
    requires Eq(x, y) && Packable(x)
    ensures Packable(y)
    decreases y
  {
    match (x, y)
    case (Arr(p), Arr(q)) =>
      forall i | 0 <= i < |q| ensures Packable(q[i]) { EqKeepsPackable(p[i], q[i]); }
    case (Obj(p), Obj(q)) =>
      assert |q| == |q.Keys| == |p.Keys| == |p|;
      forall k | k in q ensures |k| <= UINT32_MAX && Packable(q[k]) { EqKeepsPackable(p[k], q[k]); }
    case _ =>
  }

  /** MessagePack round trip between any bytes; equal exactly on packable values whose numbers are all finite. */
  lemma RoundTrip(prefix: Str, j: Value, suffix: Str)
    ensures var d := Unpack(prefix + Packed(j) + suffix, |prefix|);
            && (Packable(j) ==> d == Ok((Norm(j), |prefix| + |Packed(j)|)))
            && (d.Ok? && Eq(d.value.0, j) <==> Packable(j) && AllFinite(j))
  {
    hide Unpack, Packed, Norm, Packable, Eq;
    var v := prefix + Packed(j) + suffix;
    assert v[|prefix|..|prefix| + |Packed(j)|] == Packed(j);
    NormIsEq(j);
    if Packable(j) { ReadsBack(v, |prefix|, j); }
    UnpackedReadable(v, |prefix|);
    var d := Unpack(v, |prefix|);
    if d.Ok? && Eq(d.value.0, j) { EqKeepsPackable(d.value.0, j); }
  }

  /** A string one byte too long is written without a header, and its first byte is read as a number. */
  lemma TooLongIsLost()
    ensures var s: Str := seq(UINT32_MAX + 1, i => 0);
            !Packable(Text(s)) && Packed(Text(s)) == s && Unpack(Packed(Text(s)), 0) == Ok((UInt(0), 1))
  {
    var s: Str := seq(UINT32_MAX + 1, i => 0);
    assert [] + s == s;
  }

  /** An infinity, written and read, is null. */
  lemma InfinityIsLost()
    ensures var j := Float(INFINITE); Unpack(Packed(j), 0) == Ok((Null, 9)) && !Eq(Null, j)
  {
    hide Unpack, BE;
    var j := Float(INFINITE);
    assert [] + Packed(j) + [] == Packed(j);
    RoundTrip([], j, []);
  }
}
