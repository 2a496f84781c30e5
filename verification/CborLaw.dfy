/** What `to_cbor` writes, `from_cbor` reads back, wherever in a vector it stands. */
module CborLaw {
  import opened Bytes
  import opened Results
  import opened Values
  import opened BigEndian
  import opened Halves
  import opened Cbor

  lemma HeadReads(v: Str, at: nat, major: nat, n: nat)
    requires major < 7 && n <= UINT64_MAX && Stands(v, at, Head(major, n))
    ensures v[at] / 32 == major && v[at] % 32 < 28
    ensures Argument(v, at, v[at] % 32) == Ok((n, at + |Head(major, n)|))
  {
    hide BE, Pow256;
    Powers();
    if n <= 23 {
      assert v[at..at + 1][0] == v[at];
    } else if n <= 0xff {
      WideHead(v, at, 32 * major + 24, n, 1);
    } else if n <= 0xffff {
      WideHead(v, at, 32 * major + 25, n, 2);
    } else if n <= 0xffff_ffff {
      WideHead(v, at, 32 * major + 26, n, 4);
    } else {
      WideHead(v, at, 32 * major + 27, n, 8);
    }
  }

  lemma TextReads(v: Str, at: nat, s: Str)
    requires |s| <= UINT64_MAX && Stands(v, at, Head(3, |s|) + s)
    ensures Decode(v, at) == Ok((Text(s), at + |Head(3, |s|)| + |s|))
  {
    hide Head, Argument;
    StandsSplit(v, at, Head(3, |s|), s);
    HeadReads(v, at, 3, |s|);
  }

  lemma FloatReads(v: Str, at: nat, bits: uint64)
    requires Stands(v, at, [0xfb] + BE(bits, 8))
    ensures Decode(v, at) == Ok((FloatValue(bits), at + 9))
  {
    hide BE, Pow256;
    Powers();
    WideHead(v, at, 0xfb, bits, 8);
  }

  lemma {:induction false} ItemsRead(v: Str, at: nat, j: Value, i: nat, acc: seq<Value>)
    requires j.Arr? && Sized(j) && i <= |j.a| && Stands(v, at, EncodedItems(j, i))
    ensures DecodeItems(v, at, |j.a| - i, acc) == Ok((Arr(acc + NormItems(j.a)[i..]), at + |EncodedItems(j, i)|))
    decreases j, 0, |j.a| - i
  {
    hide Encoded, Decode, Norm;
    if i < |j.a| {
      StandsSplit(v, at, Encoded(j.a[i]), EncodedItems(j, i + 1));
      ReadsBack(v, at, j.a[i]);
      ItemsRead(v, at + |Encoded(j.a[i])|, j, i + 1, acc + [Norm(j.a[i])]);
      assert acc + [Norm(j.a[i])] + NormItems(j.a)[i + 1..] == acc + NormItems(j.a)[i..];
    } else {
      assert acc + NormItems(j.a)[i..] == acc;
    }
  }

  /** One member read: its key, then its value. */
  lemma MemberStep(v: Str, at: nat, n: nat, acc: map<Str, Value>, k: Str, mid: nat, x: Value, next: nat)
    requires at <= |v| && n > 0 && Decode(v, at) == Ok((Text(k), mid)) && Decode(v, mid) == Ok((x, next))
    ensures next <= |v| && DecodeMembers(v, at, n, acc) == DecodeMembers(v, next, n - 1, acc[k := x])
  {
    hide Decode;
  }

  lemma MembersStand(v: Str, at: nat, j: Value, ks: seq<Str>)
    requires j.Obj? && ks != [] && forall k | k in ks :: k in j.o
    requires Stands(v, at, EncodedMembers(j, ks))
    ensures var (name, item) := (Head(3, |ks[0]|) + ks[0], Encoded(j.o[ks[0]]));
            && Stands(v, at, name) && Stands(v, at + |name|, item)
            && Stands(v, at + |name| + |item|, EncodedMembers(j, ks[1..]))
            && |EncodedMembers(j, ks)| == |name| + |item| + |EncodedMembers(j, ks[1..])|
  {
    hide Encoded, Head;
    var name, item := Head(3, |ks[0]|) + ks[0], Encoded(j.o[ks[0]]);
    StandsSplit(v, at, name + item, EncodedMembers(j, ks[1..]));
    StandsSplit(v, at, name, item);
  }

  lemma MembersEnd(v: Str, at: nat, j: Value, acc: map<Str, Value>)
    requires j.Obj? && Stands(v, at, EncodedMembers(j, []))
    ensures EncodedMembers(j, []) == [] && DecodeMembers(v, at, 0, acc) == Ok((Obj(acc), at))
  {
  }

  lemma {:induction false} MembersRead(v: Str, at: nat, j: Value, ks: seq<Str>, acc: map<Str, Value>)
    requires j.Obj? && Sized(j) && Ascending(ks) && forall k | k in ks :: k in j.o
    requires Stands(v, at, EncodedMembers(j, ks))
    ensures DecodeMembers(v, at, |ks|, acc) == Ok((Obj(acc + NormMembers(j.o, ks)), at + |EncodedMembers(j, ks)|))
    decreases j, 0, |ks|
  {
    hide Encoded, Decode, Norm, Head, NormMembers, Ascending, EncodedMembers, DecodeMembers, Stands;
    if ks == [] {
      NormNothing(j.o, acc);
      MembersEnd(v, at, j, acc);
    } else {
      var k, item := ks[0], Encoded(j.o[ks[0]]);
      var mid := at + |Head(3, |k|) + k|;
      assert k in j.o;
      MembersStand(v, at, j, ks);
      TextReads(v, at, k);
      ReadsBack(v, mid, j.o[k]);
      MemberStep(v, at, |ks|, acc, k, mid, Norm(j.o[k]), mid + |item|);
      NormMembersCons(j.o, ks, acc);
      MembersRead(v, mid + |item|, j, ks[1..], acc[k := Norm(j.o[k])]);
    }
  }

  lemma {:induction false} ArrayReads(v: Str, at: nat, j: Value)
    requires j.Arr? && Sized(j) && Stands(v, at, Head(4, |j.a|) + EncodedItems(j, 0))
    ensures Decode(v, at) == Ok((Norm(j), at + |Head(4, |j.a|)| + |EncodedItems(j, 0)|))
    decreases j, 1, 0
  {
    hide Head, Argument, DecodeItems, EncodedItems;
    StandsSplit(v, at, Head(4, |j.a|), EncodedItems(j, 0));
    HeadReads(v, at, 4, |j.a|);
    ItemsRead(v, at + |Head(4, |j.a|)|, j, 0, []);
    assert [] + NormItems(j.a)[0..] == NormItems(j.a);
  }

  lemma {:induction false} ObjectReads(v: Str, at: nat, j: Value, ks: seq<Str>)
    requires j.Obj? && Sized(j) && Ascending(ks) && |ks| == |j.o| && forall k :: k in ks <==> k in j.o
    requires Stands(v, at, Head(5, |j.o|) + EncodedMembers(j, ks))
    ensures Decode(v, at) == Ok((Norm(j), at + |Head(5, |j.o|)| + |EncodedMembers(j, ks)|))
    decreases j, 1, 0
  {
    hide Head, Argument, DecodeMembers, EncodedMembers, Ascending, Norm, NormMembers;
    StandsSplit(v, at, Head(5, |j.o|), EncodedMembers(j, ks));
    HeadReads(v, at, 5, |j.o|);
    MembersRead(v, at + |Head(5, |j.o|)|, j, ks, map[]);
    NormOfObject(j.o, ks);
  }

  /** Decoding where an encoding stands yields the value and stops right behind it. */
  lemma {:induction false} ReadsBack(v: Str, at: nat, j: Value)
    requires Sized(j) && Stands(v, at, Encoded(j))
    ensures Decode(v, at) == Ok((Norm(j), at + |Encoded(j)|))
    decreases j, 2, 0
  {
    hide Head, Argument, BE, DecodeItems, DecodeMembers, EncodedItems, EncodedMembers, SortedKeys;
    match j
    case Null => assert v[at..at + 1][0] == v[at];
    case Bool(b) => assert v[at..at + 1][0] == v[at];
    case Int(i) => HeadReads(v, at, if i >= 0 then 0 else 1, if i >= 0 then i else -1 - i);
    case UInt(u) => HeadReads(v, at, 0, u);
    case Float(bits) => FloatReads(v, at, bits);
    case Text(s) => TextReads(v, at, s);
    case Arr(a) => ArrayReads(v, at, j);
    case Obj(o) => ObjectReads(v, at, j, SortedKeys(o.Keys));
  }

  /** CBOR round trip between any bytes; the value is equal exactly when all its numbers are finite. */
  lemma RoundTrip(prefix: Str, j: Value, suffix: Str)
    requires Sized(j)
    ensures var d := Decode(prefix + Encoded(j) + suffix, |prefix|);
            && d == Ok((Norm(j), |prefix| + |Encoded(j)|))
            && (Eq(d.value.0, j) <==> AllFinite(j))
  {
    hide Decode, Encoded, Norm;
    var v := prefix + Encoded(j) + suffix;
    assert v[|prefix|..|prefix| + |Encoded(j)|] == Encoded(j);
    ReadsBack(v, |prefix|, j);
    NormIsEq(j);
  }

  /** An infinity, written and read, is null. */
  lemma InfinityIsLost()
    ensures var j := Float(INFINITE); Decode(Encoded(j), 0) == Ok((Null, 9)) && !Eq(Null, j)
  {
    hide Decode, Encoded;
    var j := Float(INFINITE);
    assert [] + Encoded(j) + [] == Encoded(j);
    RoundTrip([], j, []);
    NineBytes(j);
  }

  lemma NineBytes(j: Value)
    requires j.Float?
    ensures |Encoded(j)| == 9
  {
  }

  lemma BytesOfInfinity()
    ensures BE(0x7c00, 2) == [0x7c, 0]
    ensures BE(0x7f80_0000, 4) == [0x7f, 0x80, 0, 0]
    ensures BE(INFINITE, 8) == [0x7f, 0xf0, 0, 0, 0, 0, 0, 0]
  {
    assert BE(0x7c, 1) == [0x7c];
    assert BE(0x7f80, 2) == BE(0x7f, 1) + [0x80] == [0x7f, 0x80];
    assert BE(0x7f_8000, 3) == BE(0x7f80, 2) + [0];
    assert BE(0x7ff0, 2) == BE(0x7f, 1) + [0xf0] == [0x7f, 0xf0];
    assert BE(0x7ff0_00, 3) == BE(0x7ff0, 2) + [0];
    assert BE(0x7ff0_0000, 4) == BE(0x7ff0_00, 3) + [0];
    assert BE(0x7ff0_0000_00, 5) == BE(0x7ff0_0000, 4) + [0];
    assert BE(0x7ff0_0000_0000, 6) == BE(0x7ff0_0000_00, 5) + [0];
    assert BE(0x7ff0_0000_0000_00, 7) == BE(0x7ff0_0000_0000, 6) + [0];
  }

  /** Half, single and double precision infinity are all read as null. */
  lemma InfinitiesAreNull()
    ensures Decode([0xf9, 0x7c, 0], 0) == Ok((Null, 3))
    ensures Decode([0xfa, 0x7f, 0x80, 0, 0], 0) == Ok((Null, 5))
    ensures Decode([0xfb, 0x7f, 0xf0, 0, 0, 0, 0, 0, 0], 0) == Ok((Null, 9))
  {
    hide HalfToDouble, SingleToDouble, NumberAt, BE;
    HalfIsFinite(0x7c00);
    SingleIsFinite(0x7f80_0000);
    BytesOfInfinity();
    Powers();
    var half: Str, single: Str, double: Str :=
      [0xf9, 0x7c, 0], [0xfa, 0x7f, 0x80, 0, 0], [0xfb, 0x7f, 0xf0, 0, 0, 0, 0, 0, 0];
    assert half[1..3] == [0x7c, 0] && single[1..5] == [0x7f, 0x80, 0, 0];
    assert double[1..9] == [0x7f, 0xf0, 0, 0, 0, 0, 0, 0];
    ReadBack(half, 0, 2, 0x7c00);
    ReadBack(single, 0, 4, 0x7f80_0000);
    ReadBack(double, 0, 8, INFINITE);
  }

  // ---------- nothing decoded is infinite or NaN ----------

  lemma SimpleIsFinite(v: Str, at: nat)
    requires at < |v|
    ensures SimpleAt(v, at).Ok? ==> AllFinite(SimpleAt(v, at).value.0)
  {
    hide NumberAt, HalfToDouble, SingleToDouble;
  }

  lemma {:induction false} ItemsAreFinite(v: Str, at: nat, n: nat, acc: seq<Value>)
    requires at <= |v| && forall i | 0 <= i < |acc| :: AllFinite(acc[i])
    ensures DecodeItems(v, at, n, acc).Ok? ==> AllFinite(DecodeItems(v, at, n, acc).value.0)
    decreases |v| - at, 2, n
  {
    hide Decode;
    if n > 0 {
      DecodedIsFinite(v, at);
      var d := Decode(v, at);
      if d.Ok? { ItemsAreFinite(v, d.value.1, n - 1, acc + [d.value.0]); }
    }
  }

  lemma {:induction false} OpenItemsAreFinite(v: Str, at: nat, acc: seq<Value>)
    requires at <= |v| && forall i | 0 <= i < |acc| :: AllFinite(acc[i])
    ensures DecodeOpenItems(v, at, acc).Ok? ==> AllFinite(DecodeOpenItems(v, at, acc).value.0)
    decreases |v| - at, 2
  {
    hide Decode;
    if at < |v| {
      DecodedIsFinite(v, at);
      var d := Decode(v, at);
      if d.Ok? { OpenItemsAreFinite(v, d.value.1, acc + [d.value.0]); }
    }
  }

  lemma {:induction false} MembersAreFinite(v: Str, at: nat, n: nat, acc: map<Str, Value>)
    requires at <= |v| && forall k | k in acc :: AllFinite(acc[k])
    ensures DecodeMembers(v, at, n, acc).Ok? ==> AllFinite(DecodeMembers(v, at, n, acc).value.0)
    decreases |v| - at, 2, n
  {
    hide Decode;
    if n > 0 {
      var key := Decode(v, at);
      if key.Ok? && key.value.0.Text? {
        DecodedIsFinite(v, key.value.1);
        var d := Decode(v, key.value.1);
        if d.Ok? { MembersAreFinite(v, d.value.1, n - 1, acc[key.value.0.s := d.value.0]); }
      }
    }
  }

  lemma {:induction false} OpenMembersAreFinite(v: Str, at: nat, acc: map<Str, Value>)
    requires at <= |v| && forall k | k in acc :: AllFinite(acc[k])
    ensures DecodeOpenMembers(v, at, acc).Ok? ==> AllFinite(DecodeOpenMembers(v, at, acc).value.0)
    decreases |v| - at, 2
  {
    hide Decode;
    if at < |v| && v[at] != 0xff {
      var key := Decode(v, at);
      if key.Ok? && key.value.0.Text? {
        DecodedIsFinite(v, key.value.1);
        var d := Decode(v, key.value.1);
        if d.Ok? { OpenMembersAreFinite(v, d.value.1, acc[key.value.0.s := d.value.0]); }
      }
    }
  }

  lemma {:induction false} ChunksAreText(v: Str, at: nat, acc: Str)
    requires at <= |v|
    ensures DecodeChunks(v, at, acc).Ok? ==> DecodeChunks(v, at, acc).value.0.Text?
    decreases |v| - at
  {
    hide Decode;
    if at < |v| && v[at] != 0xff {
      var d := Decode(v, at);
      if d.Ok? && d.value.0.Text? { ChunksAreText(v, d.value.1, acc + d.value.0.s); }
    }
  }

  /** Whatever the bytes, no infinity and no NaN is decoded from them. */
  lemma {:induction false} DecodedIsFinite(v: Str, at: nat)
    ensures Decode(v, at).Ok? ==> AllFinite(Decode(v, at).value.0)
    decreases if at <= |v| then |v| - at else 0, 1
  {
    hide SimpleAt, Argument, DecodeItems, DecodeMembers, DecodeOpenItems, DecodeOpenMembers, DecodeChunks;
    if at < |v| {
      var major, info := v[at] / 32, v[at] % 32;
      SimpleIsFinite(v, at);
      if info == 31 {
        ChunksAreText(v, at + 1, []);
        OpenItemsAreFinite(v, at + 1, []);
        OpenMembersAreFinite(v, at + 1, map[]);
      } else if info < 28 {
        var n := Argument(v, at, info);
        if n.Ok? {
          ItemsAreFinite(v, n.value.1, n.value.0, []);
          MembersAreFinite(v, n.value.1, n.value.0, map[]);
        }
      }
    }
  }
}
