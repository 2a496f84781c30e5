/** `to_msgpack` writes objects of the MessagePack format, each in its shortest form. */
module MsgPackWriting {
  import opened Bytes
  import opened Values
  import opened BigEndian
  import opened MsgPack
  import opened DataItems
  import opened MsgPackStandard

  lemma NumberedIs(first: byte, width: nat, n: nat)
    requires width in {1, 2, 4, 8} && n < Pow256(width)
    ensures Numbered([first] + BE(n, width), first, width, n)
  {
    hide BE, Weighed, FromBE;
    assert ([first] + BE(n, width))[1..] == BE(n, width);
    FromBEOfBE(n, width);
    WeighedIs(BE(n, width));
  }

  lemma UnsignedIs(n: nat)
    requires n <= UINT64_MAX
    ensures UnsignedForm(PackedUnsigned(n), n)
  {
    hide BE, Numbered;
    Powers();
    if n < 128 {
    } else if n <= 0xff {
      NumberedIs(0xcc, 1, n);
    } else if n <= 0xffff {
      NumberedIs(0xcd, 2, n);
    } else if n <= 0xffff_ffff {
      NumberedIs(0xce, 4, n);
    } else {
      NumberedIs(0xcf, 8, n);
    }
  }

  lemma {:induction false} ComplementIs(n: int, k: nat)
    ensures BE(n, k) == BE(n + Pow256(k), k)
    decreases k
  {
    if k > 0 {
      var p := Pow256(k - 1);
      ComplementIs(n / 256, k - 1);
      assert (n + 256 * p) / 256 == n / 256 + p;
    }
  }

  lemma ShortNegative(n: int)
    requires -32 <= n < 0
    ensures BE(n, 1) == [0x100 + n]
  {
    FallThrough(n);
    assert n % 256 == n + 256;
  }

  lemma NegativeIs(n: int)
    requires INT64_MIN <= n < 0
    ensures SignedForm(PackedNegative(n), n)
  {
    hide BE, Numbered, Pow256;
    Powers();
    if n >= -32 {
      ShortNegative(n);
    } else if n >= -0x80 {
      ComplementIs(n, 1);
      NumberedIs(0xd0, 1, n + 0x100);
    } else if n >= -0x8000 {
      ComplementIs(n, 2);
      NumberedIs(0xd1, 2, n + 0x1_0000);
    } else if n >= -0x8000_0000 {
      ComplementIs(n, 4);
      NumberedIs(0xd2, 4, n + 0x1_0000_0000);
    } else {
      ComplementIs(n, 8);
      NumberedIs(0xd3, 8, n + 0x1_0000_0000_0000_0000);
    }
  }

  lemma HeadsAre(n: nat)
    requires n <= UINT32_MAX
    ensures TextForm(TextHead(n), n) && ArrayForm(ItemsHead(n), n) && MapForm(MembersHead(n), n)
    ensures TextHead(n) != [] && ItemsHead(n) != [] && MembersHead(n) != []
  {
    hide BE, Numbered;
    Powers();
    if n <= 0xff { NumberedIs(0xd9, 1, n); }
    if n <= 0xffff {
      NumberedIs(0xda, 2, n);
      NumberedIs(0xdc, 2, n);
      NumberedIs(0xde, 2, n);
    }
    NumberedIs(0xdb, 4, n);
    NumberedIs(0xdd, 4, n);
    NumberedIs(0xdf, 4, n);
  }

  /** No form of the same number or length is shorter. */
  lemma FormsAreShortest(b: Str, n: nat, i: int)
    ensures UnsignedForm(b, n) ==> |PackedUnsigned(n)| <= |b|
    ensures i < 0 && SignedForm(b, i) ==> |PackedNegative(i)| <= |b|
    ensures TextForm(b, n) ==> |TextHead(n)| <= |b|
    ensures ArrayForm(b, n) ==> |ItemsHead(n)| <= |b|
    ensures MapForm(b, n) ==> |MembersHead(n)| <= |b|
  {
    hide BE;
  }

  lemma TextIs(s: Str)
    requires |s| <= UINT32_MAX
    ensures TextItem(TextHead(|s|) + s, s)
  {
    hide TextForm, TextHead;
    HeadsAre(|s|);
    AppendedHead(TextHead(|s|), s);
  }

  lemma SomethingPacked(j: Value)
    requires Packable(j)
    ensures Packed(j) != []
  {
    hide BE, PackedItems, PackedMembers;
    match j
    case Text(s) => HeadsAre(|s|);
    case Arr(a) => HeadsAre(|a|);
    case Obj(o) => HeadsAre(|o|);
    case _ =>
  }

  lemma {:induction false} ItemsAre(j: Value, i: nat)
    requires j.Arr? && Packable(j) && AllFinite(j) && i <= |j.a|
    ensures Items(PackedItems(j, i), NormItems(j.a)[i..], true)
    decreases j, 0, |j.a| - i
  {
    hide Packed, Norm, Represents;
    if i < |j.a| {
      PackedIs(j.a[i]);
      SomethingPacked(j.a[i]);
      ItemsAre(j, i + 1);
      AppendedHead(Packed(j.a[i]), PackedItems(j, i + 1));
      var rest := NormItems(j.a)[i..];
      assert rest[0] == Norm(j.a[i]) && rest[1..] == NormItems(j.a)[i + 1..];
    }
  }

  lemma {:induction false} MembersAre(j: Value, ks: seq<Str>)
    requires j.Obj? && Packable(j) && AllFinite(j) && forall k | k in ks :: k in j.o
    ensures Pairs(PackedMembers(j, ks), NormPairs(j.o, ks), true)
    decreases j, 0, |ks|
  {
    hide Packed, Norm, Represents, TextItem, TextHead;
    if ks != [] {
      assert ks[0] in j.o;
      PackedIs(j.o[ks[0]]);
      SomethingPacked(j.o[ks[0]]);
      HeadsAre(|ks[0]|);
      TextIs(ks[0]);
      MembersAre(j, ks[1..]);
      MemberParts(TextHead(|ks[0]|) + ks[0], Packed(j.o[ks[0]]), PackedMembers(j, ks[1..]));
      var ps := NormPairs(j.o, ks);
      assert ps[0] == (ks[0], Norm(j.o[ks[0]])) && ps[1..] == NormPairs(j.o, ks[1..]);
    }
  }

  lemma ListForm(h: Str, b: Str, a: seq<Value>)
    requires h != [] && ArrayForm(h, |a|) && Items(b, a, true)
    ensures Represents(h + b, Arr(a), true)
  {
    hide ArrayForm, Items;
    AppendedHead(h, b);
  }

  lemma ObjectForm(h: Str, b: Str, ps: seq<Pair>, o: map<Str, Value>)
    requires h != [] && MapForm(h, |ps|) && Pairs(b, ps, true) && Gathers(ps, o) && Distinct(ps)
    ensures Represents(h + b, Obj(o), true)
  {
    hide MapForm, Pairs, Gathers, Distinct;
    AppendedHead(h, b);
    assert MapItem(h + b, ps, true);
  }

  lemma DoubleIs(bits: uint64)
    requires IsFinite(bits)
    ensures DoubleItem([0xcb] + BE(bits, 8), 0xcb, bits)
  {
    hide BE, FromBE, Weighed, IsFinite;
    Powers();
    assert ([0xcb] + BE(bits, 8))[1..] == BE(bits, 8);
    FromBEOfBE(bits, 8);
    WeighedIs(BE(bits, 8));
  }

  lemma {:induction false} ObjectIs(j: Value, ks: seq<Str>)
    requires j.Obj? && Packable(j) && AllFinite(j)
    requires Ascending(ks) && |ks| == |j.o| && forall k :: k in ks <==> k in j.o
    ensures Represents(MembersHead(|j.o|) + PackedMembers(j, ks), Norm(j), true)
    decreases j, 1, 0
  {
    hide MembersHead, PackedMembers, MapForm, Gathers, Distinct, Ascending, Pairs, Represents;
    HeadsAre(|j.o|);
    MembersAre(j, ks);
    PairsGather(j.o, ks);
    ObjectForm(MembersHead(|j.o|), PackedMembers(j, ks), NormPairs(j.o, ks), Norm(j).o);
  }

  /** What is written for a packable value with finite numbers is an object of the format that stands for the value. */
  lemma {:induction false} PackedIs(j: Value)
    requires Packable(j) && AllFinite(j)
    ensures Represents(Packed(j), Norm(j), true)
    decreases j, 2, 0
  {
    hide TextHead, ItemsHead, MembersHead, PackedUnsigned, PackedNegative, PackedItems, PackedMembers, SortedKeys,
      Items, MapItem, TextItem, DoubleItem, SingleItem, UnsignedForm, SignedForm, ArrayForm;
    match j
    case Int(i) => if i >= 0 { UnsignedIs(i); } else { NegativeIs(i); }
    case UInt(u) => UnsignedIs(u);
    case Float(bits) => DoubleIs(bits);
    case Text(s) => TextIs(s);
    case Arr(a) =>
      HeadsAre(|a|);
      ItemsAre(j, 0);
      assert NormItems(a)[0..] == NormItems(a);
      ListForm(ItemsHead(|a|), PackedItems(j, 0), NormItems(a));
    case Obj(o) => ObjectIs(j, SortedKeys(o.Keys));
    case _ =>
  }
}
