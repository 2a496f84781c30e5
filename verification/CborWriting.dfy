/** `to_cbor` writes data items of RFC 7049, with heads as short as they can be. */
module CborWriting {
  import opened Bytes
  import opened Results
  import opened Values
  import opened BigEndian
  import opened Cbor
  import opened DataItems
  import opened CborStandard
  import opened CborMeaning

  lemma WideHeadIs(major: nat, n: nat, info: nat, width: nat)
    requires major < 7 && 24 <= info < 28 && width == WidthOf(info) && n < Pow256(width)
    ensures IsHead([0x20 * major + info] + BE(n, width), major, n)
  {
    hide BE, Weighed, FromBE;
    var h := [0x20 * major + info] + BE(n, width);
    assert h[1..] == BE(n, width);
    FromBEOfBE(n, width);
    WeighedIs(BE(n, width));
  }

  lemma HeadIs(major: nat, n: nat)
    requires major < 7 && n <= UINT64_MAX
    ensures IsHead(Head(major, n), major, n)
  {
    hide BE, Weighed, Pow256;
    Powers();
    if n <= 23 {
    } else if n <= 0xff {
      WideHeadIs(major, n, 24, 1);
    } else if n <= 0xffff {
      WideHeadIs(major, n, 25, 2);
    } else if n <= 0xffff_ffff {
      WideHeadIs(major, n, 26, 4);
    } else {
      WideHeadIs(major, n, 27, 8);
    }
  }

  /** No head with the same argument is shorter. */
  lemma HeadIsShortest(h: Str, major: nat, n: nat)
    requires major < 7 && IsHead(h, major, n)
    ensures |Head(major, n)| <= |h|
  {
    hide BE;
  }

  lemma TextIs(s: Str)
    requires |s| <= UINT64_MAX
    ensures TextItem(Head(3, |s|) + s, s, true)
  {
    hide IsHead, Head;
    HeadIs(3, |s|);
    AppendedHead(Head(3, |s|), s);
  }

  lemma {:induction false} ItemsAre(j: Value, i: nat)
    requires j.Arr? && Sized(j) && AllFinite(j) && i <= |j.a|
    ensures Items(EncodedItems(j, i), NormItems(j.a)[i..], true)
    decreases j, 0, |j.a| - i
  {
    hide Encoded, Norm, Represents;
    if i < |j.a| {
      EncodedIs(j.a[i]);
      ItemsAre(j, i + 1);
      AppendedHead(Encoded(j.a[i]), EncodedItems(j, i + 1));
      var rest := NormItems(j.a)[i..];
      assert rest[0] == Norm(j.a[i]) && rest[1..] == NormItems(j.a)[i + 1..];
    }
  }

  lemma {:induction false} MembersAre(j: Value, ks: seq<Str>)
    requires j.Obj? && Sized(j) && AllFinite(j) && forall k | k in ks :: k in j.o
    ensures Pairs(EncodedMembers(j, ks), NormPairs(j.o, ks), true)
    decreases j, 0, |ks|
  {
    hide Encoded, Norm, Represents, TextItem, Head;
    if ks != [] {
      assert ks[0] in j.o;
      EncodedIs(j.o[ks[0]]);
      TextIs(ks[0]);
      MembersAre(j, ks[1..]);
      MemberParts(Head(3, |ks[0]|) + ks[0], Encoded(j.o[ks[0]]), EncodedMembers(j, ks[1..]));
      var ps := NormPairs(j.o, ks);
      assert ps[0] == (ks[0], Norm(j.o[ks[0]])) && ps[1..] == NormPairs(j.o, ks[1..]);
    }
  }

  lemma ListItem(h: Str, b: Str, a: seq<Value>)
    requires h != [] && IsHead(h, 4, |a|) && Items(b, a, true)
    ensures Represents(h + b, Arr(a), true)
  {
    hide IsHead, Items;
    AppendedHead(h, b);
  }

  lemma ObjectItem(h: Str, b: Str, ps: seq<Pair>, o: map<Str, Value>)
    requires h != [] && IsHead(h, 5, |ps|) && Pairs(b, ps, true) && Gathers(ps, o) && Distinct(ps)
    ensures Represents(h + b, Obj(o), true)
  {
    hide IsHead, Pairs, Gathers, Distinct;
    AppendedHead(h, b);
    assert MapItem(h + b, ps, true);
  }

  lemma FloatIs(bits: uint64)
    requires IsFinite(bits)
    ensures FloatItem([0xfb] + BE(bits, 8), bits)
  {
    hide BE, FromBE, Weighed, IsFinite;
    Powers();
    var b := [0xfb] + BE(bits, 8);
    assert b[1..] == BE(bits, 8);
    FromBEOfBE(bits, 8);
    WeighedIs(BE(bits, 8));
  }

  lemma {:induction false} ObjectIs(j: Value, ks: seq<Str>)
    requires j.Obj? && Sized(j) && AllFinite(j) && Ascending(ks) && |ks| == |j.o| && forall k :: k in ks <==> k in j.o
    ensures Represents(Head(5, |j.o|) + EncodedMembers(j, ks), Norm(j), true)
    decreases j, 1, 0
  {
    hide Head, EncodedMembers, IsHead, Gathers, Distinct, Ascending, Pairs, Represents;
    HeadIs(5, |j.o|);
    MembersAre(j, ks);
    PairsGather(j.o, ks);
    ObjectItem(Head(5, |j.o|), EncodedMembers(j, ks), NormPairs(j.o, ks), Norm(j).o);
  }

  /** What is written for a value with finite numbers is a data item of the standard that stands for the value. */
  lemma {:induction false} EncodedIs(j: Value)
    requires Sized(j) && AllFinite(j)
    ensures Represents(Encoded(j), Norm(j), true)
    decreases j, 2, 0
  {
    hide Head, IsHead, EncodedItems, EncodedMembers, SortedKeys, FloatItem, TextItem, Items, MapItem;
    match j
    case Int(i) => HeadIs(if i >= 0 then 0 else 1, if i >= 0 then i else -1 - i);
    case UInt(u) => HeadIs(0, u);
    case Float(bits) => FloatIs(bits);
    case Text(s) => TextIs(s);
    case Arr(a) =>
      HeadIs(4, |a|);
      ItemsAre(j, 0);
      assert NormItems(a)[0..] == NormItems(a);
      ListItem(Head(4, |a|), EncodedItems(j, 0), NormItems(a));
    case Obj(o) => ObjectIs(j, SortedKeys(o.Keys));
    case _ =>
  }

  // ---------- what is read beyond the standard ----------

  /** A string of indefinite length as a chunk of another one. */
  lemma NestedChunk()
    ensures Decode([0x7f, 0x7f, 0x61, 0x78, 0xff, 0xff], 0) == Ok((Text([0x78]), 6))
    ensures !TextItem([0x7f, 0x7f, 0x61, 0x78, 0xff, 0xff], [0x78], true)
  {
    hide Decode, TextItem;
    var b: Str := [0x7f, 0x7f, 0x61, 0x78, 0xff, 0xff];
    ShortText();
    OneChunk([0x61, 0x78], [0x78]);
    assert [0x7f] + [0x61, 0x78] + [0xff] == [0x7f, 0x61, 0x78, 0xff];
    OneChunk([0x7f, 0x61, 0x78, 0xff], [0x78]);
    assert [0x7f] + [0x7f, 0x61, 0x78, 0xff] + [0xff] == b;
    assert b[0..6] == b;
    DecodeIsRepresents(b, 0, Text([0x78]), 6);
    NestedIsLoose(b, [0x78]);
  }

  lemma ShortText()
    ensures TextItem([0x61, 0x78], [0x78], false)
  {
    var chunk: Str := [0x61, 0x78];
    assert chunk[..1] == [0x61] && chunk[1..] == [0x78];
  }

  lemma OneChunk(b: Str, s: Str)
    requires b != [] && TextItem(b, s, false)
    ensures TextItem([0x7f] + b + [0xff], s, false)
  {
    hide TextItem;
    assert b[..|b|] == b && b[|b|..] == [] && s[..|s|] == s && s[|s|..] == [];
    assert Chunks(b[|b|..], s[|s|..], false);
    assert Chunks(b, s, false);
    OpenText(b, s);
  }

  lemma OpenText(b: Str, s: Str)
    requires Chunks(b, s, false)
    ensures TextItem([0x7f] + b + [0xff], s, false)
  {
    hide Chunks, IsHead;
    var o := [0x7f] + b + [0xff];
    assert o[1..|o| - 1] == b;
  }

  lemma NestedIsLoose(b: Str, s: Str)
    requires Open(b, 0x7f) && |b| >= 3 && b[1] == 0x7f
    ensures !TextItem(b, s, true)
  {
    hide IsHead;
    NoHead(b, |s|);
    var inner := b[1..|b| - 1];
    assert inner[0] == 0x7f;
  }

  lemma NoHead(b: Str, n: nat)
    requires b != [] && b[0] == 0x7f
    ensures forall k | 0 < k <= |b| :: !IsHead(b[..k], 3, n)
  {
    hide Weighed;
    forall k | 0 < k <= |b| ensures !IsHead(b[..k], 3, n) { assert b[..k][0] == 0x7f; }
  }

  /** The integer -1 - 2^63 does not fit: it is read as 2^63 - 1. */
  lemma NegativeWraps()
    ensures Decode([0x3b, 0x80, 0, 0, 0, 0, 0, 0, 0], 0) == Ok((Int(INT64_MAX), 9))
    ensures IsHead([0x3b, 0x80, 0, 0, 0, 0, 0, 0, 0], 1, 0x8000_0000_0000_0000)
  {
    hide Decode;
    var b: Str := [0x3b, 0x80, 0, 0, 0, 0, 0, 0, 0];
    assert b[1..] == [0x80, 0, 0, 0, 0, 0, 0, 0];
    assert b[0..9] == b;
    DecodeIsRepresents(b, 0, Int(INT64_MAX), 9);
  }
}
