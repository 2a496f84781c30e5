/** MessagePack: `to_msgpack_internal` and `from_msgpack_internal`. */
module MsgPack {
  import opened Bytes
  import opened Results
  import opened Values
  import opened BigEndian
  import opened Halves
  import opened Reading

  const UINT32_MAX: int := 0xffff_ffff

  // ---------- the format ----------

  function PackedUnsigned(n: nat): (e: Str)
    ensures e != []
  {
    if n < 128 then [n]
    else if n <= 0xff then [0xcc] + BE(n, 1)
    else if n <= 0xffff then [0xcd] + BE(n, 2)
    else if n <= 0xffff_ffff then [0xce] + BE(n, 4)
    else [0xcf] + BE(n, 8)
  }

  function PackedNegative(n: int): (e: Str)
    requires n < 0
    ensures e != []
  {
    if n >= -32 then BE(n, 1)
    else if n >= -0x80 then [0xd0] + BE(n, 1)
    else if n >= -0x8000 then [0xd1] + BE(n, 2)
    else if n >= -0x8000_0000 then [0xd2] + BE(n, 4)
    else [0xd3] + BE(n, 8)
  }

  /** Length of a string; a length beyond 32 bits gets no header at all. */
  function TextHead(n: nat): Str {
    if n <= 31 then [0xa0 + n]
    else if n <= 0xff then [0xd9] + BE(n, 1)
    else if n <= 0xffff then [0xda] + BE(n, 2)
    else if n <= UINT32_MAX then [0xdb] + BE(n, 4)
    else []
  }

  function ItemsHead(n: nat): Str {
    if n <= 15 then [0x90 + n]
    else if n <= 0xffff then [0xdc] + BE(n, 2)
    else if n <= UINT32_MAX then [0xdd] + BE(n, 4)
    else []
  }

  function MembersHead(n: nat): Str {
    if n <= 15 then [0x80 + n]
    else if n <= 0xffff then [0xde] + BE(n, 2)
    else if n <= UINT32_MAX then [0xdf] + BE(n, 4)
    else []
  }

  function Packed(j: Value): Str
    decreases j, 1, 0
  {
    match j
    case Null => [0xc0]
    case Bool(b) => [if b then 0xc3 else 0xc2]
    case Int(i) => if i >= 0 then PackedUnsigned(i) else PackedNegative(i)
    case UInt(u) => PackedUnsigned(u)
    case Float(bits) => [0xcb] + BE(bits, 8)
    case Text(s) => TextHead(|s|) + s
    case Arr(a) => ItemsHead(|a|) + PackedItems(j, 0)
    case Obj(o) => MembersHead(|o|) + PackedMembers(j, SortedKeys(o.Keys))
  }

  function PackedItems(j: Value, i: nat): Str
    requires j.Arr?
    decreases j, 0, |j.a| - i
  {
    if i >= |j.a| then [] else Packed(j.a[i]) + PackedItems(j, i + 1)
  }

  function PackedMembers(j: Value, ks: seq<Str>): Str
    requires j.Obj? && forall k | k in ks :: k in j.o
    decreases j, 0, |ks|
  {
    if ks == [] then []
    else TextHead(|ks[0]|) + ks[0] + Packed(j.o[ks[0]]) + PackedMembers(j, ks[1..])
  }

  /** Every string, array and object has a length of at most 32 bits. */
  predicate Packable(j: Value)
    decreases j
  {
    match j
    case Text(s) => |s| <= UINT32_MAX
    case Arr(a) => |a| <= UINT32_MAX && forall i | 0 <= i < |a| :: Packable(a[i])
    case Obj(o) => |o| <= UINT32_MAX && forall k | k in o :: |k| <= UINT32_MAX && Packable(o[k])
    case _ => true
  }

  // ---------- encoder ----------

  method WriteUnsigned(v: Str, n: nat) returns (out: Str)
    ensures out == v + PackedUnsigned(n)
  {
    if n < 128 {
      out := AddToVector(v, 1, n);
      assert BE(n, 1) == BE(n / 256, 0) + [n % 256];
    } else if n <= 0xff {
      out := AddToVector(v + [0xcc], 1, n);
    } else if n <= 0xffff {
      out := AddToVector(v + [0xcd], 2, n);
    } else if n <= 0xffff_ffff {
      out := AddToVector(v + [0xce], 4, n);
    } else {
      out := AddToVector(v + [0xcf], 8, n);
    }
  }

  method WriteNegative(v: Str, n: int) returns (out: Str)
    requires n < 0
    ensures out == v + PackedNegative(n)
  {
    if n >= -32 {
      out := AddToVector(v, 1, n);
    } else if n >= -0x80 {
      out := AddToVector(v + [0xd0], 1, n);
    } else if n >= -0x8000 {
      out := AddToVector(v + [0xd1], 2, n);
    } else if n >= -0x8000_0000 {
      out := AddToVector(v + [0xd2], 4, n);
    } else {
      out := AddToVector(v + [0xd3], 8, n);
    }
  }

  method WriteText(v: Str, s: Str) returns (out: Str)
    ensures out == v + (TextHead(|s|) + s)
  {
    var n := |s|;
    if n <= 31 {
      out := v + [0xa0 + n];
    } else if n <= 255 {
      out := AddToVector(v + [0xd9], 1, n);
    } else if n <= 65535 {
      out := AddToVector(v + [0xda], 2, n);
    } else if n <= 4294967295 {
      out := AddToVector(v + [0xdb], 4, n);
    } else {
      out := v;
    }
    out := out + s;
  }

  method ToMsgPackInternal(j: Value, v: Str) returns (out: Str)
    ensures out == v + Packed(j)
    decreases j, 1
  {
    hide PackedItems, PackedMembers, PackedUnsigned, PackedNegative, TextHead, SortedKeys, BE;
    match j
    case Null =>
      out := v + [0xc0];
    case Bool(b) =>
      out := v + [if b then 0xc3 else 0xc2];
    case Int(i) =>
      if i >= 0 {
        out := WriteUnsigned(v, i);
      } else {
        out := WriteNegative(v, i);
      }
    case UInt(u) =>
      out := WriteUnsigned(v, u);
    case Float(bits) =>
      out := AddToVector(v + [0xcb], 8, bits);
    case Text(s) =>
      out := WriteText(v, s);
    case Arr(a) =>
      out := WriteItems(j, v);
    case Obj(o) =>
      out := WriteMembers(j, SortedKeys(o.Keys), v);
  }

  method WriteItems(j: Value, v: Str) returns (out: Str)
    requires j.Arr?
    ensures out == v + (ItemsHead(|j.a|) + PackedItems(j, 0))
    decreases j, 0
  {
    hide Packed, BE;
    var n := |j.a|;
    if n <= 15 {
      out := v + [0x90 + n];
    } else if n <= 0xffff {
      out := AddToVector(v + [0xdc], 2, n);
    } else if n <= 0xffff_ffff {
      out := AddToVector(v + [0xdd], 4, n);
    } else {
      out := v;
    }
    ghost var head := out;
    assert head == v + ItemsHead(n);
    for i := 0 to n
      invariant out + PackedItems(j, i) == head + PackedItems(j, 0)
    {
      var item := ToMsgPackInternal(j.a[i], out);
      assert out + (Packed(j.a[i]) + PackedItems(j, i + 1)) == item + PackedItems(j, i + 1);
      out := item;
    }
    assert v + ItemsHead(n) + PackedItems(j, 0) == v + (ItemsHead(n) + PackedItems(j, 0));
  }

  method WriteMembers(j: Value, ks: seq<Str>, v: Str) returns (out: Str)
    requires j.Obj? && forall k | k in ks :: k in j.o
    ensures out == v + (MembersHead(|j.o|) + PackedMembers(j, ks))
    decreases j, 0
  {
    hide Packed, BE, TextHead;
    var n := |j.o|;
    if n <= 15 {
      out := v + [0x80 + n];
    } else if n <= 65535 {
      out := AddToVector(v + [0xde], 2, n);
    } else if n <= 4294967295 {
      out := AddToVector(v + [0xdf], 4, n);
    } else {
      out := v;
    }
    ghost var head := out;
    assert head == v + MembersHead(n);
    assert ks[0..] == ks;
    for i := 0 to |ks|
      invariant out + PackedMembers(j, ks[i..]) == head + PackedMembers(j, ks)
    {
      ghost var before := out;
      assert ks[i..][1..] == ks[i + 1..];
      out := WriteText(out, ks[i]);
      out := ToMsgPackInternal(j.o[ks[i]], out);
      Regroup(before, TextHead(|ks[i]|) + ks[i], Packed(j.o[ks[i]]), PackedMembers(j, ks[i + 1..]));
    }
    assert v + MembersHead(n) + PackedMembers(j, ks) == v + (MembersHead(n) + PackedMembers(j, ks));
  }

  lemma Regroup(a: Str, b: Str, c: Str, d: Str)
    ensures a + (b + c + d) == a + b + c + d
  {
  }

  // ---------- what the decoder accepts ----------

  /** The families of formats whose first byte carries, or is followed by, a number. */
  datatype Family = Unsigned | Signed | StringOf | ItemsOf | MembersOf

  /** Family of a first byte, with the width of the number that follows (zero: none). */
  function FamilyOf(b: byte): Option<(Family, nat)> {
    if b <= 0x7f then Some((Unsigned, 0))
    else if b <= 0x8f then Some((MembersOf, 0))
    else if b <= 0x9f then Some((ItemsOf, 0))
    else if b <= 0xbf then Some((StringOf, 0))
    else if b >= 0xe0 then Some((Signed, 0))
    else if 0xcc <= b <= 0xcf then Some((Unsigned, [1, 2, 4, 8][b - 0xcc]))
    else if 0xd0 <= b <= 0xd3 then Some((Signed, [1, 2, 4, 8][b - 0xd0]))
    else if 0xd9 <= b <= 0xdb then Some((StringOf, [1, 2, 4][b - 0xd9]))
    else if 0xdc <= b <= 0xdd then Some((ItemsOf, [2, 4][b - 0xdc]))
    else if 0xde <= b <= 0xdf then Some((MembersOf, [2, 4][b - 0xde]))
    else None
  }

  /** The number a first byte carries itself. */
  function Inline(b: byte): nat {
    if b <= 0x7f then b
    else if b <= 0x8f then b - 0x80
    else if b <= 0x9f then b - 0x90
    else if b <= 0xbf then b - 0xa0
    else b
  }

  /** Two's complement reading of `n` in `width` bytes (one byte when the width is zero). */
  function AsSigned(n: nat, width: nat): int {
    var p := Pow256(if width == 0 then 1 else width);
    if 2 * n >= p then n - p else n
  }

  function OtherAt(v: Str, at: nat): (r: Decoded)
    requires at < |v|
    ensures r.Ok? ==> at < r.value.1 <= |v|
  {
    Powers();
    if v[at] == 0xc0 then Ok((Null, at + 1))
    else if v[at] == 0xc2 then Ok((Bool(false), at + 1))
    else if v[at] == 0xc3 then Ok((Bool(true), at + 1))
    else if v[at] == 0xca then
      var s :- NumberAt(v, at, 4);
      Ok((FloatValue(SingleToDouble(s)), at + 5))
    else if v[at] == 0xcb then
      var d :- NumberAt(v, at, 8);
      Ok((FloatValue(d), at + 9))
    else Err(InvalidArgument)
  }

  function Carried(v: Str, at: nat, width: nat): (r: Result<nat>)
    requires at < |v|
    ensures r.Ok? ==> at + 1 + width <= |v| && r.value < Pow256(if width == 0 then 1 else width)
  {
    Powers();
    if width == 0 then Ok(Inline(v[at])) else NumberAt(v, at, width)
  }

  /** The value at `at` and where it ends. */
  function Unpack(v: Str, at: nat): (r: Decoded)
    ensures r.Ok? ==> at < r.value.1 <= |v|
    decreases if at <= |v| then |v| - at else 0, 1
  {
    if at >= |v| then Err(OutOfRange)
    else match FamilyOf(v[at])
      case None => OtherAt(v, at)
      case Some((family, width)) =>
        var n :- Carried(v, at, width);
        var next := at + 1 + width;
        Powers();
        match family
        case Unsigned => Ok((UInt(n), next))
        case Signed => Ok((Int(AsSigned(n, width)), next))
        case StringOf => TextAt(v, next, n)
        case ItemsOf => UnpackItems(v, next, n, [])
        case MembersOf => UnpackMembers(v, next, n, map[])
  }

  function UnpackItems(v: Str, at: nat, n: nat, acc: seq<Value>): (r: Decoded)
    requires at <= |v|
    ensures r.Ok? ==> at <= r.value.1 <= |v|
    decreases |v| - at, 2, n
  {
    if n == 0 then Ok((Arr(acc), at))
    else
      var (item, next) :- Unpack(v, at);
      UnpackItems(v, next, n - 1, acc + [item])
  }

  function UnpackMembers(v: Str, at: nat, n: nat, acc: map<Str, Value>): (r: Decoded)
    requires at <= |v|
    ensures r.Ok? ==> at <= r.value.1 <= |v|
    decreases |v| - at, 2, n
  {
    if n == 0 then Ok((Obj(acc), at))
    else
      var (key, mid) :- Unpack(v, at);
      if !key.Text? then Err(DomainError)
      else
        var (item, next) :- Unpack(v, mid);
        UnpackMembers(v, next, n - 1, acc[key.s := item])
  }

  // ---------- decoder ----------

  method FromMsgPackInternal(v: Str, idx: nat) returns (r: Result<Value>, next: nat)
    requires |v| <= MAX_SIZE
    ensures Yields(r, next, Unpack(v, idx))
    decreases if idx <= |v| then |v| - idx else 0, 1
  {
    hide BE, FromBE, UnpackItems, UnpackMembers;
    next := idx;
    if idx >= |v| { return Err(OutOfRange), next; }
    var current := idx;
    next := idx + 1;
    var b := v[current];
    if b <= 0xbf {
      if b <= 0x7f {
        r := Ok(UInt(b));
      } else if b <= 0x8f {
        r, next := ReadMembers(v, next, b % 0x10);
      } else if b <= 0x9f {
        r, next := ReadItems(v, next, b % 0x10);
      } else {
        r, next := ReadText(v, next, b % 0x20, current + 1, 0);
      }
    } else if b >= 0xe0 {
      Powers();
      r := Ok(Int(b as int - 0x100));
    } else {
      r, next := ReadTyped(v, current);
    }
  }

  /** The `switch` on the first bytes between 0xc0 and 0xdf. */
  method ReadTyped(v: Str, current: nat) returns (r: Result<Value>, next: nat)
    requires |v| <= MAX_SIZE && current < |v| && 0xc0 <= v[current] < 0xe0
    ensures Yields(r, next, Unpack(v, current))
    decreases |v| - current, 0
  {
    hide BE, FromBE, UnpackItems, UnpackMembers;
    Powers();
    var b := v[current];
    next := current + 1;
    if b == 0xc0 { return Ok(Null), next; }
    if b == 0xc2 { return Ok(Bool(false)), next; }
    if b == 0xc3 { return Ok(Bool(true)), next; }
    if b == 0xc1 || 0xc4 <= b <= 0xc9 || 0xd4 <= b <= 0xd8 { return Err(InvalidArgument), next; }
    var width := WidthAfter(b);
    var n := GetFromVector(v, current, width);
    if n.Err? { return Err(n.error), next; }
    next := next + width;
    if b == 0xca {
      r := Ok(FloatValue(SingleToDouble(n.value)));
    } else if b == 0xcb {
      r := Ok(FloatValue(n.value));
    } else if b <= 0xcf {
      r := Ok(UInt(n.value));
    } else if b <= 0xd3 {
      r := Ok(Int(AsSigned(n.value, width)));
    } else if b <= 0xdb {
      r, next := ReadText(v, next, n.value, current + 1 + width, 0);
    } else if b <= 0xdd {
      r, next := ReadItems(v, next, n.value);
    } else {
      r, next := ReadMembers(v, next, n.value);
    }
  }

  /** How many bytes of a number follow this first byte. */
  function WidthAfter(b: byte): nat {
    if b in {0xcc, 0xd0, 0xd9} then 1
    else if b in {0xcd, 0xd1, 0xda, 0xdc, 0xde} then 2
    else if b in {0xca, 0xce, 0xd2, 0xdb, 0xdd, 0xdf} then 4
    else 8
  }

  method ReadItems(v: Str, idx: nat, len: nat) returns (r: Result<Value>, next: nat)
    requires |v| <= MAX_SIZE && idx <= |v|
    ensures Yields(r, next, UnpackItems(v, idx, len, []))
    decreases |v| - idx, 2
  {
    hide Unpack;
    var result: seq<Value> := [];
    next := idx;
    var i := 0;
    while i < len
      invariant 0 <= i <= len && idx <= next <= |v|
      invariant UnpackItems(v, idx, len, []) == UnpackItems(v, next, len - i, result)
    {
      var item, after := FromMsgPackInternal(v, next);
      if item.Err? { return item, after; }
      result, next, i := result + [item.value], after, i + 1;
    }
    r := Ok(Arr(result));
  }

  method ReadMembers(v: Str, idx: nat, len: nat) returns (r: Result<Value>, next: nat)
    requires |v| <= MAX_SIZE && idx <= |v|
    ensures Yields(r, next, UnpackMembers(v, idx, len, map[]))
    decreases |v| - idx, 2
  {
    hide Unpack;
    var result: map<Str, Value> := map[];
    next := idx;
    var i := 0;
    while i < len
      invariant 0 <= i <= len && idx <= next <= |v|
      invariant UnpackMembers(v, idx, len, map[]) == UnpackMembers(v, next, len - i, result)
    {
      var key, mid := FromMsgPackInternal(v, next);
      if key.Err? { return key, mid; }
      if !key.value.Text? { return Err(DomainError), mid; }
      var item, after := FromMsgPackInternal(v, mid);
      if item.Err? { return item, after; }
      result, next, i := result[key.value.s := item.value], after, i + 1;
    }
    r := Ok(Obj(result));
  }
}
