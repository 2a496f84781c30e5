/** CBOR (RFC 7049): `to_cbor_internal` and `from_cbor_internal`. */
module Cbor {
  import opened Bytes
  import opened Results
  import opened Values
  import opened BigEndian
  import opened Halves
  import opened Reading

  // ---------- the format ----------

  /** Initial byte and argument of a data item (RFC 7049, section 2). */
  function Head(major: nat, n: nat): (h: Str)
    requires major < 8
    ensures 0 < |h| <= 9
  {
    if n <= 23 then [32 * major + n]
    else if n <= 0xff then [32 * major + 24] + BE(n, 1)
    else if n <= 0xffff then [32 * major + 25] + BE(n, 2)
    else if n <= 0xffff_ffff then [32 * major + 26] + BE(n, 4)
    else [32 * major + 27] + BE(n, 8)
  }

  function Encoded(j: Value): (e: Str)
    ensures e != []
    decreases j, 1, 0
  {
    match j
    case Null => [0xf6]
    case Bool(b) => [if b then 0xf5 else 0xf4]
    case Int(i) => if i >= 0 then Head(0, i) else Head(1, -1 - i)
    case UInt(u) => Head(0, u)
    case Float(bits) => [0xfb] + BE(bits, 8)
    case Text(s) => Head(3, |s|) + s
    case Arr(a) => Head(4, |a|) + EncodedItems(j, 0)
    case Obj(o) => Head(5, |o|) + EncodedMembers(j, SortedKeys(o.Keys))
  }

  function EncodedItems(j: Value, i: nat): Str
    requires j.Arr?
    decreases j, 0, |j.a| - i
  {
    if i >= |j.a| then [] else Encoded(j.a[i]) + EncodedItems(j, i + 1)
  }

  function EncodedMembers(j: Value, ks: seq<Str>): Str
    requires j.Obj? && forall k | k in ks :: k in j.o
    decreases j, 0, |ks|
  {
    if ks == [] then []
    else Head(3, |ks[0]|) + ks[0] + Encoded(j.o[ks[0]]) + EncodedMembers(j, ks[1..])
  }

  /** Sizes are `size_t`. */
  predicate Sized(j: Value)
    decreases j
  {
    match j
    case Text(s) => |s| <= UINT64_MAX
    case Arr(a) => |a| <= UINT64_MAX && forall i | 0 <= i < |a| :: Sized(a[i])
    case Obj(o) => |o| <= UINT64_MAX && forall k | k in o :: |k| <= UINT64_MAX && Sized(o[k])
    case _ => true
  }

  // ---------- encoder ----------

  method WriteHead(v: Str, n: nat, small: byte, one: byte, two: byte, four: byte, eight: byte) returns (out: Str)
    requires n <= UINT64_MAX && small % 32 == 0
    requires one == small + 24 && two == small + 25 && four == small + 26 && eight == small + 27
    ensures out == v + Head(small / 32, n)
  {
    if n <= 0x17 {
      out := v + [small + n];
    } else if n <= 0xff {
      out := AddToVector(v + [one], 1, n);
    } else if n <= 0xffff {
      out := AddToVector(v + [two], 2, n);
    } else if n <= 0xffff_ffff {
      out := AddToVector(v + [four], 4, n);
    } else {
      out := AddToVector(v + [eight], 8, n);
    }
  }

  method ToCborInternal(j: Value, v: Str) returns (out: Str)
    requires Sized(j)
    ensures out == v + Encoded(j)
    decreases j, 1
  {
    hide Head, EncodedItems, EncodedMembers, SortedKeys;
    out := v;
    match j
    case Null =>
      out := out + [0xf6];
    case Bool(b) =>
      out := out + [if b then 0xf5 else 0xf4];
    case Int(i) =>
      if i >= 0 {
        out := WriteHead(out, i, 0x00, 0x18, 0x19, 0x1a, 0x1b);
      } else {
        var positive := -1 - i;
        out := WriteHead(out, positive, 0x20, 0x38, 0x39, 0x3a, 0x3b);
      }
    case UInt(u) =>
      out := WriteHead(out, u, 0x00, 0x18, 0x19, 0x1a, 0x1b);
    case Float(bits) =>
      out := AddToVector(out + [0xfb], 8, bits);
    case Text(s) =>
      out := WriteHead(out, |s|, 0x60, 0x78, 0x79, 0x7a, 0x7b);
      out := out + s;
    case Arr(a) =>
      out := WriteHead(out, |a|, 0x80, 0x98, 0x99, 0x9a, 0x9b);
      out := WriteItems(j, out);
    case Obj(o) =>
      out := WriteHead(out, |o|, 0xa0, 0xb8, 0xb9, 0xba, 0xbb);
      out := WriteMembers(j, SortedKeys(o.Keys), out);
  }

  method WriteItems(j: Value, v: Str) returns (out: Str)
    requires Sized(j) && j.Arr?
    ensures out == v + EncodedItems(j, 0)
    decreases j, 0
  {
    hide Encoded;
    out := v;
    for i := 0 to |j.a|
      invariant out + EncodedItems(j, i) == v + EncodedItems(j, 0)
    {
      var item := ToCborInternal(j.a[i], out);
      assert out + (Encoded(j.a[i]) + EncodedItems(j, i + 1)) == item + EncodedItems(j, i + 1);
      out := item;
    }
  }

  method WriteMembers(j: Value, ks: seq<Str>, v: Str) returns (out: Str)
    requires Sized(j) && j.Obj? && forall k | k in ks :: k in j.o
    ensures out == v + EncodedMembers(j, ks)
    decreases j, 0
  {
    hide Encoded, Head, EncodedMembers;
    out := v;
    assert ks[0..] == ks;
    for i := 0 to |ks|
      invariant out + EncodedMembers(j, ks[i..]) == v + EncodedMembers(j, ks)
    {
      assert ks[i..][1..] == ks[i + 1..];
      MemberWritten(j, ks[i..], out);
      out := WriteHead(out, |ks[i]|, 0x60, 0x78, 0x79, 0x7a, 0x7b);
      out := out + ks[i];
      out := ToCborInternal(j.o[ks[i]], out);
    }
    assert ks[|ks|..] == [];
    MembersWritten(j, out);
  }

  lemma MemberWritten(j: Value, ks: seq<Str>, v: Str)
    requires j.Obj? && ks != [] && forall k | k in ks :: k in j.o
    ensures v + EncodedMembers(j, ks) ==
      v + Head(3, |ks[0]|) + ks[0] + Encoded(j.o[ks[0]]) + EncodedMembers(j, ks[1..])
  {
    hide Encoded, Head;
    Regroup(v, Head(3, |ks[0]|), ks[0], Encoded(j.o[ks[0]]), EncodedMembers(j, ks[1..]));
  }

  lemma MembersWritten(j: Value, v: Str)
    requires j.Obj?
    ensures v + EncodedMembers(j, []) == v
  {
  }

  lemma Regroup(a: Str, b: Str, c: Str, d: Str, e: Str)
    ensures a + (b + c + d + e) == a + b + c + d + e
  {
  }

  // ---------- what the decoder accepts ----------

  function WidthOf(info: nat): nat
    requires 24 <= info < 28
  {
    if info == 24 then 1 else if info == 25 then 2 else if info == 26 then 4 else 8
  }

  /** The argument of the item at `at`, and where it ends. */
  function Argument(v: Str, at: nat, info: nat): (r: Result<(nat, nat)>)
    requires at < |v| && info < 28
    ensures r.Ok? ==> at < r.value.1 <= |v| && r.value.0 <= UINT64_MAX
  {
    if info < 24 then Ok((info, at + 1))
    else
      Powers();
      var n :- NumberAt(v, at, WidthOf(info));
      Ok((n, at + 1 + WidthOf(info)))
  }

  function SimpleAt(v: Str, at: nat): (r: Decoded)
    requires at < |v|
    ensures r.Ok? ==> at < r.value.1 <= |v|
  {
    Powers();
    if v[at] == 0xf4 then Ok((Bool(false), at + 1))
    else if v[at] == 0xf5 then Ok((Bool(true), at + 1))
    else if v[at] == 0xf6 then Ok((Null, at + 1))
    else if v[at] == 0xf9 then
      var h :- NumberAt(v, at, 2);
      Ok((FloatValue(HalfToDouble(h)), at + 3))
    else if v[at] == 0xfa then
      var s :- NumberAt(v, at, 4);
      Ok((FloatValue(SingleToDouble(s)), at + 5))
    else if v[at] == 0xfb then
      var d :- NumberAt(v, at, 8);
      Ok((FloatValue(d), at + 9))
    else Err(InvalidArgument)
  }

  /** The data item at `at` and where it ends, by major type (RFC 7049, section 2.1). */
  function Decode(v: Str, at: nat): (r: Decoded)
    ensures r.Ok? ==> at < r.value.1 <= |v|
    decreases if at <= |v| then |v| - at else 0, 1
  {
    if at >= |v| then Err(OutOfRange)
    else
      var major, info := v[at] / 32, v[at] % 32;
      if major == 7 then SimpleAt(v, at)
      else if major == 2 || major == 6 || 28 <= info < 31 || (info == 31 && major < 2) then Err(InvalidArgument)
      else if info == 31 then
        if major == 3 then DecodeChunks(v, at + 1, [])
        else if major == 4 then DecodeOpenItems(v, at + 1, [])
        else DecodeOpenMembers(v, at + 1, map[])
      else
        var (n, next) :- Argument(v, at, info);
        if major == 0 then Ok((UInt(n), next))
        else if major == 1 then Ok((Int(-1 - ToSigned(n)), next))
        else if major == 3 then TextAt(v, next, n)
        else if major == 4 then DecodeItems(v, next, n, [])
        else DecodeMembers(v, next, n, map[])
  }

  function DecodeItems(v: Str, at: nat, n: nat, acc: seq<Value>): (r: Decoded)
    requires at <= |v|
    ensures r.Ok? ==> at <= r.value.1 <= |v|
    decreases |v| - at, 2, n
  {
    if n == 0 then Ok((Arr(acc), at))
    else
      var (item, next) :- Decode(v, at);
      DecodeItems(v, next, n - 1, acc + [item])
  }

  function DecodeMembers(v: Str, at: nat, n: nat, acc: map<Str, Value>): (r: Decoded)
    requires at <= |v|
    ensures r.Ok? ==> at <= r.value.1 <= |v|
    decreases |v| - at, 2, n
  {
    if n == 0 then Ok((Obj(acc), at))
    else
      var (key, mid) :- Decode(v, at);
      if !key.Text? then Err(DomainError)
      else
        var (item, next) :- Decode(v, mid);
        DecodeMembers(v, next, n - 1, acc[key.s := item])
  }

  function DecodeChunks(v: Str, at: nat, acc: Str): (r: Decoded)
    requires at <= |v|
    ensures r.Ok? ==> at < r.value.1 <= |v|
    decreases |v| - at, 2
  {
    if at == |v| then Err(OutOfRange)
    else if v[at] == 0xff then Ok((Text(acc), at + 1))
    else
      var (chunk, next) :- Decode(v, at);
      if chunk.Text? then DecodeChunks(v, next, acc + chunk.s) else Err(DomainError)
  }

  function DecodeOpenItems(v: Str, at: nat, acc: seq<Value>): (r: Decoded)
    requires at <= |v|
    ensures r.Ok? ==> at < r.value.1 <= |v|
    decreases |v| - at, 2
  {
    if at == |v| then Err(OutOfRange)
    else if v[at] == 0xff then Ok((Arr(acc), at + 1))
    else
      var (item, next) :- Decode(v, at);
      DecodeOpenItems(v, next, acc + [item])
  }

  function DecodeOpenMembers(v: Str, at: nat, acc: map<Str, Value>): (r: Decoded)
    requires at <= |v|
    ensures r.Ok? ==> at < r.value.1 <= |v|
    decreases |v| - at, 2
  {
    if at == |v| then Err(OutOfRange)
    else if v[at] == 0xff then Ok((Obj(acc), at + 1))
    else
      var (key, mid) :- Decode(v, at);
      if !key.Text? then Err(DomainError)
      else
        var (item, next) :- Decode(v, mid);
        DecodeOpenMembers(v, next, acc[key.s := item])
  }

  // ---------- decoder ----------

  method FromCborInternal(v: Str, idx: nat) returns (r: Result<Value>, next: nat)
    requires |v| <= MAX_SIZE
    ensures Yields(r, next, Decode(v, idx))
    decreases if idx <= |v| then |v| - idx else 0, 1
  {
    var current := idx;
    next := idx + 1;
    if current >= |v| { return Err(OutOfRange), next; }
    var b := v[current];
    if b <= 0x1b {
      r, next := ReadUnsigned(v, current);
    } else if 0x20 <= b <= 0x3b {
      r, next := ReadNegative(v, current);
    } else if 0x60 <= b <= 0x7b {
      r, next := ReadString(v, current);
    } else if b == 0x7f {
      r, next := ReadChunks(v, next);
    } else if 0x80 <= b <= 0x97 {
      r, next := ReadItems(v, next, b - 0x80);
    } else if 0x98 <= b <= 0x9b {
      var width := if b == 0x98 then 1 else if b == 0x99 then 2 else if b == 0x9a then 4 else 8;
      var len := GetFromVector(v, current, width);
      if len.Err? { return Err(len.error), next; }
      r, next := ReadItems(v, next + width, len.value);
    } else if b == 0x9f {
      r, next := ReadOpenItems(v, next);
    } else if 0xa0 <= b <= 0xb7 {
      r, next := ReadMembers(v, next, b - 0xa0);
    } else if 0xb8 <= b <= 0xbb {
      var width := if b == 0xb8 then 1 else if b == 0xb9 then 2 else if b == 0xba then 4 else 8;
      var len := GetFromVector(v, current, width);
      if len.Err? { return Err(len.error), next; }
      r, next := ReadMembers(v, next + width, len.value);
    } else if b == 0xbf {
      r, next := ReadOpenMembers(v, next);
    } else {
      r, next := ReadSimple(v, current);
    }
  }

  method ReadUnsigned(v: Str, current: nat) returns (r: Result<Value>, next: nat)
    requires current < |v| && v[current] <= 0x1b
    ensures Yields(r, next, Decode(v, current))
  {
    hide BE, FromBE;
    Powers();
    next := current + 1;
    if v[current] <= 0x17 { return Ok(UInt(v[current])), next; }
    var width :=
      if v[current] == 0x18 then 1 else if v[current] == 0x19 then 2 else if v[current] == 0x1a then 4 else 8;
    next := next + width;
    var n := GetFromVector(v, current, width);
    if n.Err? { return Err(n.error), next; }
    return Ok(UInt(n.value)), next;
  }

  method ReadNegative(v: Str, current: nat) returns (r: Result<Value>, next: nat)
    requires current < |v| && 0x20 <= v[current] <= 0x3b
    ensures Yields(r, next, Decode(v, current))
  {
    hide BE, FromBE;
    Powers();
    next := current + 1;
    if v[current] <= 0x37 { return Ok(Int(0x20 - 1 - v[current] as int)), next; }
    var width :=
      if v[current] == 0x38 then 1 else if v[current] == 0x39 then 2 else if v[current] == 0x3a then 4 else 8;
    next := next + width;
    var n := GetFromVector(v, current, width);
    if n.Err? { return Err(n.error), next; }
    return Ok(Int(-1 - ToSigned(n.value))), next;
  }

  method ReadString(v: Str, current: nat) returns (r: Result<Value>, next: nat)
    requires |v| <= MAX_SIZE && current < |v| && 0x60 <= v[current] <= 0x7b
    ensures Yields(r, next, Decode(v, current))
  {
    hide BE, FromBE;
    Powers();
    next := current + 1;
    if v[current] <= 0x77 {
      r, next := ReadText(v, next, v[current] - 0x60, current + 1, 0);
    } else {
      var width :=
        if v[current] == 0x78 then 1 else if v[current] == 0x79 then 2 else if v[current] == 0x7a then 4 else 8;
      var len := GetFromVector(v, current, width);
      if len.Err? { return Err(len.error), next; }
      r, next := ReadText(v, next, len.value, current + 1 + width, width);
    }
  }

  method ReadSimple(v: Str, current: nat) returns (r: Result<Value>, next: nat)
    requires current < |v|
    requires var b := v[current]; b >= 0xc0 || 0x1c <= b <= 0x1f || 0x3c <= b <= 0x5f || 0x7c <= b <= 0x7e
                                  || 0x9c <= b <= 0x9e || 0xbc <= b <= 0xbe
    ensures Yields(r, next, Decode(v, current))
  {
    hide BE, FromBE;
    Powers();
    var b := v[current];
    next := current + 1;
    if b == 0xf4 { return Ok(Bool(false)), next; }
    if b == 0xf5 { return Ok(Bool(true)), next; }
    if b == 0xf6 { return Ok(Null), next; }
    if b !in {0xf9, 0xfa, 0xfb} { return Err(InvalidArgument), next; }
    var width := if b == 0xf9 then 2 else if b == 0xfa then 4 else 8;
    next := next + width;
    var n := GetFromVector(v, current, width);
    if n.Err? { return Err(n.error), next; }
    if b == 0xf9 { return Ok(FloatValue(HalfToDouble(n.value))), next; }
    if b == 0xfa { return Ok(FloatValue(SingleToDouble(n.value))), next; }
    return Ok(FloatValue(n.value)), next;
  }

  method ReadItems(v: Str, idx: nat, len: nat) returns (r: Result<Value>, next: nat)
    requires |v| <= MAX_SIZE && idx <= |v|
    ensures Yields(r, next, DecodeItems(v, idx, len, []))
    decreases |v| - idx, 2
  {
    hide Decode;
    var result: seq<Value> := [];
    next := idx;
    var i := 0;
    while i < len
      invariant 0 <= i <= len && idx <= next <= |v|
      invariant DecodeItems(v, idx, len, []) == DecodeItems(v, next, len - i, result)
    {
      var item, after := FromCborInternal(v, next);
      if item.Err? { return item, after; }
      result, next, i := result + [item.value], after, i + 1;
    }
    r := Ok(Arr(result));
  }

  method ReadOpenItems(v: Str, idx: nat) returns (r: Result<Value>, next: nat)
    requires |v| <= MAX_SIZE && idx <= |v|
    ensures Yields(r, next, DecodeOpenItems(v, idx, []))
    decreases |v| - idx, 2
  {
    hide Decode;
    var result: seq<Value> := [];
    next := idx;
    while next < |v| && v[next] != 0xff
      invariant idx <= next <= |v|
      invariant DecodeOpenItems(v, idx, []) == DecodeOpenItems(v, next, result)
      decreases |v| - next
    {
      var item, after := FromCborInternal(v, next);
      if item.Err? { return item, after; }
      result, next := result + [item.value], after;
    }
    if next == |v| { return Err(OutOfRange), next; }
    return Ok(Arr(result)), next + 1;
  }

  method ReadChunks(v: Str, idx: nat) returns (r: Result<Value>, next: nat)
    requires |v| <= MAX_SIZE && idx <= |v|
    ensures Yields(r, next, DecodeChunks(v, idx, []))
    decreases |v| - idx, 2
  {
    hide Decode;
    var result: Str := [];
    next := idx;
    while next < |v| && v[next] != 0xff
      invariant idx <= next <= |v|
      invariant DecodeChunks(v, idx, []) == DecodeChunks(v, next, result)
      decreases |v| - next
    {
      var chunk, after := FromCborInternal(v, next);
      if chunk.Err? { return chunk, after; }
      if !chunk.value.Text? { return Err(DomainError), after; }
      result, next := result + chunk.value.s, after;
    }
    if next == |v| { return Err(OutOfRange), next; }
    return Ok(Text(result)), next + 1;
  }

  method ReadMembers(v: Str, idx: nat, len: nat) returns (r: Result<Value>, next: nat)
    requires |v| <= MAX_SIZE && idx <= |v|
    ensures Yields(r, next, DecodeMembers(v, idx, len, map[]))
    decreases |v| - idx, 2
  {
    hide Decode;
    var result: map<Str, Value> := map[];
    next := idx;
    var i := 0;
    while i < len
      invariant 0 <= i <= len && idx <= next <= |v|
      invariant DecodeMembers(v, idx, len, map[]) == DecodeMembers(v, next, len - i, result)
    {
      var key, mid := FromCborInternal(v, next);
      if key.Err? { return key, mid; }
      if !key.value.Text? { return Err(DomainError), mid; }
      var item, after := FromCborInternal(v, mid);
      if item.Err? { return item, after; }
      result, next, i := result[key.value.s := item.value], after, i + 1;
    }
    r := Ok(Obj(result));
  }

  method ReadOpenMembers(v: Str, idx: nat) returns (r: Result<Value>, next: nat)
    requires |v| <= MAX_SIZE && idx <= |v|
    ensures Yields(r, next, DecodeOpenMembers(v, idx, map[]))
    decreases |v| - idx, 2
  {
    hide Decode;
    var result: map<Str, Value> := map[];
    next := idx;
    while next < |v| && v[next] != 0xff
      invariant idx <= next <= |v|
      invariant DecodeOpenMembers(v, idx, map[]) == DecodeOpenMembers(v, next, result)
      decreases |v| - next
    {
      var key, mid := FromCborInternal(v, next);
      if key.Err? { return key, mid; }
      if !key.value.Text? { return Err(DomainError), mid; }
      var item, after := FromCborInternal(v, mid);
      if item.Err? { return item, after; }
      result, next := result[key.value.s := item.value], after;
    }
    if next == |v| { return Err(OutOfRange), next; }
    return Ok(Obj(result)), next + 1;
  }
}
