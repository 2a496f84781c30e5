/** The MessagePack format in its own terms. */
module MsgPackStandard {
  import opened Bytes
  import opened Values
  import opened DataItems

  /** A first byte and the number behind it. */
  predicate Numbered(b: Str, first: byte, width: nat, n: nat)
    requires width in {1, 2, 4, 8}
  {
    |b| == 1 + width && b[0] == first && n == Weighed(b[1..])
  }

  /** positive fixint, uint 8 to uint 64 */
  predicate UnsignedForm(b: Str, n: nat) {
    || (n < 0x80 && b == [n])
    || Numbered(b, 0xcc, 1, n)
    || Numbered(b, 0xcd, 2, n)
    || Numbered(b, 0xce, 4, n)
    || Numbered(b, 0xcf, 8, n)
  }

  /** Two's complement: of the numbers below `bound`, the upper half is negative. */
  function Wrapped(i: int, bound: nat): int { if i < 0 then i + bound else i }

  predicate InRange(i: int, half: int) { -half <= i < half }

  /** negative fixint, int 8 to int 64 */
  predicate SignedForm(b: Str, i: int) {
    || (-32 <= i < 0 && b == [0x100 + i])
    || (InRange(i, 0x80) && Numbered(b, 0xd0, 1, Wrapped(i, 0x100)))
    || (InRange(i, 0x8000) && Numbered(b, 0xd1, 2, Wrapped(i, 0x1_0000)))
    || (InRange(i, 0x8000_0000) && Numbered(b, 0xd2, 4, Wrapped(i, 0x1_0000_0000)))
    || (InRange(i, 0x8000_0000_0000_0000) && Numbered(b, 0xd3, 8, Wrapped(i, 0x1_0000_0000_0000_0000)))
  }

  /** fixstr, str 8 to str 32 */
  predicate TextForm(h: Str, n: nat) {
    (n < 32 && h == [0xa0 + n]) || Numbered(h, 0xd9, 1, n) || Numbered(h, 0xda, 2, n) || Numbered(h, 0xdb, 4, n)
  }

  /** fixarray, array 16 and array 32 */
  predicate ArrayForm(h: Str, n: nat) {
    (n < 16 && h == [0x90 + n]) || Numbered(h, 0xdc, 2, n) || Numbered(h, 0xdd, 4, n)
  }

  /** fixmap, map 16 and map 32 */
  predicate MapForm(h: Str, n: nat) {
    (n < 16 && h == [0x80 + n]) || Numbered(h, 0xde, 2, n) || Numbered(h, 0xdf, 4, n)
  }

  /**
   * The bytes of an object of the format and the value it stands for. Without `standard`, what the library reads: the
   * last value of a name that occurs again, and null for infinities and NaN.
   */
  ghost predicate Represents(b: Str, x: Value, standard: bool)
    decreases |b|, 1
  {
    match x
    case Null => b == [0xc0] || (!standard && (InfiniteDouble(b, 0xcb) || InfiniteSingle(b, 0xca)))
    case Bool(v) => b == [if v then 0xc3 else 0xc2]
    case UInt(u) => UnsignedForm(b, u)
    case Int(i) => SignedForm(b, i)
    case Float(bits) => DoubleItem(b, 0xcb, bits) || SingleItem(b, 0xca, bits)
    case Text(s) => TextItem(b, s)
    case Arr(a) => exists k | 0 < k <= |b| :: ArrayForm(b[..k], |a|) && Items(b[k..], a, standard)
    case Obj(o) =>
      exists ps: seq<Pair> :: Gathers(ps, o) && (standard ==> Distinct(ps)) && MapItem(b, ps, standard)
  }

  ghost predicate TextItem(b: Str, s: Str) { exists k | 0 < k <= |b| :: TextForm(b[..k], |s|) && b[k..] == s }

  ghost predicate Items(b: Str, a: seq<Value>, standard: bool)
    decreases |b|, 2
  {
    if a == [] then b == []
    else exists k | 0 < k <= |b| :: Represents(b[..k], a[0], standard) && Items(b[k..], a[1..], standard)
  }

  ghost predicate MapItem(b: Str, ps: seq<Pair>, standard: bool)
    decreases |b|, 0
  {
    exists k | 0 < k <= |b| :: MapForm(b[..k], |ps|) && Pairs(b[k..], ps, standard)
  }

  ghost predicate Pairs(b: Str, ps: seq<Pair>, standard: bool)
    decreases |b|, 2
  {
    if ps == [] then b == []
    else
      exists k, m | 0 < k < m <= |b| ::
        TextItem(b[..k], ps[0].0) && Represents(b[k..m], ps[0].1, standard) && Pairs(b[m..], ps[1..], standard)
  }
}
