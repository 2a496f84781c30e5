/** RFC 7049 in its own terms. */
module CborStandard {
  import opened Bytes
  import opened Values
  import opened HalfLaw
  import opened DataItems

  /** Initial byte and argument (RFC 7049, section 2), the argument in any width that holds it. */
  predicate IsHead(h: Str, major: nat, n: nat)
    requires major < 7
  {
    || (n < 24 && h == [0x20 * major + n])
    || (|h| == 2 && h[0] == 0x20 * major + 24 && n == Weighed(h[1..]))
    || (|h| == 3 && h[0] == 0x20 * major + 25 && n == Weighed(h[1..]))
    || (|h| == 5 && h[0] == 0x20 * major + 26 && n == Weighed(h[1..]))
    || (|h| == 9 && h[0] == 0x20 * major + 27 && n == Weighed(h[1..]))
  }

  /** A finite number of two, four or eight bytes, and the double that denotes it. */
  predicate FloatItem(b: Str, bits: uint64) {
    || DoubleItem(b, 0xfb, bits)
    || SingleItem(b, 0xfa, bits)
    || (|b| == 3 && b[0] == 0xf9
        && var h := Weighed(b[1..]); h / 0x400 % 0x20 != 31 && Denotes(bits, h >= 0x8000, HalfNumber(h)))
  }

  /** An infinity or a NaN. */
  predicate InfiniteItem(b: Str) {
    || InfiniteDouble(b, 0xfb)
    || InfiniteSingle(b, 0xfa)
    || (|b| == 3 && b[0] == 0xf9 && Weighed(b[1..]) / 0x400 % 0x20 == 31)
  }

  /** Between the initial byte of an indefinite length and the break. */
  predicate Open(b: Str, first: byte) { |b| >= 2 && b[0] == first && b[|b| - 1] == 0xff }

  /**
   * The bytes of a data item (RFC 7049, section 2.1) and the value it stands for. The standard wants every chunk of a
   * string to have a definite length and the names of a map to be distinct. Without it, what the library reads: nested
   * chunks, the last value of a name, negative numbers modulo 2 to the power of 64, and null for infinities and NaN.
   */
  ghost predicate Represents(b: Str, x: Value, standard: bool)
    decreases |b|, 1
  {
    match x
    case Null => b == [0xf6] || (!standard && InfiniteItem(b))
    case Bool(v) => b == [if v then 0xf5 else 0xf4]
    case UInt(u) => IsHead(b, 0, u)
    case Int(i) => IsHead(b, 1, (-1 - i) % 0x1_0000_0000_0000_0000) && (standard ==> i < 0)
    case Float(bits) => FloatItem(b, bits)
    case Text(s) => TextItem(b, s, standard)
    case Arr(a) =>
      || (exists k | 0 < k <= |b| :: IsHead(b[..k], 4, |a|) && Items(b[k..], a, standard))
      || (Open(b, 0x9f) && Items(b[1..|b| - 1], a, standard))
    case Obj(o) =>
      exists ps: seq<Pair> :: Gathers(ps, o) && (standard ==> Distinct(ps)) && MapItem(b, ps, standard)
  }

  /** Data items one behind the other. */
  ghost predicate Items(b: Str, a: seq<Value>, standard: bool)
    decreases |b|, 2
  {
    if a == [] then b == []
    else exists k | 0 < k <= |b| :: Represents(b[..k], a[0], standard) && Items(b[k..], a[1..], standard)
  }

  ghost predicate TextItem(b: Str, s: Str, standard: bool)
    decreases |b|, 0
  {
    || (exists k | 0 < k <= |b| :: IsHead(b[..k], 3, |s|) && b[k..] == s)
    || (Open(b, 0x7f) && Chunks(b[1..|b| - 1], s, standard))
  }

  /** Strings one behind the other, put together in order. */
  ghost predicate Chunks(b: Str, s: Str, standard: bool)
    decreases |b|, 2
  {
    if b == [] then s == []
    else
      exists k, m | 0 < k <= |b| && 0 <= m <= |s| ::
        && TextItem(b[..k], s[..m], standard)
        && (standard ==> b[0] != 0x7f)
        && Chunks(b[k..], s[m..], standard)
  }

  ghost predicate MapItem(b: Str, ps: seq<Pair>, standard: bool)
    decreases |b|, 0
  {
    || (exists k | 0 < k <= |b| :: IsHead(b[..k], 5, |ps|) && Pairs(b[k..], ps, standard))
    || (Open(b, 0xbf) && Pairs(b[1..|b| - 1], ps, standard))
  }

  /** Names and values in turn. */
  ghost predicate Pairs(b: Str, ps: seq<Pair>, standard: bool)
    decreases |b|, 2
  {
    if ps == [] then b == []
    else
      exists k, m | 0 < k < m <= |b| ::
        && TextItem(b[..k], ps[0].0, standard)
        && Represents(b[k..m], ps[0].1, standard)
        && Pairs(b[m..], ps[1..], standard)
  }

  // ---------- the standard is part of what is read ----------

  lemma {:induction false} StandardIsRead(b: Str, x: Value)
    requires Represents(b, x, true)
    ensures Represents(b, x, false)
    decreases |b|, 1
  {
    match x
    case Text(s) => StandardText(b, s);
    case Arr(a) =>
      if k :| 0 < k <= |b| && IsHead(b[..k], 4, |a|) && Items(b[k..], a, true) {
        StandardItems(b[k..], a);
      } else {
        StandardItems(b[1..|b| - 1], a);
      }
    case Obj(o) =>
      var ps: seq<Pair> :| Gathers(ps, o) && Distinct(ps) && MapItem(b, ps, true);
      StandardMap(b, ps);
    case _ =>
  }

  lemma {:induction false} StandardItems(b: Str, a: seq<Value>)
    requires Items(b, a, true)
    ensures Items(b, a, false)
    decreases |b|, 2
  {
    if a != [] {
      var k :| 0 < k <= |b| && Represents(b[..k], a[0], true) && Items(b[k..], a[1..], true);
      StandardIsRead(b[..k], a[0]);
      StandardItems(b[k..], a[1..]);
    }
  }

  lemma {:induction false} StandardText(b: Str, s: Str)
    requires TextItem(b, s, true)
    ensures TextItem(b, s, false)
    decreases |b|, 0
  {
    if Open(b, 0x7f) && Chunks(b[1..|b| - 1], s, true) { StandardChunks(b[1..|b| - 1], s); }
  }

  lemma {:induction false} StandardChunks(b: Str, s: Str)
    requires Chunks(b, s, true)
    ensures Chunks(b, s, false)
    decreases |b|, 2
  {
    if b != [] {
      var k, m :| 0 < k <= |b| && 0 <= m <= |s| && TextItem(b[..k], s[..m], true) && Chunks(b[k..], s[m..], true);
      StandardText(b[..k], s[..m]);
      StandardChunks(b[k..], s[m..]);
    }
  }

  lemma {:induction false} StandardMap(b: Str, ps: seq<Pair>)
    requires MapItem(b, ps, true)
    ensures MapItem(b, ps, false)
    decreases |b|, 0
  {
    if k :| 0 < k <= |b| && IsHead(b[..k], 5, |ps|) && Pairs(b[k..], ps, true) {
      StandardPairs(b[k..], ps);
    } else {
      StandardPairs(b[1..|b| - 1], ps);
    }
  }

  lemma {:induction false} StandardPairs(b: Str, ps: seq<Pair>)
    requires Pairs(b, ps, true)
    ensures Pairs(b, ps, false)
    decreases |b|, 2
  {
    if ps != [] {
      var k, m :| 0 < k < m <= |b| && TextItem(b[..k], ps[0].0, true) && Represents(b[k..m], ps[0].1, true)
                  && Pairs(b[m..], ps[1..], true);
      StandardText(b[..k], ps[0].0);
      StandardIsRead(b[k..m], ps[0].1);
      StandardPairs(b[m..], ps[1..]);
    }
  }
}
