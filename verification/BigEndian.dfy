/** Integers as bytes, most significant first: `add_to_vector` and `get_from_vector`. */
module BigEndian {
  import opened Bytes
  import opened Results

  function Pow256(k: nat): (p: nat)
    ensures p > 0
  {
    if k == 0 then 1 else 256 * Pow256(k - 1)
  }

  /** The `k` low bytes of `n` in two's complement, most significant first. */
  function BE(n: int, k: nat): (s: Str)
    ensures |s| == k
    decreases k
  {
    if k == 0 then [] else BE(n / 256, k - 1) + [n % 256]
  }

  function FromBE(s: Str): nat {
    if s == [] then 0 else 256 * FromBE(s[..|s| - 1]) + s[|s| - 1]
  }

  lemma {:induction false} FromBEBound(s: Str)
    ensures FromBE(s) < Pow256(|s|)
  {
    if s != [] { FromBEBound(s[..|s| - 1]); }
  }

  /** The bytes of a number give it back; a negative one in two's complement. */
  lemma {:induction false} FromBEOfBE(n: int, k: nat)
    requires n < Pow256(k) && n + Pow256(k) >= 0
    ensures FromBE(BE(n, k)) == if n >= 0 then n else n + Pow256(k)
    decreases k
  {
    if k > 0 {
      FromBEOfBE(n / 256, k - 1);
      assert BE(n, k)[..k - 1] == BE(n / 256, k - 1);
    }
  }

  lemma Powers()
    ensures Pow256(1) == 0x100 && Pow256(2) == 0x1_0000
    ensures Pow256(4) == 0x1_0000_0000 && Pow256(8) == 0x1_0000_0000_0000_0000
  {
    assert Pow256(3) == 0x100_0000;
    assert Pow256(5) == 0x100_0000_0000;
    assert Pow256(6) == 0x1_0000_0000_0000;
    assert Pow256(7) == 0x100_0000_0000_0000;
  }

  /** `add_to_vector`: the cases fall through from the widest to the narrowest. */
  method AddToVector(vec: Str, width: nat, number: int) returns (out: Str)
    requires width in {1, 2, 4, 8}
    ensures out == vec + BE(number, width)
  {
    out := vec;
    if width == 8 {
      out := out + [number / 0x100_0000_0000_0000 % 256, number / 0x1_0000_0000_0000 % 256,
                    number / 0x100_0000_0000 % 256, number / 0x1_0000_0000 % 256];
    }
    if width >= 4 {
      out := out + [number / 0x100_0000 % 256, number / 0x1_0000 % 256];
    }
    if width >= 2 {
      out := out + [number / 0x100 % 256];
    }
    out := out + [number % 256];
    FallThrough(number);
  }

  lemma FallThrough(n: int)
    ensures BE(n, 1) == [n % 256]
    ensures BE(n, 2) == [n / 0x100 % 256, n % 256]
    ensures BE(n, 4) == [n / 0x100_0000 % 256, n / 0x1_0000 % 256, n / 0x100 % 256, n % 256]
    ensures BE(n, 8) == [n / 0x100_0000_0000_0000 % 256, n / 0x1_0000_0000_0000 % 256,
                         n / 0x100_0000_0000 % 256, n / 0x1_0000_0000 % 256,
                         n / 0x100_0000 % 256, n / 0x1_0000 % 256, n / 0x100 % 256, n % 256]
  {
    hide BE;
    LowPair(n, 2);
    LowPair(n, 4);
    LowPair(n / 0x1_0000, 2);
    LowPair(n, 8);
    LowPair(n / 0x1_0000, 6);
    Quotients(n);
    LowPair(n / 0x1_0000_0000, 4);
    LowPair(n / 0x1_0000_0000_0000, 2);
    Nothing(n);
  }

  lemma Nothing(n: int)
    ensures BE(n, 1) == [n % 256]
    ensures BE(n / 0x1_0000, 0) == BE(n / 0x1_0000_0000, 0) == BE(n / 0x1_0000_0000_0000_0000, 0) == []
    ensures BE(n / 0x1_0000_0000_0000 / 0x1_0000, 0) == []
  {
    assert BE(n, 1) == BE(n / 256, 0) + [n % 256];
  }

  /** The two low bytes, and what is above them. */
  lemma LowPair(n: int, k: nat)
    requires k >= 2
    ensures BE(n, k) == BE(n / 0x1_0000, k - 2) + [n / 0x100 % 256, n % 256]
  {
    assert n / 256 / 256 == n / 0x1_0000;
    assert BE(n, k) == BE(n / 256, k - 1) + [n % 256];
    assert BE(n / 256, k - 1) == BE(n / 256 / 256, k - 2) + [n / 256 % 256];
  }

  lemma Quotients(n: int)
    ensures n / 0x1_0000 / 0x100 == n / 0x100_0000
    ensures n / 0x1_0000 / 0x1_0000 == n / 0x1_0000_0000
    ensures n / 0x1_0000_0000 / 0x100 == n / 0x100_0000_0000
    ensures n / 0x1_0000_0000 / 0x1_0000 == n / 0x1_0000_0000_0000
    ensures n / 0x1_0000_0000_0000 / 0x100 == n / 0x100_0000_0000_0000
  {
  }

  lemma {:induction false} FromBECons(b: byte, s: Str)
    ensures FromBE([b] + s) == b * Pow256(|s|) + FromBE(s)
  {
    if s == [] {
      assert ([b] + s)[..0] == [];
    } else {
      var n := |s| - 1;
      assert ([b] + s)[..|s|] == [b] + s[..n];
      FromBECons(b, s[..n]);
      assert 256 * (b * Pow256(n)) == b * (256 * Pow256(n));
    }
  }

  /** The number of `width` bytes after position `at`. */
  function NumberAt(vec: Str, at: nat, width: nat): (r: Result<nat>)
    ensures r.Ok? ==> r.value < Pow256(width) && at + 1 + width <= |vec|
  {
    if at + width + 1 > |vec| then Err(OutOfRange)
    else
      FromBEBound(vec[at + 1..at + 1 + width]);
      Ok(FromBE(vec[at + 1..at + 1 + width]))
  }

  /** `get_from_vector<T>` with `sizeof(T) == width` on a little-endian machine:
      bytes are copied in reverse, so byte `i` of the result weighs 256 to the `i`. */
  method GetFromVector(vec: Str, at: nat, width: nat) returns (r: Result<nat>)
    ensures r == NumberAt(vec, at, width)
  {
    if at + width + 1 > |vec| { return Err(OutOfRange); }
    var result: nat, weight: nat := 0, 1;
    for i := 0 to width
      invariant weight == Pow256(i)
      invariant result == FromBE(vec[at + 1 + width - i..at + 1 + width])
    {
      FromBECons(vec[at + width - i], vec[at + 1 + width - i..at + 1 + width]);
      assert [vec[at + width - i]] + vec[at + 1 + width - i..at + 1 + width] == vec[at + width - i..at + 1 + width];
      result := result + vec[at + width - i] * weight;
      weight := weight * 256;
    }
    return Ok(result);
  }

  /** What `AddToVector` appended is what `GetFromVector` reads, up to the width. */
  lemma ReadBack(vec: Str, at: nat, width: nat, n: nat)
    requires n < Pow256(width) && at + 1 + width <= |vec| && vec[at + 1..at + 1 + width] == BE(n, width)
    ensures NumberAt(vec, at, width) == Ok(n)
  {
    hide BE, FromBE, Pow256;
    FromBEOfBE(n, width);
  }

  /** The bytes `e` stand in `v` from position `at` on. */
  predicate Stands(v: Str, at: nat, e: Str) {
    at + |e| <= |v| && v[at..at + |e|] == e
  }

  lemma StandsSplit(v: Str, at: nat, x: Str, y: Str)
    requires Stands(v, at, x + y)
    ensures Stands(v, at, x) && Stands(v, at + |x|, y)
  {
    var e := x + y;
    assert v[at..at + |x|] == v[at..at + |e|][..|x|] == e[..|x|] == x;
    assert v[at + |x|..at + |e|] == v[at..at + |e|][|x|..] == e[|x|..] == y;
  }

  lemma WideHead(v: Str, at: nat, first: byte, n: nat, width: nat)
    requires Stands(v, at, [first] + BE(n, width)) && n < Pow256(width)
    ensures v[at] == first && NumberAt(v, at, width) == Ok(n)
  {
    hide BE, FromBE, Pow256;
    StandsSplit(v, at, [first], BE(n, width));
    assert v[at..at + 1][0] == v[at];
    ReadBack(v, at, width, n);
  }
}
