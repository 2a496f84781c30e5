/** URL-safe base64 (RFC 4648, section 5) as `src/base64.cpp` writes and reads it. */
module Base64 {
  import opened Bytes
  import opened Decimal

  const PAD: byte := 61

  /** Position 0 to 63 of the alphabet to its character. */
  function Letter(i: nat): (c: byte)
    requires i < 64
  {
    if i < 26 then 65 + i
    else if i < 52 then 97 + (i - 26)
    else if i < 62 then 48 + (i - 52)
    else if i == 62 then 45
    else 95
  }

  predicate IsBase64(c: byte) { 48 <= c <= 57 || 65 <= c <= 90 || 97 <= c <= 122 || c == 45 || c == 95 }

  const NPOS_BYTE: byte := 0xff

  /** `base64_chars.find(c)` cut to a byte: the position, or 0xff when there is none. */
  function Position(c: byte): (i: byte)
    ensures i < 64 <==> IsBase64(c)
    ensures IsBase64(c) ==> Letter(i) == c
    ensures !IsBase64(c) ==> i == NPOS_BYTE
  {
    if 65 <= c <= 90 then c - 65
    else if 97 <= c <= 122 then c - 97 + 26
    else if 48 <= c <= 57 then c - 48 + 52
    else if c == 45 then 62
    else if c == 95 then 63
    else NPOS_BYTE
  }

  lemma PositionOfLetter(i: nat)
    requires i < 64
    ensures IsBase64(Letter(i)) && Position(Letter(i)) == i
  {
  }

  // ---------- what is encoded and decoded ----------

  function Quad(a: byte, b: byte, c: byte): (q: Str)
    ensures |q| == 4
  {
    [Letter(a / 4), Letter(a % 4 * 16 + b / 16), Letter(b % 16 * 4 + c / 64), Letter(c % 64)]
  }

  function Encoded(s: Str): (e: Str)
    ensures |e| == (|s| + 2) / 3 * 4
  {
    if |s| >= 3 then Quad(s[0], s[1], s[2]) + Encoded(s[3..])
    else if |s| == 2 then Quad(s[0], s[1], 0)[..3] + [PAD]
    else if |s| == 1 then Quad(s[0], 0, 0)[..2] + [PAD, PAD]
    else []
  }

  /** How many characters the decoder reads: up to the first outside the alphabet. */
  function Readable(e: Str): (n: nat)
    ensures n <= |e| && (forall i | 0 <= i < n :: IsBase64(e[i])) && (n < |e| ==> !IsBase64(e[n]))
  {
    if e != [] && IsBase64(e[0]) then 1 + Readable(e[1..]) else 0
  }

  /** The three bytes four positions carry. */
  function Triple(p: nat, q: nat, r: nat, t: nat): (b: Str)
    requires p < 64 && q < 64 && r < 64 && t < 64
    ensures |b| == 3
  {
    [p * 4 + q / 16, q % 16 * 16 + r / 4, r % 4 * 64 + t]
  }

  /** The bytes of alphabet characters; two or three left over give one or two bytes, one gives none. */
  function Meaning(e: Str): Str
    requires forall i | 0 <= i < |e| :: IsBase64(e[i])
  {
    if |e| < 2 then []
    else
      var p, q := Position(e[0]), Position(e[1]);
      assert IsBase64(e[0]) && IsBase64(e[1]);
      if |e| == 2 then Triple(p, q, 0, 0)[..1]
      else
        var r := Position(e[2]);
        assert IsBase64(e[2]);
        if |e| == 3 then Triple(p, q, r, 0)[..2]
        else
          var t := Position(e[3]);
          assert IsBase64(e[3]);
          Triple(p, q, r, t) + Meaning(e[4..])
  }

  function Decoded(e: Str): Str { Meaning(e[..Readable(e)]) }

  // ---------- encoder ----------

  /** `(i < 4)` characters for the three bytes in `bytes`, put into `letters`. */
  method Spread(bytes: array<byte>, letters: array<byte>)
    requires bytes.Length == 3 && letters.Length == 4 && bytes != letters
    modifies letters
    ensures forall k | 0 <= k < 4 :: letters[k] < 64
    ensures [Letter(letters[0]), Letter(letters[1]), Letter(letters[2]), Letter(letters[3])]
         == Quad(bytes[0], bytes[1], bytes[2])
  {
    letters[0] := bytes[0] / 4;
    letters[1] := bytes[0] % 4 * 16 + bytes[1] / 16;
    letters[2] := bytes[1] % 16 * 4 + bytes[2] / 64;
    letters[3] := bytes[2] % 64;
  }

  lemma EncodedBlock(s: Str, from: nat)
    requires from + 3 <= |s|
    ensures Encoded(s[from..]) == Quad(s[from], s[from + 1], s[from + 2]) + Encoded(s[from + 3..])
  {
    assert s[from..][3..] == s[from + 3..];
  }

  /** The first `n` of the four characters. */
  method Letters(letters: array<byte>, n: nat) returns (ret: Str)
    requires letters.Length == 4 && n <= 4 && forall k | 0 <= k < 4 :: letters[k] < 64
    ensures ret == [Letter(letters[0]), Letter(letters[1]), Letter(letters[2]), Letter(letters[3])][..n]
  {
    hide Letter;
    ret := [];
    for j := 0 to n
      invariant |ret| == j && forall k | 0 <= k < j :: ret[k] == Letter(letters[k])
    {
      ret := ret + [Letter(letters[j])];
    }
  }

  method FillUp(bytes: array<byte>, n: nat)
    requires bytes.Length == 3 && 0 < n < 3
    modifies bytes
    ensures bytes[0] == old(bytes[0]) && bytes[1] == (if n == 2 then old(bytes[1]) else 0) && bytes[2] == 0
  {
    for j := n to 3
      invariant forall k | 0 <= k < n :: bytes[k] == old(bytes[k])
      invariant forall k | n <= k < j :: bytes[k] == 0
    {
      bytes[j] := 0;
    }
  }

  /** The bytes left over, `n` of them in `bytes`: filled up with zeros, and the text with padding. */
  method LastBlock(bytes: array<byte>, letters: array<byte>, n: nat, ghost tail: Str) returns (ret: Str)
    requires bytes.Length == 3 && letters.Length == 4 && bytes != letters
    requires 0 < n == |tail| < 3 && forall k | 0 <= k < n :: bytes[k] == tail[k]
    modifies bytes, letters
    ensures ret == Encoded(tail)
  {
    hide Encoded, Quad, Letter;
    FillUp(bytes, n);
    Spread(bytes, letters);
    EncodedTail(tail);
    ret := Letters(letters, n + 1);
    var i := n;
    while i < 3
      invariant n <= i <= 3
      invariant ret + [PAD, PAD][i - 1..] == Encoded(tail)
    {
      assert [PAD] + [PAD, PAD][i..] == [PAD, PAD][i - 1..];
      ret := ret + [PAD];
      i := i + 1;
    }
  }

  method Encode(s: Str) returns (ret: Str)
    requires |s| < 0x1_0000_0000
    ensures ret == Encoded(s)
  {
    hide Encoded, Quad, Letter;
    ret := [];
    var i, p := 0, 0;
    var bytes := new byte[3](_ => 0);
    var letters := new byte[4](_ => 0);
    assert s[0..] == s;
    while p < |s|
      invariant p <= |s| && 0 <= i < 3 && i <= p
      invariant forall k | 0 <= k < i :: bytes[k] == s[p - i + k]
      invariant ret + Encoded(s[p - i..]) == Encoded(s)
    {
      bytes[i] := s[p];
      i, p := i + 1, p + 1;
      if i == 3 {
        EncodedBlock(s, p - 3);
        Spread(bytes, letters);
        ret := ret + [Letter(letters[0]), Letter(letters[1]), Letter(letters[2]), Letter(letters[3])];
        i := 0;
      }
    }
    if i > 0 {
      var last := LastBlock(bytes, letters, i, s[p - i..]);
      ret := ret + last;
    } else {
      EncodedTail(s[p..]);
    }
  }

  lemma EncodedTail(s: Str)
    requires |s| < 3
    ensures Encoded(s) == if s == [] then []
                          else Quad(s[0], if |s| == 2 then s[1] else 0, 0)[..|s| + 1] + [PAD, PAD][|s| - 1..]
  {
  }

  // ---------- decoder ----------

  /** The arithmetic of the decoder on four positions, in eight bits. */
  method Gather(letters: array<byte>, bytes: array<byte>)
    requires letters.Length == 4 && bytes.Length == 3 && bytes != letters
    modifies bytes
    ensures bytes[0] == (letters[0] as int * 4 + letters[1] / 16 % 4) % 256
    ensures bytes[1] == (letters[1] as int % 16 * 16 + letters[2] / 4 % 16) % 256
    ensures bytes[2] == (letters[2] as int % 4 * 64 + letters[3]) % 256
  {
    bytes[0] := (letters[0] as int * 4 + letters[1] / 16 % 4) % 256;
    bytes[1] := (letters[1] as int % 16 * 16 + letters[2] / 4 % 16) % 256;
    bytes[2] := (letters[2] as int % 4 * 64 + letters[3]) % 256;
  }

  method Look(letters: array<byte>)
    requires letters.Length == 4
    modifies letters
    ensures forall k | 0 <= k < 4 :: letters[k] == Position(old(letters[k]))
  {
    for k := 0 to 4
      invariant forall m | 0 <= m < k :: letters[m] == Position(old(letters[m]))
      invariant forall m | k <= m < 4 :: letters[m] == old(letters[m])
    {
      letters[k] := Position(letters[k]);
    }
  }

  lemma MeaningBlock(x: Str, from: nat)
    requires from + 4 <= |x| && forall i | 0 <= i < |x| :: IsBase64(x[i])
    ensures var p, q, r, t := Position(x[from]), Position(x[from + 1]), Position(x[from + 2]), Position(x[from + 3]);
            && p < 64 && q < 64 && r < 64 && t < 64
            && Meaning(x[from..]) == Triple(p, q, r, t) + Meaning(x[from + 4..])
  {
    hide Position, Triple;
    var tail := x[from..];
    assert tail[0] == x[from] && tail[1] == x[from + 1] && tail[2] == x[from + 2] && tail[3] == x[from + 3];
    assert tail[4..] == x[from + 4..];
  }

  /** Two or three characters left over: whatever stands in the unused places never shows. */
  lemma MeaningTail(x: Str)
    requires |x| < 4 && forall i | 0 <= i < |x| :: IsBase64(x[i])
    ensures |Meaning(x)| == if |x| == 0 then 0 else |x| - 1
    ensures |x| >= 2 ==> Meaning(x)[0] == Position(x[0]) * 4 + Position(x[1]) / 16
    ensures |x| == 3 ==> Meaning(x)[1] == Position(x[1]) % 16 * 16 + Position(x[2]) / 4
    ensures forall i | 0 <= i < |x| :: Position(x[i]) < 64
  {
  }

  /** Four characters become three bytes. */
  method Block(letters: array<byte>, bytes: array<byte>, ghost x: Str, ghost from: nat)
    requires letters.Length == 4 && bytes.Length == 3 && bytes != letters
    requires from + 4 <= |x| && forall i | 0 <= i < |x| :: IsBase64(x[i])
    requires forall k | 0 <= k < 4 :: letters[k] == x[from + k]
    modifies letters, bytes
    ensures Meaning(x[from..]) == [bytes[0], bytes[1], bytes[2]] + Meaning(x[from + 4..])
  {
    hide Meaning, Position;
    MeaningBlock(x, from);
    assert forall k | 0 <= k < 4 :: letters[k] == x[from + k];
    Look(letters);
    EightBits(letters[0], letters[1], letters[2], letters[3]);
    Gather(letters, bytes);
  }

  lemma EightBits(p: byte, q: byte, r: byte, t: byte)
    requires p < 64 && q < 64 && r < 64 && t < 64
    ensures (p as int * 4 + q / 16 % 4) % 256 == p * 4 + q / 16
    ensures (q as int % 16 * 16 + r / 4 % 16) % 256 == q % 16 * 16 + r / 4
    ensures (r as int % 4 * 64 + t) % 256 == r % 4 * 64 + t
  {
  }

  /** The characters left over, `i` of them in `letters`. */
  method Remainder(letters: array<byte>, bytes: array<byte>, i: nat, ghost tail: Str) returns (ret: Str)
    requires letters.Length == 4 && bytes.Length == 3 && bytes != letters
    requires 0 < i == |tail| < 4 && forall k | 0 <= k < i :: IsBase64(tail[k]) && letters[k] == tail[k]
    modifies letters, bytes
    ensures ret == Meaning(tail)
  {
    hide Meaning, Position;
    MeaningTail(tail);
    ret := [];
    for j := i to 4
      invariant forall k | 0 <= k < i :: letters[k] == tail[k]
    {
      letters[j] := 0;
    }
    Look(letters);
    Gather(letters, bytes);
    assert i >= 2 ==> bytes[0] == Meaning(tail)[0];
    assert i >= 3 ==> bytes[1] == Meaning(tail)[1];
    for j := 0 to i - 1
      invariant ret == Meaning(tail)[..j]
    {
      ret := ret + [bytes[j]];
    }
  }

  method Decode(e: Str) returns (ret: Str)
    requires |e| <= INT_MAX
    ensures ret == Decoded(e)
  {
    hide Meaning, Readable, Position;
    ghost var x := e[..Readable(e)];
    ret := [];
    var i, p := 0, 0;
    var letters := new byte[4](_ => 0);
    var bytes := new byte[3](_ => 0);
    assert x[0..] == x;
    while p < |e| && e[p] != PAD && IsBase64(e[p])
      invariant p <= |x| && 0 <= i < 4 && i <= p
      invariant forall k | 0 <= k < i :: letters[k] == x[p - i + k]
      invariant ret + Meaning(x[p - i..]) == Meaning(x)
    {
      letters[i] := e[p];
      i, p := i + 1, p + 1;
      if i == 4 {
        Block(letters, bytes, x, p - 4);
        ret := ret + [bytes[0], bytes[1], bytes[2]];
        i := 0;
      }
    }
    assert p == |x|;
    if i > 0 {
      var last := Remainder(letters, bytes, i, x[p - i..]);
      ret := ret + last;
    } else {
      MeaningTail(x[p..]);
    }
  }

  // ---------- round trip ----------

  lemma {:induction false} ReadableOf(e: Str, n: nat)
    requires n <= |e| && (forall i | 0 <= i < n :: IsBase64(e[i])) && (n < |e| ==> !IsBase64(e[n]))
    ensures Readable(e) == n
  {
    if n > 0 { ReadableOf(e[1..], n - 1); }
  }

  /** Readable characters in front of a text are read with it. */
  lemma ReadableAfter(q: Str, rest: Str)
    requires forall i | 0 <= i < |q| :: IsBase64(q[i])
    ensures Readable(q + rest) == |q| + Readable(rest)
    ensures (q + rest)[..Readable(q + rest)] == q + rest[..Readable(rest)]
  {
    ReadableOf(q + rest, |q| + Readable(rest));
  }

  lemma QuadReads(a: byte, b: byte, c: byte)
    ensures var q := Quad(a, b, c);
            && (forall i | 0 <= i < 4 :: IsBase64(q[i]))
            && Position(q[0]) == a / 4 && Position(q[1]) == a % 4 * 16 + b / 16
            && Position(q[2]) == b % 16 * 4 + c / 64 && Position(q[3]) == c % 64
  {
    hide Letter, Position;
    PositionOfLetter(a / 4);
    PositionOfLetter(a % 4 * 16 + b / 16);
    PositionOfLetter(b % 16 * 4 + c / 64);
    PositionOfLetter(c % 64);
  }

  lemma Regrouped(a: byte, b: byte, c: byte)
    ensures a / 4 * 4 + (a % 4 * 16 + b / 16) / 16 == a
    ensures (a % 4 * 16 + b / 16) % 16 * 16 + (b % 16 * 4 + c / 64) / 4 == b
    ensures (b % 16 * 4 + c / 64) % 4 * 64 + c % 64 == c
  {
    Split(a % 4, b / 16, 16);
    Split(b % 16, c / 64, 4);
  }

  lemma Split(high: nat, low: nat, k: nat)
    requires k in {4, 16} && low < k
    ensures (high * k + low) / k == high && (high * k + low) % k == low
  {
  }

  lemma TripleOfQuad(a: byte, b: byte, c: byte)
    ensures Triple(a / 4, a % 4 * 16 + b / 16, b % 16 * 4 + c / 64, c % 64) == [a, b, c]
  {
    Regrouped(a, b, c);
  }

  lemma MeaningOfQuad(a: byte, b: byte, c: byte, rest: Str)
    requires forall i | 0 <= i < |rest| :: IsBase64(rest[i])
    ensures forall i | 0 <= i < 4 :: IsBase64(Quad(a, b, c)[i])
    ensures Meaning(Quad(a, b, c) + rest) == [a, b, c] + Meaning(rest)
  {
    hide Quad, Meaning, Position, Triple;
    QuadReads(a, b, c);
    TripleOfQuad(a, b, c);
    var x := Quad(a, b, c) + rest;
    MeaningBlock(x, 0);
    assert x[0..] == x;
    assert x[4..] == rest;
  }

  lemma MeaningOfPart(a: byte, b: byte, n: nat)
    requires n in {1, 2} && (n == 1 ==> b == 0)
    ensures var x := Quad(a, b, 0)[..n + 1];
            (forall i | 0 <= i < |x| :: IsBase64(x[i])) && Meaning(x) == [a, b][..n]
  {
    hide Quad, Position, Triple;
    QuadReads(a, b, 0);
    TripleOfQuad(a, b, 0);
    TripleIgnores(a / 4, a % 4 * 16 + b / 16, b % 16 * 4, 0);
  }

  /** The first byte depends on two positions only, the second on three. */
  lemma TripleIgnores(p: nat, q: nat, r: nat, t: nat)
    requires p < 64 && q < 64 && r < 64 && t < 64
    ensures Triple(p, q, 0, 0)[..1] == Triple(p, q, r, t)[..1]
    ensures Triple(p, q, r, 0)[..2] == Triple(p, q, r, t)[..2]
  {
  }

  /** `base64_decode(base64_encode(s)) == s`. */
  lemma {:induction false} DecodeOfEncode(s: Str)
    ensures Decoded(Encoded(s)) == s
  {
    hide Position, Letter, Quad, Readable, Meaning;
    if |s| >= 3 {
      DecodeOfEncode(s[3..]);
      var rest := Encoded(s[3..]);
      MeaningOfQuad(s[0], s[1], s[2], rest[..Readable(rest)]);
      ReadableAfter(Quad(s[0], s[1], s[2]), rest);
      assert s == [s[0], s[1], s[2]] + s[3..];
    } else {
      hide Encoded;
      EncodedTail(s);
      if s != [] {
        var a, b := s[0], if |s| == 2 then s[1] else 0;
        MeaningOfPart(a, b, |s|);
        var x := Quad(a, b, 0)[..|s| + 1];
        var pads := [PAD, PAD][|s| - 1..];
        ReadableAfter(x, pads);
        ReadableOf(pads, 0);
        assert x + pads[..0] == x;
        assert [a, b][..|s|] == s;
      } else {
        MeaningTail([]);
        ReadableOf([], 0);
      }
    }
  }

  /** However an encoder fills the alphabet characters, only the bytes they carry count. */
  lemma {:induction false} DecodedLength(e: Str)
    ensures |Decoded(e)| == Readable(e) / 4 * 3 + (if Readable(e) % 4 == 0 then 0 else Readable(e) % 4 - 1)
  {
    MeaningLength(e[..Readable(e)]);
  }

  lemma {:induction false} MeaningLength(x: Str)
    requires forall i | 0 <= i < |x| :: IsBase64(x[i])
    ensures |Meaning(x)| == |x| / 4 * 3 + (if |x| % 4 == 0 then 0 else |x| % 4 - 1)
  {
    if |x| >= 4 { MeaningLength(x[4..]); }
  }
}
