/** What percent-decoding does to text that is no percent-encoding. */
module UrlLaw {
  import opened Bytes
  import opened Url

  /** A percent sign and two hexadecimal digits, anywhere. */
  predicate HoldsEscape(s: Str) {
    exists i | 0 <= i < |s| :: s[i] == PERCENT && i + 2 < |s| && IsHexDigit(s[i + 1]) && IsHexDigit(s[i + 2])
  }

  /** How much the decoder reads at once: a character, a percent sign with what breaks its escape, or an escape. */
  function PieceLength(s: Str): (n: nat)
    ensures n <= |s|
  {
    if s == [] then 0
    else if s[0] != PERCENT then 1
    else if |s| >= 2 && !IsHexDigit(s[1]) then 2
    else if |s| >= 3 then 3
    else 0
  }

  predicate BeginsWithEscape(s: Str) {
    |s| >= 3 && s[0] == PERCENT && IsHexDigit(s[1]) && IsHexDigit(s[2])
  }

  /** How many escapes are decoded; each comes out two characters shorter. */
  function Escapes(s: Str): nat {
    var n := PieceLength(s);
    if n == 0 then 0 else (if BeginsWithEscape(s) then 1 else 0) + Escapes(s[n..])
  }

  /** What is left when the text ends inside an escape. */
  function Tail(s: Str): (t: Str)
    ensures t == [] || t == [PERCENT] || (|t| == 2 && t[0] == PERCENT && IsHexDigit(t[1]))
    ensures |t| <= |s|
  {
    var n := PieceLength(s);
    if n == 0 then s else Tail(s[n..])
  }

  lemma DecodedPiece(s: Str)
    requires PieceLength(s) > 0
    ensures var n := PieceLength(s);
            PercentDecoded(s) ==
              (if BeginsWithEscape(s) then [HexDigitToInt(s[1]) * 16 + HexDigitToInt(s[2])] else s[..n])
              + PercentDecoded(s[n..])
  {
    hide HexDigitToInt;
    var n := PieceLength(s);
    if !BeginsWithEscape(s) {
      assert n >= 1 ==> s[..1] == [s[0]];
      assert n >= 2 ==> s[..2] == [s[0], s[1]];
      assert n == 3 ==> s[..3] == [s[0], s[1], s[2]];
    }
  }

  lemma DecodedTail(s: Str)
    requires PieceLength(s) == 0
    ensures PercentDecoded(s) == []
  {
  }

  /** The decoder shortens the text by two characters for each escape it decodes, and by what it cuts off at the end. */
  lemma {:induction false} LengthDecoded(s: Str)
    ensures |PercentDecoded(s)| + 2 * Escapes(s) + |Tail(s)| == |s|
  {
    hide PercentDecoded;
    var n := PieceLength(s);
    if n == 0 {
      DecodedTail(s);
    } else {
      DecodedPiece(s);
      LengthDecoded(s[n..]);
    }
  }

  lemma {:induction false} NothingToDecode(s: Str)
    requires Escapes(s) == 0 && Tail(s) == []
    ensures PercentDecoded(s) == s
  {
    hide PercentDecoded;
    var n := PieceLength(s);
    if n == 0 {
      DecodedTail(s);
    } else {
      DecodedPiece(s);
      NothingToDecode(s[n..]);
      assert s[..n] + s[n..] == s;
    }
  }

  /** Exactly the texts that hold no escape to decode, and do not end inside one, are decoded to themselves. */
  lemma DecodedToItself(s: Str)
    ensures PercentDecoded(s) == s <==> Escapes(s) == 0 && Tail(s) == []
  {
    hide PercentDecoded, Escapes, Tail;
    LengthDecoded(s);
    if Escapes(s) == 0 && Tail(s) == [] { NothingToDecode(s); }
  }

  lemma EscapeBehind(s: Str, n: nat)
    requires n <= |s|
    ensures HoldsEscape(s[n..]) ==> HoldsEscape(s)
  {
    var t := s[n..];
    if HoldsEscape(t) {
      var i :| 0 <= i < |t| && t[i] == PERCENT && i + 2 < |t| && IsHexDigit(t[i + 1]) && IsHexDigit(t[i + 2]);
      assert s[n + i] == PERCENT && IsHexDigit(s[n + i + 1]) && IsHexDigit(s[n + i + 2]);
    }
  }

  lemma {:induction false} NoEscapes(s: Str)
    requires !HoldsEscape(s)
    ensures Escapes(s) == 0
  {
    var n := PieceLength(s);
    if n > 0 {
      EscapeBehind(s, n);
      NoEscapes(s[n..]);
    }
  }

  /** A text without a complete escape loses exactly its cut-off end. */
  lemma CutOffIsDropped(s: Str)
    requires !HoldsEscape(s)
    ensures PercentDecoded(s) == s <==> Tail(s) == []
    ensures |PercentDecoded(s)| == |s| - |Tail(s)|
  {
    hide PercentDecoded, Escapes, Tail, HoldsEscape;
    NoEscapes(s);
    DecodedToItself(s);
    LengthDecoded(s);
  }

  lemma PieceOfLonger(s: Str, t: Str)
    requires PieceLength(s) > 0
    ensures PieceLength(s + t) == PieceLength(s) && (s + t)[PieceLength(s)..] == s[PieceLength(s)..] + t
    ensures BeginsWithEscape(s + t) == BeginsWithEscape(s) && (s + t)[..PieceLength(s)] == s[..PieceLength(s)]
  {
    assert forall i | 0 <= i < |s| :: (s + t)[i] == s[i];
  }

  lemma TailUnfolds(s: Str)
    ensures Tail(s) == if PieceLength(s) == 0 then s else Tail(s[PieceLength(s)..])
  {
  }

  /** Behind text that does not end inside an escape, decoding starts afresh. */
  lemma {:induction false} TailBehind(s: Str, t: Str)
    requires Tail(s) == []
    ensures Tail(s + t) == Tail(t) && PercentDecoded(s + t) == PercentDecoded(s) + PercentDecoded(t)
  {
    hide PercentDecoded, Tail, PieceLength, BeginsWithEscape, IsHexDigit;
    TailUnfolds(s);
    var n := PieceLength(s);
    if n == 0 {
      DecodedTail(s);
      assert s + t == t && [] + PercentDecoded(t) == PercentDecoded(t);
    } else {
      PieceOfLonger(s, t);
      TailUnfolds(s + t);
      TailBehind(s[n..], t);
      DecodedPiece(s);
      DecodedPiece(s + t);
      HexOfLonger(s, t);
      EscapeIsLong(s);
      Assoc(if BeginsWithEscape(s) then [HexDigitToInt(s[1]) * 16 + HexDigitToInt(s[2])] else s[..n],
            PercentDecoded(s[n..]), PercentDecoded(t));
    }
  }

  lemma EscapeIsLong(s: Str)
    ensures BeginsWithEscape(s) ==> |s| >= 3
  {
  }

  lemma HexOfLonger(s: Str, t: Str)
    ensures |s| >= 3 ==> (s + t)[1] == s[1] && (s + t)[2] == s[2]
  {
  }

  /** The cut-off end stands behind text that is read whole. */
  lemma {:induction false} WholeFront(s: Str)
    ensures var k := |s| - |Tail(s)|; Tail(s[..k]) == [] && s[k..] == Tail(s)
  {
    hide Tail, PieceLength;
    TailUnfolds(s);
    var n, k := PieceLength(s), |s| - |Tail(s)|;
    if n == 0 {
      TailUnfolds([]);
      assert s[..0] == [] && s[0..] == s;
    } else {
      WholeFront(s[n..]);
      PieceOfFront(s, k);
      TailUnfolds(s[..k]);
      assert s[..k][n..] == s[n..][..k - n];
      assert s[k..] == s[n..][k - n..];
    }
  }

  lemma PieceOfFront(s: Str, k: nat)
    requires 0 < PieceLength(s) <= k <= |s|
    ensures PieceLength(s[..k]) == PieceLength(s)
  {
  }

  lemma EndsInside(p: Str, t: Str, s: Str)
    requires s == p + t && Tail(p) == []
    requires t == [PERCENT] || (|t| == 2 && t == [PERCENT, t[1]] && IsHexDigit(t[1]))
    ensures Tail(s) == t
  {
    hide Tail, PercentDecoded;
    TailBehind(p, t);
    ShortTails(t[|t| - 1]);
  }

  /** It ends in "%", or in "%" and a digit, behind text that is read whole. */
  predicate EndsOpen(s: Str) {
    || (|s| >= 1 && s[|s| - 1] == PERCENT && Tail(s[..|s| - 1]) == [])
    || (|s| >= 2 && s[|s| - 2] == PERCENT && IsHexDigit(s[|s| - 1]) && Tail(s[..|s| - 2]) == [])
  }

  lemma TailEnds(s: Str)
    requires Tail(s) != []
    ensures EndsOpen(s)
  {
    hide Tail, IsHexDigit;
    WholeFront(s);
    var t := Tail(s);
    var k := |s| - |t|;
    assert s[k] == s[k..][0] && s[|s| - 1] == s[k..][|t| - 1];
    if |t| == 1 { assert k == |s| - 1; } else { assert k == |s| - 2; }
  }

  lemma EndsTail(s: Str)
    requires EndsOpen(s)
    ensures Tail(s) != []
  {
    hide Tail, IsHexDigit;
    var n := |s|;
    if s[n - 1] == PERCENT && Tail(s[..n - 1]) == [] {
      assert s == s[..n - 1] + [PERCENT];
      EndsInside(s[..n - 1], [PERCENT], s);
    } else {
      var t := [PERCENT, s[n - 1]];
      assert s == s[..n - 2] + t;
      EndsInside(s[..n - 2], t, s);
    }
  }

  /**
   * A text ends inside an escape exactly when it ends in "%" or in "%" and a digit, behind text that is read whole.
   * An end like that may be the end of a broken escape instead, as in "%%" and "%%4".
   */
  lemma TailIs(s: Str)
    ensures Tail(s) != [] <==> EndsOpen(s)
  {
    hide Tail, EndsOpen;
    if Tail(s) != [] { TailEnds(s); }
    if EndsOpen(s) { EndsTail(s); }
  }

  lemma ShortTails(h: byte)
    ensures Tail([PERCENT]) == [PERCENT]
    ensures IsHexDigit(h) ==> Tail([PERCENT, h]) == [PERCENT, h]
  {
  }

  /** Where percent signs stand apart, the end of the text alone decides. */
  lemma CutOffWhereApart(s: Str)
    requires !HoldsEscape(s) && forall i, k | 0 <= i < k < |s| && s[i] == PERCENT && s[k] == PERCENT :: k >= i + 3
    ensures PercentDecoded(s) != s <==>
            |s| >= 1 && (s[|s| - 1] == PERCENT || (|s| >= 2 && s[|s| - 2] == PERCENT && IsHexDigit(s[|s| - 1])))
  {
    hide Tail, HoldsEscape, PercentDecoded;
    CutOffIsDropped(s);
    TailIs(s);
    if |s| >= 1 && s[|s| - 1] == PERCENT { WholeBefore(s, 1); }
    if |s| >= 2 && s[|s| - 2] == PERCENT { WholeBefore(s, 2); }
  }

  lemma WholeBefore(s: Str, n: nat)
    requires 1 <= n <= 2 && n <= |s| && s[|s| - n] == PERCENT
    requires forall i, k | 0 <= i < k < |s| && s[i] == PERCENT && s[k] == PERCENT :: k >= i + 3
    ensures Tail(s[..|s| - n]) == []
  {
    hide Tail;
    var t := s[..|s| - n];
    TailIs(t);
    assert forall i | 0 <= i < |t| :: t[i] == s[i];
  }

  // ---------- percent signs by their place in the text ----------

  /** Percent signs in a chain: each stands behind the previous one at once, or behind it and one digit. */
  function ChainBefore(s: Str, i: nat): nat
    requires i <= |s|
  {
    if i >= 1 && s[i - 1] == PERCENT then 1 + ChainBefore(s, i - 1)
    else if i >= 2 && s[i - 2] == PERCENT && IsHexDigit(s[i - 1]) then 1 + ChainBefore(s, i - 2)
    else 0
  }

  /** A percent sign with an even number of them before it in its chain: the first, the third, and so on. */
  predicate Opens(s: Str, i: nat) { i < |s| && s[i] == PERCENT && ChainBefore(s, i) % 2 == 0 }

  predicate EscapeAt(s: Str, i: nat) {
    i + 2 < |s| && s[i] == PERCENT && IsHexDigit(s[i + 1]) && IsHexDigit(s[i + 2])
  }

  /** Behind the percent sign stands a character that cannot belong to an escape. */
  predicate BrokenAt(s: Str, i: nat) {
    (i + 1 < |s| && !IsHexDigit(s[i + 1])) || (i + 2 < |s| && !IsHexDigit(s[i + 2]))
  }

  /** The decoder is between two pieces exactly behind a chain of even length. */
  lemma {:induction false} EvenChain(s: Str, i: nat)
    requires i <= |s|
    ensures Tail(s[..i]) == [] <==> ChainBefore(s, i) % 2 == 0
    decreases i
  {
    hide Tail, IsHexDigit;
    var t := s[..i];
    TailIs(t);
    if i >= 1 {
      assert t[..i - 1] == s[..i - 1] && t[i - 1] == s[i - 1];
      EvenChain(s, i - 1);
    }
    if i >= 2 {
      assert t[..i - 2] == s[..i - 2] && t[i - 2] == s[i - 2];
      EvenChain(s, i - 2);
    }
    PercentIsNoDigit();
  }

  lemma PercentIsNoDigit()
    ensures !IsHexDigit(PERCENT)
  {
  }

  /** Behind the first piece the places are those of the rest. */
  lemma OpensBehind(s: Str, i: nat)
    requires var n := PieceLength(s); 0 < n && n + i <= |s|
    ensures var n := PieceLength(s); Opens(s, n + i) <==> Opens(s[n..], i)
  {
    hide Tail, PieceLength, ChainBefore;
    var n := PieceLength(s);
    EvenChain(s, n + i);
    EvenChain(s[n..], i);
    PieceOfFront(s, n + i);
    TailUnfolds(s[..n + i]);
    assert s[..n + i][n..] == s[n..][..i];
  }

  /** Inside a piece no percent sign opens another. */
  lemma NoneInside(s: Str, i: nat)
    requires 0 < i < PieceLength(s)
    ensures !Opens(s, i)
  {
    assert ChainBefore(s, 0) == 0;
    assert i == 1 ==> ChainBefore(s, 1) == 1;
    assert i == 2 && s[1] != PERCENT ==> ChainBefore(s, 2) == 1;
  }

  lemma FirstOpens(s: Str)
    ensures Opens(s, 0) <==> s != [] && s[0] == PERCENT
  {
  }

  predicate AllBroken(s: Str) { forall i | 0 <= i < |s| && Opens(s, i) :: BrokenAt(s, i) }

  lemma {:induction false} NothingReadIsBroken(s: Str)
    ensures Escapes(s) == 0 && Tail(s) == [] <==> AllBroken(s)
  {
    hide Opens, Tail, Escapes;
    FirstOpens(s);
    TailUnfolds(s);
    EscapesUnfold(s);
    var n := PieceLength(s);
    if n > 0 {
      var rest := s[n..];
      NothingReadIsBroken(rest);
      if AllBroken(s) {
        forall i | 0 <= i < |rest| && Opens(rest, i) ensures BrokenAt(rest, i) { OpensBehind(s, i); }
      }
      if AllBroken(rest) && (s[0] == PERCENT ==> BrokenAt(s, 0)) {
        forall i | 0 <= i < |s| && Opens(s, i) ensures BrokenAt(s, i) {
          if 0 < i < n { NoneInside(s, i); }
          if i >= n { OpensBehind(s, i - n); }
        }
      }
    }
  }

  lemma EscapesUnfold(s: Str)
    ensures var n := PieceLength(s);
            Escapes(s) == if n == 0 then 0 else (if BeginsWithEscape(s) then 1 else 0) + Escapes(s[n..])
  {
  }

  /**
   * A text is decoded to itself exactly when behind every first, third, fifth percent sign of a chain stands something
   * that cannot belong to an escape.
   */
  lemma DecodedToItselfByPlace(s: Str)
    ensures PercentDecoded(s) == s <==> AllBroken(s)
  {
    hide PercentDecoded, Escapes, Tail, AllBroken;
    DecodedToItself(s);
    NothingReadIsBroken(s);
  }

  /** An escape whose percent sign opens is decoded, and what stands before and behind it is decoded by itself. */
  lemma EscapeDecoded(s: Str, i: nat)
    requires EscapeAt(s, i) && Opens(s, i)
    ensures PercentDecoded(s) ==
      PercentDecoded(s[..i]) + [HexDigitToInt(s[i + 1]) * 16 + HexDigitToInt(s[i + 2])] + PercentDecoded(s[i + 3..])
  {
    hide PercentDecoded, Tail, HexDigitToInt, ChainBefore;
    EvenChain(s, i);
    var t := s[i..];
    assert s == s[..i] + t;
    TailBehind(s[..i], t);
    assert t[0] == s[i] && t[1] == s[i + 1] && t[2] == s[i + 2] && t[3..] == s[i + 3..];
    DecodedPiece(t);
    Assoc(PercentDecoded(s[..i]), [HexDigitToInt(t[1]) * 16 + HexDigitToInt(t[2])], PercentDecoded(t[3..]));
  }

  /**
   * A percent sign behind an odd number of others in its chain is copied, together with what was held back for the sign
   * before it. An escape it begins is not decoded, and its digits are read as plain text.
   */
  lemma EscapeCopied(s: Str, i: nat)
    requires i < |s| && s[i] == PERCENT && !Opens(s, i)
    ensures Tail(s[..i]) != []
    ensures PercentDecoded(s) == PercentDecoded(s[..i]) + (Tail(s[..i]) + [PERCENT]) + PercentDecoded(s[i + 1..])
  {
    hide PercentDecoded, Tail, ChainBefore;
    EvenChain(s, i);
    var p, rest := s[..i], s[i + 1..];
    WholeFront(p);
    var front, t := p[..i - |Tail(p)|], Tail(p);
    Reassembled(p[..i - |t|], p[i - |t|..], s, i);
    TailBehind(front, t + ([PERCENT] + rest));
    CopiedPiece(t, rest);
    TailBehind(front, t);
    HeldBack(t);
    Assoc(PercentDecoded(front), t + [PERCENT], PercentDecoded(rest));
    NothingMore(PercentDecoded(front));
  }

  lemma NothingMore(a: Str)
    ensures a + [] == a
  {
  }

  lemma Reassembled(front: Str, t: Str, s: Str, i: nat)
    requires i < |s| && front + t == s[..i]
    ensures s == front + (t + ([s[i]] + s[i + 1..]))
  {
    assert s == s[..i] + ([s[i]] + s[i + 1..]);
  }

  lemma CopiedPiece(t: Str, rest: Str)
    requires t == [PERCENT] || (|t| == 2 && t[0] == PERCENT && IsHexDigit(t[1]))
    ensures PercentDecoded(t + ([PERCENT] + rest)) == t + [PERCENT] + PercentDecoded(rest)
  {
    hide PercentDecoded, HexDigitToInt;
    var u := t + ([PERCENT] + rest);
    PercentIsNoDigit();
    assert u[|t|] == PERCENT;
    assert forall i | 0 <= i < |t| :: u[i] == t[i];
    assert u[|t| + 1..] == rest && u[..|t| + 1] == t + [PERCENT];
    DecodedPiece(u);
  }

  lemma HeldBack(t: Str)
    requires t == [PERCENT] || (|t| == 2 && t[0] == PERCENT && IsHexDigit(t[1]))
    ensures PercentDecoded(t) == []
  {
  }

  /** Inputs: cut-off escapes vanish; ends that look alike stay; an escape behind a percent sign is not decoded. */
  lemma CutOffExamples()
    ensures PercentDecoded([PERCENT]) == []
    ensures PercentDecoded([PERCENT, 52]) == []
    ensures PercentDecoded([PERCENT, PERCENT]) == [PERCENT, PERCENT]
    ensures PercentDecoded([PERCENT, PERCENT, 52]) == [PERCENT, PERCENT, 52]
    ensures HoldsEscape([PERCENT, PERCENT, 52, 49])
    ensures PercentDecoded([PERCENT, PERCENT, 52, 49]) == [PERCENT, PERCENT, 52, 49]
  {
    var v: Str := [PERCENT, PERCENT, 52, 49];
    assert v[1] == PERCENT && IsHexDigit(v[2]) && IsHexDigit(v[3]);
    assert v[2..] == [52, 49];
    var u: Str := [PERCENT, PERCENT, 52];
    assert u[2..] == [52];
    assert PercentDecoded([52]) == [52];
    assert PercentDecoded([52, 49]) == [52] + PercentDecoded([49]);
  }
}
