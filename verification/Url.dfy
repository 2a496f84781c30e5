/** The query-string parser and percent decoder of `src/UrlParser.cpp`. */
module Url {
  import opened Bytes
  import opened HexTable

  const QUESTION: byte := 63
  const EQUALS: byte := 61
  const AMPERSAND: byte := 38
  const PERCENT: byte := 37

  predicate IsHexDigit(c: byte) { 48 <= c <= 57 || 65 <= c <= 70 || 97 <= c <= 102 }

  function HexDigitToInt(c: byte): (n: nat)
    ensures n < 16
  {
    if 48 <= c <= 57 then c - 48
    else if 65 <= c <= 70 then c - 55
    else if 97 <= c <= 102 then c - 87
    else 0
  }

  // ---------- percent decoding ----------

  /** What the decoder yields: escapes decoded, broken ones copied, one cut off at the end dropped. */
  function PercentDecoded(s: Str): Str {
    if s == [] then []
    else if s[0] != PERCENT then [s[0]] + PercentDecoded(s[1..])
    else if |s| == 1 then []
    else if !IsHexDigit(s[1]) then [PERCENT, s[1]] + PercentDecoded(s[2..])
    else if |s| == 2 then []
    else if !IsHexDigit(s[2]) then [PERCENT, s[1], s[2]] + PercentDecoded(s[3..])
    else [HexDigitToInt(s[1]) * 16 + HexDigitToInt(s[2])] + PercentDecoded(s[3..])
  }

  datatype State = General | FirstPercentEncodedDigit | SecondPercentEncodedDigit

  /** What is still to come: the characters held in `state`, then the rest. */
  function Pending(state: State, first: byte, rest: Str): Str {
    match state
    case General => rest
    case FirstPercentEncodedDigit => [PERCENT] + rest
    case SecondPercentEncodedDigit => [PERCENT, first] + rest
  }

  /** What one character emits, if anything. */
  function Emitted(state: State, first: byte, c: byte): Str {
    match state
    case General => if c != PERCENT then [c] else []
    case FirstPercentEncodedDigit => if IsHexDigit(c) then [] else [PERCENT, c]
    case SecondPercentEncodedDigit =>
      if IsHexDigit(c) then [HexDigitToInt(first) * 16 + HexDigitToInt(c)] else [PERCENT, first, c]
  }

  lemma DecodeStep(state: State, first: byte, c: byte, rest: Str)
    requires state == SecondPercentEncodedDigit ==> IsHexDigit(first)
    ensures var after := if state == General && c == PERCENT then FirstPercentEncodedDigit
                         else if state == FirstPercentEncodedDigit && IsHexDigit(c) then SecondPercentEncodedDigit
                         else General;
            PercentDecoded(Pending(state, first, [c] + rest)) ==
            Emitted(state, first, c)
            + PercentDecoded(Pending(after, if state == FirstPercentEncodedDigit then c else first, rest))
  {
    var one := [c] + rest;
    assert one[1..] == rest;
    if state == FirstPercentEncodedDigit {
      var two := [PERCENT] + one;
      assert two[2..] == rest;
      assert two == [PERCENT, c] + rest;
    }
    if state == SecondPercentEncodedDigit {
      var three := [PERCENT, first] + one;
      assert three[3..] == rest;
    }
  }

  method PercentDecode(s: Str) returns (result: Str)
    ensures result == PercentDecoded(s)
  {
    hide PercentDecoded, HexDigitToInt;
    result := [];
    var state := General;
    var first: byte, second: byte := 0, 0;
    assert s[0..] == s;
    for i := 0 to |s|
      invariant state == SecondPercentEncodedDigit ==> IsHexDigit(first)
      invariant result + PercentDecoded(Pending(state, first, s[i..])) == PercentDecoded(s)
    {
      hide Pending;
      var c := s[i];
      assert s[i..] == [c] + s[i + 1..];
      DecodeStep(state, first, c, s[i + 1..]);
      ghost var was, out := result, Emitted(state, first, c);
      match state {
        case General =>
          if c != PERCENT {
            result := result + [c];
          } else {
            state := FirstPercentEncodedDigit;
            PendingFirst(first, 0, s[i + 1..]);
            first, second := 0, 0;
          }
        case FirstPercentEncodedDigit =>
          first := c;
          if IsHexDigit(first) {
            state := SecondPercentEncodedDigit;
          } else {
            result := result + [PERCENT, first];
            state := General;
          }
        case SecondPercentEncodedDigit =>
          second := c;
          if IsHexDigit(second) {
            result := result + [HexDigitToInt(first) * 16 + HexDigitToInt(second)];
          } else {
            result := result + [PERCENT, first, second];
          }
          state := General;
      }
      assert result == was + out;
      Assoc(was, out, PercentDecoded(Pending(state, first, s[i + 1..])));
    }
    CutOff(state, first);
  }

  lemma PendingFirst(first: byte, second: byte, rest: Str)
    ensures Pending(FirstPercentEncodedDigit, first, rest) == Pending(FirstPercentEncodedDigit, second, rest)
  {
  }

  lemma Assoc(a: Str, b: Str, c: Str)
    ensures a + (b + c) == a + b + c
  {
  }

  /** An escape that is not complete at the end of the text is dropped. */
  lemma CutOff(state: State, first: byte)
    requires state == SecondPercentEncodedDigit ==> IsHexDigit(first)
    ensures PercentDecoded(Pending(state, first, [])) == []
  {
  }

  // ---------- splitting the query ----------

  function IndexOf(s: Str, c: byte, from: nat): (i: nat)
    requires from <= |s|
    ensures from <= i <= |s| && (i < |s| ==> s[i] == c)
    ensures forall k | from <= k < i :: s[k] != c
    decreases |s| - from
  {
    if from == |s| || s[from] == c then from else IndexOf(s, c, from + 1)
  }

  /** The parameters of the query that starts at `from`, added to `acc`. */
  function ParsedFrom(s: Str, from: nat, acc: map<Str, Str>): map<Str, Str>
    requires from <= |s|
    decreases |s| - from
  {
    var eq := IndexOf(s, EQUALS, from);
    if eq == |s| then acc
    else
      var end := IndexOf(s, AMPERSAND, eq + 1);
      var next := acc[s[from..eq] := PercentDecoded(s[eq + 1..end])];
      if end == |s| then next else ParsedFrom(s, end + 1, next)
  }

  /** Everything up to the first question mark, if any, is skipped. */
  function Parsed(s: Str): map<Str, Str> {
    var q := IndexOf(s, QUESTION, 0);
    ParsedFrom(s, if q == |s| then 0 else q + 1, map[])
  }

  const NPOS: int := 0xffff_ffff_ffff_ffff

  /** `find_first_of` from a position that may lie past the end. */
  function FindFirstOf(s: Str, c: byte, from: nat): int
    requires |s| < NPOS
  {
    if from > |s| || IndexOf(s, c, from) == |s| then NPOS else IndexOf(s, c, from)
  }

  /** What is still to be read when a turn of the loop begins at `pos`. */
  function Remaining(s: Str, pos: int, acc: map<Str, Str>): map<Str, Str>
    requires 0 <= pos <= |s| || pos == NPOS
  {
    if pos == NPOS then ParsedFrom(s, 0, acc)
    else if pos == |s| then acc
    else ParsedFrom(s, pos + 1, acc)
  }

  lemma Turn(s: Str, pos: int, acc: map<Str, Str>)
    requires |s| < NPOS && (0 <= pos < |s| || pos == NPOS)
    ensures var start := (pos + 1) % (NPOS + 1);
            0 <= start <= |s| &&
            var eq := FindFirstOf(s, EQUALS, start);
            if eq == NPOS then Remaining(s, pos, acc) == acc
            else
              start <= eq < |s| &&
              var amp := FindFirstOf(s, AMPERSAND, eq + 1);
              var end := if amp == NPOS then |s| else amp;
              eq + 1 <= end <= |s|
              && Remaining(s, pos, acc) == Remaining(s, end, acc[s[start..eq] := PercentDecoded(s[eq + 1..end])])
  {
    hide PercentDecoded, IndexOf, ParsedFrom;
    var start: nat := (pos + 1) % (NPOS + 1);
    assert start == if pos == NPOS then 0 else pos + 1;
    ParsedStep(s, start, acc);
  }

  lemma ParsedStep(s: Str, from: nat, acc: map<Str, Str>)
    requires from <= |s|
    ensures var eq := IndexOf(s, EQUALS, from);
            ParsedFrom(s, from, acc) ==
              if eq == |s| then acc
              else
                var end := IndexOf(s, AMPERSAND, eq + 1);
                var next := acc[s[from..eq] := PercentDecoded(s[eq + 1..end])];
                if end == |s| then next else ParsedFrom(s, end + 1, next)
  {
    hide PercentDecoded, IndexOf;
  }

  lemma RemainingNothing(s: Str, acc: map<Str, Str>)
    requires |s| < NPOS
    ensures Remaining(s, |s|, acc) == acc
  {
  }

  class UrlParser {
    const url: Str
    var params: map<Str, Str>

    ghost predicate Valid() reads this { params == Parsed(url) }

    constructor (url: Str)
      requires |url| < NPOS
      ensures Valid() && this.url == url
    {
      this.url := url;
      this.params := map[];
      new;
      Parse();
    }

    /** `pos` is a `size_t`: minus one is `npos`, and incrementing it gives zero. */
    method Parse()
      requires |url| < NPOS && params == map[]
      modifies this
      ensures Valid()
    {
      hide PercentDecoded, ParsedFrom;
      var pos := FindFirstOf(url, QUESTION, 0);
      assert Remaining(url, pos, params) == Parsed(url);
      hide Remaining, FindFirstOf;
      while pos < |url| || pos == NPOS
        invariant 0 <= pos <= |url| || pos == NPOS
        invariant Remaining(url, pos, params) == Parsed(url)
        decreases if pos == NPOS then |url| + 1 else |url| - pos
      {
        Turn(url, pos, params);
        pos := (pos + 1) % (NPOS + 1);
        var end := FindFirstOf(url, EQUALS, pos);
        if end == NPOS { return; }
        var name := url[pos..end];
        pos := end + 1;
        end := FindFirstOf(url, AMPERSAND, pos);
        if end == NPOS { end := |url|; }
        var value := url[pos..end];
        pos := end;
        var decoded := PercentDecode(value);
        params := params[name := decoded];
      }
      RemainingNothing(url, params);
    }

    /** The value of a parameter, empty when there is none. */
    function Param(name: Str): (value: Str)
      reads this
      requires Valid()
      ensures value == if name in Parsed(url) then Parsed(url)[name] else []
    {
      if name in params then params[name] else []
    }
  }

  // ---------- the law ----------

  /** `e` is a percent-encoding of `s` (RFC 3986, section 2.1), hexadecimal digits in any case. */
  predicate Encodes(e: Str, s: Str) {
    if e == [] then s == []
    else if s == [] then false
    else if e[0] == PERCENT then
      && |e| >= 3 && Spells(e[1], s[0] / 16) && Spells(e[2], s[0] % 16)
      && Encodes(e[3..], s[1..])
    else e[0] == s[0] && Encodes(e[1..], s[1..])
  }

  lemma DigitIs(c: byte, n: nat)
    requires Spells(c, n)
    ensures IsHexDigit(c) && HexDigitToInt(c) == n
  {
  }

  /** The decoder's digits are those of the table. */
  lemma DigitIsSpelled(c: byte)
    ensures IsHexDigit(c) <==> exists n :: Spells(c, n)
  {
    if IsHexDigit(c) { assert Spells(c, HexDigitToInt(c)); }
    if n :| Spells(c, n) { DigitIs(c, n); }
  }

  /** A percent sign and the two digits of a byte, in any case, are decoded to the byte, whatever follows. */
  lemma EscapeIsByte(n: byte, high: byte, low: byte, rest: Str)
    requires Spells(high, n / 16) && Spells(low, n % 16)
    ensures PercentDecoded([0x25, high, low] + rest) == [n] + PercentDecoded(rest)
    ensures PercentDecoded([0x25, high, low]) == [n]
  {
    DigitIs(high, n / 16);
    DigitIs(low, n % 16);
    hide Spells, IsHexDigit, HexDigitToInt;
    assert n / 16 * 16 + n % 16 == n;
    assert ([0x25, high, low] + rest)[3..] == rest;
    assert [0x25, high, low][3..] == [];
  }

  lemma {:induction false} DecodeOfEncoding(e: Str, s: Str)
    requires Encodes(e, s)
    ensures PercentDecoded(e) == s
  {
    hide Spells;
    if e != [] {
      if e[0] == PERCENT {
        DecodeOfEncoding(e[3..], s[1..]);
        EscapeIsByte(s[0], e[1], e[2], e[3..]);
        assert e == [0x25, e[1], e[2]] + e[3..];
      } else {
        DecodeOfEncoding(e[1..], s[1..]);
      }
      assert s == [s[0]] + s[1..];
    }
  }

  /** A parameter: its name, the text of its value, and the value meant. */
  datatype Param = Param(name: Str, text: Str, value: Str)

  predicate WellFormed(p: Param) {
    EQUALS !in p.name && AMPERSAND !in p.text && Encodes(p.text, p.value)
  }

  /** `name=text` for each parameter, joined by ampersands. */
  function Query(ps: seq<Param>): Str {
    if ps == [] then []
    else ps[0].name + [EQUALS] + ps[0].text + (if |ps| == 1 then [] else [AMPERSAND] + Query(ps[1..]))
  }

  /** The map in which the last value of a name wins. */
  function Collected(ps: seq<Param>, acc: map<Str, Str>): map<Str, Str> {
    if ps == [] then acc else Collected(ps[1..], acc[ps[0].name := ps[0].value])
  }

  lemma {:induction false} IndexOfIs(s: Str, c: byte, from: nat, i: nat)
    requires from <= i <= |s| && (i < |s| ==> s[i] == c) && forall k | from <= k < i :: s[k] != c
    ensures IndexOf(s, c, from) == i
  {
    var found := IndexOf(s, c, from);
    assert found >= i;
  }

  lemma TailSlice(s: Str, from: nat, i: nat, j: nat)
    requires from + i <= from + j <= |s|
    ensures s[from..][i..j] == s[from + i..from + j]
    ensures s[from..][i..] == s[from + i..]
  {
  }

  lemma Parts(name: Str, text: Str, tail: Str)
    ensures var t := name + [EQUALS] + text + tail;
            var eq, end := |name|, |name| + 1 + |text|;
            && t[0..eq] == name && t[eq] == EQUALS && t[eq + 1..end] == text && t[end..] == tail
  {
  }

  /** One parameter at `from`, whatever text stands before it. */
  lemma OneParam(s: Str, from: nat, p: Param, tail: Str, acc: map<Str, Str>)
    requires WellFormed(p) && from <= |s| && s[from..] == p.name + [EQUALS] + p.text + tail
    requires tail == [] || tail[0] == AMPERSAND
    ensures var end := from + |p.name| + 1 + |p.text|;
            end <= |s| && s[end..] == tail
            && ParsedFrom(s, from, acc) ==
              if tail == [] then acc[p.name := p.value] else ParsedFrom(s, end + 1, acc[p.name := p.value])
  {
    hide PercentDecoded, Encodes, ParsedFrom, IndexOf;
    var eq := from + |p.name|;
    var end := eq + 1 + |p.text|;
    ParamSlices(s, from, p.name, p.text, tail);
    forall k | from <= k < eq ensures s[k] != EQUALS {
      assert s[k] == s[from..eq][k - from];
    }
    forall k | eq + 1 <= k < end ensures s[k] != AMPERSAND {
      assert s[k] == s[eq + 1..end][k - eq - 1];
    }
    DecodeOfEncoding(p.text, p.value);
    OnePair(s, from, eq, end, acc);
  }

  lemma ParamSlices(s: Str, from: nat, name: Str, text: Str, tail: Str)
    requires from <= |s| && s[from..] == name + [EQUALS] + text + tail
    ensures var eq, end := from + |name|, from + |name| + 1 + |text|;
            && end <= |s| && s[from..eq] == name && s[eq] == EQUALS && s[eq + 1..end] == text && s[end..] == tail
            && (tail != [] ==> end < |s| && s[end] == tail[0]) && (tail == [] ==> end == |s|)
  {
    Parts(name, text, tail);
    TailSlice(s, from, 0, |name|);
    TailSlice(s, from, |name| + 1, |name| + 1 + |text|);
    var eq, end := from + |name|, from + |name| + 1 + |text|;
    assert s[eq] == s[from..][|name|];
    assert tail != [] ==> s[end] == s[end..][0];
  }

  lemma OnePair(s: Str, from: nat, eq: nat, end: nat, acc: map<Str, Str>)
    requires from <= eq < end <= |s| && s[eq] == EQUALS && (end < |s| ==> s[end] == AMPERSAND)
    requires (forall k | from <= k < eq :: s[k] != EQUALS) && forall k | eq + 1 <= k < end :: s[k] != AMPERSAND
    ensures var next := acc[s[from..eq] := PercentDecoded(s[eq + 1..end])];
            ParsedFrom(s, from, acc) == if end == |s| then next else ParsedFrom(s, end + 1, next)
  {
    IndexOfIs(s, EQUALS, from, eq);
    IndexOfIs(s, AMPERSAND, eq + 1, end);
  }

  lemma QueryUnfolds(ps: seq<Param>)
    ensures ps == [] ==> Query(ps) == []
    ensures ps != [] ==>
      Query(ps) == ps[0].name + [EQUALS] + ps[0].text + (if |ps| == 1 then [] else [AMPERSAND] + Query(ps[1..]))
  {
  }

  lemma {:induction false} ParsedQuery(s: Str, from: nat, ps: seq<Param>, acc: map<Str, Str>)
    requires (forall p | p in ps :: WellFormed(p)) && from <= |s| && s[from..] == Query(ps)
    ensures ParsedFrom(s, from, acc) == Collected(ps, acc)
    decreases |ps|
  {
    hide WellFormed, ParsedFrom, Query;
    QueryUnfolds(ps);
    if ps == [] {
      NothingParsed(s, from, acc);
    } else {
      var tail := if |ps| == 1 then [] else [AMPERSAND] + Query(ps[1..]);
      OneParam(s, from, ps[0], tail, acc);
      if |ps| > 1 {
        var end := from + |ps[0].name| + 1 + |ps[0].text|;
        assert s[end + 1..] == s[end..][1..] == Query(ps[1..]);
        ParsedQuery(s, end + 1, ps[1..], acc[ps[0].name := ps[0].value]);
      }
    }
  }

  lemma NothingParsed(s: Str, from: nat, acc: map<Str, Str>)
    requires from == |s|
    ensures ParsedFrom(s, from, acc) == acc
  {
  }

  /** A query behind a question mark; names may hold anything but the equals sign. */
  lemma ParseOfQuery(base: Str, ps: seq<Param>)
    requires QUESTION !in base && forall p | p in ps :: WellFormed(p)
    ensures Parsed(base + [QUESTION] + Query(ps)) == Collected(ps, map[])
  {
    hide ParsedFrom, Query, WellFormed;
    var s := base + [QUESTION] + Query(ps);
    assert s[|base|] == QUESTION;
    forall k | 0 <= k < |base| ensures s[k] != QUESTION { assert s[k] == base[k]; }
    IndexOfIs(s, QUESTION, 0, |base|);
    assert s[|base| + 1..] == Query(ps);
    ParsedQuery(s, |base| + 1, ps, map[]);
  }

  /** A bare query, as long as it holds no question mark. */
  lemma ParseOfBareQuery(ps: seq<Param>)
    requires QUESTION !in Query(ps) && forall p | p in ps :: WellFormed(p)
    ensures Parsed(Query(ps)) == Collected(ps, map[])
  {
    hide ParsedFrom, Query, WellFormed;
    var s := Query(ps);
    IndexOfIs(s, QUESTION, 0, |s|);
    assert s[0..] == s;
    ParsedQuery(s, 0, ps, map[]);
  }

  // ---------- an encoder ----------

  /** The unreserved characters of RFC 3986, section 2.3. */
  predicate IsUnreserved(c: byte) {
    48 <= c <= 57 || 65 <= c <= 90 || 97 <= c <= 122 || c == 45 || c == 46 || c == 95 || c == 126
  }

  function ToHexDigit(n: nat): (c: byte)
    requires n < 16
    ensures Spells(c, n) && IsUnreserved(c) && c != PERCENT
  {
    CAPITAL[n] as int
  }

  /** Unreserved characters stand for themselves, all others are escaped (RFC 3986, section 2.1). */
  function PercentEncoded(s: Str): Str {
    if s == [] then []
    else
      (if IsUnreserved(s[0]) then [s[0]] else [PERCENT, ToHexDigit(s[0] / 16), ToHexDigit(s[0] % 16)])
      + PercentEncoded(s[1..])
  }

  /** Such a text encodes the string and holds none of the delimiters. */
  lemma {:induction false} EncoderEncodes(s: Str)
    ensures Encodes(PercentEncoded(s), s)
    ensures AMPERSAND !in PercentEncoded(s) && EQUALS !in PercentEncoded(s) && QUESTION !in PercentEncoded(s)
  {
    if s != [] {
      EncoderEncodes(s[1..]);
      var rest := PercentEncoded(s[1..]);
      var e := PercentEncoded(s);
      if IsUnreserved(s[0]) {
        assert e[1..] == rest;
      } else {
        assert e[3..] == rest;
      }
    }
  }

  /** Percent-decoding undoes percent-encoding. */
  lemma DecodeOfEncode(s: Str)
    ensures PercentDecoded(PercentEncoded(s)) == s
  {
    EncoderEncodes(s);
    DecodeOfEncoding(PercentEncoded(s), s);
  }
}
