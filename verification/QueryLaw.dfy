/** Every query, well formed or not, and the parameters it gives. */
module QueryLaw {
  import opened Bytes
  import opened Results
  import opened Url

  /** A name without "=", the text behind it without "&", and the value that is the decoded text. */
  predicate Plain(p: Param) { 0x3d !in p.name && 0x26 !in p.text && p.value == PercentDecoded(p.text) }

  ghost predicate AllPlain(ps: seq<Param>) { forall p | p in ps :: Plain(p) }

  /** The parameters joined by "&", and behind them, after another "&", a rest without "=". */
  function Joined(ps: seq<Param>, rest: Option<Str>): Str {
    if ps == [] then if rest.Some? then rest.value else []
    else
      ps[0].name + [0x3d] + ps[0].text
      + (if |ps| == 1 && rest.None? then [] else [0x26] + Joined(ps[1..], rest))
  }

  predicate Rest(rest: Option<Str>) { rest.Some? ==> 0x3d !in rest.value }

  lemma NoParam(s: Str, from: nat, acc: map<Str, Str>)
    requires from <= |s| && EQUALS !in s[from..]
    ensures ParsedFrom(s, from, acc) == acc
  {
    var t := s[from..];
    assert forall k | from <= k < |s| :: s[k] == t[k - from] && t[k - from] in t;
    IndexOfIs(s, EQUALS, from, |s|);
  }

  /** One parameter, whatever follows. */
  lemma OnePlain(s: Str, from: nat, p: Param, tail: Str, acc: map<Str, Str>)
    requires Plain(p) && from <= |s| && s[from..] == p.name + [EQUALS] + p.text + tail
    requires tail == [] || tail[0] == AMPERSAND
    ensures var end := from + |p.name| + 1 + |p.text|;
            end <= |s| && s[end..] == tail
            && ParsedFrom(s, from, acc) ==
              if tail == [] then acc[p.name := p.value] else ParsedFrom(s, end + 1, acc[p.name := p.value])
  {
    hide PercentDecoded, ParsedFrom, IndexOf;
    var eq := from + |p.name|;
    var end := eq + 1 + |p.text|;
    ParamSlices(s, from, p.name, p.text, tail);
    forall k | from <= k < eq ensures s[k] != EQUALS { assert s[k] == s[from..eq][k - from]; }
    forall k | eq + 1 <= k < end ensures s[k] != AMPERSAND { assert s[k] == s[eq + 1..end][k - eq - 1]; }
    OnePair(s, from, eq, end, acc);
  }

  lemma JoinedUnfolds(ps: seq<Param>, rest: Option<Str>)
    requires ps != []
    ensures var tail := if |ps| == 1 && rest.None? then [] else [0x26] + Joined(ps[1..], rest);
            Joined(ps, rest) == ps[0].name + [0x3d] + ps[0].text + tail
  {
  }

  /** Whatever parameters make up a query, they are what it is parsed into: the last value of each name. */
  lemma {:induction false} JoinedIsParsed(s: Str, from: nat, ps: seq<Param>, rest: Option<Str>, acc: map<Str, Str>)
    requires AllPlain(ps) && Rest(rest) && from <= |s| && s[from..] == Joined(ps, rest)
    ensures ParsedFrom(s, from, acc) == Collected(ps, acc)
    decreases |ps|
  {
    hide Plain, ParsedFrom, Joined;
    if ps == [] {
      JoinedNothing(rest);
      NoParam(s, from, acc);
    } else {
      JoinedUnfolds(ps, rest);
      var tail := if |ps| == 1 && rest.None? then [] else [0x26] + Joined(ps[1..], rest);
      OnePlain(s, from, ps[0], tail, acc);
      if tail == [] {
        assert ps[1..] == [];
      } else {
        var end := from + |ps[0].name| + 1 + |ps[0].text|;
        assert s[end + 1..] == s[end..][1..] == Joined(ps[1..], rest);
        JoinedIsParsed(s, end + 1, ps[1..], rest, acc[ps[0].name := ps[0].value]);
      }
    }
  }

  lemma JoinedNothing(rest: Option<Str>)
    requires Rest(rest)
    ensures 0x3d !in Joined([], rest)
  {
  }

  /** Every text is made up like that. */
  lemma {:induction false} AnyQuery(s: Str, from: nat) returns (ps: seq<Param>, rest: Option<Str>)
    requires from <= |s|
    ensures AllPlain(ps) && Rest(rest) && s[from..] == Joined(ps, rest) && (ps == [] ==> rest.Some?)
    decreases |s| - from
  {
    hide PercentDecoded, IndexOf, Joined;
    var eq := IndexOf(s, EQUALS, from);
    if eq == |s| {
      ps, rest := [], Some(s[from..]);
      NothingIn(s, EQUALS, from, |s|);
      RestAlone(rest);
    } else {
      var end := IndexOf(s, AMPERSAND, eq + 1);
      var p := Param(s[from..eq], s[eq + 1..end], PercentDecoded(s[eq + 1..end]));
      NothingIn(s, EQUALS, from, eq);
      NothingIn(s, AMPERSAND, eq + 1, end);
      Split(s, from, eq, end);
      if end == |s| {
        ps, rest := [p], None;
        JoinedUnfolds(ps, rest);
      } else {
        var more;
        more, rest := AnyQuery(s, end + 1);
        ps := [p] + more;
        assert ps[1..] == more;
        JoinedUnfolds(ps, rest);
      }
    }
  }

  lemma RestAlone(rest: Option<Str>)
    requires rest.Some?
    ensures Joined([], rest) == rest.value
  {
  }

  lemma NothingIn(s: Str, c: byte, from: nat, to: nat)
    requires from <= to <= |s| && forall k | from <= k < to :: s[k] != c
    ensures c !in s[from..to] && (to == |s| ==> c !in s[from..])
  {
    assert to == |s| ==> s[from..] == s[from..to];
  }

  lemma Split(s: Str, from: nat, eq: nat, end: nat)
    requires from <= eq < end <= |s| && s[eq] == EQUALS && (end < |s| ==> s[end] == AMPERSAND)
    ensures s[from..] ==
      s[from..eq] + [0x3d] + s[eq + 1..end] + (if end == |s| then [] else [0x26] + s[end + 1..])
  {
  }

  /** Where the query of a text begins: behind the first question mark, or at the beginning if there is none. */
  predicate BeginsAt(s: Str, from: nat) {
    || (from == 0 && 0x3f !in s)
    || (0 < from <= |s| && s[from - 1] == 0x3f && 0x3f !in s[..from - 1])
  }

  /** For every text: some parameters make up its query, and whichever do, they are what it is parsed into. */
  lemma ParsedIs(s: Str, from: nat)
    requires BeginsAt(s, from)
    ensures from <= |s|
    ensures exists ps, rest :: AllPlain(ps) && Rest(rest) && s[from..] == Joined(ps, rest)
    ensures forall ps, rest | AllPlain(ps) && Rest(rest) && s[from..] == Joined(ps, rest) ::
              Parsed(s) == Collected(ps, map[])
  {
    hide ParsedFrom, Joined, AllPlain, Rest;
    var q := if from == 0 then |s| else from - 1;
    assert forall k | 0 <= k < q :: s[k] == s[..q][k];
    IndexOfIs(s, QUESTION, 0, q);
    var ps, rest := AnyQuery(s, from);
    forall ps, rest | AllPlain(ps) && Rest(rest) && s[from..] == Joined(ps, rest)
      ensures Parsed(s) == Collected(ps, map[])
    {
      JoinedIsParsed(s, from, ps, rest, map[]);
    }
  }
}
