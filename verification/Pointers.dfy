/** JSON Pointer (RFC 6901): the class `json_pointer`, its text form and its escaping. */
module Pointers {
  import opened Bytes
  import opened Results
  import opened Decimal

  const TILDE: byte := 126
  const SLASH: byte := 47
  const DASH: Str := [45]
  const ONE: byte := 49

  // ---------- replace_substring ----------

  predicate OccursAt(s: Str, f: Str, i: nat) {
    i + |f| <= |s| && s[i..i + |f|] == f
  }

  /** `std::string::find(f, from)`: the first occurrence at or after `from`. */
  function Find(s: Str, f: Str, from: nat): (pos: Option<nat>)
    requires from <= |s|
    ensures pos.Some? ==> from <= pos.value && OccursAt(s, f, pos.value)
    ensures forall i | from <= i && (pos.Some? ==> i < pos.value) :: !OccursAt(s, f, i)
    decreases |s| - from
  {
    if OccursAt(s, f, from) then Some(from)
    else if from == |s| then None
    else Find(s, f, from + 1)
  }

  /** Every occurrence of `f`, left to right and not overlapping, replaced by `t`. */
  function Replaced(s: Str, f: Str, t: Str): Str
    requires f != []
  {
    if s == [] then []
    else if OccursAt(s, f, 0) then t + Replaced(s[|f|..], f, t)
    else [s[0]] + Replaced(s[1..], f, t)
  }

  lemma OccursInTail(s: Str, f: Str, k: nat, i: nat)
    requires k <= |s|
    ensures OccursAt(s[k..], f, i) <==> OccursAt(s, f, k + i)
  {
    if k + i + |f| <= |s| {
      assert s[k..][i..i + |f|] == s[k + i..k + i + |f|];
    }
  }

  lemma {:induction false} ReplacedSkips(s: Str, f: Str, t: Str, n: nat)
    requires f != [] && n <= |s|
    requires forall i | 0 <= i < n :: !OccursAt(s, f, i)
    ensures Replaced(s, f, t) == s[..n] + Replaced(s[n..], f, t)
  {
    if n == 0 {
      assert s[0..] == s;
    } else {
      forall i | 0 <= i < n - 1 ensures !OccursAt(s[1..], f, i) {
        OccursInTail(s, f, 1, i);
      }
      ReplacedSkips(s[1..], f, t, n - 1);
      assert s[1..][n - 1..] == s[n..];
      assert [s[0]] + s[1..][..n - 1] == s[..n];
    }
  }

  lemma ReplacedHit(f: Str, rest: Str, t: Str)
    requires f != []
    ensures Replaced(f + rest, f, t) == t + Replaced(rest, f, t)
  {
    assert (f + rest)[|f|..] == rest;
    assert OccursAt(f + rest, f, 0);
  }

  lemma ReplacedMiss(c: byte, rest: Str, f: Str, t: Str)
    requires f != [] && c != f[0]
    ensures Replaced([c] + rest, f, t) == [c] + Replaced(rest, f, t)
  {
    var s := [c] + rest;
    assert s[1..] == rest;
    assert |s| >= |f| ==> s[0..|f|][0] == c;
  }

  lemma ReplacedNext(s: Str, f: Str, t: Str, n: nat)
    requires f != [] && OccursAt(s, f, n) && forall i | 0 <= i < n :: !OccursAt(s, f, i)
    ensures Replaced(s, f, t) == s[..n] + (t + Replaced(s[n + |f|..], f, t))
  {
    hide Replaced;
    ReplacedSkips(s, f, t, n);
    assert s[n..] == f + s[n + |f|..];
    ReplacedHit(f, s[n + |f|..], t);
  }

  /** Up to the next occurrence, found at `p`, nothing changes. */
  lemma ReplacedUpTo(r: Str, f: Str, t: Str, done: nat, p: nat)
    requires f != [] && done <= |r| && Find(r, f, done) == Some(p)
    ensures Replaced(r[done..], f, t) == r[done..p] + (t + Replaced(r[p + |f|..], f, t))
  {
    hide Replaced, OccursAt, Find;
    FoundInside(r, f, p);
    forall i | 0 <= i <= p - done ensures OccursAt(r[done..], f, i) <==> OccursAt(r, f, done + i) {
      OccursInTail(r, f, done, i);
    }
    ReplacedNext(r[done..], f, t, p - done);
    assert r[done..][..p - done] == r[done..p];
    assert r[done..][p - done + |f|..] == r[p + |f|..];
  }

  lemma FoundInside(r: Str, f: Str, p: nat)
    requires OccursAt(r, f, p)
    ensures p + |f| <= |r|
  {
  }

  lemma Assoc(a: Str, b: Str, c: Str, d: Str)
    ensures (a + b + c) + d == a + (b + (c + d))
  {
  }

  lemma SpliceParts(r: Str, t: Str, done: nat, p: nat, q: nat)
    requires done <= p <= q <= |r|
    ensures var next := r[..p] + t + r[q..];
            next[..p + |t|] == r[..done] + r[done..p] + t && next[p + |t|..] == r[q..]
  {
  }

  /** One turn of the loop: the text before `p` and the insertion are final. */
  lemma ReplaceStep(r: Str, f: Str, t: Str, done: nat, p: nat)
    requires f != [] && done <= |r| && Find(r, f, done) == Some(p)
    ensures var next := r[..p] + t + r[p + |f|..];
            next[..p + |t|] + Replaced(next[p + |t|..], f, t) == r[..done] + Replaced(r[done..], f, t)
  {
    SpliceParts(r, t, done, p, p + |f|);
    ReplacedUpTo(r, f, t, done, p);
    Assoc(r[..done], r[done..p], t, Replaced(r[p + |f|..], f, t));
  }

  lemma ReplaceEnd(r: Str, f: Str, t: Str, done: nat)
    requires f != [] && done <= |r| && Find(r, f, done) == None
    ensures r[..done] + Replaced(r[done..], f, t) == r
  {
    var tail := r[done..];
    forall i | 0 <= i < |tail| ensures !OccursAt(tail, f, i) {
      OccursInTail(r, f, done, i);
    }
    ReplacedSkips(tail, f, t, |tail|);
    assert tail[|tail|..] == [];
  }

  /** In place: each insertion is skipped before the next search. */
  method ReplaceSubstring(s: Str, f: Str, t: Str) returns (r: Str)
    requires f != []
    ensures r == Replaced(s, f, t)
  {
    hide Replaced;
    r := s;
    ghost var done: nat := 0;
    var pos := Find(r, f, 0);
    assert r[0..] == r && r[..0] == [];
    while pos.Some?
      invariant done <= |r| && pos == Find(r, f, done)
      invariant r[..done] + Replaced(r[done..], f, t) == Replaced(s, f, t)
      decreases |r| - done
    {
      ReplaceStep(r, f, t, done, pos.value);
      done := pos.value + |t|;
      r := r[..pos.value] + t + r[pos.value + |f|..];
      pos := Find(r, f, pos.value + |t|);
    }
    ReplaceEnd(r, f, t, done);
  }

  // ---------- escape and unescape ----------

  /** The escaped form of one reference token (RFC 6901, section 3), in one pass. */
  function Escaped(s: Str): (e: Str)
    ensures SLASH !in e
  {
    if s == [] then []
    else if s[0] == TILDE then [TILDE, ZERO] + Escaped(s[1..])
    else if s[0] == SLASH then [TILDE, ONE] + Escaped(s[1..])
    else [s[0]] + Escaped(s[1..])
  }

  /** RFC 6901, section 3: a tilde is "~0", a slash is "~1", and a token begins with a slash. */
  lemma EscapedIs(c: byte, s: Str)
    ensures Escaped([c] + s) ==
      (if c == 0x7e then [0x7e, 0x30] else if c == 0x2f then [0x7e, 0x31] else [c]) + Escaped(s)
    ensures Escaped([]) == [] && SLASH == 0x2f
  {
    assert ([c] + s)[1..] == s;
  }

  /** Every tilde is followed by `0` or `1`. */
  predicate ProperlyEscaped(s: Str) {
    if s == [] then true
    else if s[0] == TILDE then |s| >= 2 && s[1] in {ZERO, ONE} && ProperlyEscaped(s[2..])
    else ProperlyEscaped(s[1..])
  }

  /** The meaning of an escaped token (RFC 6901, section 4), in one pass. */
  function Unescaped(s: Str): Str
    requires ProperlyEscaped(s)
  {
    if s == [] then []
    else if s[0] == TILDE then [if s[1] == ZERO then TILDE else SLASH] + Unescaped(s[2..])
    else [s[0]] + Unescaped(s[1..])
  }

  lemma {:induction false} EscapePasses(s: Str)
    ensures Replaced(Replaced(s, [TILDE], [TILDE, ZERO]), [SLASH], [TILDE, ONE]) == Escaped(s)
  {
    if s != [] {
      EscapePasses(s[1..]);
      var r := Replaced(s[1..], [TILDE], [TILDE, ZERO]);
      assert s == [s[0]] + s[1..];
      if s[0] == TILDE {
        ReplacedHit([TILDE], s[1..], [TILDE, ZERO]);
        assert [TILDE, ZERO] + r == [TILDE] + ([ZERO] + r);
        ReplacedMiss(TILDE, [ZERO] + r, [SLASH], [TILDE, ONE]);
        ReplacedMiss(ZERO, r, [SLASH], [TILDE, ONE]);
      } else {
        ReplacedMiss(s[0], s[1..], [TILDE], [TILDE, ZERO]);
        if s[0] == SLASH {
          ReplacedHit([SLASH], r, [TILDE, ONE]);
        } else {
          ReplacedMiss(s[0], r, [SLASH], [TILDE, ONE]);
        }
      }
    }
  }

  method Escape(s: Str) returns (r: Str)
    ensures r == Escaped(s)
  {
    r := ReplaceSubstring(s, [TILDE], [TILDE, ZERO]);
    r := ReplaceSubstring(r, [SLASH], [TILDE, ONE]);
    EscapePasses(s);
  }

  function SlashPass(s: Str): Str { Replaced(s, [TILDE, ONE], [SLASH]) }

  function TildePass(s: Str): Str { Replaced(s, [TILDE, ZERO], [TILDE]) }

  lemma PassesOnSlash(s: Str)
    ensures TildePass(SlashPass([TILDE, ONE] + s)) == [SLASH] + TildePass(SlashPass(s))
  {
    ReplacedHit([TILDE, ONE], s, [SLASH]);
    ReplacedMiss(SLASH, SlashPass(s), [TILDE, ZERO], [TILDE]);
  }

  lemma PassesOnOther(c: byte, s: Str)
    requires c != TILDE
    ensures TildePass(SlashPass([c] + s)) == [c] + TildePass(SlashPass(s))
  {
    ReplacedMiss(c, s, [TILDE, ONE], [SLASH]);
    ReplacedMiss(c, SlashPass(s), [TILDE, ZERO], [TILDE]);
  }

  lemma PassesOnTilde(s: Str)
    ensures TildePass(SlashPass([TILDE, ZERO] + s)) == [TILDE] + TildePass(SlashPass(s))
  {
    SlashPassKeepsTilde(s);
    ReplacedHit([TILDE, ZERO], SlashPass(s), [TILDE]);
  }

  lemma SlashPassKeepsTilde(s: Str)
    ensures SlashPass([TILDE, ZERO] + s) == [TILDE, ZERO] + SlashPass(s)
  {
    var t := [TILDE, ZERO] + s;
    assert t[0..2][1] == ZERO;
    assert t[1..] == [ZERO] + s;
    ReplacedMiss(ZERO, s, [TILDE, ONE], [SLASH]);
  }

  /** The two passes of `unescape` agree with the one-pass reading on every proper token. */
  lemma {:induction false} UnescapePasses(s: Str)
    requires ProperlyEscaped(s)
    ensures TildePass(SlashPass(s)) == Unescaped(s)
  {
    if s == [] {
    } else if s[0] == TILDE {
      UnescapePasses(s[2..]);
      assert s == [TILDE, s[1]] + s[2..];
      if s[1] == ONE { PassesOnSlash(s[2..]); } else { PassesOnTilde(s[2..]); }
    } else {
      UnescapePasses(s[1..]);
      assert s == [s[0]] + s[1..];
      PassesOnOther(s[0], s[1..]);
    }
  }

  method Unescape(s: Str) returns (r: Str)
    ensures ProperlyEscaped(s) ==> r == Unescaped(s)
  {
    r := ReplaceSubstring(s, [TILDE, ONE], [SLASH]);
    r := ReplaceSubstring(r, [TILDE, ZERO], [TILDE]);
    if ProperlyEscaped(s) { UnescapePasses(s); }
  }

  lemma {:induction false} UnescapeOfEscape(s: Str)
    ensures ProperlyEscaped(Escaped(s)) && Unescaped(Escaped(s)) == s
  {
    if s != [] {
      UnescapeOfEscape(s[1..]);
      var e := Escaped(s);
      if s[0] == TILDE || s[0] == SLASH {
        assert e[2..] == Escaped(s[1..]);
      } else {
        assert e[1..] == Escaped(s[1..]);
      }
    }
  }

  lemma {:induction false} EscapeOfUnescape(s: Str)
    requires ProperlyEscaped(s) && SLASH !in s
    ensures Escaped(Unescaped(s)) == s
  {
    if s == [] {
    } else if s[0] == TILDE {
      EscapeOfUnescape(s[2..]);
      assert s == [s[0], s[1]] + s[2..];
      assert Unescaped(s)[1..] == Unescaped(s[2..]);
    } else {
      EscapeOfUnescape(s[1..]);
      assert Unescaped(s)[1..] == Unescaped(s[1..]);
    }
  }

  lemma DecNeedsNoEscape(n: nat)
    ensures Escaped(Dec(n)) == Dec(n)
  {
    DigitsNeedNoEscape(Dec(n));
  }

  lemma {:induction false} DigitsNeedNoEscape(s: Str)
    requires forall i | 0 <= i < |s| :: IsDigit(s[i])
    ensures Escaped(s) == s
  {
    if s != [] {
      assert IsDigit(s[0]);
      DigitsNeedNoEscape(s[1..]);
    }
  }

  // ---------- text form ----------

  /** `json_pointer::to_string`: the fold over the reference tokens. */
  function ToString(ts: seq<Str>): Str {
    if ts == [] then [] else ToString(ts[..|ts| - 1]) + [SLASH] + Escaped(ts[|ts| - 1])
  }

  lemma {:induction false} ToStringCons(t: Str, ts: seq<Str>)
    ensures ToString([t] + ts) == [SLASH] + Escaped(t) + ToString(ts)
  {
    hide Escaped;
    if ts == [] {
      assert ([t] + ts)[..0] == [];
    } else {
      assert ([t] + ts)[..|ts|] == [t] + ts[..|ts| - 1];
      ToStringCons(t, ts[..|ts| - 1]);
      Associate([SLASH] + Escaped(t), ToString(ts[..|ts| - 1]), [SLASH], Escaped(ts[|ts| - 1]));
    }
  }

  lemma Associate(a: Str, b: Str, c: Str, d: Str)
    ensures (a + b) + c + d == a + (b + c + d)
  {
  }

  /** The position of the first slash at or after `from`, or the end. */
  function NextSlash(s: Str, from: nat): (pos: nat)
    requires from <= |s|
    ensures from <= pos <= |s| && (pos < |s| ==> s[pos] == SLASH)
    ensures forall i | from <= i < pos :: s[i] != SLASH
    decreases |s| - from
  {
    if from == |s| || s[from] == SLASH then from else NextSlash(s, from + 1)
  }

  /** The reference tokens of the text that follows a slash. */
  function TokensFrom(s: Str, start: nat): Result<seq<Str>>
    requires start <= |s|
    decreases |s| - start
  {
    var slash := NextSlash(s, start);
    if !ProperlyEscaped(s[start..slash]) then Err(DomainError)
    else
      var token := Unescaped(s[start..slash]);
      if slash == |s| then Ok([token])
      else
        var rest :- TokensFrom(s, slash + 1);
        Ok([token] + rest)
  }

  /** What `split` accepts and what it yields. */
  function Split(s: Str): Result<seq<Str>> {
    if s == [] then Ok([])
    else if s[0] != SLASH then Err(DomainError)
    else TokensFrom(s, 1)
  }

  const NPOS: int := 0xffff_ffff_ffff_ffff

  /** `find_first_of('/', from)` with `npos` for none. */
  function FindSlash(s: Str, from: nat): (pos: int)
    requires |s| < NPOS
    ensures from <= |s| ==> pos == if NextSlash(s, from) == |s| then NPOS else NextSlash(s, from)
  {
    if from > |s| then NPOS
    else
      var pos := NextSlash(s, from);
      if pos == |s| then NPOS else pos
  }

  lemma {:induction false} TildeRun(s: Str, from: nat)
    requires from <= |s|
    ensures var pos := Find(s, [TILDE], from);
            if pos.Some? then s[pos.value] == TILDE && (ProperlyEscaped(s[from..]) <==> ProperlyEscaped(s[pos.value..]))
            else ProperlyEscaped(s[from..])
    decreases |s| - from
  {
    if from < |s| && s[from] != TILDE {
      TildeRun(s, from + 1);
      assert s[from..][1..] == s[from + 1..];
    }
  }

  lemma ProperAtTilde(s: Str, p: nat)
    requires p < |s| && s[p] == TILDE
    ensures ProperlyEscaped(s[p..]) <==>
            p + 1 < |s| && s[p + 1] in {ZERO, ONE} && ProperlyEscaped(s[p + 1..])
  {
    if p + 1 < |s| {
      assert s[p..][2..] == s[p + 2..];
      assert s[p + 1..][1..] == s[p + 2..];
    }
  }

  /** The loop in `split` that looks at every tilde of a token. */
  method CheckEscapes(token: Str) returns (ok: bool)
    ensures ok <==> ProperlyEscaped(token)
  {
    hide ProperlyEscaped, Find;
    var pos := Find(token, [TILDE], 0);
    ghost var seen: nat := 0;
    assert token[0..] == token;
    while pos.Some?
      invariant seen <= |token| && pos == Find(token, [TILDE], seen)
      invariant ProperlyEscaped(token) <==> ProperlyEscaped(token[seen..])
      decreases |token| - seen
    {
      var p := pos.value;
      TildeRun(token, seen);
      ProperAtTilde(token, p);
      if p == |token| - 1 || (token[p + 1] != ZERO && token[p + 1] != ONE) {
        return false;
      }
      seen := p + 1;
      pos := Find(token, [TILDE], p + 1);
    }
    TildeRun(token, seen);
    return true;
  }

  function Prepend(ts: seq<Str>, r: Result<seq<Str>>): Result<seq<Str>> {
    match r
    case Ok(rest) => Ok(ts + rest)
    case Err(e) => Err(e)
  }

  lemma PrependNothing(r: Result<seq<Str>>)
    ensures Prepend([], r) == r
  {
    if r.Ok? { assert [] + r.value == r.value; }
  }

  /** One turn of the loop in `split`, tokens already found in front. */
  lemma TokensStep(s: Str, start: nat, found: seq<Str>)
    requires start <= |s|
    ensures var slash := NextSlash(s, start);
            var token := s[start..slash];
            Prepend(found, TokensFrom(s, start)) ==
            if !ProperlyEscaped(token) then Err(DomainError)
            else if slash == |s| then Ok(found + [Unescaped(token)])
            else Prepend(found + [Unescaped(token)], TokensFrom(s, slash + 1))
  {
    var slash := NextSlash(s, start);
    if slash < |s| && ProperlyEscaped(s[start..slash]) {
      PrependTwice(found, [Unescaped(s[start..slash])], TokensFrom(s, slash + 1));
    }
  }

  lemma PrependTwice(a: seq<Str>, b: seq<Str>, r: Result<seq<Str>>)
    ensures Prepend(a, Prepend(b, r)) == Prepend(a + b, r)
  {
    if r.Ok? { assert a + (b + r.value) == a + b + r.value; }
  }

  method ReadToken(s: Str, start: nat, slash: int) returns (r: Result<Str>)
    requires |s| < NPOS && start <= |s| && slash == FindSlash(s, start)
    ensures var token := s[start..NextSlash(s, start)];
            r == if ProperlyEscaped(token) then Ok(Unescaped(token)) else Err(DomainError)
  {
    var token := if slash == NPOS then s[start..] else s[start..slash];
    assert token == s[start..NextSlash(s, start)];
    var proper := CheckEscapes(token);
    if !proper { return Err(DomainError); }
    token := Unescape(token);
    return Ok(token);
  }

  /** `json_pointer::split`, wrap-around of `npos + 1` included. */
  method SplitReference(s: Str) returns (r: Result<seq<Str>>)
    requires |s| < NPOS
    ensures r == Split(s)
  {
    hide TokensFrom, ProperlyEscaped, Unescaped;
    if s == [] { return Ok([]); }
    if s[0] != SLASH { return Err(DomainError); }
    var result: seq<Str> := [];
    var slash, start := FindSlash(s, 1), 1;
    PrependNothing(TokensFrom(s, 1));
    while start != 0
      invariant 0 <= start <= |s|
      invariant start != 0 ==> slash == FindSlash(s, start)
      invariant Split(s) == if start == 0 then Ok(result) else Prepend(result, TokensFrom(s, start))
      decreases if start == 0 then 0 else |s| + 1 - start
    {
      TokensStep(s, start, result);
      var token := ReadToken(s, start, slash);
      if token.Err? { return Err(token.error); }
      result := result + [token.value];
      start := (slash + 1) % (NPOS + 1);
      slash := if start == 0 then NPOS else FindSlash(s, start);
    }
    return Ok(result);
  }

  // ---------- the two round trips ----------

  lemma {:induction false} NextSlashIs(s: Str, from: nat, pos: nat)
    requires from <= pos <= |s|
    requires forall i | from <= i < pos :: s[i] != SLASH
    requires pos < |s| ==> s[pos] == SLASH
    ensures NextSlash(s, from) == pos
    decreases pos - from
  {
    if from < pos { NextSlashIs(s, from + 1, pos); }
  }

  /** The token between `start` and the slash or end at `slash`. */
  lemma TokenBetween(s: Str, start: nat, slash: nat, e: Str)
    requires start <= slash <= |s| && s[start..slash] == e && ProperlyEscaped(e)
    requires forall i | start <= i < slash :: s[i] != SLASH
    requires slash < |s| ==> s[slash] == SLASH
    ensures TokensFrom(s, start) ==
            if slash == |s| then Ok([Unescaped(e)]) else Prepend([Unescaped(e)], TokensFrom(s, slash + 1))
  {
    NextSlashIs(s, start, slash);
  }

  lemma PartsOf(p: Str, e: Str, rest: Str)
    requires SLASH !in e
    ensures var s := p + e + rest;
            && s[|p|..|p| + |e|] == e
            && (forall i | |p| <= i < |p| + |e| :: s[i] != SLASH)
            && (rest != [] ==> s[|p| + |e|] == rest[0])
  {
    var s := p + e + rest;
    forall i | |p| <= i < |p| + |e| ensures s[i] != SLASH {
      assert s[i] == e[i - |p|];
    }
  }

  /** One token of a text made of `p`, an escaped token and a rest. */
  lemma TokenAfter(p: Str, e: Str, rest: Str)
    requires SLASH !in e && ProperlyEscaped(e)
    requires rest == [] || rest[0] == SLASH
    ensures TokensFrom(p + e + rest, |p|) ==
            if rest == [] then Ok([Unescaped(e)])
            else Prepend([Unescaped(e)], TokensFrom(p + e + rest, |p| + |e| + 1))
  {
    hide TokensFrom;
    PartsOf(p, e, rest);
    TokenBetween(p + e + rest, |p|, |p| + |e|, e);
  }

  lemma {:induction false} TokensOfPrefix(p: Str, t: Str, ts: seq<Str>)
    ensures TokensFrom(p + Escaped(t) + ToString(ts), |p|) == Ok([t] + ts)
    decreases |ts|
  {
    var e := Escaped(t);
    UnescapeOfEscape(t);
    if ts == [] {
      TokenAfter(p, e, []);
      assert [t] + ts == [t];
    } else {
      var u, us := ts[0], ts[1..];
      assert ts == [u] + us;
      ToStringCons(u, us);
      TokenAfter(p, e, ToString(ts));
      TokensOfPrefix(p + e + [SLASH], u, us);
      Regroup(p + e, [SLASH], Escaped(u), ToString(us));
    }
  }

  lemma Regroup(a: Str, b: Str, c: Str, d: Str)
    ensures a + (b + c + d) == a + b + c + d
  {
  }

  /** A pointer is read back from its text, empty tokens included. */
  lemma SplitOfToString(ts: seq<Str>)
    ensures Split(ToString(ts)) == Ok(ts)
  {
    if ts != [] {
      assert ts == [ts[0]] + ts[1..];
      ToStringCons(ts[0], ts[1..]);
      TokensOfPrefix([SLASH], ts[0], ts[1..]);
    }
  }

  lemma CutAt(s: Str, start: nat, slash: nat)
    requires 1 <= start <= slash <= |s| && s[start - 1] == SLASH
    ensures s[start - 1..] == [SLASH] + s[start..slash] + s[slash..]
  {
  }

  lemma NoTokens()
    ensures ToString([]) == []
  {
  }

  lemma {:induction false} ToStringOfTokens(s: Str, start: nat)
    requires 1 <= start <= |s| && s[start - 1] == SLASH && TokensFrom(s, start).Ok?
    ensures ToString(TokensFrom(s, start).value) == s[start - 1..]
    decreases |s| - start
  {
    hide Escaped, Unescaped, ProperlyEscaped, ToString, NextSlash;
    var slash := NextSlash(s, start);
    var e := s[start..slash];
    EscapeOfUnescape(e);
    CutAt(s, start, slash);
    if slash == |s| {
      ToStringCons(Unescaped(e), []);
      assert ToString([]) == [] by { NoTokens(); }
      assert [Unescaped(e)] + [] == [Unescaped(e)];
    } else {
      ToStringOfTokens(s, slash + 1);
      ToStringCons(Unescaped(e), TokensFrom(s, slash + 1).value);
    }
  }

  /** Every text `split` accepts is the text of the pointer it yields. */
  lemma ToStringOfSplit(s: Str)
    requires Split(s).Ok?
    ensures ToString(Split(s).value) == s
  {
    if s != [] {
      ToStringOfTokens(s, 1);
      assert s[0..] == s;
    }
  }

  lemma ToStringInjective(a: seq<Str>, b: seq<Str>)
    requires ToString(a) == ToString(b)
    ensures a == b
  {
    SplitOfToString(a);
    SplitOfToString(b);
  }
}
