/** `lexer`: the scanner over a contiguous buffer, behind which `fill_line_buffer` has put a NUL. */
module Scanner {
  import opened Bytes
  import opened Results
  import opened Tokens
  import opened TokenLaw

  /** The states that remember the position in `m_marker`. */
  predicate Marks(q: State) { q.S9? || q.S13? || q.S15? || q.S23? || q.S24? || q.S25? || q.S49? }

  /** What a scan returns to when it backtracks: a number, or nothing but the error. */
  function Saved(offset: int, accept: nat): Match {
    if accept == 1 && offset >= 0 then Matched(offset, ValueNumber) else NoMatch
  }

  lemma Counting(q: State)
    ensures Accept(q) == Some(ValueNumber) <==> q == S13 || q == S15 || q == S49 || q == S52
  {
  }

  lemma Entering(q: State, c: byte)
    requires q != Begin && Next(q, c) != Reject && !Halts(q)
    ensures Next(q, c) != Begin && c != 0 && Next(q, c) != S12
    ensures Marks(Next(q, c)) ==> Accept(Next(q, c)).Some?
    ensures q == S12 ==> Marks(Next(q, c))
    ensures Accept(q).Some? && !Marks(q) ==> Accept(Next(q, c)).Some?
  {
    hide NextOfBegin, NextOfString, NextOfNumber, NextOfWord, Accept;
    Counting(q);
    Counting(Next(q, c));
  }

  lemma Accepted(q: State, s: Str)
    ensures Accept(q).Some? ==> Longest(q, s).Matched?
    ensures Halts(q) ==> Longest(q, s) == Matched(0, Accept(q).value)
  {
  }

  /** One transition: the match goes on, or ends here. */
  lemma Transition(q: State, u: Str, n: nat, saved: Match)
    requires u != [] && !Halts(q)
    ensures var next := Next(q, u[0]);
            Farther(n, Longest(q, u), saved) ==
              if next == Reject then (if Accept(q).Some? then Matched(n, ValueNumber) else saved)
              else Farther(n + 1, Longest(next, u[1..]), if Accept(q).Some? then Matched(n, ValueNumber) else saved)
  {
    hide Next;
  }

  /** The text from position `i` on, behind the blanks. */
  ghost function Behind(b: Str, i: nat): (t: Str)
    requires i < |b| && b[|b| - 1] == 0
    ensures t != [] && t[|t| - 1] == 0 && |t| <= |b| - i
  {
    var s := b[i..];
    assert s[|s| - 1] == 0;
    s[Blanks(s)..]
  }

  lemma BlankStep(b: Str, i: nat)
    requires i < |b| && b[|b| - 1] == 0
    ensures if IsBlank(b[i]) then i + 1 < |b| && Behind(b, i) == Behind(b, i + 1) else Behind(b, i) == b[i..]
  {
    if IsBlank(b[i]) { assert b[i..][1..] == b[i + 1..]; }
  }

  lemma FirstTransition(t: Str)
    requires t != []
    ensures var next := Next(Begin, t[0]);
            && Longest(Begin, t) == (if next == Reject then NoMatch else Farther(1, Longest(next, t[1..]), NoMatch))
            && next != Begin && (t[0] == 0 ==> Halts(next))
            && (next != Reject ==> Marks(next) || Halts(next) || next == S12)
  {
    hide Longest;
    LongestUnfolds(Begin, t);
  }

  lemma LongestUnfolds(q: State, u: Str)
    requires u != []
    ensures Longest(q, u) ==
      var here := if Accept(q).Some? then Matched(0, Accept(q).value) else NoMatch;
      if Next(q, u[0]) == Reject then here else Farther(1, Longest(Next(q, u[0]), u[1..]), here)
  {
  }

  /**
   * In state `q`, `n` bytes into a token: the longest match is the one still ahead or, failing that, the one saved;
   * where none is saved, backtracking leads to the byte behind the first.
   */
  ghost predicate Scanning(t: Str, n: nat, q: State, marker: int, accept: nat) {
    && 0 < n <= |t| && q != Reject && q != Begin
    && (n == |t| ==> Halts(q))
    && Longest(Begin, t) == Farther(n, Longest(q, t[n..]), Saved(marker, accept))
    && (accept == 0 || (accept == 1 && 0 < marker <= n))
    && (accept == 0 && !Marks(q) && !Halts(q) && q != S12 ==> marker == 1)
    && ((Marks(q) && Accept(q).None?) || q == S12 ==> n == 1)
    && (n == 1 ==> accept == 0)
  }

  lemma Starting(t: Str)
    requires t != [] && t[|t| - 1] == 0
    ensures var q := Next(Begin, t[0]);
            if q == Reject then Head(t) == (ParseError, 1) else forall marker :: Scanning(t, 1, q, marker, 0)
  {
    hide Longest, Accept, Next;
    FirstTransition(t);
  }

  lemma Stopping(t: Str, n: nat, q: State, marker: int, accept: nat)
    requires Scanning(t, n, q, marker, accept) && Halts(q)
    ensures Head(t) == (Accept(q).value, n)
  {
    hide Longest, Accept;
    Accepted(q, t[n..]);
  }

  /** One turn of the automaton. */
  lemma Turning(t: Str, n: nat, q: State, marker: int, accept: nat)
    requires Scanning(t, n, q, marker, accept) && !Halts(q) && t[|t| - 1] == 0
    ensures n < |t|
    ensures var next, marker', accept' := Next(q, t[n]),
                if Marks(q) then n else marker,
                if Marks(q) then if Accept(q).Some? then 1 else 0 else accept;
            if next != Reject then Scanning(t, n + 1, next, marker', accept')
            else if Accept(q).Some? then Head(t) == (ValueNumber, n)
            else if accept' == 0 then Head(t) == (ParseError, if q == S12 then n else marker')
            else q != S12 && Head(t) == (ValueNumber, marker')
  {
    hide Longest, Accept, Next, Marks;
    var next := Next(q, t[n]);
    var saved := Saved(if Marks(q) then n else marker, if Marks(q) then if Accept(q).Some? then 1 else 0 else accept);
    Transition(q, t[n..], n, saved);
    Transition(q, t[n..], n, Saved(marker, accept));
    if next != Reject {
      Entering(q, t[n]);
      Accepted(next, t[n + 1..]);
      assert t[n..][1..] == t[n + 1..];
    }
  }

  class Lexer {
    const data: Str
    var start: nat
    var marker: nat
    var cursor: nat
    var lastTokenType: TokenType

    ghost function Buffer(): (b: Str)
      ensures |b| == |data| + 1 && b[|data|] == 0
    {
      data + [0]
    }

    ghost predicate Valid()
      reads this
    {
      start <= cursor <= |data| + 1
    }

    constructor (content: Str)
      ensures data == content && Valid() && cursor == 0
    {
      data := content;
      start, marker, cursor := 0, 0, 0;
      lastTokenType := EndOfInput;
    }

    function At(i: nat): (c: byte)
      requires i <= |data|
      ensures c == Buffer()[i]
    {
      if i < |data| then data[i] else 0
    }

    /** `get_token_string`: the text of the last token. */
    function TokenString(): (text: Str)
      requires start <= cursor <= |data|
      reads this
      ensures text == Buffer()[start..cursor]
    {
      assert (data + [0])[start..cursor] == data[start..cursor];
      data[start..cursor]
    }

    /** What a scan from here on finds: the text behind the blanks. */
    ghost function Ahead(): (t: Str)
      requires cursor <= |data|
      reads this
      ensures t != [] && t[|t| - 1] == 0
    {
      Behind(Buffer(), cursor)
    }

    /** The automaton, from the first byte of a token on. */
    method ScanToken() returns (k: TokenType)
      requires start == cursor <= |data|
      modifies this
      ensures start == old(start) && Valid()
      ensures (k, cursor - start) == Head(Buffer()[start..])
      ensures k != EndOfInput ==> cursor <= |data|
    {
      hide Scanning, Next, Accept, Marks, Buffer, Head;
      ghost var t := Buffer()[start..];
      HeadBeforeNul(t);
      Starting(t);
      var yyaccept := 0;
      var state := Next(Begin, At(cursor));
      cursor := cursor + 1;
      if state == Reject {
        return ParseError;
      }
      while true
        invariant start == old(start) < cursor <= |data| + 1
        invariant Scanning(t, cursor - start, state, marker - start, yyaccept)
        decreases |data| + 1 - cursor
      {
        if Halts(state) {
          Stopping(t, cursor - start, state, marker - start, yyaccept);
          return Accept(state).value;
        }
        Turning(t, cursor - start, state, marker - start, yyaccept);
        if Marks(state) {
          marker := cursor;
          yyaccept := if Accept(state).Some? then 1 else 0;
        }
        var next := Next(state, At(cursor));
        if next == Reject {
          if Accept(state).Some? {
            return ValueNumber;
          }
          if state != S12 {
            cursor := marker;
          }
          return if yyaccept == 0 then ParseError else ValueNumber;
        }
        cursor := cursor + 1;
        state := next;
      }
    }

    /** `scan`: the next token, behind blanks. */
    method Scan() returns (k: TokenType)
      requires Valid() && cursor <= |data|
      modifies this
      ensures Valid() && k == lastTokenType
      ensures start == |Buffer()| - |old(Ahead())| && (k, cursor - start) == Head(old(Ahead()))
      ensures k != EndOfInput ==> cursor <= |data|
    {
      hide Buffer, Behind, Head, IsBlank;
      ghost var t := Ahead();
      while true
        invariant cursor <= |data| && t == Ahead()
        decreases |data| - cursor
      {
        marker := 0;
        start := cursor;
        BlankStep(Buffer(), cursor);
        if !IsBlank(At(cursor)) {
          break;
        }
        cursor := cursor + 1;
        while IsBlank(At(cursor))
          invariant start < cursor <= |data| && t == Ahead()
          decreases |data| - cursor
        {
          BlankStep(Buffer(), cursor);
          cursor := cursor + 1;
        }
      }
      k := ScanToken();
      lastTokenType := k;
    }
  }
}
