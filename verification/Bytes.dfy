/** Byte strings as `std::string` sees them: contents, order, enumeration of ordered maps. */
module Bytes {

  type byte = x: int | 0 <= x < 256
  type Str = seq<byte>

  /** The order of `std::string`: lexicographic on unsigned bytes, a proper prefix first. */
  predicate Less(a: Str, b: Str) {
    if b == [] then false
    else if a == [] then true
    else a[0] < b[0] || (a[0] == b[0] && Less(a[1..], b[1..]))
  }

  /** The first byte that differs decides, or the end of the shorter text. */
  lemma {:induction false} LessIs(a: Str, b: Str)
    ensures Less(a, b) <==>
      exists i | 0 <= i <= |a| && i < |b| :: a[..i] == b[..i] && (i == |a| || a[i] < b[i])
  {
    if a != [] && b != [] && a[0] == b[0] {
      var s, t := a[1..], b[1..];
      LessIs(s, t);
      if i :| 0 <= i <= |s| && i < |t| && s[..i] == t[..i] && (i == |s| || s[i] < t[i]) {
        assert a[..i + 1] == [a[0]] + s[..i] && b[..i + 1] == [b[0]] + t[..i];
      }
      if i :| 0 <= i <= |a| && i < |b| && a[..i] == b[..i] && (i == |a| || a[i] < b[i]) {
        assert i > 0;
        assert s[..i - 1] == a[..i][1..] && t[..i - 1] == b[..i][1..];
      }
    } else {
      LessAtFirst(a, b);
    }
  }

  lemma LessAtFirst(a: Str, b: Str)
    requires a == [] || b == [] || a[0] != b[0]
    ensures Less(a, b) <==>
      exists i | 0 <= i <= |a| && i < |b| :: a[..i] == b[..i] && (i == |a| || a[i] < b[i])
  {
    assert a[..0] == b[..0];
    forall i | 0 < i <= |a| && i <= |b| ensures a[..i] != b[..i] { assert a[..i][0] == a[0] && b[..i][0] == b[0]; }
  }

  lemma {:induction false} LessIrreflexive(a: Str)
    ensures !Less(a, a)
  {
    if a != [] { LessIrreflexive(a[1..]); }
  }

  lemma {:induction false} LessTotal(a: Str, b: Str)
    ensures Less(a, b) || Less(b, a) || a == b
    ensures !(Less(a, b) && Less(b, a))
  {
    LessIrreflexive(a);
    if a != [] && b != [] {
      LessTotal(a[1..], b[1..]);
      if a[0] == b[0] && a[1..] == b[1..] {
        assert a == [a[0]] + a[1..];
        assert b == [b[0]] + b[1..];
      }
    }
  }

  lemma {:induction false} LessTransitive(a: Str, b: Str, c: Str)
    requires Less(a, b) && Less(b, c)
    ensures Less(a, c)
  {
    if a != [] && a[0] == b[0] && b[0] == c[0] {
      LessTransitive(a[1..], b[1..], c[1..]);
    }
  }

  /** A common prefix does not matter to the order. */
  lemma {:induction false} LessAfterPrefix(p: Str, a: Str, b: Str)
    ensures Less(p + a, p + b) <==> Less(a, b)
  {
    if p == [] {
      assert p + a == a && p + b == b;
    } else {
      assert (p + a)[1..] == p[1..] + a;
      assert (p + b)[1..] == p[1..] + b;
      LessAfterPrefix(p[1..], a, b);
    }
  }

  ghost predicate Ascending(ks: seq<Str>) {
    forall i, j :: 0 <= i < j < |ks| ==> Less(ks[i], ks[j])
  }

  predicate IsLeast(k: Str, s: set<Str>) {
    k in s && forall x :: x in s && x != k ==> Less(k, x)
  }

  lemma {:induction false} LeastExists(s: set<Str>)
    requires s != {}
    ensures exists k :: IsLeast(k, s)
  {
    var x :| x in s;
    var rest := s - {x};
    if rest == {} {
      assert s == {x};
      assert IsLeast(x, s);
    } else {
      LeastExists(rest);
      var k :| IsLeast(k, rest);
      LessTotal(k, x);
      if Less(k, x) {
        assert IsLeast(k, s);
      } else {
        forall y | y in s && y != x
          ensures Less(x, y)
        {
          if y != k { LessTransitive(x, k, y); }
        }
        assert IsLeast(x, s);
      }
    }
  }

  function Least(s: set<Str>): (k: Str)
    requires s != {}
    ensures IsLeast(k, s)
  {
    LeastExists(s);
    assert forall k, k' | IsLeast(k, s) && IsLeast(k', s) :: k == k' by {
      forall k, k' | IsLeast(k, s) && IsLeast(k', s)
        ensures k == k'
      {
        LessTotal(k, k');
      }
    }
    var k :| IsLeast(k, s);
    k
  }

  /** The keys of a `std::map` in iteration order. */
  function SortedKeys(s: set<Str>): (ks: seq<Str>)
    ensures Ascending(ks)
    ensures forall k :: k in ks <==> k in s
    ensures |ks| == |s|
  {
    if s == {} then []
    else
      var k := Least(s);
      [k] + SortedKeys(s - {k})
  }

  /** An ascending enumeration of a set is unique. */
  lemma {:induction false} AscendingUnique(xs: seq<Str>, ys: seq<Str>)
    requires Ascending(xs) && Ascending(ys)
    requires forall k :: k in xs <==> k in ys
    ensures xs == ys
  {
    assert ys == [] || ys[0] in xs;
    assert xs == [] || xs[0] in ys;
    if xs != [] {
      if xs[0] != ys[0] {
        LessTotal(xs[0], ys[0]);
      }
      forall k ensures k in xs[1..] <==> k in ys[1..] {
        LessTotal(xs[0], xs[0]);
        if k in xs[1..] { assert k in ys; assert Less(xs[0], k); }
        if k in ys[1..] { assert k in xs; assert Less(ys[0], k); }
      }
      AscendingUnique(xs[1..], ys[1..]);
    }
  }
}
