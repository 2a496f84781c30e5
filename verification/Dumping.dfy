/** `dump`: the JSON text of a value. */
module Dumping {
  import opened Bytes
  import opened Decimal
  import opened Unicode
  import opened Values
  import opened Quoting
  import opened Tokens

  const TWO_TO_THE_32: int := 0x1_0000_0000

  type uint32 = x: int | 0 <= x < TWO_TO_THE_32

  const SPACE: byte := 0x20
  const NEWLINE: byte := 0x0a

  /** `string_t(n, ' ')`. */
  function Spaces(n: nat): (s: Str)
    ensures forall i | 0 <= i < |s| :: s[i] == SPACE
    ensures |s| == n
  {
    seq(n, _ => SPACE)
  }

  function Break(pretty: bool): Str { if pretty then [NEWLINE] else [] }

  function Comma(pretty: bool): Str { [0x2c] + Break(pretty) }

  function Colon(pretty: bool): Str { if pretty then [0x3a, SPACE] else [0x3a] }

  function IntegerText(i: int): Str { if i < 0 then [MINUS] + Dec(-i) else Dec(i) }

  /** How to print: `format` is what the stream prints for a floating-point number other than zero. */
  datatype Style = Style(format: uint64 -> Str, pretty: bool, step: uint32)

  /** Unsigned arithmetic on indentation wraps. */
  function Deeper(st: Style, indent: uint32): uint32 {
    if st.pretty then (indent + st.step) % TWO_TO_THE_32 else indent
  }

  function FloatText(st: Style, bits: uint64): Str {
    if !IsZero(bits) then st.format(bits)
    else if bits >= SIGN_BIT then [MINUS, ZERO, DOT, ZERO] else [ZERO, DOT, ZERO]
  }

  function Quote(s: Str): Str { [QUOTE] + Escaped(s) + [QUOTE] }

  /** What closes a container whose contents were indented. */
  function Closing(st: Style, indent: uint32, bracket: byte): Str { Break(st.pretty) + Spaces(indent) + [bracket] }

  function Dumped(j: Value, st: Style, indent: uint32): (t: Str)
    decreases j, 1, 0
  {
    match j
    case Null => NULL
    case Bool(b) => if b then TRUE else FALSE
    case Int(i) => IntegerText(i)
    case UInt(u) => IntegerText(u)
    case Float(bits) => FloatText(st, bits)
    case Text(s) => Quote(s)
    case Arr(a) =>
      if a == [] then [0x5b, 0x5d]
      else [0x5b] + Break(st.pretty) + DumpedItems(j, 0, st, Deeper(st, indent)) + Closing(st, indent, 0x5d)
    case Obj(o) =>
      if o == map[] then [0x7b, 0x7d]
      else
        [0x7b] + Break(st.pretty) + DumpedMembers(j, SortedKeys(o.Keys), true, st, Deeper(st, indent))
        + Closing(st, indent, 0x7d)
  }

  function DumpedItems(j: Value, i: nat, st: Style, indent: uint32): Str
    requires j.Arr?
    decreases j, 0, |j.a| - i
  {
    if i >= |j.a| then []
    else
      (if i > 0 then Comma(st.pretty) else []) + Spaces(indent) + Dumped(j.a[i], st, indent)
      + DumpedItems(j, i + 1, st, indent)
  }

  function DumpedMembers(j: Value, ks: seq<Str>, first: bool, st: Style, indent: uint32): Str
    requires j.Obj? && forall k | k in ks :: k in j.o
    decreases j, 0, |ks|
  {
    if ks == [] then []
    else
      (if first then [] else Comma(st.pretty)) + Spaces(indent) + Quote(ks[0]) + Colon(st.pretty)
      + Dumped(j.o[ks[0]], st, indent) + DumpedMembers(j, ks[1..], false, st, indent)
  }

  // ---------- the printer ----------

  lemma Regroup(o: Str, a: Str, b: Str, c: Str, d: Str)
    ensures o + (a + b + c + d) == o + a + b + c + d
    ensures a == [] ==> o + a == o
  {
  }

  lemma RegroupMember(o: Str, a: Str, b: Str, c: Str, d: Str, e: Str, f: Str)
    ensures o + (a + b + c + d + e + f) == o + a + b + c + d + e + f
    ensures a == [] ==> o + a == o
  {
  }

  lemma ItemStep(j: Value, i: nat, st: Style, indent: uint32, o: Str)
    requires j.Arr? && i < |j.a|
    ensures o + DumpedItems(j, i, st, indent) ==
      (if i == 0 then o else o + Comma(st.pretty)) + Spaces(indent) + Dumped(j.a[i], st, indent)
      + DumpedItems(j, i + 1, st, indent)
  {
    hide Dumped, Spaces, Comma;
    Regroup(o, if i > 0 then Comma(st.pretty) else [], Spaces(indent), Dumped(j.a[i], st, indent),
            DumpedItems(j, i + 1, st, indent));
  }

  lemma ItemsEnd(j: Value, st: Style, indent: uint32, o: Str)
    requires j.Arr?
    ensures o + DumpedItems(j, |j.a|, st, indent) == o
  {
  }

  lemma MemberStep(j: Value, ks: seq<Str>, first: bool, st: Style, indent: uint32, o: Str)
    requires j.Obj? && ks != [] && forall k | k in ks :: k in j.o
    ensures o + DumpedMembers(j, ks, first, st, indent) ==
      (if first then o else o + Comma(st.pretty)) + Spaces(indent) + Quote(ks[0]) + Colon(st.pretty)
      + Dumped(j.o[ks[0]], st, indent) + DumpedMembers(j, ks[1..], false, st, indent)
  {
    hide Dumped, Spaces, Comma, Colon, Quote;
    RegroupMember(o, if first then [] else Comma(st.pretty), Spaces(indent), Quote(ks[0]), Colon(st.pretty),
                  Dumped(j.o[ks[0]], st, indent), DumpedMembers(j, ks[1..], false, st, indent));
  }

  lemma MembersEnd(j: Value, first: bool, st: Style, indent: uint32, o: Str)
    requires j.Obj?
    ensures o + DumpedMembers(j, [], first, st, indent) == o
  {
  }

  /** `dump` onto the stream `o`. */
  method Dump(j: Value, o: Str, st: Style, currentIndent: uint32) returns (out: Str)
    ensures out == o + Dumped(j, st, currentIndent)
    decreases j, 2
  {
    hide DumpedItems, DumpedMembers, Escaped, Dec, Spaces;
    out := o;
    match j
    case Obj(members) =>
      if |members| == 0 {
        out := out + [0x7b, 0x7d];
        return;
      }
      out := DumpObject(j, out, st, currentIndent);
    case Arr(items) =>
      if |items| == 0 {
        out := out + [0x5b, 0x5d];
        return;
      }
      out := DumpArray(j, out, st, currentIndent);
    case Text(s) =>
      var escaped := EscapeString(s);
      out := out + ([QUOTE] + escaped + [QUOTE]);
    case Bool(b) =>
      out := out + if b then TRUE else FALSE;
    case Int(i) =>
      out := out + IntegerText(i);
    case UInt(u) =>
      out := out + IntegerText(u);
    case Float(bits) =>
      if IsZero(bits) {
        out := out + if bits >= SIGN_BIT then [MINUS, ZERO, DOT, ZERO] else [ZERO, DOT, ZERO];
      } else {
        out := out + st.format(bits);
      }
    case Null =>
      out := out + NULL;
  }

  /** Line break and indentation in front of a closing bracket: the deeper indentation taken back. */
  method Close(o: Str, st: Style, currentIndent: uint32, newIndent: uint32, bracket: byte) returns (out: Str)
    requires newIndent == Deeper(st, currentIndent)
    ensures out == o + Closing(st, currentIndent, bracket)
  {
    hide Spaces;
    var indent := newIndent;
    out := o;
    if st.pretty {
      indent := (indent - st.step) % TWO_TO_THE_32;
      out := out + [NEWLINE];
    }
    assert indent == currentIndent;
    Regroup(o, Break(st.pretty), Spaces(currentIndent), [bracket], []);
    out := out + Spaces(indent) + [bracket];
  }

  method DumpArray(j: Value, o: Str, st: Style, currentIndent: uint32) returns (out: Str)
    requires j.Arr? && j.a != []
    ensures out == o + Dumped(j, st, currentIndent)
    decreases j, 1
  {
    hide DumpedItems, Spaces, Closing, Deeper;
    var newIndent := Deeper(st, currentIndent);
    out := o + [0x5b];
    if st.pretty {
      out := out + [NEWLINE];
    }
    ghost var list := DumpedItems(j, 0, st, newIndent);
    Regroup(o, [0x5b], Break(st.pretty), list, Closing(st, currentIndent, 0x5d));
    out := WriteItems(j, out, st, newIndent);
    out := Close(out, st, currentIndent, newIndent, 0x5d);
  }

  method WriteItems(j: Value, o: Str, st: Style, newIndent: uint32) returns (out: Str)
    requires j.Arr?
    ensures out == o + DumpedItems(j, 0, st, newIndent)
    decreases j, 0
  {
    hide Spaces, Dumped, DumpedItems;
    out := o;
    for i := 0 to |j.a|
      invariant out + DumpedItems(j, i, st, newIndent) == o + DumpedItems(j, 0, st, newIndent)
    {
      ItemStep(j, i, st, newIndent, out);
      if i != 0 {
        out := out + if st.pretty then [0x2c, NEWLINE] else [0x2c];
      }
      out := out + Spaces(newIndent);
      out := Dump(j.a[i], out, st, newIndent);
    }
    ItemsEnd(j, st, newIndent, out);
  }

  method DumpObject(j: Value, o: Str, st: Style, currentIndent: uint32) returns (out: Str)
    requires j.Obj? && j.o != map[]
    ensures out == o + Dumped(j, st, currentIndent)
    decreases j, 1
  {
    hide DumpedMembers, Spaces, Closing, Deeper;
    var newIndent := Deeper(st, currentIndent);
    out := o + [0x7b];
    if st.pretty {
      out := out + [NEWLINE];
    }
    ghost var list := DumpedMembers(j, SortedKeys(j.o.Keys), true, st, newIndent);
    Regroup(o, [0x7b], Break(st.pretty), list, Closing(st, currentIndent, 0x7d));
    out := WriteMembers(j, SortedKeys(j.o.Keys), out, st, newIndent);
    out := Close(out, st, currentIndent, newIndent, 0x7d);
  }

  method WriteMembers(j: Value, ks: seq<Str>, o: Str, st: Style, newIndent: uint32) returns (out: Str)
    requires j.Obj? && forall k | k in ks :: k in j.o
    ensures out == o + DumpedMembers(j, ks, true, st, newIndent)
    decreases j, 0
  {
    hide Spaces, Dumped, Escaped, DumpedMembers;
    out := o;
    assert ks[0..] == ks;
    for i := 0 to |ks|
      invariant out + DumpedMembers(j, ks[i..], i == 0, st, newIndent) == o + DumpedMembers(j, ks, true, st, newIndent)
    {
      assert ks[i..][1..] == ks[i + 1..];
      MemberStep(j, ks[i..], i == 0, st, newIndent, out);
      if i != 0 {
        out := out + if st.pretty then [0x2c, NEWLINE] else [0x2c];
      }
      var escaped := EscapeString(ks[i]);
      out := out + Spaces(newIndent) + ([QUOTE] + escaped + [QUOTE]) + if st.pretty then [0x3a, SPACE] else [0x3a];
      out := Dump(j.o[ks[i]], out, st, newIndent);
    }
    assert ks[|ks|..] == [];
    MembersEnd(j, |ks| == 0, st, newIndent, out);
  }

  /** The public `dump`: compact for a negative indentation, pretty otherwise. */
  function StyleOf(format: uint64 -> Str, indent: int): Style
    requires indent <= INT_MAX
  {
    Style(format, indent >= 0, if indent >= 0 then indent else 0)
  }

  method DumpText(j: Value, format: uint64 -> Str, indent: int) returns (text: Str)
    requires INT_MIN <= indent <= INT_MAX
    ensures text == Dumped(j, StyleOf(format, indent), 0)
  {
    hide Dumped;
    text := Dump(j, [], StyleOf(format, indent), 0);
    assert [] + Dumped(j, StyleOf(format, indent), 0) == Dumped(j, StyleOf(format, indent), 0);
  }
}
