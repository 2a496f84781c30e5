/** Which class of exception a failing operation throws. */
module ErrorLaw {
  import opened Bytes
  import opened Results
  import opened Decimal
  import opened Values
  import opened Pointers
  import opened BigEndian
  import opened Reading
  import opened Access
  import opened Patches
  import opened PatchLaw
  import opened Cbor
  import opened MsgPack

  // ---------- JSON Pointer ----------

  /** The class for one token at an array of `n` elements. */
  lemma IndexErrors(t: Str, n: nat)
    ensures t == [0x2d] ==> CheckedIndex(t, n) == Err(OutOfRange)
    ensures |t| > 1 && t[0] == 0x30 ==> CheckedIndex(t, n) == Err(DomainError) == UncheckedIndex(t, n)
    ensures t != [0x2d] && !(|t| > 1 && t[0] == 0x30) ==>
      (CheckedIndex(t, n).Err? ==>
         CheckedIndex(t, n).error == if Stoi(t) == Err(InvalidArgument) then InvalidArgument else OutOfRange)
  {
    StoiClasses(t);
    hide Stoi;
  }

  lemma StoiClasses(t: Str)
    ensures Stoi(t).Err? ==> Stoi(t).error == InvalidArgument || Stoi(t).error == OutOfRange
  {
  }

  /** The class is that of the first token that leads nowhere. */
  lemma GetError(j: Value, at: seq<Str>, t: Str, rest: seq<Str>)
    requires Get(j, at).Ok? && Get(Get(j, at).value, [t]).Err?
    ensures var p, e := Get(j, at).value, Get(j, at + [t] + rest);
            if p.Arr? then CheckedIndex(t, |p.a|).Err? && e == Err(CheckedIndex(t, |p.a|).error)
            else e == Err(OutOfRange)
  {
    hide CheckedIndex;
    var p := Get(j, at).value;
    assert at + [t] + rest == at + ([t] + rest);
    GetAppend(j, at, [t] + rest);
    assert ([t] + rest)[1..] == rest && [t][1..] == [];
  }

  /** A text that is not that of any pointer is a domain error. */
  lemma SplitFails(s: Str)
    ensures Split(s).Ok? <==> exists ts :: ToString(ts) == s
    ensures Split(s).Err? ==> Split(s).error == DomainError
  {
    hide ToString;
    if Split(s).Ok? { ToStringOfSplit(s); }
    if ts :| ToString(ts) == s { SplitOfToString(ts); }
    if s != [] && s[0] == SLASH { TokensFail(s, 1); }
  }

  lemma {:induction false} TokensFail(s: Str, start: nat)
    requires start <= |s|
    ensures TokensFrom(s, start).Err? ==> TokensFrom(s, start).error == DomainError
    decreases |s| - start
  {
    hide ProperlyEscaped, Unescaped;
    var slash := NextSlash(s, start);
    if slash < |s| { TokensFail(s, slash + 1); }
  }

  // ---------- JSON Patch ----------

  /** A member that is required as a string. */
  predicate HasText(o: map<Str, Value>, name: Str) { name in o && o[name].Text? }

  /** A document that is no operation is an invalid argument; a path that is no pointer is a domain error. */
  lemma MalformedStep(j: Value, val: Value)
    ensures !val.Obj? || !HasText(val.o, OP) || !HasText(val.o, PATH) ==> PatchStep(j, val) == Err(InvalidArgument)
    ensures val.Obj? && HasText(val.o, OP) && HasText(val.o, PATH) && Split(val.o[PATH].s).Err? ==>
      PatchStep(j, val) == Err(Split(val.o[PATH].s).error)
  {
    hide Split, AddAt, RemoveAt, EditChecked, EditUnchecked, Get, Eq;
  }

  /** So is an unknown operation, and an operation that lacks its value or its source. */
  lemma IncompleteStep(j: Value, val: Value, op: Str, ptr: seq<Str>)
    requires Operation(val, op, ptr)
    ensures op !in {ADD, REMOVE, REPLACE, MOVE, COPY, TEST} ==> PatchStep(j, val) == Err(InvalidArgument)
    ensures op in {ADD, REPLACE} && VALUE !in val.o ==> PatchStep(j, val) == Err(InvalidArgument)
    ensures op in {MOVE, COPY} && !HasText(val.o, FROM) ==> PatchStep(j, val) == Err(InvalidArgument)
  {
    hide Split, AddAt, RemoveAt, EditChecked, EditUnchecked, Get, Eq;
    OperationNames();
  }

  /** A test that fails is a domain error, also where the place does not exist. */
  lemma FailedTest(j: Value, val: Value, ptr: seq<Str>)
    requires Operation(val, TEST, ptr) && VALUE in val.o && PatchStep(j, val).Err?
    ensures PatchStep(j, val).error ==
      if Get(j, ptr).Err? && Get(j, ptr).error != OutOfRange then Get(j, ptr).error else DomainError
  {
    hide Split, Get, Eq;
    OperationNames();
  }

  /** The document must be an array; removing the root is a domain error. */
  lemma MalformedPatch(j: Value, doc: Value)
    ensures !doc.Arr? ==> Patched(j, doc) == Err(InvalidArgument)
    ensures RemoveAt(j, []) == Err(DomainError)
  {
  }

  // ---------- binary formats ----------

  predicate BeginsNoItem(b: byte) {
    || 0x1c <= b <= 0x1f || 0x3c <= b <= 0x5f || 0x7c <= b <= 0x7e || 0x9c <= b <= 0x9e || 0xbc <= b <= 0xbe
    || 0xc0 <= b <= 0xf3 || b in {0xf7, 0xf8} || b >= 0xfc
  }

  /** Bytes that begin no data item are an invalid argument; the end of the input is out of range. */
  lemma CborErrors(v: Str, at: nat)
    ensures at >= |v| ==> Decode(v, at) == Err(OutOfRange)
    ensures at < |v| && BeginsNoItem(v[at]) ==>
      Decode(v, at) == Err(InvalidArgument)
  {
    hide DecodeItems, DecodeMembers, DecodeChunks, DecodeOpenItems, DecodeOpenMembers, NumberAt;
  }

  lemma MsgPackErrors(v: Str, at: nat)
    ensures at >= |v| ==> Unpack(v, at) == Err(OutOfRange)
    ensures at < |v| && (v[at] == 0xc1 || 0xc4 <= v[at] <= 0xc9 || 0xd4 <= v[at] <= 0xd8) ==>
      Unpack(v, at) == Err(InvalidArgument)
  {
    hide UnpackItems, UnpackMembers, NumberAt;
  }

  /** A number or a text cut off is out of range; a name that is no string is a domain error. */
  lemma CutOff(v: Str, at: nat, width: nat, n: nat, acc: map<Str, Value>)
    ensures at + 1 + width > |v| ==> NumberAt(v, at, width) == Err(OutOfRange)
    ensures at + n > |v| ==> TextAt(v, at, n) == Err(OutOfRange)
    ensures at <= |v| && n > 0 && Decode(v, at).Ok? && !Decode(v, at).value.0.Text? ==>
      DecodeMembers(v, at, n, acc) == Err(DomainError)
    ensures at <= |v| && n > 0 && Unpack(v, at).Ok? && !Unpack(v, at).value.0.Text? ==>
      UnpackMembers(v, at, n, acc) == Err(DomainError)
  {
    hide Decode, Unpack;
  }
}
