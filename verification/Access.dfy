/** Walking a value along a JSON Pointer: `get_checked`, `get_unchecked`, and edits at the end of the walk. */
module Access {
  import opened Bytes
  import opened Results
  import opened Decimal
  import opened Values
  import opened Pointers

  /** `get_checked` on an array of `n` elements. */
  function CheckedIndex(t: Str, n: nat): (r: Result<nat>)
    ensures r.Ok? ==> r.value < n
  {
    if t == DASH then Err(OutOfRange)
    else if |t| > 1 && t[0] == ZERO then Err(DomainError)
    else
      var i :- Stoi(t);
      if 0 <= i < n then Ok(i) else Err(OutOfRange)
  }

  /**
   * `get_unchecked` on an array of `n` elements; the index may lie past the end. A negative one wraps to a `size_t`
   * no vector can grow to, except "-1" on an empty array: the number of elements to insert wraps to zero as well, and
   * the access that follows is outside the array.
   */
  function UncheckedIndex(t: Str, n: nat): Result<nat> {
    if |t| > 1 && t[0] == ZERO then Err(DomainError)
    else if t == DASH then Ok(n)
    else
      var i :- Stoi(t);
      if 0 <= i then Ok(i) else if i == -1 && n == 0 then Err(OutOfBounds) else Err(LengthError)
  }

  /** `a` filled up with null to at least `n` elements, as `operator[](size_type)` does. */
  function Padded(a: seq<Value>, n: nat): (p: seq<Value>)
    ensures |p| == if |a| < n then n else |a|
    ensures forall i | 0 <= i < |p| :: p[i] == if i < |a| then a[i] else Null
  {
    if |a| < n then a + seq(n - |a|, i => Null) else a
  }

  /** What `at(ptr)` refers to. */
  function Get(j: Value, ts: seq<Str>): Result<Value>
    decreases |ts|
  {
    if ts == [] then Ok(j)
    else match j
      case Obj(o) => if ts[0] in o then Get(o[ts[0]], ts[1..]) else Err(OutOfRange)
      case Arr(a) => var i :- CheckedIndex(ts[0], |a|); Get(a[i], ts[1..])
      case _ => Err(OutOfRange)
  }

  /** What is done to the value a walk ends at. */
  datatype Edit =
    | Assign(v: Value)
    | AddChild(last: Str, v: Value)
    | RemoveChild(last: Str)

  function ApplyEdit(j: Value, e: Edit): Result<Value> {
    match e
    case Assign(v) => Ok(v)
    case AddChild(last, v) =>
      (match j
       case Null => Ok(Obj(map[last := v]))
       case Obj(o) => Ok(Obj(o[last := v]))
       case Arr(a) =>
         if last == DASH then Ok(Arr(a + [v]))
         else
           var i :- Stoi(last);
           if 0 <= i <= |a| then Ok(Arr(a[..i] + [v] + a[i..])) else Err(OutOfRange)
       case _ => Err(AssertionFailure))
    case RemoveChild(last) =>
      (match j
       case Obj(o) => if last in o then Ok(Obj(o - {last})) else Err(OutOfRange)
       case Arr(a) =>
         var i :- Stoi(last);
         if 0 <= i < |a| then Ok(Arr(a[..i] + a[i + 1..])) else Err(OutOfRange)
       case _ => Ok(j))
  }

  function PutKey(o: map<Str, Value>, k: Str, r: Result<Value>): Result<Value> {
    match r
    case Ok(v) => Ok(Obj(o[k := v]))
    case Err(e) => Err(e)
  }

  function PutIndex(a: seq<Value>, i: nat, r: Result<Value>): Result<Value>
    requires i < |a|
  {
    match r
    case Ok(v) => Ok(Arr(a[i := v]))
    case Err(e) => Err(e)
  }

  /** Edits what `at(ptr)` refers to. */
  function EditChecked(j: Value, ts: seq<Str>, e: Edit): Result<Value>
    decreases |ts|
  {
    if ts == [] then ApplyEdit(j, e)
    else match j
      case Obj(o) => if ts[0] in o then PutKey(o, ts[0], EditChecked(o[ts[0]], ts[1..], e)) else Err(OutOfRange)
      case Arr(a) => var i :- CheckedIndex(ts[0], |a|); PutIndex(a, i, EditChecked(a[i], ts[1..], e))
      case _ => Err(OutOfRange)
  }

  /** What null turns into before it is walked through: an array for digits (none included) or "-". */
  function Opened(j: Value, t: Str): Value {
    if j != Null then j
    else if (forall i | 0 <= i < |t| :: IsDigit(t[i])) || t == DASH then Arr([])
    else Obj(map[])
  }

  /** Edits what `operator[](ptr)` refers to, creating what is missing on the way. */
  function EditUnchecked(j: Value, ts: seq<Str>, e: Edit): Result<Value>
    decreases |ts|
  {
    if ts == [] then ApplyEdit(j, e)
    else match Opened(j, ts[0])
      case Obj(o) =>
        PutKey(o, ts[0], EditUnchecked(if ts[0] in o then o[ts[0]] else Null, ts[1..], e))
      case Arr(a) =>
        var i :- UncheckedIndex(ts[0], |a|);
        var p := Padded(a, i + 1);
        PutIndex(p, i, EditUnchecked(p[i], ts[1..], e))
      case _ => Err(OutOfRange)
  }

  /** An index written by `to_string` leads to the element, unless it does not fit an `int`. */
  lemma IndexOfDec(i: nat, n: nat)
    ensures CheckedIndex(Dec(i), n) == if i > INT_MAX || i >= n then Err(OutOfRange) else Ok(i)
    ensures UncheckedIndex(Dec(i), n) == if i > INT_MAX then Err(OutOfRange) else Ok(i)
    ensures Dec(i) != DASH
  {
    StoiOfDec(i);
    DecLeadingDigit(i);
    assert IsDigit(Dec(i)[0]);
  }

  /** No array, at any depth, has an index beyond the range of `int`. */
  predicate Indexable(v: Value)
    decreases v
  {
    match v
    case Arr(a) => |a| <= INT_MAX + 1 && forall i | 0 <= i < |a| :: Indexable(a[i])
    case Obj(o) => forall k | k in o :: Indexable(o[k])
    case _ => true
  }
}
