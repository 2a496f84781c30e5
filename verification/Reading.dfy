/** What the two binary decoders share: results with the index behind them, and strings of a given length. */
module Reading {
  import opened Bytes
  import opened Results
  import opened Values

  /** No vector is longer than `std::vector<uint8_t>::max_size()`. */
  const MAX_SIZE: int := 0x7fff_ffff_ffff_ffff

  /** A value and the index behind it. */
  type Decoded = Result<(Value, nat)>

  /** `r`, with the index left at `next`, is what `d` says. */
  predicate Yields(r: Result<Value>, next: nat, d: Decoded) {
    match d
    case Ok((j, end)) => r == Ok(j) && next == end
    case Err(e) => r == Err(e)
  }

  /** The string of `len` bytes at `from`. */
  function TextAt(v: Str, from: nat, len: nat): (r: Decoded)
    ensures r.Ok? ==> r.value.1 == from + len && r.value.1 <= |v|
  {
    if from + len > |v| then Err(OutOfRange) else Ok((Text(v[from..from + len]), from + len))
  }

  /** `check_length` in the arithmetic of `size_t`: exactly the spans inside the vector pass. */
  function CheckLength(size: nat, len: nat, offset: nat): (ok: bool)
    requires size <= UINT64_MAX && len <= UINT64_MAX && offset <= UINT64_MAX
    ensures size <= MAX_SIZE ==> (ok <==> offset + len <= size)
  {
    if len > size || offset > size then false
    else if size > UINT64_MAX - offset then false
    else (len + offset) % TWO_TO_THE_64 <= size
  }

  /** A string of `len` bytes whose bytes start at `offset`; the index skips `len` and `skipped` more. */
  method ReadText(v: Str, idx: nat, len: nat, offset: nat, skipped: nat) returns (r: Result<Value>, next: nat)
    requires |v| <= MAX_SIZE && idx + skipped == offset <= |v| && len <= UINT64_MAX
    ensures Yields(r, next, TextAt(v, offset, len))
  {
    next := (idx + len + skipped) % TWO_TO_THE_64;
    if CheckLength(|v|, len, offset) {
      r := Ok(Text(v[offset..offset + len]));
    } else {
      r := Err(OutOfRange);
    }
  }
}
