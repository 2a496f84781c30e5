# Verified model of the JSON library, the base64 codec and the URL parser

The service reads every informer record and writes its answers through the JSON library in `include/json.h`, and
carries data in URL-safe base64 (`src/base64.cpp`) and in query strings (`src/UrlParser.cpp`). This Dafny project
models those three parts and proves what they promise; `dafny verify dfyconfig.toml` checks it all.

## What is modelled

Values. `Values.Value` is the tagged value of `basic_json`: null, booleans, `int64_t` and `uint64_t` numbers, doubles
as their 64 bits, byte strings, arrays, and objects as maps enumerated in byte-lexicographic key order
(`Bytes.SortedKeys`). `Values.Eq` is the library's own `operator==`: a cast makes an unsigned and a signed number equal
when they agree modulo 2^64, integers equal doubles after rounding, no NaN equals anything. Exceptions are error values
of their class (`Results`); so are a violated `assert` and an index that `operator[]` does not check
(`AssertionFailure`, `OutOfBounds`).

The parts, with the result each leads to:

* Equality (`Values`, `EqualityLaw`, `EqualityMeaning`): values are equal exactly when they hold no NaN and denote the
  same, integers modulo 2^64, doubles as the numbers they stand for, an integer beside a double as the nearest double.
  Equality is symmetric, reflexive exactly without NaN, and transitive exactly where no double stands between integers
  that are different numbers.
* JSON Patch (`Patches`, `PatchLaw`, `PatchStandard`, `PatchExamples`, `ErrorLaw`, `DiffLaw`, `DiffMeaning`,
  `DiffShape`): `patch` interprets operations on a working copy, `diff` generates them by insertion and appending.
  `PatchLaw` says what each operation does to the value as pointers see it: exactly when it succeeds, what resolves at
  its path afterwards, that whatever parts from the path keeps its value. `PatchStandard` defines RFC 6901 and RFC
  6902 by themselves, without `stoi`, and compares: for each operation and every document, exactly when the code
  succeeds where the standard wants an error, exactly when it fails where the standard wants success, and that the
  results agree otherwise; for `copy`, exactly when they agree. Patching a value with its difference to another
  succeeds exactly when no array index in the way exceeds `INT_MAX`, and then yields the target exactly when the
  target holds no NaN; without doubles the result denotes the same as the target. `diff` is empty exactly for equal
  values, and leaves alone what is equal on both sides.
* JSON Pointer, `flatten`, `unflatten` (`Pointers`, `Access`, `Flattening`, `FlattenLaw`, `UnflattenLaw`, `PlaceLaw`):
  text and token list of a pointer determine each other; the two in-place passes of `unescape` agree with a one-pass
  reading; `flatten` records exactly the leaves; `unflatten(flatten(v))` equals `v` exactly when `v` is `Rebuildable`
  and holds no NaN.
* Binary codecs (`BigEndian`, `Halves`, `HalfLaw`, `DataItems`, `Reading`; `Cbor`, `CborLaw`, `CborStandard`,
  `CborMeaning`, `CborWriting`; `MsgPack`, `MsgPackLaw`, `MsgPackStandard`, `MsgPackMeaning`, `MsgPackWriting`):
  encoders appending to a vector, decoders advancing an index over arbitrary bytes. Both formats are defined by
  themselves, as a relation of bytes and values, with every form the standards admit. A decoder yields a value at an
  index and stops behind it exactly if bytes that stand for the value are there; an encoder writes such bytes, with
  numbers and lengths in their shortest form; and both round trips hold between any prefix and suffix.
* JSON text (`Unicode`, `JsonStrings`, `Quoting`, `QuotingLaw`, `Tokens`, `TokenLaw`, `Scanner`, `Numbers`, `Grammar`,
  `GrammarLaw`, `Parsing`, `Dumping`, `TextLaw`, `DumpLaw`, `ReparseLaw`, `JsonTextLaw`, `MeaningLaw`, `HexTable`,
  `EscapeTable`, `NumberText`, `LayoutLaw`): the automaton of the scanner with its backtracking, the string and number
  conversions, the recursive descent, and the printer. The scanner finds the longest token of RFC 7159; `parse`
  accepts exactly the byte strings that are a JSON text without lone surrogates up to their first NUL, and yields what
  the text means; `parse` undoes `dump` for every float-free value in every layout exactly when its strings are UTF-8
  (RFC 3629). Every escape is tied to a literal table, and the printed text to its tokens with what stands between
  them, for every indentation.
* The service's own codecs (`Base64`, `Base64Table`, `Url`, `UrlLaw`, `QueryLaw`): base64 and percent-decoding against
  the tables of their standards, and the parameters of every query, well formed or not.

Every imperative routine is a method (or a class method) proved against a specification function, and the laws are
lemmas about those functions; `Patches.ApplyOperation`, for one, carries out `PatchStep`, which `PatchLaw` and
`PatchStandard` explain. A codec's round trip is stated exactly: what comes back is `Norm(v)`, the value with its
non-negative signed integers unsigned and its infinities and NaNs null, and `Norm(v)` equals `v` under `operator==`
exactly when all numbers in `v` are finite.

Parameters stand for what lies outside: `strtod` (the C library, on the text of a number token) and `format` (what the
output stream prints for a non-zero double).

## Where the code differs from its documentation

* `diff`/`patch`: the documented law has two exceptions, `DiffLaw.LawHasExceptions`; `DiffLaw.PatchOfDiff` has the
  exact condition. The second one needs a NaN in a value. Constructors, the parser and the decoders turn a NaN into
  null, so it can only come from a write through `get_ref<double&>` or `get_ptr<double*>` (include/json.h:3370, 3447).
* `patch` and JSON pointers: RFC 6901 admits as array index a zero, or digits of which the first is none. `at` also
  takes whatever else `stoi` reads as an index, such as "1x", "+1", " 1" and "-0", and fails on indices beyond
  `INT_MAX` (`PatchStandard.GetIsResolve`; inputs in `PatchExamples.LooseExamples`, `FarIndex`). `replace` and `test`
  depart from RFC 6902 in nothing else (`ReplaceIsStandard`, `TestIsStandard`).
* `patch`, `remove`: besides, its last token may have leading zeros, which `at` rejects, and below a primitive parent
  it succeeds and does nothing. `PatchStandard.RemoveIsStandard` has the exact condition,
  `PatchExamples.LooseExamples` and `BelowPrimitive` the inputs.
* `patch`, `add`: besides, its last token may have leading zeros; it creates missing parents behind an existing top
  element and turns a null parent into an object (`PatchStandard.AddIsStandard` has the exact condition,
  `PatchExamples.LooseExamples` and `ParentCreated` the inputs). Below a primitive parent it runs into
  `assert(false)`, the error `AssertionFailure` of the model (`PatchLaw.AddAtIs`, input
  `PatchExamples.BelowPrimitive`).
* `patch`, `copy`: RFC 6902 makes it the `add` of the copied value; the code assigns through `operator[]`. It
  overwrites an array element instead of inserting in front of it, pads arrays beyond their end, and creates a missing
  top element. `PatchStandard.CopyIsAdd` says exactly when it comes to the same as `add`, `CopyIsStandard` when to the
  same as the standard; inputs in `PatchExamples.CopyOverwrites` and `CopyCreates`.
* `patch`, `move`: RFC 6902 forbids to move a value into its own child. The code does it, if what stands in the place
  of the removed value takes the rest of the pointer and the top element still exists (`PatchStandard.MoveIntoChild`;
  an input in `PatchExamples.MoveIntoItself`). Apart from that it departs as `add` and the pointer at "from" do
  (`MoveIsStandard`).
* `unflatten`: the documentation excepts empty containers only. A key `"0"` also turns an object into an array, unless
  another key sorts in front of it in the flattened text; `UnflattenLaw.UnflattenOfFlatten` has the exact condition,
  `ZeroKeyExamples` the inputs.
* `operator==` calls -1 and 2^64-1 equal (`Values.WrappedIntegersAreEqual`) and is not transitive:
  `EqualityLaw.EqTransitive` has the exact condition, `ClashExamples` the inputs.
* CBOR and MessagePack: an infinity or a NaN is written as such and read back as null: `CborLaw.RoundTrip` and
  `MsgPackLaw.RoundTrip` have the exact condition, `InfinityIsLost` the input.
* CBOR: a negative integer below -2^63 is read modulo 2^64 (`CborWriting.NegativeWraps`), and a chunk of a string may
  itself have an indefinite length (`NestedChunk`). `CborStandard.Represents` has both readings, the standard's and
  the library's; `CborMeaning.DecodeIsRepresents` has the exact condition. Of equal names in a map the last value
  counts.
* MessagePack: a string, array or object of more than 2^32-1 elements is written without any header and cannot be read
  back: `MsgPackLaw.RoundTrip`; an input in `TooLongIsLost`.
* `percent_decode` drops an escape cut off at the end of the text, `"%"` or `"%4"`, but copies `"%%"` and `"%%4"`:
  `UrlLaw.DecodedToItselfByPlace` has the exact condition, `CutOffExamples` the inputs. It also leaves an escape
  alone, as in `"%%41"`, whenever an odd number of percent signs stands before it in its chain, in which each follows
  the previous one at once or with one digit between (`UrlLaw.EscapeCopied`); all others are decoded
  (`EscapeDecoded`).
* `parse` ignores whatever follows the first NUL between two tokens: `JsonTextLaw.NulEndsText`; an input in
  `IgnoredBehindNul`. A lone surrogate escape, which the grammar of RFC 7159 admits, is an error
  (`JsonTextLaw.AcceptedTexts`; an input in `LoneSurrogate`).

## Model

| member | source | states |
|---|---|---|
| Values.EqReflexive | include/json.h:5891-5964 | a value equals itself exactly when it holds no NaN at any depth |
| Values.EqSymmetric | include/json.h:5891-5964 | equality is symmetric across all pairs of types, mixed numbers included |
| Values.EqNeedsNaNFree | include/json.h:5891-5964 | nothing equals a value that holds a NaN |
| Values.WrappedIntegersAreEqual | include/json.h:5954-5961 | an unsigned and a signed number are equal exactly when they agree modulo 2^64 |
| EqualityLaw.OneDouble | include/json.h:5938-5953 | an integer equals at most one double, the two zeros apart |
| EqualityLaw.EqTransitive | include/json.h:5891-5964 | of equal neighbours the outer two are equal if and only if at no place a double and two integers that are different numbers meet |
| EqualityLaw.ClashExamples | include/json.h:5938-5961 | inputs: 2^53 + 1 equals the double 2^53, which equals 2^53; the double -1 equals -1, which equals 2^64 - 1 |
| EqualityMeaning.FloatEqIsNumber | include/json.h:5935-5937 | doubles are equal exactly when neither is a NaN and they denote the same number |
| EqualityMeaning.RoundToDoubleIsNearest | include/json.h:5938-5953 | the cast of an integer yields the nearest double, and of two equally near the even one |
| EqualityMeaning.IntEqFloatIsNumber | include/json.h:5938-5953 | an integer equals a double exactly when the double denotes the number nearest to the integer |
| EqualityMeaning.EqIsDenotation | include/json.h:5891-5964 | values are equal if and only if they hold no NaN and denote the same, integers beside doubles being rounded |
| EqualityMeaning.EqWithoutDoubles | include/json.h:5891-5964 | without doubles, values are equal if and only if they denote the same, integers modulo 2^64 |
| Values.NormIsEq | include/json.h:5891-5964 | making non-negative signed integers unsigned and non-finite numbers null gives an equal value exactly when all numbers are finite |
| Bytes.SortedKeys | include/json.h:8313-8323 | a map is enumerated in strictly ascending byte order, every key once |
| Bytes.LessIs | include/json.h:8313-8323 | of two byte strings the first byte that differs decides the order, or the end of the shorter one |
| Decimal.StoiOfDec | include/json.h:11552-11571 | an index written in decimal is read back by `stoi` exactly when it fits an `int`, and is out of range otherwise |
| Decimal.StoiIs | include/json.h:11552-11571 | white space, a sign and digits, whatever follows, are read as their number as far as an `int` reaches |
| Decimal.FromDigitsCons | include/json.h:11552-11571 | each decimal digit counts by its place |
| Pointers.ReplaceSubstring | include/json.h:11796-11808 | the in-place search, splice and skip replaces every non-overlapping occurrence from the left |
| Pointers.Escape | include/json.h:11811-11817 | its two passes give the one-pass escaping of "~" and "/" |
| Pointers.EscapePasses | include/json.h:11811-11817 | replacing "~" and then "/" never touches what the first pass inserted |
| Pointers.Unescape | include/json.h:11820-11826 | on properly escaped tokens its two passes give the one-pass decoding |
| Pointers.UnescapePasses | include/json.h:11820-11826 | "~1" before "~0", each skipping what it inserted, equals decoding once from the left on every proper token |
| Pointers.UnescapeOfEscape | include/json.h:11811-11826 | escaping makes any string a proper token, and unescaping restores it |
| Pointers.EscapeOfUnescape | include/json.h:11811-11826 | escaping restores every proper token from its unescaped form |
| Pointers.CheckEscapes | include/json.h:11759-11774 | the loop over tildes accepts exactly the properly escaped tokens |
| Pointers.SplitReference | include/json.h:11723-11782 | the loop over slashes yields the unescaped tokens, or the error for a missing slash or a bad escape |
| Pointers.SplitOfToString | include/json.h:11375-11395 | a token list is read back from its text, empty tokens included |
| Pointers.ToStringOfSplit | include/json.h:11375-11395 | every text that is accepted is the text of the pointer it yields |
| Pointers.ToStringInjective | include/json.h:11387-11395 | different token lists have different texts |
| Pointers.EscapedIs | include/json.h:11811-11817 | a tilde is written "~0", a slash "~1", all else as it is |
| Access.IndexOfDec | include/json.h:11552-11618 | a decimal index leads to its element in both kinds of access, up to the range of `int` |
| PatchLaw.EditCheckedIs | include/json.h:11582-11632 | an edit through `at` fails exactly where reading or the edit fails, and is read back at the same pointer |
| PatchLaw.EditUncheckedIs | include/json.h:11515-11575 | an edit through `operator[]`, which creates what is missing, is read back at the same pointer unless the pointer appends |
| PatchLaw.UncheckedAgrees | include/json.h:11515-11632 | where a pointer resolves, both kinds of access edit the same place |
| PatchLaw.NullBecomes | include/json.h:11515-11540 | what `operator[]` makes of null: an array filled up with null, an array of one element, or an object |
| PatchLaw.Frame | include/json.h:11515-11575 | an edit through `operator[]` keeps every value whose pointer parts from the edited one |
| PatchLaw.FrameChecked | include/json.h:11582-11632 | so does an edit through `at` |
| PatchLaw.AddAtIs | include/json.h:12205-12266 | exactly when `add` succeeds, exactly when it reaches `assert(false)`, and what the parent of the new value becomes |
| PatchLaw.AddResolves | include/json.h:12205-12266 | after `add` the pointer resolves to the value, if and only if it does not append and its index has no leading zero |
| PatchLaw.AddShifts | include/json.h:12235-12256 | inserting into an array moves the later elements up by one, with all they hold |
| PatchLaw.AddFrame | include/json.h:12205-12266 | what parts from the parent keeps its value |
| PatchLaw.RemoveAtIs | include/json.h:12268-12295 | exactly when `remove` succeeds; the parent loses exactly that child, a primitive parent stays |
| PatchLaw.RemoveBeyondAt | include/json.h:12268-12295 | exactly when `remove` succeeds where `at` fails: a primitive parent, or an index with a leading zero |
| PatchLaw.RemoveFrame | include/json.h:12268-12295 | what parts from the parent keeps its value |
| PatchLaw.AddUndoesRemove | include/json.h:12205-12295 | removing an existing value and adding it again at the same place restores the whole document |
| PatchLaw.TestStep | include/json.h:12392-12413 | `test` succeeds if and only if the place exists and equals the value; it changes nothing |
| PatchLaw.ReplaceStep | include/json.h:12358-12363 | `replace` succeeds if and only if the place exists; it then holds the value, and all that parts from it is kept |
| PatchLaw.CopyStep | include/json.h:12382-12390 | `copy` makes "path" resolve to what "from" resolves to, unless it appends; all that parts from it is kept |
| PatchLaw.MoveStep | include/json.h:12365-12380 | `move` is the removal at "from", which must exist, and the addition at "path"; onto itself it changes nothing |
| PatchLaw.AddRemoveSteps | include/json.h:12346-12356 | `add` and `remove` of a patch document are these edits |
| Patches.Words | include/json.h:12181-12203 | operations and members by the letters of their names |
| PatchStandard.IndexIsDec | include/json.h:11552-11618 | the indices of RFC 6901 are the texts of numbers without leading zeros |
| PatchStandard.StoiOfIndex | include/json.h:11552-11618 | `stoi` reads every such index exactly up to `INT_MAX`, and is out of range beyond |
| PatchStandard.GetIsResolve | include/json.h:11582-11632 | `at` resolves a pointer as RFC 6901 does; exactly when it resolves more, and exactly when it resolves less |
| PatchStandard.ReplaceIsStandard | include/json.h:12358-12363 | `replace` is that of RFC 6902; exactly when it does more, and exactly when it fails |
| PatchStandard.TestIsStandard | include/json.h:12392-12413 | `test` is that of RFC 6902 under `operator==`; exactly when it passes or fails against it |
| PatchStandard.RemoveIsStandard | include/json.h:12268-12295 | `remove` is that of RFC 6902; exactly when it succeeds on what does not exist, and exactly when it fails on what does |
| PatchStandard.AddIsStandard | include/json.h:12205-12266 | `add` is that of RFC 6902; exactly when it succeeds where the standard wants an error, and exactly when it fails where the standard wants success |
| PatchStandard.CopyIsAdd | include/json.h:12382-12390 | exactly when `copy` has the outcome of `add` with the copied value |
| PatchStandard.CopyIsStandard | include/json.h:12382-12390 | `copy` against RFC 6902: exactly when the results differ, when it succeeds on an error, and when it fails |
| PatchStandard.MoveIntoChild | include/json.h:12365-12380 | exactly when a value is moved into its own child |
| PatchStandard.MoveIsStandard | include/json.h:12365-12380 | `move` is that of RFC 6902; exactly when it does more, and exactly when it fails |
| PatchExamples.BelowPrimitive | include/json.h:12259-12295 | inputs below a boolean: `remove` does nothing, `add` reaches the assertion |
| PatchExamples.ParentCreated | include/json.h:12225-12233 | an input whose null parent becomes an object |
| PatchExamples.LooseExamples | include/json.h:11582-11632 | inputs: "1x", "+1", " 1" and "01" are taken for index 1, "-0" for index 0 |
| PatchExamples.FarIndex | include/json.h:11582-11632 | an input: index 2^31 of a longer array is out of reach for `at`, `remove` and `add` |
| PatchExamples.CopyOverwrites | include/json.h:12382-12390 | an input: copying "/0" to "/1" overwrites the second element |
| PatchExamples.CopyCreates | include/json.h:12382-12390 | inputs: copying pads an array, and creates the top element |
| PatchExamples.MoveIntoItself | include/json.h:12365-12380 | inputs: a member below the top moves into itself, one at the top does not |
| ErrorLaw.IndexErrors | include/json.h:11582-11618 | the class of exception for a token at an array |
| ErrorLaw.GetError | include/json.h:11582-11632 | the class is that of the first token that leads nowhere |
| ErrorLaw.SplitFails | include/json.h:11723-11782 | a text is a domain error if and only if it is that of no pointer |
| ErrorLaw.MalformedStep | include/json.h:12304-12342 | a document that is no operation is an invalid argument, a path that is no pointer the error of the pointer |
| ErrorLaw.IncompleteStep | include/json.h:12304-12421 | so is an unknown operation, and one without its value or source |
| ErrorLaw.FailedTest | include/json.h:12392-12413 | a failing test is a domain error |
| ErrorLaw.CborErrors | include/json.h:7482-7948 | bytes that begin no data item are an invalid argument, the end of the input is out of range |
| ErrorLaw.MsgPackErrors | include/json.h:7244-7466 | the same for MessagePack |
| Patches.Patch | include/json.h:12166-12425 | the working copy after the loop is the operations applied in turn, or the first error |
| Patches.Diff | include/json.h:12459-12589 | the array built by recursion, insertion at a fixed position and appending is the operations of the specification, paths prefixed |
| Patches.DiffArrays | include/json.h:12486-12528 | common elements in order, then removals inserted so that they run from the highest index down, then additions upwards |
| Patches.DiffObjects | include/json.h:12530-12572 | members of the source in key order compared or removed, then the target's new members added |
| Patches.DiffKnown | include/json.h:12532-12553 | first pass over objects, child patches below the escaped key |
| Patches.OpValuesLift | include/json.h:12490-12497 | a child's operations below the prefixed path are the lifted operations |
| DiffLaw.EmptyIffEqual | include/json.h:12466-12470 | `diff` yields no operation exactly for equal values |
| DiffLaw.RunBelowKey | include/json.h:12538-12543 | operations lifted below a member change that member as they change the value alone |
| DiffLaw.RunBelowIndex | include/json.h:12490-12497 | operations lifted below an element change that element as they change the value alone |
| DiffLaw.RemovalsRun | include/json.h:12501-12513 | removals from the highest index down cut the array to its prefix, or fail on an index beyond `int` |
| DiffLaw.AdditionsRun | include/json.h:12515-12525 | additions in increasing order append the rest of the target |
| DiffLaw.StepOfOpValue | include/json.h:12304-12421 | the object pushed for an operation is read back as that operation |
| DiffLaw.DiffRun | include/json.h:12433-12437 | running the generated operations on the source ends in the target, for nested arrays and objects |
| DiffLaw.PatchOfDiff | include/json.h:12433-12437 | patching with the difference succeeds if and only if every index in the way fits an `int`; the result equals the target if and only if the target has no NaN |
| DiffLaw.PatchOfDiffIsTarget | include/json.h:12433-12437 | the documented law for all values of ordinary size without NaN |
| DiffLaw.LawHasExceptions | include/json.h:12433-12437 | inputs on which the documented law fails: an array longer than `stoi` can index, and a NaN, which only a write through a reference puts into a value |
| DiffMeaning.PatchedFloatFree | include/json.h:12166-12425 | a patch document without doubles brings no double into a value without doubles |
| DiffMeaning.PatchOfDiffDenotes | include/json.h:12433-12437 | without doubles, patching with the difference yields what denotes the same as the target |
| DiffMeaning.PatchOfDiffAligned | include/json.h:12433-12437 | with doubles the same, integers beside doubles being rounded |
| DiffMeaning.EmptyIffSame | include/json.h:12466-12470 | without doubles, `diff` is empty if and only if both denote the same |
| DiffShape.ArrayOps | include/json.h:12486-12528 | between different arrays: exactly the operations on common elements, removals and additions |
| DiffShape.ObjectOps | include/json.h:12530-12572 | between different objects: exactly the operations on common members, removals and additions |
| DiffShape.EqualIsLeftAlone | include/json.h:12459-12589 | no operation leads to a member or an element that is equal on both sides; primitives are replaced whole |
| Flattening.FlattenInto | include/json.h:11835-11886 | the recursive walk inserts one entry per leaf into the result |
| Flattening.Flatten | include/json.h:12082-12087 | the object of all entries, starting from the empty pointer |
| Flattening.Unflatten | include/json.h:11893-11919 | entries in key order placed one after the other, with the errors for non-objects, non-primitive values and bad pointers |
| FlattenLaw.FlatRecords | include/json.h:11835-11886 | the entries are exactly the leaves: one key per leaf, distinct leaves distinct keys, the leaf's value under it |
| UnflattenLaw.FlattenMapsLeaves | include/json.h:11835-11886 | every key parses to a pointer that resolves to the primitive recorded, or to an empty container recorded as null |
| UnflattenLaw.KeyOrder | include/json.h:11893-11919 | which keys come before the entries below token "0" in the order of the flattened texts |
| UnflattenLaw.FirstOfArray | include/json.h:11440-11494 | the first entry below an array has token "0", so that an array is created |
| UnflattenLaw.FirstOfObject | include/json.h:11440-11494 | the first entry below an object has token "0" exactly when no saving key comes before it |
| UnflattenLaw.BuildArray | include/json.h:11440-11494 | out-of-order indices fill up with null and still end in the right elements |
| UnflattenLaw.BuildObject | include/json.h:11440-11494 | entries of an object are distributed to its members independently |
| UnflattenLaw.Rebuilds | include/json.h:11893-11919 | from the ordered leaves of a value its tree is rebuilt if and only if it is rebuildable |
| UnflattenLaw.UnflattenOfFlatten | include/json.h:12102-12105 | `unflatten(flatten(v))` equals `v` if and only if `v` is rebuildable and has no NaN |
| UnflattenLaw.ZeroKeyExamples | include/json.h:12102-12105 | an object with key "0" comes back as an array, one with a further key "A" not at all, one with a key that sorts first unchanged |
| PlaceLaw.PlaceIsRead | include/json.h:11440-11494 | a value put at a pointer is found there by `at`, if and only if no index on the way has a leading zero |
| PlaceLaw.PlaceKeeps | include/json.h:11440-11494 | what parts from the pointer keeps its value |
| PlaceLaw.UnflattenPlaces | include/json.h:11893-11919 | for any object whose keys are independent pointers, every value is found at its pointer in the result |
| PlaceLaw.UnflattenNeeds | include/json.h:11893-11919 | only objects of primitive values with pointers as keys are taken |
| BigEndian.AddToVector | include/json.h:6587-6620 | the falling-through switch appends the big-endian bytes of the number |
| BigEndian.GetFromVector | include/json.h:6660-6674 | the bytes behind the current one as a number, or out of range |
| BigEndian.FromBEOfBE | include/json.h:6587-6674 | writing and reading in k bytes is the number modulo 256^k |
| Cbor.ToCborInternal | include/json.h:6932-7184 | appends the RFC 7049 encoding with the shortest argument |
| Cbor.FromCborInternal | include/json.h:7482-7948 | on any bytes terminates with an error or a value, the index advanced and within the input; non-finite numbers are null |
| Cbor.Decode | include/json.h:7482-7948 | every success lies strictly behind the start and within the vector |
| Reading.CheckLength | include/json.h:7209-7228 | the overflow-safe length check passes exactly the spans inside the vector |
| Reading.ReadText | include/json.h:7596-7663 | a string of declared length is the bytes behind its header, or out of range |
| Cbor.ReadChunks | include/json.h:7665-7676 | chunks of an indefinite-length string up to the break byte |
| Cbor.ReadMembers | include/json.h:7773-7860 | a declared number of members, the last value of a key winning |
| Halves.HalfIsFinite | include/json.h:7889-7917 | a half-precision number becomes a finite double exactly when its exponent is not 31 |
| Halves.SingleIsFinite | include/json.h:7919-7929 | a single-precision number becomes a finite double exactly when its exponent is not 255 |
| HalfLaw.HalfDenotes | include/json.h:7889-7917 | every finite half-precision number is widened to the double that denotes the same number |
| HalfLaw.SingleDenotes | include/json.h:7919-7929 | so is every finite single-precision number |
| HalfLaw.DenotesOnce | include/json.h:7889-7929 | there is only one such double |
| CborMeaning.IsRead | include/json.h:7482-7948 | wherever a data item of RFC 7049 stands, in any of its forms, it is read as what it stands for, and nothing behind it |
| CborMeaning.IsFound | include/json.h:7482-7948 | whatever is read are the bytes of a data item that stands for the value |
| CborMeaning.DecodeIsRepresents | include/json.h:7482-7948 | a value is read at an index if and only if bytes that stand for it are there, up to where reading stops |
| CborStandard.StandardIsRead | include/json.h:7482-7948 | what the standard lets bytes stand for, the library reads them as |
| CborWriting.EncodedIs | include/json.h:6932-7184 | what is written for a value with finite numbers is a data item of the standard for the value |
| CborWriting.HeadIsShortest | include/json.h:6932-7184 | no head with the same argument is shorter than the one written |
| CborWriting.NestedChunk | include/json.h:7665-7676 | an input: a string of indefinite length as a chunk of another one is read |
| CborWriting.NegativeWraps | include/json.h:7554-7559 | an input: -1 - 2^63 is read as 2^63 - 1 |
| CborLaw.DecodedIsFinite | include/json.h:7482-7948 | whatever the bytes, no infinity or NaN is in the value read |
| CborLaw.ReadsBack | include/json.h:6932-7948 | decoding where an encoding stands yields the value, non-finite numbers null, and stops right behind it |
| CborLaw.RoundTrip | include/json.h:6932-7948 | round trip between any prefix and suffix, all width classes, down to INT64_MIN; the value is equal if and only if all its numbers are finite |
| CborLaw.InfinityIsLost | include/json.h:6932-7948 | an infinity comes back as null |
| CborLaw.InfinitiesAreNull | include/json.h:7889-7945 | infinities of all three widths are read as null |
| MsgPack.ToMsgPackInternal | include/json.h:6686-6920 | appends the MessagePack encoding, negative fixint and signed widths included |
| MsgPack.FromMsgPackInternal | include/json.h:7244-7466 | on any bytes terminates with an error or a value, the index advanced and within the input; non-finite numbers are null |
| MsgPackLaw.ReadsBack | include/json.h:6686-7466 | decoding where an encoding stands yields the value, non-finite numbers null, and stops right behind it |
| MsgPackLaw.UnpackedReadable | include/json.h:7244-7466 | whatever the bytes, what is read has lengths below 2^32 and finite numbers only |
| MsgPackLaw.RoundTrip | include/json.h:6686-7466 | round trip between any prefix and suffix; the value read is equal if and only if all lengths are below 2^32 and all numbers are finite |
| MsgPackLaw.TooLongIsLost | include/json.h:6823-6854 | a string of 2^32 NULs is written without a header and read as the number 0 |
| MsgPackLaw.InfinityIsLost | include/json.h:6686-7466 | an infinity comes back as null |
| MsgPackMeaning.IsRead | include/json.h:7244-7466 | wherever an object of the format stands, in any of its forms, it is read as what it stands for |
| MsgPackMeaning.IsFound | include/json.h:7244-7466 | whatever is read are the bytes of an object of the format that stands for the value |
| MsgPackMeaning.UnpackIsRepresents | include/json.h:7244-7466 | a value is read at an index if and only if bytes that stand for it are there, up to where reading stops |
| MsgPackWriting.PackedIs | include/json.h:6686-6920 | what is written for a packable value with finite numbers is an object of the format for the value |
| MsgPackWriting.FormsAreShortest | include/json.h:6686-6920 | no form of the same number or length is shorter than the one written |
| Unicode.Utf8OfScalarAt | include/json.h:10151-10262 | every sequence the byte ranges admit is the UTF-8 form of its scalar value |
| Unicode.Utf8LengthOfUtf8 | include/json.h:10151-10262 | the byte ranges admit the form of every scalar value, surrogates excluded |
| JsonStrings.BodyIsGrammar | include/json.h:9991-10262 | the deterministic reading accepts exactly the concatenations of unescaped characters and escapes |
| JsonStrings.ValidIsWellFormed | include/json.h:10151-10262 | the byte ranges decide whether a string is the text of some sequence of characters |
| Quoting.ToUnicode | include/json.h:9520-9582 | one code unit, or a surrogate pair, becomes the UTF-8 form of the character; a wrong low surrogate is an error |
| Quoting.GetString | include/json.h:10726-10839 | the loop reads the token as specified, every access inside the token |
| Quoting.UnquotedIsMeaning | include/json.h:10726-10839 | the decoded bytes are the UTF-8 text of the characters the escapes denote; lone surrogates fail |
| Quoting.ExtraSpace | include/json.h:8116-8147 | escaping makes the string longer by exactly this number, and leaves it alone when it is zero |
| Quoting.EscapeString | include/json.h:8162-8267 | the preallocated buffer is filled exactly, every write in range, untouched positions the intended backslashes |
| Quoting.WriteControl | include/json.h:8235-8256 | the letters of a control character's escape behind its backslash |
| QuotingLaw.UnquotedOfEscaped | include/json.h:8162-8267 | every byte string, UTF-8 or not, survives `escape_string` and `get_string` |
| QuotingLaw.BodyOfEscaped | include/json.h:8162-8267 | the escaped text is a JSON string body exactly when the string is UTF-8 |
| EscapeTable.HexIsSpelled | include/json.h:10321-10562 | the digits admitted in an escape are those of the table, small and capital letters |
| EscapeTable.ShortEscapes | include/json.h:10752-10794 | the eight short escapes and the characters they stand for, and no others |
| EscapeTable.ShortToken | include/json.h:10726-10839 | a string of one short escape is read as its character |
| EscapeTable.UnitToken | include/json.h:10796-10832 | a string of one escaped code unit, its digits in any mixture of letters, is read as the UTF-8 form, a surrogate is an error |
| EscapeTable.PairToken | include/json.h:10796-10832 | a string of a surrogate pair is read as the UTF-8 form of the character beyond the first plane |
| EscapeTable.UnitRead | include/json.h:10796-10832 | the same at the head of any string |
| EscapeTable.PairRead | include/json.h:10796-10832 | the same at the head of any string |
| EscapeTable.LoneRead | include/json.h:10796-10832 | a surrogate without its partner is an error in any string |
| EscapeTable.WrittenBytes | include/json.h:8162-8267 | how each of the 256 bytes is written |
| EscapeTable.Utf8Examples | include/json.h:9520-9582 | characters of two, three and four bytes |
| TokenLaw.ClosesIsBody | include/json.h:9991-10262 | behind the opening quote the automaton stops exactly behind a string body and its closing quote |
| TokenLaw.Number | include/json.h:9864-9936 | the number states accept exactly the numbers of RFC 7159 |
| NumberText.NumberIsDivided | include/json.h:9864-9936 | the numbers of the scanner are the texts made up of sign, integer, fraction and exponent by the rules of RFC 7159 |
| TokenLaw.Words | include/json.h:9955-9978 | the letter states accept exactly the three literals |
| TokenLaw.AcceptIsToken | include/json.h:9646-10570 | the automaton accepts exactly the tokens of the grammar, each as what it is |
| TokenLaw.HeadIsLongestToken | include/json.h:9646-10570 | the scanner finds the longest token, and reports an error of one byte exactly where there is none |
| TokenLaw.StringAtHead | include/json.h:9838-9857 | from an opening quote: a string token over exactly the span the grammar matches, otherwise a parse error |
| Tokens.LongestIsLongest | include/json.h:10056-10065 | backtracking to the marker gives the longest accepted prefix |
| Scanner.Lexer.constructor | include/json.h:9462-9468 | the lexer starts at the beginning of its buffer |
| Scanner.Lexer.ScanToken | include/json.h:9646-10570 | cursor, marker and accept flag end at the longest token, never behind the first padding byte |
| Scanner.Lexer.Scan | include/json.h:9646-9850 | blanks are skipped, then one token is read |
| Scanner.Turning | include/json.h:10056-10065 | one turn of the automaton keeps the relation between state, marker and longest match |
| Numbers.GetNumber | include/json.h:10916-11021 | exact integers as far as 64 bits reach, otherwise `strtod`, null when that is not finite; no intermediate overflow |
| Numbers.CountDigit | include/json.h:10962-10979 | the test value > (max - digit) / 10 decides exactly whether one more digit fits |
| Numbers.NumberValueOfDec | include/json.h:10916-11021 | decimal text of every 64-bit integer is a number token and read back exactly |
| Numbers.NumberIs | include/json.h:10916-11021 | every number token: an integer exactly where the text is that of a 64-bit integer, otherwise `strtod` of the whole token |
| Grammar.ParseValue | include/json.h:11092-11283 | a success consumes at least one token; every failure is invalid_argument |
| GrammarLaw.Complete | include/json.h:11092-11283 | every derivation of "value" is parsed to its end and no further, to its meaning |
| GrammarLaw.Sound | include/json.h:11092-11283 | whatever is parsed has a derivation spelled by exactly the tokens consumed |
| GrammarLaw.ParseValueIsGrammar | include/json.h:11092-11283 | `parse_internal` succeeds if and only if the tokens begin with a derivation, which it consumes |
| GrammarLaw.ParseTextIsGrammar | include/json.h:11075-11089 | `parse` accepts a text if and only if its tokens are one derivation and the end of input |
| MeaningLaw.ArrayInOrder | include/json.h:11177-11231 | an array holds the meanings of its elements in order |
| MeaningLaw.ObjectGathers | include/json.h:11098-11175 | an object has the names of all its members, each with the value it has last |
| MeaningLaw.LiteralTexts | include/json.h:11233-11283 | what the texts null, true, false, [] and {} are parsed as |
| Parsing.Parser.GetToken | include/json.h:11286-11290 | the look-ahead token is the first of the tokens that remain |
| Parsing.Parser.ParseInternal | include/json.h:11092-11283 | value, or error, and remaining tokens as specified, for every input |
| Parsing.Parser.ParseArray | include/json.h:11177-11231 | the do-while loop over items, its comma handling included |
| Parsing.Parser.ParseObject | include/json.h:11098-11175 | the do-while loop over members; the last value of a name wins |
| Parsing.Parser.Parse | include/json.h:11075-11089 | the value of the whole text, or invalid_argument |
| Dumping.Dump | include/json.h:8286-8424 | appends the text of the value in the given layout |
| Dumping.DumpArray | include/json.h:8336-8372 | brackets, separators and indentation around the items, indentation wrapping at 32 bits |
| Dumping.DumpObject | include/json.h:8296-8334 | braces, quoted names in key order, separators and indentation around the members |
| Dumping.DumpText | include/json.h:2646-2668 | the text in the layout for this indentation, which `LayoutLaw.TextIsLaid` describes |
| LayoutLaw.DumpedIsLaid | include/json.h:8286-8424 | at every depth the text is that of the tokens with what stands between two of them: line breaks, indentation modulo 2^32, the space behind a colon |
| LayoutLaw.TextIsLaid | include/json.h:2646-2668 | for every value and every indentation of `dump` the text is that layout of its tokens |
| LayoutLaw.CompactIsTexts | include/json.h:2646-2668 | for a negative indentation nothing stands between the tokens |
| LayoutLaw.DumpIsLaidOut | include/json.h:2646-2668 | without doubles these are the tokens of the derivation that means the value |
| TextLaw.OwnQuote | include/json.h:8162-8267 | no quote inside an escaped string can close it |
| TextLaw.BrokenString | include/json.h:9838-9857 | a quoted string that is not UTF-8 is scanned as an error |
| DumpLaw.SpellValue | include/json.h:8286-8424 | the text of a value spells the tokens of its derivation whatever follows, or holds an error |
| DumpLaw.ParseOfDump | include/json.h:8286-8424 | for every float-free value and every layout: parsed to the same value if its strings are UTF-8, rejected otherwise |
| DumpLaw.DumpRoundTrip | include/json.h:2646-2668 | the value read back equals the value dumped if and only if its strings are UTF-8, for every indentation |
| ReparseLaw.StringIsUtf8 | include/json.h:10726-10839 | what `get_string` makes of a string token is well-formed UTF-8, unless it throws |
| ReparseLaw.ParsedIsUtf8 | include/json.h:11075-11089 | every string and name in a parsed value is well-formed UTF-8 |
| ReparseLaw.ParseDumpParse | include/json.h:11075-11089 | parsing, dumping in any layout and parsing again gives an equal value |
| JsonTextLaw.NulEndsText | include/json.h:10600-10660 | whatever stands behind a NUL makes no difference to `parse` |
| JsonTextLaw.IgnoredBehindNul | include/json.h:10600-10660 | an input: a number, a NUL and a letter are accepted |
| JsonTextLaw.LexedIsWritten | include/json.h:9646-10570 | a text scanned to its end consists of its tokens and blanks, no byte left out |
| JsonTextLaw.WrittenIsLexed | include/json.h:9646-10570 | tokens written with any blanks around them are scanned as these tokens, unless two numbers stand side by side |
| JsonTextLaw.YieldIsApart | include/json.h:11092-11283 | in no derivation two numbers stand side by side |
| JsonTextLaw.MeaningIsPaired | include/json.h:11092-11283 | a derivation has a meaning if and only if none of its strings holds a lone surrogate |
| JsonTextLaw.ParseIsJsonText | include/json.h:11075-11089 | `parse` yields a value if and only if the bytes up to the first NUL are a JSON text that means it |
| JsonTextLaw.AcceptedTexts | include/json.h:11075-11089 | `parse` accepts exactly the JSON texts of RFC 7159 without lone surrogates, reading up to the first NUL |
| JsonTextLaw.LoneSurrogate | include/json.h:10726-10839 | an input: a string of one unpaired surrogate escape is a JSON text and rejected |
| Base64.Encode | src/base64.cpp:47-91 | blocks of three bytes through `char_array_3` and `char_array_4`, the last one padded; the encoding of RFC 4648, section 5 |
| Base64.Encoded | src/base64.cpp:47-91 | the text has 4 * ceil(n / 3) characters |
| Base64.Decode | src/base64.cpp:93-137 | decodes up to the first character outside the alphabet |
| Base64.Remainder | src/base64.cpp:121-134 | the characters left over give one byte less than their number; filler never reaches the output |
| Base64.DecodeOfEncode | src/base64.cpp:47-137 | decoding undoes encoding for every byte string |
| Base64.DecodedLength | src/base64.cpp:93-137 | the decoded length in terms of the readable characters |
| Base64Table.LetterIs | src/base64.cpp:26-45 | the 64 characters by the rows of the standard |
| Base64Table.BlockIsNumber | src/base64.cpp:47-91 | four positions carry the 24 bits of three bytes, most significant first |
| Url.PercentDecode | src/UrlParser.cpp:52-112 | the three-state loop decodes escapes, copies broken ones and drops one cut off at the end |
| Url.DigitIsSpelled | src/UrlParser.cpp:130-196 | the digits of the decoder are those of the table, small and capital letters |
| Url.EscapeIsByte | src/UrlParser.cpp:52-112 | a percent sign and the two digits of a byte, in any case, are decoded to the byte, whatever follows |
| Url.DecodeOfEncoding | src/UrlParser.cpp:52-112 | every percent-encoding of a string, in any case of digits, is decoded to it |
| Url.DecodeOfEncode | src/UrlParser.cpp:52-112 | decoding undoes an RFC 3986 encoder |
| Url.EncoderEncodes | src/UrlParser.cpp:26-49 | that encoder's text contains no delimiter of the query |
| UrlLaw.LengthDecoded | src/UrlParser.cpp:52-112 | decoding shortens a text by two for each escape decoded and by the cut-off end |
| UrlLaw.DecodedToItself | src/UrlParser.cpp:52-112 | a text is decoded to itself if and only if there is no escape to decode and no cut-off end |
| UrlLaw.CutOffIsDropped | src/UrlParser.cpp:52-112 | a text that holds no escape loses exactly its cut-off end |
| UrlLaw.TailBehind | src/UrlParser.cpp:52-112 | behind a text with no cut-off end decoding starts afresh |
| UrlLaw.TailIs | src/UrlParser.cpp:52-112 | the end is cut off exactly when "%", or "%" and a digit, stands there behind text read whole |
| UrlLaw.EvenChain | src/UrlParser.cpp:52-112 | the decoder is between two pieces exactly behind an even number of chained percent signs |
| UrlLaw.DecodedToItselfByPlace | src/UrlParser.cpp:52-112 | a text is decoded to itself if and only if behind every first, third, fifth percent sign of a chain stands what breaks the escape |
| UrlLaw.EscapeDecoded | src/UrlParser.cpp:52-112 | an escape behind an even number of chained percent signs is decoded, the text around it by itself |
| UrlLaw.EscapeCopied | src/UrlParser.cpp:52-112 | behind an odd number a percent sign is copied, and an escape it begins is not decoded |
| UrlLaw.CutOffWhereApart | src/UrlParser.cpp:52-112 | where percent signs stand apart and no escape is, the text changes exactly when it ends in "%" or in "%" and a digit |
| UrlLaw.CutOffExamples | src/UrlParser.cpp:52-112 | inputs: "%" and "%4" vanish, "%%" and "%%4" stay, the escape in "%%41" is copied |
| Url.UrlParser.constructor | src/UrlParser.cpp:7-12 | the object holds the parameters of its URL |
| Url.UrlParser.Parse | src/UrlParser.cpp:26-49 | the loop over `pos` and `end`, its wrap from npos to zero included, terminates with the specified map |
| Url.UrlParser.Param | src/UrlParser.cpp:15-22 | the value of a name, empty when there is none |
| Url.ParseOfQuery | src/UrlParser.cpp:26-49 | behind the first question mark, joined pairs give the map in which the last value of a name wins, decoded |
| Url.ParseOfBareQuery | src/UrlParser.cpp:26-49 | the same without a question mark in front |
| QueryLaw.JoinedIsParsed | src/UrlParser.cpp:26-49 | whatever parameters make up a query, broken escapes and a rest without "=" included, the last value of each name counts |
| QueryLaw.AnyQuery | src/UrlParser.cpp:26-49 | every text is made up of parameters and a rest |
| QueryLaw.ParsedIs | src/UrlParser.cpp:26-49 | for every text: some parameters make up its query, and whichever do, they are what it is parsed into |

## Left out

- Flattening.Unflatten: `get_and_create` moves a pointer into the tree; the model places the leaf by recursion on a value, so aliasing is not captured.
- Patches.ApplyOperation: references into the working copy (`result.at(ptr)`, `result[ptr]`) are edits along a path of a value; aliasing is not captured. Where the order of evaluation is unspecified in the source (`replace`, `copy`, `test`) the model fixes one, which decides which of two errors is reported and, for `copy`, that "from" is read before "path" is created.
- PatchStandard.StandardRemove: is defined for pointers other than the whole document, whose removal the code refuses and RFC 6902 leaves without a result.
- Halves.HalfToDouble: half-precision numbers are read, never written, so there is no round trip; which of them are finite is `Halves.HalfIsFinite`.
- Scanner.Lexer.Scan: a contiguous buffer with its NUL padding; refilling from a stream line by line is not modelled, nor is scanning on behind the end of input.
- Numbers.GetNumber: the conversion of floating-point text is a parameter, so no round trip of doubles through text is stated.
- Dumping.Dump: the printed form of a non-zero double is a parameter; the laws about text are for values without floating-point numbers.
- Parser callbacks, depth tracking and discarded values: arbitrary user code the service does not use.
- Depth of recursion: the stack is unbounded in the model.
- Memory: sizes are bounded by `size_t` where the source computes with them; failing allocation is not modelled.
- `operator<` and the order of mixed numbers: the casts admit no order theorem.
- Conversions, iterators, allocators, initializer lists, `swap`, `insert`, `emplace` and the rest of the container interface.
- Messages of exceptions: only their class is modelled.
- `src/ParentDB.cpp`, `src/Core_DataBase.cpp`, `src/DataBase.cpp`, `src/BaseCore.cpp`: calls into MongoDB, SQLite and AMQP.
- `src/CgiService.cpp`, `src/Server.cpp`, `src/Log.cpp`, `src/CpuStat.cpp`, `src/Config.cpp`, `src/BoostHelpers.cpp`, `src/File.cpp`: server plumbing.
- `src/Cookie.cpp`, `src/Informer.cpp`, `src/Params.cpp`, `src/EBranch.cpp`, `template/storage.js`: records, setters and counters; easy members only.
