# Chimera4j wrapper core, modelled in Dafny

Chimera4j is a Java wrapper around the native Chimera/Hyperscan regular-expression
engines. This project models the Java translation layer around the engine and proves
properties of it. The engine's regex matching and compilation stay out.

- **HyperscanUtils** (`hyperscan_utils.dfy`, `utf.dfy`):
  - packing a flag `EnumSet` into the engine's `int`;
  - building the array that maps each UTF-8 byte of a scanned text to the index of its
    code point in the Java `String`;
  - translating engine result codes into `HyperscanException` messages.
- **ChimeraDatabase** (`chimera_database.dfy`):
  - compiling one expression or a batch;
  - charging a compile error to the expression that caused it;
  - the parallel arrays handed to the batch compiler;
  - the handle, which is freed at most once.
- **Scanner** (`scanner.dfy`):
  - the match callback that collects `(id, from, to)` triples;
  - the scratch-space lifecycle;
  - `scan`, which turns each triple of byte offsets into a `Match` positioned in the
    `String`.
- **ChimeraExpression / HyperscanExpression / ValidationResult** (`chimera_expression.dfy`,
  `hyperscan_expression.dfy`, `validation.dfy`): immutable pattern descriptors, their null
  check, and validation against the compilers.
- **Match** (`matches.dfy`): the immutable match record.

How Java is represented:
- **Text.** A Dafny `string` (a sequence of Unicode scalar values) stands for a
  well-formed Java `String`. `Utf.Utf16(s)` is its sequence of UTF-16 code units
  (RFC 2781), and `Utf.Utf8Length(s)` is the length of `getBytes(UTF_8)` (the length table
  of section 3 of RFC 3629).
- **The native engine.** It is the `Domain.Engine` value: one total function per native
  call (compile, batch compile, expression info, alloc scratch, size queries, scan),
  passed as a parameter.
- **Freed handles.** Frees are recorded in ghost sequences, so "freed at most once" is a
  class invariant.
- **Exceptions.** Java exceptions, runtime exceptions included, are constructors of
  `Domain.Error`, returned in `Result`/`Outcome` values.
- **Mutable state.** Classes whose fields change (`ChimeraDatabase`, `Scanner`) are Dafny
  classes. Loops over arrays (`utf8ByteIndexesMapping`, `cifyExpressions`) are methods
  over arrays with loop invariants.
- **Immutable records.** Records that never change are datatypes.

## Model

| member | source | states |
|---|---|---|
| HyperscanUtils.BitEnumSetToInt | src/main/java/io/carpe/hyperscan/HyperscanUtils.java:11-26 | Succeeds exactly when every member is a HyperscanBitFlag, and then returns the OR of all members' bits (a null `getBits()` contributes nothing); otherwise InvalidParameterException |
| HyperscanUtils.OrBitsCoversMembers | src/main/java/io/carpe/hyperscan/HyperscanUtils.java:13-19 | Every member's bits are set in the encoded value |
| HyperscanUtils.OrBitsLeast | src/main/java/io/carpe/hyperscan/HyperscanUtils.java:12-25 | The encoded value sets no bit outside any mask that covers every member; with the previous row, it is exactly the union of the members' bits, and 0 for the empty set |
| HyperscanUtils.OrBitsConcat | src/main/java/io/carpe/hyperscan/HyperscanUtils.java:13-19 | Encoding a concatenation is the OR of the two encodings, so the set's iteration order does not matter |
| HyperscanUtils.Fill | src/main/java/io/carpe/hyperscan/HyperscanUtils.java:44 | `Arrays.fill(a, from, to, v)`: the range holds v and the rest of the array is unchanged |
| HyperscanUtils.FillCodePoint | src/main/java/io/carpe/hyperscan/HyperscanUtils.java:44-46 | One loop round: filling the code point's 1–4 byte slots with its UTF-16 index extends the mapped prefix by one code point and leaves the rest zero |
| HyperscanUtils.Utf8ByteIndexesMapping | src/main/java/io/carpe/hyperscan/HyperscanUtils.java:28-54 | Returns a fresh array of exactly `bytesLength` entries: the UTF-16 index of each byte's code point, padded with zeros. Java throws NegativeArraySizeException for a negative length and ArrayIndexOutOfBoundsException for a length below the UTF-8 length |
| Utf.ByteIndexOfCodePoint | src/main/java/io/carpe/hyperscan/HyperscanUtils.java:44-50 | Byte j of the text maps to the UTF-16 index where the code point holding that byte starts |
| Utf.ByteIndexesMonotone | src/main/java/io/carpe/hyperscan/HyperscanUtils.java:44-50 | The mapping is non-decreasing |
| Utf.ByteIndexesBounded | src/main/java/io/carpe/hyperscan/HyperscanUtils.java:44-50 | Every entry is a valid index into the Java String |
| Utf.CodePointOfByteMonotone | src/main/java/io/carpe/hyperscan/HyperscanUtils.java:44-46 | Later bytes belong to the same or a later code point, and the next byte is at most one code point further |
| Utf.CodePointsOfBytes | src/main/java/io/carpe/hyperscan/HyperscanUtils.java:44-50 | For bytes i ≤ j, both map to the starts of their code points, in order, and the range up to the end of j's code point lies inside the String |
| Utf.AsciiIdentity | src/main/java/io/carpe/hyperscan/HyperscanUtils.java:37-44 | For ASCII text the byte, code-unit and code-point counts agree, and the mapping is the identity `map[i] == i` |
| Utf.Utf16Slice | src/main/java/io/carpe/hyperscan/wrapper/Scanner.java:148 | The substring between the UTF-16 offsets of code points i and j is exactly the UTF-16 encoding of code points i..j |
| Utf.Utf16At | src/main/java/io/carpe/hyperscan/HyperscanUtils.java:33-50 | The unit at a code point's offset is the first unit of that code point, and it is a high surrogate exactly when the code point is supplementary (`charCount == 2`) |
| Utf.Utf16PrefixSplit | src/main/java/io/carpe/hyperscan/HyperscanUtils.java:32-51 | The UTF-16 encoding of the first j code points is that of the first i followed by that of code points i..j |
| HyperscanUtils.HsErrorIntToException | src/main/java/io/carpe/hyperscan/HyperscanUtils.java:56-85 | Always a HyperscanException without a cause, whose message is the code's description |
| HyperscanUtils.HsErrorMessage | src/main/java/io/carpe/hyperscan/HyperscanUtils.java:57-84 | The description of an engine code; every code outside -1…-12 gets "Unexpected error: " followed by its decimal text |
| HyperscanUtils.Cause | src/main/java/io/carpe/hyperscan/wrapper/HyperscanException.java:6-12 | `getCause()` is present exactly when the exception was built around an engine code, and then it is the HyperscanException describing that code |
| HyperscanUtils.UnexpectedExactlyForUnknownCodes | src/main/java/io/carpe/hyperscan/HyperscanUtils.java:57-84 | Codes -1…-12 get a fixed text that does not end in a digit; exactly the other codes (0 included) get "Unexpected error: " followed by the code's decimal text |
| HyperscanUtils.FixedMessagesEndInPunctuation | src/main/java/io/carpe/hyperscan/HyperscanUtils.java:57-81 | None of the twelve fixed messages ends in a decimal digit |
| HyperscanUtils.FallbackMessage | src/main/java/io/carpe/hyperscan/HyperscanUtils.java:83 | Any undocumented code is described as "Unexpected error: " plus its decimal text |
| HyperscanUtils.FallbackShape | src/main/java/io/carpe/hyperscan/HyperscanUtils.java:83 | The fallback text starts with "Unexpected error: " and ends in a digit |
| HyperscanUtils.HsErrorMessageInjective | src/main/java/io/carpe/hyperscan/HyperscanUtils.java:57-84 | Different codes get different messages, so the message identifies the code |
| HyperscanUtils.FixedMessageCodeInverts | src/main/java/io/carpe/hyperscan/HyperscanUtils.java:57-81 | The twelve fixed messages are pairwise distinct: each one's code can be read back from it |
| HyperscanUtils.NatToStringInjective | src/main/java/io/carpe/hyperscan/HyperscanUtils.java:83 | Different non-negative numbers have different decimal texts |
| HyperscanUtils.IntToStringInjective | src/main/java/io/carpe/hyperscan/HyperscanUtils.java:83 | Different ints have different decimal texts, as Java's string concatenation writes them |
| Matches.Match.GetMatched | src/main/java/io/carpe/hyperscan/wrapper/Match.java:35-46 | `getMatched()` is empty exactly when `getMatchedString()` is null, and otherwise holds it |
| Matches.MatchWithText | src/main/java/io/carpe/hyperscan/wrapper/Match.java:14-19 | The four-argument constructor stores start, end, text and expression unchanged |
| Matches.MatchWithoutText | src/main/java/io/carpe/hyperscan/wrapper/Match.java:21-26 | The three-argument constructor stores start, end and expression, and leaves the text null |
| Validation.ValidationResult.GetHyperscanErrorMessage | src/main/java/io/carpe/hyperscan/wrapper/ChimeraExpression.java:238-240 | Present exactly when `isValidHyperscan()` is false, and then holds the Hyperscan error |
| Validation.ValidationResult.GetChimeraErrorMessage | src/main/java/io/carpe/hyperscan/wrapper/ChimeraExpression.java:247-249 | Present exactly when `isValidChimera()` is false, and then holds the Chimera error |
| Validation.InvalidOnlyWithBothMessages | src/main/java/io/carpe/hyperscan/wrapper/ChimeraExpression.java:229-231 | `isValid()` (the disjunction) fails exactly when both error messages are present |
| Validation.ExpressionInfoError | src/main/java/io/carpe/hyperscan/wrapper/ChimeraExpression.java:136-154 | hyperscanValidate: no message exactly when `hs_expression_info` returns 0, otherwise the message of its error record |
| ChimeraDatabases.AttributedIndex | src/main/java/io/carpe/hyperscan/db/ChimeraDatabase.java:43-47 | A compile error is charged to the record's index when it is above -1, and otherwise to expression 0 |
| ChimeraDatabases.HandleErrors | src/main/java/io/carpe/hyperscan/db/ChimeraDatabase.java:36-55 | Passes exactly on code 0. On code -4 it throws CompileErrorException for the attributed expression, or IndexOutOfBounds when that index is past the list, and frees the error record exactly once. Any other code throws HyperscanException("Failed to handle error") with the code's translation as cause and frees nothing |
| ChimeraDatabases.Patterns | src/main/java/io/carpe/hyperscan/db/ChimeraDatabase.java:111 | One pattern per expression, in iteration order |
| ChimeraDatabases.FlagValues | src/main/java/io/carpe/hyperscan/db/ChimeraDatabase.java:112 | One encoded flag word per expression, in iteration order |
| ChimeraDatabases.Ids | src/main/java/io/carpe/hyperscan/db/ChimeraDatabase.java:113 | The ids 0…n-1 |
| ChimeraDatabases.EncodeFlags | src/main/java/io/carpe/hyperscan/db/ChimeraDatabase.java:68-69 | `bitEnumSetToInt` of a flag-enum set never throws and returns the OR of the flag bits |
| ChimeraDatabases.ChimeraDatabase.constructor | src/main/java/io/carpe/hyperscan/db/ChimeraDatabase.java:31-34 | Holds the compiled handle and the expression list, and nothing is freed yet |
| ChimeraDatabases.ChimeraDatabase.Compile | src/main/java/io/carpe/hyperscan/db/ChimeraDatabase.java:64-77 | Succeeds exactly when the engine returns 0, and then yields a fresh database holding the engine's handle and the one-element list. Otherwise it throws what handleErrors throws |
| ChimeraDatabases.ChimeraDatabase.CompileMulti | src/main/java/io/carpe/hyperscan/db/ChimeraDatabase.java:86-100 | Hands the engine the patterns, flags and ids 0…n-1 with count n. On code 0 it yields a fresh database holding the list in input order; otherwise it throws what handleErrors throws |
| ChimeraDatabases.ChimeraDatabase.CifyExpressions | src/main/java/io/carpe/hyperscan/db/ChimeraDatabase.java:102-118 | Three fresh arrays of length n with `patterns[i]`, `flags[i]` the i-th expression's pattern and encoded flags, and `ids[i] == i` |
| ChimeraDatabases.ChimeraDatabase.GetPointer | src/main/java/io/carpe/hyperscan/db/ChimeraDatabase.java:120-122 | The compiled handle while it is held, and null once it has been freed |
| ChimeraDatabases.ChimeraDatabase.GetSize | src/main/java/io/carpe/hyperscan/db/ChimeraDatabase.java:129-137 | IllegalStateException exactly when the handle is released, otherwise the engine's size for the handle |
| ChimeraDatabases.ChimeraDatabase.GetExpression | src/main/java/io/carpe/hyperscan/db/ChimeraDatabase.java:147-149 | The id-th compiled expression, or IndexOutOfBoundsException outside the list |
| ChimeraDatabases.ChimeraDatabase.Finalize | src/main/java/io/carpe/hyperscan/db/ChimeraDatabase.java:140-145 | Releases the handle, freeing it only if it was still held, and keeps "freed at most once" |
| ChimeraDatabases.ChimeraDatabase.Close | src/main/java/io/carpe/hyperscan/db/ChimeraDatabase.java:152-154 | The same as finalize, so a second close frees nothing |
| ChimeraDatabases.ReleasedDatabase | src/main/java/io/carpe/hyperscan/db/ChimeraDatabase.java:129-154 | After release, getSize throws IllegalStateException, and the compiled handle has been freed exactly once |
| ChimeraExpressions.New | src/main/java/io/carpe/hyperscan/wrapper/ChimeraExpression.java:29-110 | Every constructor throws NullPointerException exactly when the pattern is null (checked first, with the wrapper's message) or the single flag is null (`EnumSet.of(null)`). Otherwise it stores the pattern and the context (null when not given), and the flags as empty, the given set, or exactly `{flag}` |
| ChimeraExpressions.ChimeraValidate | src/main/java/io/carpe/hyperscan/wrapper/ChimeraExpression.java:156-165 | chimeraValidate compiles the expression: no message when compiling succeeds, the message of a caught HyperscanException, and any other exception propagates |
| ChimeraExpressions.Validate | src/main/java/io/carpe/hyperscan/wrapper/ChimeraExpression.java:129-134 | The result pairs hyperscanValidate's and chimeraValidate's messages; an exception that chimeraValidate does not catch propagates |
| ChimeraExpressions.ChimeraVerdict | src/main/java/io/carpe/hyperscan/wrapper/ChimeraExpression.java:156-165 | The Chimera error is empty exactly when compiling returns 0. On a compile error it is the compiler's message; on any other code it is "Failed to handle error". Validation fails only when the error is charged past the single expression |
| ChimeraExpressions.InvalidForBoth | src/main/java/io/carpe/hyperscan/wrapper/ChimeraExpression.java:129-134 | An expression both compilers reject is invalid and reports both compilers' messages |
| HyperscanExpressions.New | src/main/java/io/carpe/hyperscan/wrapper/HyperscanExpression.java:28-109 | Every constructor throws NullPointerException exactly when the pattern is null (checked first, with the wrapper's message) or the single flag is null (`EnumSet.of(null)`). Otherwise it stores the pattern and the context (null when not given), and the flags as empty, the given set, or exactly `{flag}` |
| HyperscanExpressions.Validate | src/main/java/io/carpe/hyperscan/wrapper/HyperscanExpression.java:127-132 | The Chimera message is always absent, so the result is always valid for Chimera and valid. The Hyperscan message is present exactly when `hs_expression_info` fails, and then holds its message |
| Scanners.LongToInt | src/main/java/io/carpe/hyperscan/wrapper/Scanner.java:140-141 | The `(int)` cast of a long: the result is in the int range, differs from the long by a multiple of 2^32 (so it wraps as Java's cast does), and leaves values already in range unchanged |
| Scanners.EndIndex | src/main/java/io/carpe/hyperscan/wrapper/Scanner.java:141 | As written, one past the last code point's first unit. Intended, one more exactly when that unit is a high surrogate |
| Scanners.LastByte | src/main/java/io/carpe/hyperscan/wrapper/Scanner.java:138-141 | The byte read for the end is `to - 1` when `to ≥ 1`, and byte 0 when the clamp raises `to` to 1 |
| Scanners.MatchOf | src/main/java/io/carpe/hyperscan/wrapper/Scanner.java:135-152 | Under either end rule, the Match for one triple carries the expression with that id, and has text exactly when that expression has EXTRACT_MATCHED |
| Scanners.ScanResult | src/main/java/io/carpe/hyperscan/wrapper/Scanner.java:126-154 | A non-zero engine code throws "Failed to scan." with the code as cause. On code 0 the scan succeeds exactly when every triple yields a Match, and then returns one Match per triple, in the order reported |
| Scanners.Scanner.constructor | src/main/java/io/carpe/hyperscan/wrapper/Scanner.java:24-34 | No triples, an empty scratch reference, no scratch, and nothing allocated or freed |
| Scanners.Scanner.OnMatch | src/main/java/io/carpe/hyperscan/wrapper/Scanner.java:27-31 | Appends `(id, from, to)` to the collected triples and returns 0 |
| Scanners.Scanner.GetHyperscanSize | src/main/java/io/carpe/hyperscan/wrapper/Scanner.java:59-67 | IllegalStateException exactly when no scratch is held, otherwise the engine's Hyperscan scratch size |
| Scanners.Scanner.GetChimeraSize | src/main/java/io/carpe/hyperscan/wrapper/Scanner.java:74-82 | IllegalStateException exactly when no scratch is held, otherwise the engine's Chimera scratch size |
| Scanners.Scanner.AllocScratch | src/main/java/io/carpe/hyperscan/wrapper/Scanner.java:92-105 | Recreates a released reference first and passes its pointer to the engine. A non-zero code throws "Failed to allocScratch." with the code as cause, keeps the scratch, and leaves the (possibly recreated) reference as it was passed; otherwise the scratch and the reference's pointer are the engine's, counting an allocation only when no scratch was held. Keeps the allocation invariant |
| Scanners.Scanner.Scan | src/main/java/io/carpe/hyperscan/wrapper/Scanner.java:116-155 | The collected triples are exactly this scan's callbacks, because the list is cleared first. The result is ScanResult: a non-zero code throws "Failed to scan." with the code as cause; no triples gives the empty list; otherwise one Match per triple, read off the byte-to-index mapping |
| Scanners.Scanner.Deliver | src/main/java/io/carpe/hyperscan/wrapper/Scanner.java:123-124 | The engine's callbacks append every triple in the order reported |
| Scanners.Scanner.ToMatches | src/main/java/io/carpe/hyperscan/wrapper/Scanner.java:133-154 | The forEach yields the Match of every triple in order, or the first exception among them (with the intended end index) |
| Scanners.Scanner.ToMatch | src/main/java/io/carpe/hyperscan/wrapper/Scanner.java:136-151 | The loop body computes MatchOf with the intended end index for one triple, reading the mapping array, the expression list and the text |
| Scanners.Scanner.Finalize | src/main/java/io/carpe/hyperscan/wrapper/Scanner.java:158-165 | Frees a held scratch once and nulls both scratch and reference; without scratch it does nothing. Keeps the allocation invariant |
| Scanners.Scanner.Close | src/main/java/io/carpe/hyperscan/wrapper/Scanner.java:168-170 | The same as finalize, so a second close frees nothing |
| Scanners.AssembleErrorPersists | src/main/java/io/carpe/hyperscan/wrapper/Scanner.java:135-152 | Once a triple throws, the whole forEach throws that exception |
| Scanners.AssembleOkExactly | src/main/java/io/carpe/hyperscan/wrapper/Scanner.java:135-152 | Assembly succeeds exactly when every triple yields a Match |
| Scanners.AssembleInOrder | src/main/java/io/carpe/hyperscan/wrapper/Scanner.java:135-152 | A successful assembly gives exactly one Match per triple, in the same order |
| Scanners.AssembleOnePerEvent | src/main/java/io/carpe/hyperscan/wrapper/Scanner.java:135-152 | Assembly succeeds exactly when every triple yields a Match, and then gives exactly one Match per triple, in the same order |
| Scanners.AssembleStep | src/main/java/io/carpe/hyperscan/wrapper/Scanner.java:135-152 | One forEach step appends the triple's Match, or stops at the first exception |
| Scanners.ClampKeepsReadsInBounds | src/main/java/io/carpe/hyperscan/wrapper/Scanner.java:138-141 | For `0 ≤ from < bytesLength` and `to ≤ bytesLength`, the clamp of `to` keeps both mapping reads in bounds, including an empty match at offset 0 |
| Scanners.MatchSpansCodePoints | src/main/java/io/carpe/hyperscan/wrapper/Scanner.java:140-151 | A triple with `from ≤ to` and `from` inside the text starts at the code point holding byte `from` and ends after the one holding the byte read for the end (`to-1`, or byte 0 for an empty match at 0). With EXTRACT_MATCHED, its text is the String's units between those positions |
| Scanners.EventSpan | src/main/java/io/carpe/hyperscan/wrapper/Scanner.java:140-141 | For a start byte at most one past the end byte, the start and intended end indexes are the bounds of their code points, in order and inside the String |
| Scanners.EndOfCodePoint | src/main/java/io/carpe/hyperscan/wrapper/Scanner.java:141 | The intended end index after a code point's first unit is where the next code point starts |
| Scanners.MatchOfInside | src/main/java/io/carpe/hyperscan/wrapper/Scanner.java:136-151 | Under either end rule, when the reads, the id and the substring range are all in bounds, the Match carries the mapped start, the end and the substring |
| Scanners.AsciiMatchPositions | src/main/java/io/carpe/hyperscan/wrapper/Scanner.java:140-141 | For ASCII text a non-empty match's start and end positions equal its byte offsets |
| Scanners.AsciiCodePointOfByte | src/main/java/io/carpe/hyperscan/HyperscanUtils.java:37-44 | In ASCII text byte j is code point j |
| Scanners.ScanMatchesSpanCodePoints | src/main/java/io/carpe/hyperscan/wrapper/Scanner.java:126-154 | When the scan succeeds with triples `from ≤ to` starting inside the text and known ids, scan returns one Match per triple, in order. Each covers exactly the code points of its bytes and carries the expression with that id |
| Scanners.EventsSpanCodePoints | src/main/java/io/carpe/hyperscan/wrapper/Scanner.java:135-152 | Every triple `from ≤ to` with a known id, in a list starting inside the text, yields a Match spanning its code points |
| Scanners.EndIndexAsWrittenSplitsSurrogatePair | src/main/java/io/carpe/hyperscan/wrapper/Scanner.java:141 | As written, for "\U{1F600}" the end index is 1, and the extracted text is a lone high surrogate that encodes no String. The intended end, 2, covers the whole pair |
| Scanners.EmptyMatchAtEndFails | src/main/java/io/carpe/hyperscan/wrapper/Scanner.java:138-140 | An empty match at the very end of the text reads the mapping one past its last entry, so scan throws ArrayIndexOutOfBoundsException |
| Scanners.EmptyMatchAtStart | src/main/java/io/carpe/hyperscan/wrapper/Scanner.java:138-141 | An empty match at offset 0 is clamped to read byte 0: the Match starts at 0, ends after the first code point, and its text is that code point |
| Scanners.EmptyMatchAtBoundary | src/main/java/io/carpe/hyperscan/wrapper/Scanner.java:138-141 | An empty match at an inner code-point boundary gives start == end at that boundary's index, with empty text |
| Scanners.ScanAsWrittenSplitsSurrogatePair | src/main/java/io/carpe/hyperscan/wrapper/Scanner.java:141 | For "\U{1F600}" matched whole with EXTRACT_MATCHED, scan as written returns Match(0, 1, "\uD83D") and the intended scan Match(0, 2, "\U{1F600}") |
| Scanners.AsWrittenAgreesExactlyInBmp | src/main/java/io/carpe/hyperscan/wrapper/Scanner.java:141 | For a triple inside the text, the as-written Match equals the intended one exactly when the last matched code point is in the BMP |
| Scanners.EndIndexAgreesInBmp | src/main/java/io/carpe/hyperscan/wrapper/Scanner.java:141 | When the last matched code point is in the BMP, the intended end index equals the written one |

## Left out

- The native engine (JNA bindings in `jna/`, regex compilation and matching) is an oracle, `Domain.Engine`. Its calls are total functions of their arguments, so native state such as a reused scratch reallocated in place is not modelled.
- GC-driven `finalize` timing and the one-scanner-per-thread rule are about concurrency. Only sequential close/finalize idempotence is modelled.
- `Scanner.getIsValidPlatform` and `Scanner.getVersion` are pure native queries. `toString` and the plain getters of the expression and match classes are formatting and field reads.
- Freeing the `hs_expression_info` info and error records in hyperscanValidate is not modelled. Only the compile-error record that handleErrors frees is tracked.
- Scanners.Scanner.AllocScratch: on failure the native call may still have written the reference's pointer. The model keeps the reference as it was passed, because the engine's reply does not say.
- HyperscanUtils.Utf8ByteIndexesMapping: the `throw new Error()` for code points above 0x1FFFFF is not modelled. No Java String can reach it, and Dafny's `char` cannot express such a value.
- Lone surrogates in a Java String are not modelled: a Dafny string is always well-formed.
- The `(int) tuple[0]` id cast is not modelled, because the callback receives the id as an int.
- The `long` offsets the callback receives are not themselves bounded to 64 bits; Scanners.LongToInt reduces them modulo 2^32 as Java's `(int)` cast does.
- Flag enums are represented by `EnumConstant` values (name, whether the enum implements HyperscanBitFlag, and `getBits()`), because the flag enum classes are not part of this model.
- Null EnumSet arguments are not modelled. Java would throw NullPointerException while iterating. A null single flag is modelled (`EnumSet.of(null)` throws).
- A NullPointerException that the JVM raises itself (`EnumSet.of(null)`) has its message left unspecified, as `None`.
- ChimeraExpressions.ChimeraValidate: the contract does not state that the temporary database is closed after a successful compile; the close is a call on a database no caller can see.
- ChimeraDatabases.ChimeraDatabase.GetExpression: Java returns a reference to the stored expression object; the model returns the expression value, so two equal expressions cannot be told apart.
- Domain.Error records a HyperscanException's cause as the engine code it translates, not as a nested exception. HyperscanUtils.Cause rebuilds the exception from that code.
- Validation.ValidationResult is shared by both expression classes, because their two inner classes are identical.
- Scanners.Scanner.Scan, Scanners.Scanner.ToMatches, Scanners.Scanner.ToMatch, Scanners.MatchOf and Scanners.ScanResult are used with the corrected end index (`Intended`, see Findings). As written, the end index is one unit short after a supplementary code point; the same functions with the `AsWritten` end rule keep that version, and Scanners.AsWrittenAgreesExactlyInBmp relates the two.

## Findings

| source | as written | input that shows it | evidently intended | confidence | as-written member | corrected member |
|---|---|---|---|---|---|---|
| src/main/java/io/carpe/hyperscan/wrapper/Scanner.java:141 | The end index is `byteToIndex[to - 1] + 1`: one past the FIRST unit of the last matched code point. When that code point is supplementary, the end falls between the two units of its surrogate pair | Scanning "\U{1F600}" with a pattern matching the whole text gives triple (id, 0, 4) and mapping [0, 0, 0, 0], so the end index is 1. With EXTRACT_MATCHED the text is the lone high surrogate U+D83D | The end is one past the last matched code point: +2 when its first unit is a high surrogate | not executed | Scanners.ScanAsWrittenSplitsSurrogatePair | Scanners.MatchSpansCodePoints |

An empty match at the very end of the text, which patterns such as `$` report, makes scan throw ArrayIndexOutOfBoundsException: the clamp at src/main/java/io/carpe/hyperscan/wrapper/Scanner.java:138 guards only the read for `to`, and the read for `from` at line 140 is one past the mapping. This is probably unintended; it is recorded as written in Scanners.EmptyMatchAtEndFails and not corrected, so Scanners.Scanner.Scan keeps this exception.
