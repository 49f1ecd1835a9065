# JSON5 plugin: a Dafny model and its proofs

The JSON5 plugin is mostly configuration of a parsing engine. What it carries of its own are a number of
self-contained algorithms, most of them written three times, in TypeScript, Go and Rust, with promises that
range over all inputs. This project models those algorithms as the code has them and proves the promises.

- **Radix literals as doubles** (`Bits`, `Double`, `DoubleProofs`, `RadixDigits`, `RadixLiteral`,
  `RadixSpelling`, `UppercaseHex`). A binary, octal or hexadecimal literal of any length becomes a double from a
  128-bit head and one sticky bit. `Double.RoundNat` is rounding half to even, section 4.3.1 of IEEE 754-2008;
  `Double.IsNearestEven` says what that means without computing it, and `NearestEvenUnique` that the meaning has
  one answer. The long path is proved equal to `RoundNat` of the whole integer. `RadixSpelling` writes every
  number by division, with any separators, and it is read back. Rust's `u128 as f64` is taken to be `RoundNat`.
- **The streaming renderer** (`Renderer`, `RenderProofs`, `RenderTheorems`, `RenderReader`, `RenderRefusals`).
  The stack machine of `render.alc` is shown to accept exactly the walks of trees, to write the recursive
  printing of the tree, to end records where its header says, and to give the reason of the first event that no
  tree goes on with.
- **String literals with line continuations** (`StringLiteral`, `Utf`, `Surrogates`, `TsString`, `GoString`,
  `RustString`, `StringTheorems`, `StringAgreement`, `StringPlaces`, `StringSpelling`, `ScanSpelling`). One
  specification, section 7.8.4 of ECMA-262 5.1 as the grammar configures it, over any character unit. The three
  scanners and readers are methods over their own units (UTF-16 code units, UTF-8 bytes) proved against it, and
  then the ports are compared. `StringSpelling` and `ScanSpelling` say what a literal may be written as, from
  tables of characters and numbers written by division, and that it is read as exactly that. Rows and columns
  are proved in TypeScript and Go against a fold over the source's characters that knows nothing of escapes'
  lengths. The results hold for every configuration of the string options; `StringLiteral.GRAMMAR` is the
  grammar's own.
- **The value walk and the handle table of the C library** (`ValueWalk`, `ValueMeaning`, `ValueWalkProofs`,
  `HandleTable`). The walk is a class with its on-path set; its answer is related to paths in the heap, and
  `ValueMeaning` says apart from it what a value leads to and what is valid text. The table is a transition
  system in which any number of threads interleave at every action on the shared state; its log has every
  thread's calls, what they did, and what they answered.
- **The canonical form of the conformance suite** (`Canon`, `CanonDecoder`, `CanonTheorems`, `CanonSpelling`,
  `GoCanon`), with a decoder, what the form of a number is by its IEEE 754 fields and that of a string by its
  units, and the agreement of the copies that sort whole entries. `Ordering` holds lexicographic order and
  sorting by a key, which stands for the languages' library sorts.
- **The TOML reader of the release tools** (`TomlSyntax`, `TomlTree`, `TomlBuild`, `TomlRun`, `TomlOnly`,
  `TomlRefusals`, `TomlLexer`, `TomlReader`, `TomlPrint`, `TomlSpelling`). `TomlSyntax` reads a text without a
  cursor, into statements; `TomlBuild` and `TomlRun` say on heaps as values what statements make of a tree and
  what no later one undoes, `TomlOnly` that the tree holds nothing else, and `TomlRefusals` which statements are
  refused; the cursor and the reader are classes proved equal to both; `TomlPrint` writes statements in any
  layout, and they are read back.
- **Smaller readers**: whether a source holds a value (`HasValue`), unquoted keys (`IdentifierName`), and the
  literals that embed the grammar (`EmbedGrammar`).

`Wrappers` declares `Option` and `Folded`, and `Numerals` what it is for digits to write a number. Loops of the
source are loops here, proved against specification functions; code made of expressions is functions. A `ghost`
parameter such as `text` names the characters that a byte string encodes. `Folded` is always true: it keeps a
loop's invariant folded.

## What the proofs show to be false

- **Uppercase hexadecimal in Go** goes through a 64-bit integer. `UppercaseHex.GoMatchesExactly` says when it
  still gives the other ports' value: up to half a unit above `2^63`, and for no negative zero.
  `GoDropsNegativeZero` and `GoSaturates` are literals on the other side.
- **Positions in backtick strings** differ between TypeScript and Go. Rows are one if and only if the body holds no raw
  U+2028 or U+2029, and places are one if and only if, besides, no astral character stands in it after the last
  place where a column starts again: `StringPlaces.PortsPart`. `PlacesPartAtSeparator` and `PlacesPartAtAstral`
  are literals on the other side.
- **The value walk's reason** is said not to depend on map iteration order (go/clib/core.go:435-437). A kind of
  keys makes it so for every heap if and only if the keys are strings: `KeyKindDecides`. For one map with other
  keys it is so if and only if all the values that have a reason have the same: `OtherMapOrderMatters`.
  `TwoReasons` is a map with two. Whether there is a reason never depends on it (`NoOrderHidesTrouble`).
- **Re-running the embedding** changes nothing exactly when the opening marker comes first and the content has
  no closing marker: `EmbedGrammar.SpliceIdempotent`. The tool checks neither. With the closing marker for
  content it never settles: `EndMarkerNeverSettles`.
- **The embedded literals** evaluate to the grammar exactly when it has no carriage return (TypeScript), no
  carriage return, U+0000 or U+FEFF (Go), no carriage return, no `"#` and, unless a lint is turned off, no
  character that turns the direction of text (Rust); the tool checks only the `"#`: `TemplateIsGrammar`,
  `GoConstantIsGrammar`, `RustLiteralIsGrammar`. `TemplateTurnsReturn`, `GoDropsReturn` and `RustTurnsLineEnd`
  are grammars on the other side.

## Model

| member | source | states |
|---|---|---|
| RadixDigits.DigitsToF64IsNearestEven | rs/src/lib.rs:1002-1054 | for digits of width 1, 3 or 4 and any length the result is the nearest double to the exact integer, ties to even, and infinity exactly from half a unit below 2^1024 |
| RadixDigits.DigitsToF64IsRoundNat | rs/src/lib.rs:1015-1054 | the short path, and the long path over leading zeros, both round the whole integer once |
| RadixDigits.LongPathIsRoundNat | rs/src/lib.rs:1034-1053 | head, shift, half bit and sticky bit decide the rounding of the whole integer, and the power of two scales it without a second rounding |
| RadixDigits.HeadMantissaRoundsWhole | rs/src/lib.rs:1040-1052 | the head rounded on half bit, sticky bit and parity is the whole integer rounded |
| RadixDigits.ProductIsPack | rs/src/lib.rs:1053 | the float product of a rounded significand and a power of two is exact, or infinite from 2^1024 on |
| RadixDigits.PowerOfTwoValue | rs/src/lib.rs:1003-1011 | pow2 assembles the bit pattern of 2^k, and infinity past the largest exponent |
| RadixDigits.PackIsValue | rs/src/lib.rs:1020-1034 | the fold of shifts that packs a digit run gives its positional value |
| RadixDigits.LeadingZerosDrop | rs/src/lib.rs:1015-1020 | leading zero digits do not change the value |
| DoubleProofs.RoundNatIsNearestEven | rs/src/lib.rs:1002-1034 | the integer conversion picks a nearest double among all finite ones, an even one of two, and overflows where IEEE 754 says |
| DoubleProofs.NearestEvenUnique | rs/src/lib.rs:1002-1034 | correct rounding has one answer, so the property pins every bit of the result |
| DoubleProofs.OverflowExact | rs/src/lib.rs:1002-1034 | rounding gives infinity exactly from half a unit in the last place below 2^1024 |
| RadixLiteral.RadixLiteralValue | rs/src/lib.rs:1056-1096 | reads exactly the signed prefixed literals, separators removed, and gives the sign and the nearest double of the exact integer; which those are is said by `RadixSpelling` |
| RadixSpelling.RadixReads | rs/src/lib.rs:1056-1096 | an optional sign, `0`, one of `x X o O b B`, and digits that write n by division in its radix, in either letter case, with separators anywhere among them, are read as n, as the sign, and as the double nearest to n |
| RadixSpelling.RadixReadsExactly | rs/src/lib.rs:1056-1096 | a literal has a value if and only if it is so written, and it is the value of the number written |
| RadixSpelling.RadixAccepts | rs/src/lib.rs:1056-1096 | nothing but texts so written is accepted |
| RadixSpelling.EveryNumberIsRead | rs/src/lib.rs:1079-1095 | every number, written in any of the radices and either case, is read as its nearest double |
| UppercaseHex.GoMatchesExactly | go/json5.go:747-759 | the 64-bit detour gives the other ports' value if and only if the magnitude is at most 2^63 + 1024 and it is no negative zero |
| UppercaseHex.GoDropsNegativeZero | go/json5.go:747-759 | `-0X0` loses its sign in Go alone |
| UppercaseHex.GoSaturates | go/json5.go:747-759 | `0X10000000000000000` is 2^63 in Go and 2^64 elsewhere |
| UppercaseHex.RoundsToTwo63 | go/json5.go:757-758 | the integers from 2^63 on that round to 2^63 are those up to 2^63 + 1024 |
| RenderTheorems.RenderAcceptsExactlyWalks | alchemy/render.alc:134-172 | a render run succeeds if and only if its events are the walk of a tree, and then writes that tree's records |
| RenderTheorems.WalkDeterminesTree | alchemy/render.alc:139-161 | one event sequence is the walk of at most one tree |
| RenderTheorems.StepsAcceptExactlyPrefixes | alchemy/render.alc:134-161 | a step is refused exactly when no tree's walk goes on with the events so far |
| RenderTheorems.RenderWritesPrint | alchemy/render.alc:169-172 | the text of a tree's render is its recursive compact printing and one line feed, in one record for a scalar and n + 2 for a container of n children |
| RenderTheorems.RunSimulates | alchemy/render.alc:134-161 | in every run, failed ones too, the markers and the text are those of the partly built tree of the accepted events |
| RenderTheorems.RunRecords | alchemy/render.alc:120-132 | in every run the text before each record end is the root's opener and the whole text of a whole number of its children |
| RenderTheorems.ItemPrefixAt | alchemy/render.alc:120-132 | the n-th record of a root array ends after its opener and its first n items joined by commas |
| RenderTheorems.MemberPrefixAt | alchemy/render.alc:112-132 | the same for a root object |
| RenderTheorems.ReachableStack | alchemy/render.alc:43-60 | every reachable state is empty, the lone root-done marker, or markers of which those below the top are members or arrays, as many as containers opened and not closed |
| RenderTheorems.CompletionGoesOn | alchemy/render.alc:134-167 | every accepted event sequence goes on to the walk of some tree |
| RenderProofs.ValueSimulates | alchemy/render.alc:148-150 | the scalar step does to markers, text and records what the scalar does to the partly built tree |
| RenderReader.RenderRoundTrip | alchemy/render.alc:169-172 | a reader of the tokens gets the tree back from the render of its walk |
| RenderRefusals.RunEnds | alchemy/render.alc:85-167 | a run ends well, or fails for the first event that no tree goes on with, for the reason that the open containers give, or for want of a value or of an end |
| TsString.ScanString | ts/src/json5.ts:256-277 | the two bits are the scan's: a forbidden escape, and a continuation, before the closing quote |
| TsString.Lexer.ReadContinuedString | ts/src/json5.ts:302-407 | token and point are those of the literal's reading: the value in code units, or the error with its place, or unterminated at the quote |
| TsString.Lexer.FixedCheck | ts/src/json5.ts:418-430 | the check reads exactly the strings with a continuation, refuses those with a forbidden escape at the quote, and moves nothing otherwise |
| TsString.EscapeTurn | ts/src/json5.ts:327-403 | one escape is decoded, refused or continued as the specification has it |
| GoString.HexValue | go/json5.go:296-314 | exactly n hex digits, or -1 |
| GoString.ScanStringEscapes | go/json5.go:78-110 | the byte walk finds what the character scan finds |
| GoString.Lex.ReadContinuedString | go/json5.go:137-292 | token and cursor are those of the character reading, offsets in bytes and the value decoded from its code units |
| GoString.Lex.FixedCheck | go/json5.go:651-675 | the same decision as the specification's, with Go's token and cursor |
| RustString.HexDigitsExact | rs/src/lib.rs:818-824 | the digits at a byte offset are those of the characters; the boundary test refuses nothing more |
| RustString.DecodeContinuedString | rs/src/lib.rs:698-814 | the reading of the literal, and the characters counted are those of the bytes counted |
| RustString.ScanStringEscapes | rs/src/lib.rs:511-542 | the byte walk finds what the character scan finds |
| RustString.ReadContinuedString | rs/src/lib.rs:644-694 | the check's decision, token and advance in characters |
| Surrogates.EmitUnit | rs/src/lib.rs:829-847 | after any code units the text written and the half held stand for their UTF-16 decoding, whatever follows |
| Surrogates.FlushedIsDecoding | go/json5.go:154-175 | flushed at the end, the text is the decoding, each unpaired half folded to U+FFFD |
| Surrogates.CharRepresents | rs/src/lib.rs:807-810 | a raw character ends a held half and stands for its own code units |
| Utf.EncodingsOfExamples | go/json5.go:154-175 | characters of one to four bytes and of one and two code units have the encodings of RFC 3629 and RFC 2781 |
| StringTheorems.ScanAgrees | ts/src/json5.ts:256-407 | a token ends just past the quote where the scan stopped, a reading is unterminated only if the scan ran off the end, and a continuation was read if and only if the scan saw one |
| StringTheorems.ContinuationIsTransparent | go/json5.go:201-255 | a continuation put between two items of a readable literal leaves every code unit of the value, read in code units or in characters, between the halves of an escaped pair too |
| StringTheorems.ContinuationCompletesNothing | rs/src/lib.rs:720-789 | a continuation put among the characters of a `\x` or `\u` escape refuses the literal at that escape's backslash, the items before it unchanged |
| StringPlaces.PlaceIsSourcePlace | ts/src/json5.ts:313-403 | in TypeScript and in Go and for every configuration, row and column past a literal are a fold over the characters of its source span, in which only a backslash is remembered: rows rise at continuations ending in LF, CRLF, U+2028 or U+2029 and at the raw line characters of a multi-line body |
| StringPlaces.OneLineStays | ts/src/json5.ts:399-401 | in a single- or double-quoted literal without a backslash the row stays and the column is the count of the characters |
| StringPlaces.PortsPart | go/json5.go:266-275 | read from one text in code units and in characters, the rows differ by the raw separators, and the places are one if and only if there is none and no astral character since a column last started |
| StringPlaces.PlacesPartAtAstral | ts/src/json5.ts:388-401 | a backtick string with an astral character after a continuation leaves the ports at different columns of one row |
| StringPlaces.PlacesPartAtSeparator | ts/src/json5.ts:388-393 | a raw U+2028 leaves them in different rows |
| StringAgreement.VerdictsAgree | ts/src/json5.ts:418-430 | over scalar values the fixed check decides alike in every port, and readings agree in code units, kind of ending and place |
| StringAgreement.GoMatchesTypeScript | go/json5.go:150-292 | Go's value is the decoding of TypeScript's code units, errors are of one kind at corresponding characters, and rows agree |
| StringAgreement.RustMatchesGo | rs/src/lib.rs:698-814 | Rust on the rest of the source reads what Go reads in place |
| StringAgreement.SameTextIffPaired | go/json5.go:150-175 | the ports' values are one text exactly when no half of a pair is alone |
| StringLiteral.HexRunExact | go/json5.go:296-314 | a run of n hex digits reads as u if and only if its characters write u by division, in either letter case |
| StringSpelling.LiteralIsWritten | ts/src/json5.ts:302-407 | a literal is read to its closing quote if and only if it is written in parts, raw characters, escapes from a table, hex and Unicode escapes that write their units, other characters after a backslash, and line ends after one, each where the options allow it, and the items are those parts |
| StringSpelling.LiteralValue | go/json5.go:137-292 | the value is what the parts stand for: the code units in TypeScript, and their decoding in Go and Rust |
| StringSpelling.PairDecodes | rs/src/lib.rs:829-847 | two escapes that write the halves of an astral character stand for that character |
| StringSpelling.LoneHalfDecodes | go/json5.go:154-175 | one half alone stands for U+FFFD in Go and Rust |
| StringSpelling.RawLineEnd | ts/src/json5.ts:418-430 | a raw line end is read in a backtick string alone, and refused where it stands in the others |
| StringSpelling.RefusalIs | ts/src/json5.ts:302-407 | a literal is refused at a raw character that may not stand in it, at a hex or Unicode escape without its digits, or at a character without a meaning where the options do not allow one, and the error token spans what it should |
| StringSpelling.ForbiddenIs | ts/src/json5.ts:256-277 | the refused escapes are decimal digits but a lone zero, and `u` with a brace |
| StringSpelling.LineEndMoves | ts/src/json5.ts:343-353 | a continuation begins a row, but for one of a lone CR, which takes two columns |
| StringSpelling.RawMoves | go/json5.go:266-275 | what a raw character does to row and column, by port |
| ScanSpelling.ScanIs | ts/src/json5.ts:256-277 | over a text that falls into characters and backslash pairs, the scan stops at the first quote that is no part of a pair, and its bits say whether some pair is refused and whether some pair is a continuation |
| ScanSpelling.CheckIs | ts/src/json5.ts:418-430 | a string without a continuation is left to the engine, one with a refused escape is refused, and every other is read |
| ValueWalkProofs.JsonUnsafe | go/clib/core.go:308-319 | no reason if and only if every path is sound, and otherwise the reason of the first trouble in the order of emission |
| ValueWalk.UnsafeWalk.Walk | go/clib/core.go:339-368 | terminates on every heap, restores the on-path set, and answers the value's reason |
| ValueWalk.UnsafeWalk.Container | go/clib/core.go:372-399 | nil, empty and byte slices are clean, a container on the path is a cycle, and others answer for their contents with the path restored |
| ValueWalk.UnsafeWalk.OrderedNode | go/clib/core.go:423-433 | keys in order, each before its value |
| ValueWalk.UnsafeWalk.Entries | go/clib/core.go:438-453 | string keys sorted |
| ValueWalk.UnsafeWalk.Elems | go/clib/core.go:455-462 | the first element with a reason |
| ValueWalk.UnsafeWalk.Fields | go/clib/core.go:467-488 | the fields encoding/json emits and no others |
| ValueMeaning.ValidExactly | go/clib/core.go:354-357 | bytes are valid if and only if they are the UTF-8 encoding of a text |
| ValueMeaning.LeadsToParts | go/clib/core.go:339-488 | what a value emits is what it leads to: its target, its elements unless they are bytes, its keys and values, its written fields |
| ValueMeaning.FieldsAre | go/clib/core.go:467-488 | the values emitted of a struct are those of the fields that have no `-` tag and are exported or are embedded structs |
| ValueMeaning.FieldAlone | go/clib/core.go:467-488 | a field alone is emitted if and only if it has no `-` tag and is exported or an embedded struct |
| ValueMeaning.FieldsInOrder | go/clib/core.go:467-488 | they are emitted in the order of the fields |
| ValueMeaning.PairsInOrder | go/clib/core.go:423-433 | keys are emitted in order, each right before its value |
| ValueWalkProofs.CleanIffSound | go/clib/core.go:294-319 | no reason if and only if no path, from each value to one it leads to, ends at text that is no UTF-8 encoding or at a big number, and none meets a container again; sharing is no cycle |
| ValueWalkProofs.ReasonIsThere | go/clib/core.go:272-278 | each reason has a path to what it names: text that encodes nothing, a big number, or a container met again |
| ValueWalkProofs.WalkFindsFirst | go/clib/core.go:308-488 | the reason is that of the first trouble in the order of emission |
| ValueWalkProofs.StringMapOrderIsNothing | go/clib/core.go:435-443 | the order in which maps give string keys never matters |
| ValueWalkProofs.OtherMapOrderMatters | go/clib/core.go:439-453 | for other keys every order of the values gives one reason if and only if all the values that have a reason have the same |
| ValueWalkProofs.KeyKindDecides | go/clib/core.go:435-453 | the reason is free of the order in which maps give their keys, on every heap, if and only if the keys are strings |
| ValueWalkProofs.TwoReasons | go/clib/core.go:450-453 | a map of a big number and bad text answers either reason, by its order |
| ValueWalkProofs.NoOrderHidesTrouble | go/clib/core.go:435-453 | whether there is a reason depends on no order |
| HandleTable.HandlesNeverReissued | go/clib/core.go:185-190 | in every interleaving handles are issued in increasing order, each with its own instance, also after frees |
| HandleTable.ParsesExclude | go/clib/core.go:233-235 | at most one thread is inside an instance's parse |
| HandleTable.WritersExclude | go/clib/core.go:185-189 | while a thread updates the table no other reads or updates it |
| HandleTable.LookupExact | go/clib/core.go:226-231 | a parse finds an instance if and only if its handle was loaded before and not freed between, and it is that load's |
| HandleTable.FreedStaysDead | go/clib/core.go:499-503 | a lookup that follows the free of its loaded handle finds nothing, and what its thread does next is to answer the handle failure |
| HandleTable.CallAfterFree | go/clib/core.go:226-231 | a call to parse a handle that was freed before the call answers the handle failure, however many loads come between |
| HandleTable.AnswerTells | go/clib/core.go:168-235 | in every interleaving a load answers the handle it stored, a parse the handle failure if and only if its own lookup found nothing and otherwise what the instance found parsed, and a free deletes its own handle |
| HandleTable.LookupDecides | go/clib/core.go:229-233 | after a lookup a thread answers the handle failure if it found nothing, and otherwise enters the instance found |
| HandleTable.ParsesItsOwn | go/clib/core.go:225-235 | in every reachable state a thread that waits for or is inside an instance looked its handle up last and found that instance, which the live load of the handle had made |
| HandleTable.NoDeadlock | go/clib/core.go:225-235 | while any thread is busy some thread can act, with waiting writers ahead of new readers |
| HandleTable.RunInv | go/clib/core.go:56-72 | every state of every run keeps the locks, the counter, the table and where each thread stands in step with the log |
| Canon.Quote | scripts/gen-json5-expected.js:60-77 | the ASCII quoted form, unit by unit |
| Canon.CanonNumber | scripts/gen-json5-expected.js:79-90 | the byte loop spells the sixteen digits of the bits, and the three names |
| CanonSpelling.NumberByFields | scripts/gen-json5-expected.js:79-90 | the form is "NaN" if and only if the exponent field is 2047 and the significand is not 0, "Infinity" or "-Infinity" if and only if it is 2047 and the significand is 0, by the sign bit, and otherwise a hash and the sixteen digits that write the bits |
| CanonSpelling.QuotedIsWritten | scripts/gen-json5-expected.js:60-77 | a text is the quoted form of a string if and only if it is, between double quotes, each unit in order: printable ASCII itself, quote and backslash behind a backslash, any other by four digits that write it |
| CanonSpelling.TwoMembers | scripts/gen-json5-expected.js:98-103 | members stand as `key:value` with commas between, in order of their quoted keys, whichever came first |
| CanonSpelling.CanonOfExample | scripts/gen-json5-expected.js:92-105 | a whole value written out, the same for both orders of its members |
| CanonTheorems.RoundTrip | scripts/gen-json5-expected.js:92-105 | a decoder reads every canonical form back as the value's tree, whatever follows it |
| CanonTheorems.CanonNamesTree | scripts/gen-json5-expected.js:92-105 | two values have one form if and only if they are equal as trees with unordered members and one NaN, which is told by the exponent and the significand |
| CanonDecoder.QuotedIsPrefixFree | scripts/gen-json5-expected.js:60-77 | no quoted form begins another |
| CanonTheorems.WholeSortAgrees | go/suite_test.go:148-161 | sorting whole `key:value` entries is sorting by quoted key, for distinct keys |
| GoCanon.CanonQuote | go/suite_test.go:49-70 | the quoted form of a text's code units |
| GoCanon.CanonValue | go/suite_test.go:85-136 | the recursion computes the copy's form |
| GoCanon.CanonPairs | go/suite_test.go:140-162 | keys without a value are passed over and the entries sorted |
| GoCanon.CopiesAgree | rs/tests/suite_test.rs:79-109 | the Go and Rust copies give the generator's form of the same value |
| GoCanon.CopiesNameTree | go/suite_test.go:85-162 | so the copies' forms name values as the generator's do |
| Ordering.SortedUnique | go/suite_test.go:160 | with distinct keys a sorted order is unique |
| Ordering.FirstDifferenceDecides | scripts/gen-json5-expected.js:101 | of two texts the one with the lesser unit at the first difference comes first |
| Ordering.PrefixIsBefore | scripts/gen-json5-expected.js:101 | and a text comes before what goes on from it |
| HasValue.HasValueScan | rs/src/lib.rs:886-929 | the scan answers no exactly on trivia to the end |
| HasValue.NoValueIffSplits | ts/src/json5.ts:704-751 | no value if and only if the source splits into white space, whole line comments, closed block comments and, when enabled, hash comments |
| HasValue.SpacesAre | ts/src/json5.ts:756-758 | white space is the twenty-five characters of ECMAScript's white space and line terminators |
| HasValue.PrefixIsNothing | go/json5.go:1010-1058 | a prefix without a value and a line feed never change the answer for what follows |
| HasValue.HashOnlyTakesAway | ts/src/json5.ts:716-724 | enabling hash comments only turns a value into none |
| HasValue.PortsAgree | go/json5.go:1011-1015 | code units and characters give one answer |
| HasValue.ParseWith | rs/src/lib.rs:1517-1555 | requireValue refuses the empty source and slash trivia; without it trivia is the empty source; all else reaches the engine unchanged |
| IdentifierName.DecodesExactlySpellings | rs/src/lib.rs:451-490 | a name is returned if and only if the source is a spelling of it, each character raw or as an escape whose four digits write it by division, and it is a legal IdentifierName: `$`, `_` or a letter first, and those, joiners or marks after it |
| IdentifierName.DecodingIsIdempotent | ts/src/json5.ts:54-76 | decoding a decoded name changes nothing |
| IdentifierName.GoDecode | go/json5.go:584-625 | the byte loop decodes, on bytes that need not be UTF-8 |
| IdentifierName.RustDecode | rs/src/lib.rs:451-490 | the byte loop gives the decoding of the characters |
| IdentifierName.TsDecode | ts/src/json5.ts:54-76 | the code-unit loop gives the name in code units, on any code units |
| IdentifierName.PortsDecodeAlike | go/json5.go:584-625 | one key has one name in the three ports |
| EmbedGrammar.OnePass | ts/embed-grammar.js:32-35 | the three replacements in turn are one character-wise escaper |
| EmbedGrammar.TemplateIsText | ts/embed-translate.js:52-57 | a text in backticks evaluates to the text if and only if it has no carriage return |
| EmbedGrammar.TemplateIsGrammar | ts/embed-grammar.js:32-39 | the embedded template evaluates to the grammar, a line feed first, if and only if it has no carriage return |
| EmbedGrammar.TemplateTurnsReturn | ts/embed-grammar.js:32-39 | a lone carriage return comes out as a line feed |
| EmbedGrammar.GoConstantIsGrammar | ts/embed-grammar.js:45-57 | the joined raw strings are taken by the compiler and evaluate to the grammar if and only if it has no carriage return, no U+0000 and no U+FEFF |
| EmbedGrammar.GoDropsReturn | ts/embed-grammar.js:45-49 | a lone carriage return is dropped |
| EmbedGrammar.RustLiteralIsGrammar | ts/embed-grammar.js:59-74 | the raw string, read as the compiler reads lines, is the grammar if and only if it has no `"#` and no carriage return, and no lint denies it if and only if no character in it turns the direction of text |
| EmbedGrammar.RustTurnsLineEnd | ts/embed-grammar.js:59-74 | CRLF comes out as a line feed, `"#` ends the literal early, and U+202E is denied |
| EmbedGrammar.Embed | ts/embed-grammar.js:18-29 | nothing is written exactly when a marker is missing; otherwise what stands before the first opening marker and after the first closing one is kept, and the content stands between them on lines of its own |
| EmbedGrammar.SpliceIdempotent | ts/embed-grammar.js:18-29 | a second run changes nothing if and only if the markers are in order and the content has no closing one |
| EmbedGrammar.EndMarkerNeverSettles | ts/embed-grammar.js:18-29 | with the closing marker for content the splice is made, and a second run changes the text again |
| TomlReader.Reader.Parse | tools/port-deps.cjs:476-489 | a text is accepted if and only if it is a list of statements that can be done in order, the tree is theirs, each pair of the text stands in it at its own keys below its own header with its own value, no other way in it leads to a value, and the line is one plus the line feeds consumed |
| TomlReader.Reader.ReadPair | tools/port-deps.cjs:480-488 | a key/value statement does what the pair at the place does, its node marked with the line it begins on, and ends where its line ends |
| TomlReader.Reader.ReadHeader | tools/port-deps.cjs:434-474 | a header does what the header at the place does, and ends where its line ends |
| TomlReader.Reader.ReadValue | tools/port-deps.cjs:384-429 | the nodes made are those of the value that stands at the place, and the cursor stops where it ends |
| TomlReader.Reader.Assign | tools/port-deps.cjs:367-382 | the walk down the parts, tables made on the way, is the one on heaps as values |
| TomlReader.Reader.Open | tools/port-deps.cjs:442-473 | the walk from the root to the table a header is about is the one on heaps as values |
| TomlRun.PairStaysBound | tools/port-deps.cjs:476-489 | in every accepted text each pair is found in the final tree at its header's keys and its own, where nothing was bound before it, with its value |
| TomlRun.PairsApart | tools/port-deps.cjs:380-381 | no two pairs of an accepted text are bound at one place |
| TomlRun.HeaderStaysOpen | tools/port-deps.cjs:458-473 | every header's table stands in the final tree where its keys lead, open and marked |
| TomlRun.HeadersApart | tools/port-deps.cjs:458-473 | no two headers open one table: a table is opened once, and double brackets add one |
| TomlRun.RunGrows | tools/port-deps.cjs:476-489 | no statement takes away a key, an item or a value, no way dangles, and the current table is open where its way leads |
| TomlRun.DoKeeps | tools/port-deps.cjs:434-488 | one statement: a pair binds a new settled node below the current table, a header makes current a table that was not opened |
| TomlBuild.AssignBinds | tools/port-deps.cjs:367-382 | the keys led nowhere, now they lead to the node, and the nodes that were there gain one binding and nothing else |
| TomlBuild.BuildBuilds | tools/port-deps.cjs:384-429 | a value's nodes are new, lead only to one another, and say the value on its line; what was there is untouched |
| TomlOnly.TreeIsText | tools/port-deps.cjs:476-489 | a way from the root of an accepted text's tree leads to a value if and only if it goes by the keys of a pair's header and its own, and on by the keys of entries of inline tables |
| TomlOnly.OnlyPairs | tools/port-deps.cjs:434-488 | in every state of a run the heap is a tree, in which one way at most leads to a node, and each way to a value is that of a pair done before |
| TomlOnly.AssignOnly | tools/port-deps.cjs:367-382 | after an assignment a way is one that was there, or goes by the keys assigned, or ends at a table made for them |
| TomlOnly.BuildOnly | tools/port-deps.cjs:384-419 | below a value's node a way leads to a value only by the keys of its entries |
| TomlRefusals.AssignAccepts | tools/port-deps.cjs:367-382 | an assignment is refused if and only if its keys lead somewhere already, or a part of them leads to anything but a table that is not inline |
| TomlRefusals.OpenAccepts | tools/port-deps.cjs:442-473 | a header is refused if and only if its way goes through anything but such a table, an array of tables standing for its last one, or its last key is taken: by no array of tables for double brackets, or by anything but a table no header has opened for single ones |
| TomlRefusals.DoAccepts | tools/port-deps.cjs:434-488 | a statement is done if and only if the tree before it allows it |
| TomlTree.FollowKeeps | tools/port-deps.cjs:367-382 | a way down the tree leads where it led |
| TomlPrint.WrittenReadsBack | tools/port-deps.cjs:476-489 | any statements, with any keys, strings, scalars, dates with times, arrays and inline tables, written one a line in any layout, names bare or quoted, blanks between the parts, comments, a last comma or none, are read back as they were, each on its line |
| TomlPrint.ValueReads | tools/port-deps.cjs:384-429 | a written value is read back where it stands |
| TomlSpelling.DocumentOfExample | tools/port-deps.cjs:476-489 | a document written out character by character is read as its two statements |
| TomlSpelling.EscapeExactly | tools/port-deps.cjs:293-308 | an escape is read as a code if and only if it is a letter of the table that stands for it, or `x`, `u` or `U` and the two, four or eight digits that write it, up to U+10FFFF |
| TomlSpelling.LiteralReads | tools/port-deps.cjs:336-343 | between apostrophes characters stand for themselves |
| TomlSpelling.LongLiteralReads | tools/port-deps.cjs:314-335 | between three apostrophes too, with up to two more at the end that belong to the string |
| TomlSpelling.LongOpens | tools/port-deps.cjs:314-316 | a line feed right after three quotes is no part of the string |
| TomlSpelling.FoldReads | tools/port-deps.cjs:326-333 | a backslash, fewer than two hundred blanks and a line feed are passed over with all the white space after them |
| TomlSyntax.EscapedReadsBack | tools/port-deps.cjs:293-344 | any characters written in a basic string are read back |
| TomlSyntax.GapIsAllGap | tools/port-deps.cjs:276-283 | what is passed between statements is white space, comments and line feeds, and none of those is left |
| TomlSyntax.ValueOnLine | tools/port-deps.cjs:480-486 | a value stands on the line its statement begins on |
| TomlLexer.Cursor.ReadKey | tools/port-deps.cjs:346-363 | the parts are those of the key at the place, and the cursor stops where it ends |
| TomlLexer.Cursor.ReadString | tools/port-deps.cjs:310-344 | the characters are those of the string at the place, in one line or in three quotes, and the cursor stops past its quotes |
| TomlLexer.Cursor.BlankToLineEnd | tools/port-deps.cjs:329-331 | a backslash folds a line end only if it is within two hundred blanks |
| TomlLexer.Cursor.Gap | tools/port-deps.cjs:276-283 | the cursor stops where the gap ends, with the line counted |

## Left out

- The parsing engine and the jsonic base grammar: `lex.token`, `lexer.advance_chars` and `parser.parse` are not
  in the repository, so a source that goes to the engine is an outcome here (`HasValue.Taken`).
- Plugin installation, option patching, options round trip and version constants: wiring and constants.
- Decimal floats (`parseFloat`, `strconv.ParseFloat`): library code.
- The Unicode tables: letters and marks are predicates (`IdentifierName.Tables`) of characters that are no
  backslash; white space is spelled out.
- The text of Go's error tokens where it would start or end inside a character, and messages of all errors.
- Memory limits and machine widths: lengths are unbounded, also `i64` for the bits dropped in
  rs/src/lib.rs:1043, and `int64` for handles, which would wrap after 2^63 loads.
- `alchemy/transduce.alc`, the translated copies of the renderer, and `quoted`, `scalar-text` and
  `number-class`, whose texts are tokens.
- The marshalling of the C library, and `unsafeOpaque` with its panic recovery: the heap of the model is whole.
- A load that fails before it takes the lock (go/clib/core.go:168-184): it touches no shared state.
- The oracle's `eval`, corpus walking and manifests, and the third copy of the canonical form in
  ts/test/suite.test.ts, which is the generator's.
- GoCanon.CanonValue: does not model the other number types and json.Number, which convert to a float64 first.
- HandleTable.NoDeadlock: does not say which thread acts, so fairness of the locks is not part of it.
- HasValue.ParseWith: does not model Go's entry without requireValue, which gives every source to an engine that
  answers the empty result itself (go/json5.go:969-979).
- HasValue.HasValueScan: does not separate the three copies, which have one text; code units and characters are
  compared by `PortsAgree`.
- TomlReader.Reader.Parse: does not model error messages, which are one refusal here.
- StringPlaces.PlaceIsSourcePlace: does not model Rust's row and column, which are the engine's own advance
  (rs/src/lib.rs:641-643, 791-793); of Rust only the characters it is moved by are proved
  (`RustString.DecodeContinuedString`).
- TomlPrint.WrittenReadsBack: writes every value on the line of its statement and strings in double quotes; the
  other kinds of strings are read by `TomlSpelling`.
- EmbedGrammar.TemplateIsGrammar: reads only the escapes the escaper writes; another escape has no value here.
