# SQLite collators of couchbase-lite-java-native, in Dafny

This project models the two SQLite collation functions of couchbase-lite-java-native and
proves properties of the model.

- **`JSON` / `JSON_RAW` / `JSON_ASCII`** (`collateJSON`). It compares two JSON texts
  without whitespace token by token. Values of different kinds order by kind, in the
  CouchDB order, or in the Raw rule's own order. Numbers order by value. Strings order in
  one of two ways:
  - under the Unicode rule, by an ASCII fast path with two character-priority tables,
    falling back to a locale compare of the unescaped strings;
  - under the other rules, byte by byte after unescaping.

  Arrays and objects are compared element by element. Two copies of the collator exist:
  - the JNI C++ port (`jni/source/com_couchbase_lite_storage_SQLiteJsonCollator.cpp`);
  - the older C file (`src/main/c/sqlite_json_collator.c`), with its test harness.

  The model keeps two of the ways in which they differ:
  - how a `\u` escape above 127 decodes;
  - how the context pointer carries the rule.

  They also differ in whether the slow path's buffers are freed. They differ, too, in how
  the locale compare is reached. The JNI copy uses the context's ICU collator or a Java
  callback. The older copy uses a global function pointer. "## Left out" covers both.
- **`REVID`** (`collateRevIDs`,
  `jni/source/com_couchbase_lite_storage_SQLiteRevCollator.cpp`). A revision ID
  `<generation>-<suffix>` orders by generation number, then by suffix bytes. An input
  that is not such an ID orders as plain bytes.

Modules follow the program's parts:

| module | file | models |
|---|---|---|
| `Common` | common.dfy | bytes, `cmp`, lexicographic order, `char` signedness |
| `ValueTypes` | value_types.dfy | `valueTypeOf`, the kind orders, the mismatch rule |
| `CharPriority` | char_priority.dfy | `kInverseMap` and `initializeCharPriorityMap` |
| `Escapes` | escapes.dfy | `isXDigit`, `digitToInt`, `convertEscape` in both copies |
| `JsonStrings` | json_strings.dfy | `compareStringsASCII`, `compareStringsUnicodeFast`, `createStringFromJSON`, `compareBinary`, `compareStringsUnicode` |
| `JsonNumbers` | json_numbers.dfy | `strtod` on decimal literals, `readNumber`, `dcmp` |
| `JsonCollator` | json_collator.dfy | `collateJSON`, the two entry points, `sqlite_json_collator_test` |
| `RevCollator` | rev_collator.dfy | `sgn`, `getMin`, `defaultCollate`, `parseDigits`, `collateRevIDs` |

Modelling choices:

- **Memory.** Each text is the readable memory that starts at its address, as a
  `seq<byte>`. The declared length `len` is a separate argument: `collateJSON` uses it
  only for the top-level number read. A read the C code would make past that memory is
  undefined behaviour. The model reports it as the outcome `ReadsPast` (or `Overrun` for
  a single read) and does not guess a value.
- **Non-termination.** `strtod` may read nothing of a number at depth > 0, such as
  `[-]`. That leaves the number's cursor where it was. When only one side is such a
  number, the other cursor moves on, and the next round decides by the kinds. When both
  are, neither cursor moves. The C loop then spins forever; the model returns `Loops`.
- **Loops as methods.** Each loop of the source is a `method` with a `while` loop, proved
  equal to a specification function:
  - `collateJSON`'s do-while loop;
  - the cursor loops of the string comparators;
  - `createStringFromJSON`'s counting and copying loops;
  - `initializeCharPriorityMap`'s table fills;
  - `parseDigits`'s accumulation.
  
  Lemmas state the source's promises about those functions.
- **Copies and platforms.** `Dialect` carries two switches:
  - the escape decoding of one copy (`Decoder(JniPort)` or `Decoder(LegacyPort)`);
  - whether the platform's `char` is signed. This decides how `cmp(c1, c2)` in
    `compareStringsASCII` orders bytes of 0x80 and above.
- **Tables.** The priority tables reach the scan as a `Tables` value in `Config`.
  `Initialized(t)` says they are the ones `initializeCharPriorityMap` builds. The entry
  points pass `BuiltTables()`.
- **Locale compare.** The locale compare the Unicode slow path calls back into Java for
  is a function parameter `uca`. It receives the C strings of the two unescaped buffers.
- **Numbers.** `strtod` reads its decimal forms exactly, as rationals (`Decimal`, and
  `Value` into `real`).

Outside the Raw rule the kinds order by the enum: null < false < true < number < string
< array < object. This is the CouchDB view-collation order, which
`src/main/c/sqlite_json_collator.c:16` links to. So `1` sorts after `false`, and under
the Raw rule before it (`NumberAgainstFalse`).

Two behaviours of the code are kept as written:

- `digitToInt` tests `ch > 'a'` and `ch > 'A'`, so the letters `a` and `A` read as 42
  and 17, not 10. `LetterADigitsMisread` shows the effect on `\u004a` and `\u004A`.
- The harness pads each text with numeric garbage right after its end. A top-level
  number's read is bounded by `len`, so the padding cannot change the result
  (`HarnessIgnoresGarbage`).

## Model

| member | source | states |
|---|---|---|
| Common.Cmp | jni/source/com_couchbase_lite_storage_SQLiteJsonCollator.cpp:89-92 | `cmp` is in {-1,0,1}, negative exactly when the first is smaller, positive exactly when it is larger |
| Common.CmpAntisymmetric | src/main/c/sqlite_json_collator.c:39-42 | swapping the operands of `cmp` negates it |
| Common.CharValue | jni/source/com_couchbase_lite_storage_SQLiteJsonCollator.cpp:229-248 | a `char` promotes to its byte when unsigned or ASCII, and to the byte minus 256 when signed and at least 0x80 |
| Common.CharValueInjective | jni/source/com_couchbase_lite_storage_SQLiteJsonCollator.cpp:226-257 | distinct bytes promote to distinct integers, so a byte-wise tie means equal bytes |
| Common.LexBy | jni/source/com_couchbase_lite_storage_SQLiteJsonCollator.cpp:226-257 | the lexicographic order is in {-1,0,1} and ties only sequences of equal length |
| Common.LexByAntisymmetric | jni/source/com_couchbase_lite_storage_SQLiteJsonCollator.cpp:226-257 | swapping the sequences negates the lexicographic order |
| Common.LexByZero | jni/source/com_couchbase_lite_storage_SQLiteJsonCollator.cpp:226-257 | under a key that tells bytes apart, the order ties exactly equal sequences |
| Common.DigitValue | src/main/c/sqlite_json_collator.c:304-322 | a decimal digit's value is below 10 |
| ValueTypes.ValueTypeOf | jni/source/com_couchbase_lite_storage_SQLiteJsonCollator.cpp:138-176 | each kind is recognised by exactly its leading bytes: `-` and digits for numbers, `n`, `f`, `t`, `"`, `[`, `]`, `{`, `}`, `,`, `:` |
| ValueTypes.ValueTypeOfIsTotal | src/main/c/sqlite_json_collator.c:86-124 | every kind but Illegal has a leading byte, and exactly the other bytes are Illegal |
| ValueTypes.RanksAreDistinct | jni/source/com_couchbase_lite_storage_SQLiteJsonCollator.cpp:119-136 | the enum order and `kRawOrderOfValueType` both give distinct ranks to distinct kinds |
| ValueTypes.MismatchIsStrict | jni/source/com_couchbase_lite_storage_SQLiteJsonCollator.cpp:433-439 | a kind mismatch orders in {-1,0,1}, ties only equal kinds, and is antisymmetric under every rule |
| ValueTypes.RawRanks | jni/source/com_couchbase_lite_storage_SQLiteJsonCollator.cpp:136 | the Raw rule ranks number < false < null < true < object < array < string, with punctuation below and Illegal above all |
| ValueTypes.DefaultRanks | src/main/c/sqlite_json_collator.c:67-80 | the other rules rank null < false < true < number < string < array < object |
| CharPriority.BuiltTables | jni/source/com_couchbase_lite_storage_SQLiteJsonCollator.cpp:99-116 | the finished tables satisfy `Initialized`: the priority of each ASCII byte and its case-folded copy |
| CharPriority.InitializedIsBuilt | src/main/c/sqlite_json_collator.c:49-64 | the tables `Initialized` describes are unique |
| CharPriority.NumberCharacters | jni/source/com_couchbase_lite_storage_SQLiteJsonCollator.cpp:106-109 | the first loop writes each listed byte's 1-based position and leaves every other entry as it was |
| CharPriority.InitializeCharPriorityMap | jni/source/com_couchbase_lite_storage_SQLiteJsonCollator.cpp:104-116 | both tables end as the priorities and the lowercase-folded copy, which are the `Initialized` tables when the arrays start zeroed |
| CharPriority.InverseMapAscii | jni/source/com_couchbase_lite_storage_SQLiteJsonCollator.cpp:105 | `kInverseMap` has 98 entries, all ASCII |
| CharPriority.InverseMapShape | src/main/c/sqlite_json_collator.c:55 | `kInverseMap` is 36 punctuation bytes, the digits in order, then letters as lowercase-uppercase pairs in alphabetical order |
| CharPriority.InverseMapDistinct | jni/source/com_couchbase_lite_storage_SQLiteJsonCollator.cpp:105 | no byte is listed twice in `kInverseMap` |
| CharPriority.PriorityAfterListed | jni/source/com_couchbase_lite_storage_SQLiteJsonCollator.cpp:106-109 | in a list without repeats, the loop gives the byte at index i priority i + 1 |
| CharPriority.PriorityAfterUnlisted | src/main/c/sqlite_json_collator.c:56-58 | the loop leaves priority 0 exactly for the bytes not listed |
| CharPriority.PrioritiesFollowInverseMap | jni/source/com_couchbase_lite_storage_SQLiteJsonCollator.cpp:104-109 | `kCharPriority` is one plus the position in `kInverseMap`, and 0 exactly for unlisted bytes |
| CharPriority.LowercaseBeforeUppercase | jni/source/com_couchbase_lite_storage_SQLiteJsonCollator.cpp:105-115 | a lowercase letter has priority one less than its capital, and both share the capital's case-insensitive priority |
| CharPriority.CaseInsensitiveCollisions | src/main/c/sqlite_json_collator.c:60-63 | two distinct bytes share a case-insensitive priority only when it is 0 or one of them is a lowercase letter and the other its capital |
| Escapes.IsXDigit | jni/source/com_couchbase_lite_storage_SQLiteJsonCollator.cpp:178-187 | `isXDigit` accepts only ASCII bytes |
| Escapes.XDigitAlphabet | jni/source/com_couchbase_lite_storage_SQLiteRevCollator.cpp:42-51 | `isXDigit`, in both collators, accepts exactly the characters `0`-`9`, `a`-`f` and `A`-`F` |
| Escapes.HexValue | jni/source/com_couchbase_lite_storage_SQLiteJsonCollator.cpp:178-187 | not code of the collator: the reference value, from section 7 of RFC 8259, of each digit `isXDigit` accepts, below 16; `DigitToInt` is stated against it |
| Escapes.DigitToInt | jni/source/com_couchbase_lite_storage_SQLiteJsonCollator.cpp:189-201 | non-hex bytes give 0, other hex digits their value, but `a` gives 42 and `A` gives 17 |
| Escapes.CombineDigits | jni/source/com_couchbase_lite_storage_SQLiteJsonCollator.cpp:210-211 | the or of four shifted `digitToInt` values stays below 2^18 |
| Escapes.CombineNibbles | src/main/c/sqlite_json_collator.c:158-159 | when every digit value is below 16, the or is the base-16 number of the four digits |
| Escapes.EscapeWith | jni/source/com_couchbase_lite_storage_SQLiteJsonCollator.cpp:203-224 | an escape reads past the memory exactly when the text ends after the backslash or inside `\uXXXX`; otherwise the cursor ends on its last byte |
| Escapes.Escape | jni/source/com_couchbase_lite_storage_SQLiteJsonCollator.cpp:203-224 | `\b`, `\n`, `\r`, `\t` decode to their controls and any other short escape to its letter; `\u` decodes the or of its digits, 0xFF above 127 in the JNI copy |
| Escapes.ShortEscapesAgreeWithRfc8259 | src/main/c/sqlite_json_collator.c:151-173 | `\b`, `\n`, `\r`, `\t`, `\"`, `\\` and `\/` decode as section 7 of RFC 8259 says, in both copies |
| Escapes.UnicodeEscapeAgreesWithRfc8259 | jni/source/com_couchbase_lite_storage_SQLiteJsonCollator.cpp:206-216 | a `\u` escape of an ASCII code point with no `a`/`A` digit decodes to that code point, in both copies |
| Escapes.HexDigitsCombine | src/main/c/sqlite_json_collator.c:156-159 | four hex digits other than `a`/`A` combine to their base-16 value |
| Escapes.FormFeedPassesThrough | jni/source/com_couchbase_lite_storage_SQLiteJsonCollator.cpp:218-222 | `\f` is not recognised and decodes to the letter `f` |
| Escapes.LetterADigits | jni/source/com_couchbase_lite_storage_SQLiteJsonCollator.cpp:189-201 | the digits `004a` combine to 0x6A and `004A` to 0x51 |
| Escapes.LetterADigitsMisread | jni/source/com_couchbase_lite_storage_SQLiteJsonCollator.cpp:208-216 | so `\u004a` decodes to `j` and `\u004A` to `Q`, not `J` |
| Escapes.NonAsciiDigits | src/main/c/sqlite_json_collator.c:158-165 | the digits `00e9` combine to 0xE9 and `0141` to 0x141 |
| Escapes.NonAsciiEscape | jni/source/com_couchbase_lite_storage_SQLiteJsonCollator.cpp:213-216 | the JNI copy decodes `\u00e9` and `\u0141` to 0xFF; the older copy truncates them to 0xE9 and `A` |
| Escapes.PortsAgreeOnAscii | src/main/c/sqlite_json_collator.c:151-173 | the copies decode an escape differently exactly when it is `\u` with a value above 127 whose low byte is not 0xFF |
| JsonStrings.UnitAt | jni/source/com_couchbase_lite_storage_SQLiteJsonCollator.cpp:241-245 | a string character is its byte unless it is a backslash, which starts an escape |
| JsonStrings.DecodeFrom | jni/source/com_couchbase_lite_storage_SQLiteJsonCollator.cpp:308-339 | a decoded string ends on a closing quote inside the memory and has at most one character per byte |
| JsonStrings.DecodeStep | src/main/c/sqlite_json_collator.c:257-288 | the decoding of a non-empty string is its first character, then the decoding of the rest |
| JsonStrings.PlainDecodes | jni/source/com_couchbase_lite_storage_SQLiteJsonCollator.cpp:331-335 | a run without quote or backslash decodes to itself |
| JsonStrings.PlainByteDecodes | src/main/c/sqlite_json_collator.c:280-284 | a plain byte decodes to itself before the rest of the string |
| JsonStrings.TokensSpell | jni/source/com_couchbase_lite_storage_SQLiteJsonCollator.cpp:226-257 | the characters the comparator loops read, one by one, spell the decoded string |
| JsonStrings.CompareStringsAscii | jni/source/com_couchbase_lite_storage_SQLiteJsonCollator.cpp:226-257 | the loop returns what the token-wise ASCII comparison returns, with both cursor write-backs |
| JsonStrings.AsciiIsLexicographic | src/main/c/sqlite_json_collator.c:175-206 | the ASCII comparison is the lexicographic order of the characters under `cmp`; a tie moves both cursors past the closing quotes and a difference leaves them |
| JsonStrings.AsciiComparesDecoded | jni/source/com_couchbase_lite_storage_SQLiteJsonCollator.cpp:226-257 | `compareStringsASCII` orders two strings as their unescaped contents, lexicographically |
| JsonStrings.AsciiAntisymmetric | src/main/c/sqlite_json_collator.c:175-206 | swapping the strings negates the order and swaps the cursors |
| JsonStrings.FastVerdict | jni/source/com_couchbase_lite_storage_SQLiteJsonCollator.cpp:266-295 | a character pair either stops the comparison with a non-zero order (-2 for a non-ASCII byte) or goes on with an updated tie-breaker |
| JsonStrings.FastOn | jni/source/com_couchbase_lite_storage_SQLiteJsonCollator.cpp:262-305 | the token-wise fast comparison results in -2, -1, 0 or 1 |
| JsonStrings.CompareStringsUnicodeFast | jni/source/com_couchbase_lite_storage_SQLiteJsonCollator.cpp:262-305 | the loop returns what the token-wise fast comparison returns, with both cursor write-backs |
| JsonStrings.VerdictAntisymmetric | src/main/c/sqlite_json_collator.c:215-245 | swapping a pair and negating the tie-breaker negates every verdict except -2 |
| JsonStrings.FastAntisymmetric | src/main/c/sqlite_json_collator.c:211-254 | swapping the strings negates the fast result, except that -2 stays -2 |
| JsonStrings.FastOnDecoded | jni/source/com_couchbase_lite_storage_SQLiteJsonCollator.cpp:262-305 | the fast order on decoded contents is in -2..1 |
| JsonStrings.FastReadsDecoded | jni/source/com_couchbase_lite_storage_SQLiteJsonCollator.cpp:262-305 | the fast comparison is the fast order of the two decoded contents; a tie moves both cursors past the closing quotes |
| JsonStrings.FastIsCaseInsensitiveFirst | src/main/c/sqlite_json_collator.c:211-254 | on ASCII contents, case-insensitive priorities decide first, then the first case difference, then the priorities |
| JsonStrings.LexByAgree | jni/source/com_couchbase_lite_storage_SQLiteJsonCollator.cpp:262-305 | keys that agree on both sequences give the same order |
| JsonStrings.FastFollowsPriorities | jni/source/com_couchbase_lite_storage_SQLiteJsonCollator.cpp:262-305 | with the built tables on ASCII contents, `compareStringsUnicodeFast` orders by `FastOrder`, the order `kInverseMap` defines |
| JsonStrings.FastOnTables | src/main/c/sqlite_json_collator.c:211-254 | with the built tables, the fast order on ASCII contents is `FastOrder` |
| JsonStrings.TableKeysAgree | jni/source/com_couchbase_lite_storage_SQLiteJsonCollator.cpp:99-116 | the built tables agree with the priority functions on ASCII bytes |
| JsonStrings.ScanFrom | jni/source/com_couchbase_lite_storage_SQLiteJsonCollator.cpp:310-322 | the first scan stops on the closing quote inside the memory |
| JsonStrings.ScanMatchesDecode | src/main/c/sqlite_json_collator.c:259-284 | the counting pass finds the same closing quote as decoding, and length minus escapes saved is the decoded length |
| JsonStrings.ScanStep | jni/source/com_couchbase_lite_storage_SQLiteJsonCollator.cpp:313-322 | one step of the counting pass saves 0, 1 or 5 bytes as it meets a plain byte, a short escape or a `\u` escape |
| JsonStrings.DecodeSkip | src/main/c/sqlite_json_collator.c:262-284 | the counting pass and decoding move to the same next position |
| JsonStrings.MeasureString | jni/source/com_couchbase_lite_storage_SQLiteJsonCollator.cpp:309-324 | the counting loop reports the closing quote and escape count of the scan, or that it read past the memory |
| JsonStrings.CopyString | jni/source/com_couchbase_lite_storage_SQLiteJsonCollator.cpp:326-336 | the copying loop fills the buffer with the decoded characters and a NUL |
| JsonStrings.CreateStringFromJson | jni/source/com_couchbase_lite_storage_SQLiteJsonCollator.cpp:308-339 | a fresh buffer holds the unescaped string and a NUL, and the cursor moves past the closing quote |
| JsonStrings.CString | jni/source/com_couchbase_lite_storage_SQLiteJsonCollator.cpp:341-350 | a C string is the longest NUL-free prefix of the buffer |
| JsonStrings.CompareBinary | jni/source/com_couchbase_lite_storage_SQLiteJsonCollator.cpp:341-350 | NULL sorts first, two NULLs tie, and two strings tie exactly when their C strings are equal |
| JsonStrings.CompareBinaryAntisymmetric | jni/source/com_couchbase_lite_storage_SQLiteJsonCollator.cpp:341-350 | swapping the arguments negates `compareBinary` |
| JsonStrings.CompareStringsUnicode | jni/source/com_couchbase_lite_storage_SQLiteJsonCollator.cpp:352-385 | the method returns the fast result unless it is -2, and otherwise the locale compare of the two unescaped strings |
| JsonStrings.UnicodeOnAscii | src/main/c/sqlite_json_collator.c:292-302 | ASCII contents never reach the locale compare; the result is the fast one, in {-1,0,1} |
| JsonStrings.UnicodeFallsBack | jni/source/com_couchbase_lite_storage_SQLiteJsonCollator.cpp:353-372 | a -2 from the fast path hands the two unescaped C strings to the locale compare and moves both cursors past the strings |
| JsonStrings.CStringOfTerminated | jni/source/com_couchbase_lite_storage_SQLiteJsonCollator.cpp:336-338 | the NUL the unescaper appends does not change the C string |
| JsonStrings.UnicodeAntisymmetric | src/main/c/sqlite_json_collator.c:292-302 | with an antisymmetric locale compare, swapping the strings negates the Unicode-rule result |
| JsonStrings.AsciiAdvances | jni/source/com_couchbase_lite_storage_SQLiteJsonCollator.cpp:250-256 | a tie under the ASCII rule moves both cursors forward |
| JsonStrings.FastAdvances | jni/source/com_couchbase_lite_storage_SQLiteJsonCollator.cpp:298-304 | a tie on the fast path moves both cursors forward |
| JsonStrings.StringsAdvance | jni/source/com_couchbase_lite_storage_SQLiteJsonCollator.cpp:468-483 | a string tie under any rule moves both cursors strictly forward |
| JsonNumbers.DigitsEnd | jni/source/com_couchbase_lite_storage_SQLiteJsonCollator.cpp:387-405 | a digit run ends on the first non-digit, or reads past the memory |
| JsonNumbers.Exponent | src/main/c/sqlite_json_collator.c:304-322 | an exponent part only moves the cursor forward, and an absent one scales by 10^0 |
| JsonNumbers.MantissaAt | jni/source/com_couchbase_lite_storage_SQLiteJsonCollator.cpp:387-405 | a mantissa ends inside the memory, with no more fraction digits than digits |
| JsonNumbers.Strtod | jni/source/com_couchbase_lite_storage_SQLiteJsonCollator.cpp:455-460 | `strtod` ends inside the memory, and reading nothing gives 0 with the cursor unmoved |
| JsonNumbers.IntegerLiteral | src/main/c/sqlite_json_collator.c:304-322 | a run of digits before a byte that ends it reads as its decimal value |
| JsonNumbers.NegativeIntegerLiteral | jni/source/com_couchbase_lite_storage_SQLiteJsonCollator.cpp:387-405 | a minus sign before such a run reads as the negated value |
| JsonNumbers.SingleDigit | jni/source/com_couchbase_lite_storage_SQLiteJsonCollator.cpp:459-465 | a single digit before a byte that ends it reads as its value |
| JsonNumbers.IntegerMantissa | src/main/c/sqlite_json_collator.c:304-322 | a digit run followed by an ending byte is an integer mantissa with no exponent |
| JsonNumbers.StrtodStopsAtNul | jni/source/com_couchbase_lite_storage_SQLiteJsonCollator.cpp:396-399 | on a NUL-terminated copy `strtod` always stops at or before the NUL |
| JsonNumbers.BoundedReadStaysInSpan | jni/source/com_couchbase_lite_storage_SQLiteJsonCollator.cpp:387-405 | the bounded read always succeeds, ends inside the span, and does not depend on bytes beyond it |
| JsonNumbers.ReadNumber | jni/source/com_couchbase_lite_storage_SQLiteJsonCollator.cpp:387-405 | the method copies the span into a NUL-terminated buffer, calls `strtod`, and relocates the end pointer, as the bounded read says |
| JsonNumbers.ReadsTheCopy | src/main/c/sqlite_json_collator.c:304-322 | reading any NUL-terminated copy of the span and relocating its end is the bounded read |
| JsonNumbers.DCmp | jni/source/com_couchbase_lite_storage_SQLiteJsonCollator.cpp:94-97 | `dcmp` is in {-1,0,1}, negative exactly when the first is smaller, positive exactly when larger |
| JsonCollator.RuleMode | jni/source/com_couchbase_lite_storage_SQLiteJsonCollator.cpp:30-34 | rule 0 is exactly Unicode and rule 1 exactly Raw; any other is the ASCII rule |
| JsonCollator.NumberStep | jni/source/com_couchbase_lite_storage_SQLiteJsonCollator.cpp:452-467 | a number tie keeps the depth and never moves a cursor backwards |
| JsonCollator.StringStep | jni/source/com_couchbase_lite_storage_SQLiteJsonCollator.cpp:468-483 | a string tie keeps the depth and moves both cursors strictly forward |
| JsonCollator.StepAt | jni/source/com_couchbase_lite_storage_SQLiteJsonCollator.cpp:429-503 | a round never moves a cursor backwards, and a round that moves neither keeps the depth |
| JsonCollator.CollateJson | jni/source/com_couchbase_lite_storage_SQLiteJsonCollator.cpp:411-507 | the do-while loop returns what the round-by-round scan returns from depth 0 |
| JsonCollator.TopLevelTokenSettles | src/main/c/sqlite_json_collator.c:355-417 | at the top level, two equal keywords or punctuation tokens tie at once |
| JsonCollator.MismatchDecides | jni/source/com_couchbase_lite_storage_SQLiteJsonCollator.cpp:433-439 | different kinds decide at once, by the enum order, or by `kRawOrderOfValueType` under Raw |
| JsonCollator.TopLevelNumber | jni/source/com_couchbase_lite_storage_SQLiteJsonCollator.cpp:452-467 | two top-level numbers compare by `dcmp` of their bounded reads |
| JsonCollator.TopLevelNumberIgnoresTail | src/main/c/sqlite_json_collator.c:365-380 | two top-level numbers' order depends only on the first `len` bytes of each text |
| JsonCollator.HarnessIgnoresGarbage | src/main/c/sqlite_json_collator.c:436-454 | collating two numbers with the harness's `99`/`88` padding past their declared lengths gives what collating the plain C strings gives |
| JsonCollator.CollatorTest | src/main/c/sqlite_json_collator.c:436-454 | `sqlite_json_collator_test` on two numbers returns the older `collateJSON` of the plain C strings: the padding is invisible |
| JsonCollator.GarbageIsNumeric | src/main/c/sqlite_json_collator.c:441-447 | an unbounded read of `1` with its padding would read 199 and 188 |
| JsonCollator.GarbageRead | src/main/c/sqlite_json_collator.c:441-447 | an unbounded read of a padded `1` reads across the padding |
| JsonCollator.GarbageValues | src/main/c/sqlite_json_collator.c:441-447 | the padded texts spell 199 and 188 |
| JsonCollator.HarnessFindsOnesEqual | src/main/c/sqlite_json_collator.c:436-454 | the harness ties `1` with `1`, whatever the rule |
| JsonCollator.NumberAgainstFalse | jni/source/com_couchbase_lite_storage_SQLiteJsonCollator.cpp:119-136 | `1` sorts after `false` outside the Raw rule, and before it under Raw |
| JsonCollator.NullAgainstNumber | jni/source/com_couchbase_lite_storage_SQLiteJsonCollator.cpp:433-439 | `null` sorts after a number under Raw and before it under the other rules |
| JsonCollator.ArraysByElement | jni/source/com_couchbase_lite_storage_SQLiteJsonCollator.cpp:484-504 | `[1,2]` sorts before `[1,3]`: arrays compare element by element |
| JsonCollator.ShorterArrayFirst | src/main/c/sqlite_json_collator.c:397-417 | `[1]` sorts before `[1,2]`: the closing bracket meets a comma |
| JsonCollator.ShortTabDecodes | jni/source/com_couchbase_lite_storage_SQLiteJsonCollator.cpp:218-222 | in both copies `"a\tb"` unescapes to the bytes a, tab, b |
| JsonCollator.UnicodeTabDecodes | src/main/c/sqlite_json_collator.c:154-165 | in both copies `"a\u0009b"` unescapes to the bytes a, tab, b |
| JsonCollator.EqualContentsTie | jni/source/com_couchbase_lite_storage_SQLiteJsonCollator.cpp:468-483 | two top-level strings with equal unescaped contents tie under the byte rules, and under the Unicode rule when the content is ASCII |
| JsonCollator.EscapesCompareEqual | jni/source/com_couchbase_lite_storage_SQLiteJsonCollator.cpp:203-224 | `\t` and `\u0009` between two plain ASCII bytes compare equal, under every rule and in both copies |
| JsonCollator.CapitalAndSmall | src/main/c/sqlite_json_collator.c:257-288 | `"Abc"` and `"abc"` unescape to their letters |
| JsonCollator.CapitalAfterSmallInPriority | jni/source/com_couchbase_lite_storage_SQLiteJsonCollator.cpp:105 | in the priority order `Abc` sorts after `abc` |
| JsonCollator.CapitalAfterSmall | jni/source/com_couchbase_lite_storage_SQLiteJsonCollator.cpp:262-305 | under the Unicode rule `"Abc"` sorts after `"abc"` |
| JsonCollator.CapitalBeforeSmallAsBytes | src/main/c/sqlite_json_collator.c:175-206 | under the Raw and ASCII rules `"Abc"` sorts before `"abc"` |
| JsonCollator.NumberStepAntisymmetric | jni/source/com_couchbase_lite_storage_SQLiteJsonCollator.cpp:452-467 | swapping the texts negates a number round and swaps its cursors |
| JsonCollator.StringStepAntisymmetric | src/main/c/sqlite_json_collator.c:381-396 | with an antisymmetric locale compare, swapping negates a string round |
| JsonCollator.StepAntisymmetric | jni/source/com_couchbase_lite_storage_SQLiteJsonCollator.cpp:429-503 | swapping the texts negates every round's outcome and swaps its cursors |
| JsonCollator.WalkAntisymmetric | src/main/c/sqlite_json_collator.c:341-417 | swapping the texts negates the scan from any state, including `ReadsPast` and `Loops` |
| JsonCollator.CollateAntisymmetric | jni/source/com_couchbase_lite_storage_SQLiteJsonCollator.cpp:411-507 | swapping the texts negates `collateJSON`'s order |
| JsonCollator.CollateReflexive | jni/source/com_couchbase_lite_storage_SQLiteJsonCollator.cpp:411-507 | with an antisymmetric locale compare, a text that the scan finishes on ties with itself |
| JsonCollator.CollateJni | jni/source/com_couchbase_lite_storage_SQLiteJsonCollator.cpp:411-421 | a NULL `CollatorContext` returns 0; rule 0 runs the Unicode rule, rule 1 Raw and any other rule ASCII, with the JNI escape decoding and the tables `initializeCharPriorityMap` builds |
| JsonCollator.CollateLegacy | src/main/c/sqlite_json_collator.c:328-420 | the context pointer's value 0 runs the Unicode rule, 1 Raw and any other ASCII, with the older escape decoding and the built tables |
| JsonCollator.JniAntisymmetric | jni/source/com_couchbase_lite_storage_SQLiteJsonCollator.cpp:411-421 | a NULL context ties everything, and the JNI entry is antisymmetric |
| JsonCollator.LegacyAntisymmetric | src/main/c/sqlite_json_collator.c:328-420 | the older entry is antisymmetric |
| RevCollator.Sgn | jni/source/com_couchbase_lite_storage_SQLiteRevCollator.cpp:29-31 | `sgn` is in {-1,0,1} with the sign of its argument |
| RevCollator.GetMin | jni/source/com_couchbase_lite_storage_SQLiteRevCollator.cpp:33-35 | `getMin` is one of its arguments and no larger than either |
| RevCollator.MemcmpSign | jni/source/com_couchbase_lite_storage_SQLiteRevCollator.cpp:38 | the sign of `memcmp` over n bytes is in {-1,0,1}, and 0 exactly when the n-byte prefixes are equal |
| RevCollator.DefaultCollate | jni/source/com_couchbase_lite_storage_SQLiteRevCollator.cpp:37-40 | `defaultCollate` is in {-1,0,1} |
| RevCollator.DefaultCollateIsLex | jni/source/com_couchbase_lite_storage_SQLiteRevCollator.cpp:37-40 | `defaultCollate` is the lexicographic order of unsigned bytes, with a proper prefix first |
| RevCollator.DefaultCollateZero | jni/source/com_couchbase_lite_storage_SQLiteRevCollator.cpp:37-40 | `defaultCollate` ties exactly equal byte strings |
| RevCollator.DefaultCollateAntisymmetric | jni/source/com_couchbase_lite_storage_SQLiteRevCollator.cpp:37-40 | swapping the arguments negates `defaultCollate` |
| Common.LexByTransitive | jni/source/com_couchbase_lite_storage_SQLiteRevCollator.cpp:37-40 | the lexicographic order is transitive, and a chain of two that ends in a tie is two ties |
| RevCollator.DefaultCollateTransitive | jni/source/com_couchbase_lite_storage_SQLiteRevCollator.cpp:37-40 | `defaultCollate` is transitive, and a chain that ends in a tie is all ties |
| RevCollator.DashIndex | jni/source/com_couchbase_lite_storage_SQLiteRevCollator.cpp:84-85 | `memchr` finds no dash exactly when there is none within `len`, and otherwise the first one |
| RevCollator.ParseDigits | jni/source/com_couchbase_lite_storage_SQLiteRevCollator.cpp:66-74 | the loop returns the decimal value of the bytes when all are digits, and 0 otherwise |
| RevCollator.RevOrder | jni/source/com_couchbase_lite_storage_SQLiteRevCollator.cpp:81-102 | `collateRevIDs` is in {-1,0,1} |
| RevCollator.CollateRevIds | jni/source/com_couchbase_lite_storage_SQLiteRevCollator.cpp:81-102 | the C function, with `parseDigits`'s loop, returns `RevOrder` |
| RevCollator.RevOrderAntisymmetric | jni/source/com_couchbase_lite_storage_SQLiteRevCollator.cpp:81-102 | swapping the revision IDs negates the order |
| RevCollator.RevOrderReflexive | jni/source/com_couchbase_lite_storage_SQLiteRevCollator.cpp:81-102 | every span ties with itself |
| RevCollator.RevOrderCycle | jni/source/com_couchbase_lite_storage_SQLiteRevCollator.cpp:86-101 | the order is not transitive: `9-a` < `10-a` by generation, `10-a` < `5` and `5` < `9-a` as plain bytes |
| RevCollator.ProperDashOf | jni/source/com_couchbase_lite_storage_SQLiteRevCollator.cpp:84-96 | the dash of a proper revision ID when there is one, and none exactly when the span is no proper revision ID |
| RevCollator.RevOrderTotalAgrees | jni/source/com_couchbase_lite_storage_SQLiteRevCollator.cpp:77-102 | the corrected order agrees with `collateRevIDs` whenever both spans are proper revision IDs or neither is |
| RevCollator.RevOrderTotalAntisymmetric | jni/source/com_couchbase_lite_storage_SQLiteRevCollator.cpp:77-80 | swapping the spans negates the corrected order |
| RevCollator.RevOrderTotalTransitive | jni/source/com_couchbase_lite_storage_SQLiteRevCollator.cpp:77-80 | the corrected order is transitive, and a chain that ends in a tie is all ties, so it is a consistent sort order |
| RevCollator.ProperDash | jni/source/com_couchbase_lite_storage_SQLiteRevCollator.cpp:84-85 | the dash after a digits-only generation is the first dash |
| RevCollator.ProperRevIds | jni/source/com_couchbase_lite_storage_SQLiteRevCollator.cpp:93-101 | two proper revision IDs order by generation number, and on equal generations by suffix bytes, including two single-digit generations |
| RevCollator.ImproperFallsBack | jni/source/com_couchbase_lite_storage_SQLiteRevCollator.cpp:86-96 | if either input is not a proper revision ID (no dash, a dash more than 8 bytes in, a non-digit or zero generation), the order is plain bytewise |
| RevCollator.SingleDigitsByGeneration | jni/source/com_couchbase_lite_storage_SQLiteRevCollator.cpp:86-90 | the bytewise shortcut for two single-digit generations agrees with ordering by generation, then suffix |
| RevCollator.DecimalBound | jni/source/com_couchbase_lite_storage_SQLiteRevCollator.cpp:66-74 | at most 8 digits are worth less than 10^8 |
| RevCollator.GenerationFitsInt | jni/source/com_couchbase_lite_storage_SQLiteRevCollator.cpp:93-99 | a generation the collator parses is below 10^8, so no 32-bit `int` arithmetic overflows |
| RevCollator.GenerationsNumerically | jni/source/com_couchbase_lite_storage_SQLiteRevCollator.cpp:99 | `2-abc` sorts before `10-aaa` |
| RevCollator.SuffixBreaksTie | jni/source/com_couchbase_lite_storage_SQLiteRevCollator.cpp:99-101 | `1-a` sorts before `1-b` |
| RevCollator.PlainTextsBytewise | jni/source/com_couchbase_lite_storage_SQLiteRevCollator.cpp:86-91 | `x` sorts before `y`, as plain bytes |
| RevCollator.GenerationsNotBytewise | jni/source/com_couchbase_lite_storage_SQLiteRevCollator.cpp:37-40 | as plain bytes, `2-abc` would sort after `10-aaa` |

The specification functions behind these rows need no rows of their own, since a row
would only restate their bodies. They are:
- `JsonCollator.Walk` and `JsonCollator.Collate`: the `do`-while loop of `collateJSON`;
- `JsonStrings.CompareAscii`: `compareStringsASCII`;
- `JsonStrings.CompareFast`: `compareStringsUnicodeFast`;
- `JsonStrings.CompareUnicode`: `compareStringsUnicode`;
- `JsonStrings.Unescape`: the unescaped content of a string, as read by the comparators and by `createStringFromJSON`;
- `JsonNumbers.BoundedRead`: `readNumber`;
- `ValueTypes.MismatchOrder`: the kind comparison at the top of `collateJSON`'s loop;
- `CharPriority.Priority` and `CharPriority.PriorityCaseInsensitive`: `kCharPriority`
  and `kCharPriorityCaseInsensitive`.

Each is tied to its source function through the method or lemmas named in its rows.

## Findings

| source | as written | input that shows it | evidently intended | confidence | as-written member | corrected member |
|---|---|---|---|---|---|---|
| jni/source/com_couchbase_lite_storage_SQLiteRevCollator.cpp:86-101 | a pair where either span is not a proper revision ID falls back to plain bytes, while two proper IDs compare by generation; mixing the two rules makes the order cyclic | `9-a` < `10-a`, `10-a` < `5`, `5` < `9-a` | a transitive order, which SQLite demands of a collating function: here every span that is not a proper revision ID sorts before every proper one, and each class keeps the code's own order (`RevOrderTotalTransitive`) | high for the cycle; the placement of the improper spans is a choice the code does not make; not executed | RevCollator.RevOrderCycle | RevCollator.RevOrderTotal |

`CollateRevIds` stays tied to `RevOrder`, the code as written. `RevOrderTotalAgrees` shows
that the corrected order changes only pairs in which exactly one span is a proper revision
ID, so every comparison within one class keeps the code's result.

## Left out

- Floating point: `strtod` is modelled on decimal literals with their exact rational value. Rounding to `double` is not modelled, so two literals that round to the same `double` compare unequal here.
- `strtod`'s hexadecimal, `inf` and `nan` forms and its skipping of leading white space are not modelled. JSON without white space never presents them.
- `readNumber` returns 0.0 and leaves `endOfNumber` unset when `malloc` fails for a top-level number of 50 bytes or more. The model's allocation always succeeds.
- The locale compare (`java_unicode_string_compare`, the ICU `Collator` under `USE_ICU4C_UNICODE_COMPARE`, `uca_string_compare`) is a call into Java or ICU. It is the parameter `uca`, whether it is reached through the context's ICU collator or the Java callback in the JNI copy, or through the global pointer that `sqlite_json_collator_setUnicodeStringCompare` sets in the older copy. `createCollator`, `CollatorContext`'s collator and destructor, and `compareBinary`'s use as ICU's fallback are not modelled beyond `CompareBinary` itself.
- JNI glue, which is foreign calls into the JVM: `JNI_OnLoad`, `JNI_OnUnload`, `nativeRegister`, the `nativeTest*` wrappers (including the revision collator's `strlen`-based one), and the registration with `sqlite3_create_collation`.
- The unsynchronised `charPriorityMapInitialized` flag is a concurrency concern. The tables reach the scan already built.
- `free`, and the older copy's leak of its slow-path buffers, are memory management with no effect on any order.
- MemcmpSign: only the sign of `memcmp` is modelled. The collator never uses its magnitude.
- Walk: a non-terminating scan is reported as the outcome `Loops` when a round leaves cursors and depth unchanged, rather than as a loop that does not end.
- CollateAntisymmetric: stated for a locale compare that is itself antisymmetric. The Java or ICU compare is not part of this model. `CollateReflexive` inherits the same assumption.
- Collate: transitivity is not proved under any rule. Under the Unicode rule it depends on the locale compare agreeing with the fast order of `kInverseMap` on the strings the fast path decides, which cannot be stated about a foreign compare. Under the byte rules it would need the rounds' orders to combine lexicographically across nesting depths; that proof is not part of this model.
- ParseDigits: a result above `INT_MAX` (10 or more digits) would overflow a C `int`. `collateRevIDs` never parses more than 8 digits (`GenerationFitsInt`), so integers are unbounded here.
- The other files of the repository (statement, cursor and connection glue over SQLite, the key-derivation wrapper over OpenSSL, error-code translation, logging) are not part of this model.
