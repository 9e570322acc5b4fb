# adam: instrumentation parser, request frame and install command

This project models three parts of adam, a Kotlin client for the Android
Debug Bridge (adb) host protocol.

- **The instrumentation output parser** (`InstrumentationResponseTransformer`).
  It buffers the text of `am instrument -r` as it arrives. It cuts one block
  ("atom") at a time off the front of the buffer, up to and including the first
  `INSTRUMENTATION_STATUS_CODE` or `INSTRUMENTATION_CODE` line. It turns each
  block into test lifecycle events. It also keeps the run state: started,
  finished, finish reported, tests expected and tests executed.
  - Module `Instrumentation` (`instrumentation.dfy`) gives the pure meaning of
    every step as functions: `StatusOf`, `ToMap`, `NextAtom`,
    `ConsumedLength`, `StatusBlock`, `CodeBlock`, `ParseAtom` and `CloseRun`.
  - Module `Transformer` (`transformer.dfy`) is the class with its mutable
    fields. Each method is proved against those functions. The ghost predicate
    `ConsistentRun` ties the run state to every event handed out so far. The
    constructor, `Process`, `Transform` and `Close` keep it. `Parse` and the
    methods it calls change the run state before the events are recorded;
    `ParseAndRecord` restores the invariant once they are.
- **The base of every request** (`Request`). This is the frame of the adb
  host services protocol: the length of the payload as `%04X`, followed by the
  payload, which is the serialized target and then the request. Module
  `RequestProtocol` (`request.dfy`) proves the following.
  - The adb server, reading four hexadecimal digits, gets the request back
    whenever it is shorter than 65536 characters.
  - A longer request is misread.
  - The framing test of `GetSinglePropRequest` holds.

  The module also models:
  - the default target `HostTarget`;
  - the default `validate`;
  - the handshake: write the request, read one answer, reject on anything but
    OKAY.
- **The `pm install` command** (`InstallRemotePackageRequest`). Module
  `Install` (`install.dfy`) models the command as the constructor builds it.
  It shows by a proof that the last extra argument runs into the package path.
  It also proves that the evidently intended command splits into the intended
  words.

Supporting modules:
- `Text` (`text.dfy`): Kotlin's `startsWith`, `indexOf`, `split`,
  `joinToString`, `lines` and `trim` over `string`.
- `Numbers` (`numbers.dfy`): `toIntOrNull`, `Int.toString` and the
  `Time:` seconds-to-milliseconds conversion.
- `TestRunner` (`testrunner.dfy`): the event datatype.
- `Wrappers` (`wrappers.dfy`): `Option` and `Result`.

Modelling choices:
- Text is a sequence of characters, and a character stands for one byte of
  the transport encoding.
- A Kotlin exception that the parser can raise is a `Failure` outcome. The
  state keeps whatever the method had changed before the throw:
  - `substring` past the end of a short code line;
  - `toInt` on a `numtests` value that is not a number;
  - `TODO()` for an unknown status code.

Behaviour of the code that the model keeps as it is:
- **How much `transform` deletes.** `transform` removes
  `atom.map { it.length }.reduce { acc, i -> acc + i + 1 }` characters. The
  reduction starts from the first line's length, so it counts the atom's
  lines joined by newlines. The newline after the terminator line stays in
  the buffer.
  - `CutAtom` proves that the remaining buffer then reads as one empty line
    followed by the unparsed lines.
  - `LeadingEmptyLineIgnored` proves that this empty line changes nothing.
- **`INSTRUMENTATION_FAILED` does not end a block.** `transform` ends a
  block only at the two code tokens, so an `INSTRUMENTATION_FAILED` line
  never ends one. The `INSTRUMENTATION_FAILED` branch of `parse` is
  modelled, but `transform` never reaches it with a failed line last.
- **Values containing `=` are dropped.** In `toMap`, a parameter whose value
  contains `=` splits into more than two fields and is dropped.
- **Each block names its own test.** The test of a block is read from that
  block's own parameters. A `START` block without `class` and `test` hands
  out at most `TestRunStartedEvent`, and the `TestStarted` of that test never
  comes.

## Model

| member | source | states |
|---|---|---|
| Transformer.InstrumentationResponseTransformer.constructor | src/main/kotlin/com/malinskiy/adam/request/transform/InstrumentationResponseTransformer.kt:23-29 | A new parser has an empty buffer, all flags false and both counters 0, and is consistent with no events. |
| Transformer.InstrumentationResponseTransformer.Process | src/main/kotlin/com/malinskiy/adam/request/transform/InstrumentationResponseTransformer.kt:31-33 | The chunk is appended to the buffer and nothing else changes. |
| Transformer.InstrumentationResponseTransformer.Transform | src/main/kotlin/com/malinskiy/adam/request/transform/InstrumentationResponseTransformer.kt:35-51 | Without a terminator line, `transform` returns null and changes nothing. Otherwise the first atom (`NextAtom`) is removed from the front of the buffer, `ConsumedLength` characters of it. The new state and the reply are those of `ParseAtom` on the old state. The events handed out are recorded, and the run stays consistent. |
| Transformer.InstrumentationResponseTransformer.CutAtomOff | src/main/kotlin/com/malinskiy/adam/request/transform/InstrumentationResponseTransformer.kt:47-48 | The `buffer.delete` never reaches past the end of the buffer. It leaves exactly the text after the atom's `ConsumedLength` characters. |
| Transformer.InstrumentationResponseTransformer.ParseAndRecord | src/main/kotlin/com/malinskiy/adam/request/transform/InstrumentationResponseTransformer.kt:50 | Parsing an atom gives `ParseAtom`'s state and reply, and keeps the run consistent with the events handed out. |
| Transformer.InstrumentationResponseTransformer.Close | src/main/kotlin/com/malinskiy/adam/request/transform/InstrumentationResponseTransformer.kt:53-69 | State and result are `CloseRun` of the old state. The run stays consistent with the events handed out. |
| Transformer.InstrumentationResponseTransformer.Parse | src/main/kotlin/com/malinskiy/adam/request/transform/InstrumentationResponseTransformer.kt:72-88 | The last line picks the branch, with the status code tested before the code. A code line or a failed line sets `finished` before anything else. |
| Transformer.InstrumentationResponseTransformer.ParseStatusCode | src/main/kotlin/com/malinskiy/adam/request/transform/InstrumentationResponseTransformer.kt:90-167 | A code line too short for `substring` throws with the state untouched. Otherwise the trimmed code and the parameters of the other lines give `StatusBlock`'s state and reply. |
| Transformer.InstrumentationResponseTransformer.ReportStatus | src/main/kotlin/com/malinskiy/adam/request/transform/InstrumentationResponseTransformer.kt:94-166 | The run start is reported first. An unknown status throws and keeps the start. Otherwise the test's events follow, and an empty list becomes null. |
| Transformer.InstrumentationResponseTransformer.ReportRunStart | src/main/kotlin/com/malinskiy/adam/request/transform/InstrumentationResponseTransformer.kt:98-105 | Only before the first status block: a numeric `numtests` is reported and becomes the expected count; one that is not a number throws with nothing changed; `startReported` is set. |
| Transformer.InstrumentationResponseTransformer.ReportTest | src/main/kotlin/com/malinskiy/adam/request/transform/InstrumentationResponseTransformer.kt:107-158 | The status's events (`TestEvents`) are appended. The executed count goes up by one exactly for the statuses that end a test. |
| Transformer.InstrumentationResponseTransformer.ParseInstrumentationCode | src/main/kotlin/com/malinskiy/adam/request/transform/InstrumentationResponseTransformer.kt:169-195 | State and reply are `CodeBlock`'s. Code -1 marks the finish reported and ends the run with the block's time. Any other code returns null. A short line throws. |
| Transformer.ScanTime | src/main/kotlin/com/malinskiy/adam/request/transform/InstrumentationResponseTransformer.kt:177-186 | The loop over the atom computes `RunTime`: the value of the last `Time: ` line, with 0 for a value that is not a number. |
| Instrumentation.StatusOf | src/main/kotlin/com/malinskiy/adam/request/transform/InstrumentationResponseTransformer.kt:228-238 | A known status comes back exactly for the codes -4..2. Its value is the code given. Null and every other code give UNKNOWN. |
| Instrumentation.StatusOfValue | src/main/kotlin/com/malinskiy/adam/request/transform/InstrumentationResponseTransformer.kt:214-238 | `valueOf` inverts `value` on every known status. |
| Instrumentation.ToMap | src/main/kotlin/com/malinskiy/adam/request/transform/InstrumentationResponseTransformer.kt:198-204 | The parameters of a status block: the non-empty lines joined by newlines, split on `INSTRUMENTATION_STATUS: `, each piece with exactly one `=` as a pair, the last pair winning. Its read-back is stated by `ToMapOfStatusLines`, `EntryOfAssignment`, `PairsToMapLastWins`, `PairsToMapKeys` and `ToMapIgnoresEmptyLine`. |
| Instrumentation.TestEvents | src/main/kotlin/com/malinskiy/adam/request/transform/InstrumentationResponseTransformer.kt:107-158 | The events one status of a test gives. Their kinds and order are stated by `TestEventsKinds`, their test and stack trace by `TestEventsAboutTest`. |
| Instrumentation.RunStartReport | src/main/kotlin/com/malinskiy/adam/request/transform/InstrumentationResponseTransformer.kt:98-105 | The run start of a status block. What it reports and when it throws is stated by `StatusReportStartsRun`. |
| Instrumentation.StatusReport | src/main/kotlin/com/malinskiy/adam/request/transform/InstrumentationResponseTransformer.kt:94-166 | The run start, then `TODO()` for an unknown status, then the test's events. Its effect on the run is stated by `StatusReportStartsRun`, `StatusReportCountsTests`, `UnknownStatusThrows` and `StatusReportKeepsRunConsistent`. |
| Instrumentation.StatusBlock | src/main/kotlin/com/malinskiy/adam/request/transform/InstrumentationResponseTransformer.kt:90-167 | `parseStatusCode`: a code line too short for `substring` throws; otherwise the trimmed code and the block's parameters go to `StatusReport`. `CodeLineValue` states which code a line's text gives, `StatusAtomOfLines` and `PassingTestBlock` what a block's text reports; the lemmas on `StatusReport` and `ParseKeepsRunConsistent` state its effect. |
| Instrumentation.RunTime | src/main/kotlin/com/malinskiy/adam/request/transform/InstrumentationResponseTransformer.kt:177-186 | The value of the last `Time: ` line of a block, 0 without one. Stated by `RunTimeLastWins` and `RunTimeWithoutTimeLine`; the value of one `Time:` text by `Numbers.SecondsToMillisOfDecimal` and `Numbers.SecondsToMillisOfWhole`. |
| Instrumentation.CodeBlock | src/main/kotlin/com/malinskiy/adam/request/transform/InstrumentationResponseTransformer.kt:169-195 | `parseInstrumentationCode`: -1 ends the run with the block's time, any other code gives null, a short line throws. Stated by `CodeBlockOutcome`, `CodeLineValue`, `CodeAtomOfLine`, `CodeBlockKeepsRunConsistent` and `CodeBlockIgnoresEmptyLine`. |
| Instrumentation.ParseAtom | src/main/kotlin/com/malinskiy/adam/request/transform/InstrumentationResponseTransformer.kt:72-88 | `parse`: the last line of the atom picks the branch. Stated by `ParseKeepsRunConsistent` and `LeadingEmptyLineIgnored`. |
| Instrumentation.CloseRun | src/main/kotlin/com/malinskiy/adam/request/transform/InstrumentationResponseTransformer.kt:53-69 | `close`: the terminal signal. Stated by `CloseRunBranches`, `IncompleteMessageCounts`, `CloseAlwaysSignals`, `CloseWithoutStatus`, `CloseTwice` and `CloseKeepsRunConsistent`. |
| Instrumentation.FirstTerminator | src/main/kotlin/com/malinskiy/adam/request/transform/InstrumentationResponseTransformer.kt:38-41 | `indexOfFirst` gives the index of a terminator line with none before it. None means no line is a terminator. |
| Instrumentation.NextAtom | src/main/kotlin/com/malinskiy/adam/request/transform/InstrumentationResponseTransformer.kt:36-47 | An atom is a non-empty prefix of the buffer's lines. It ends with a terminator line and holds no terminator line before it. None means that no line of the buffer is a terminator. |
| Instrumentation.ConsumedLength | src/main/kotlin/com/malinskiy/adam/request/transform/InstrumentationResponseTransformer.kt:48 | The `reduce` counts the characters of the atom's lines joined by newlines. |
| Instrumentation.CutAtom | src/main/kotlin/com/malinskiy/adam/request/transform/InstrumentationResponseTransformer.kt:47-48 | The deleted text is the atom's lines joined by newlines. What remains splits into one empty line followed by the lines after the atom. |
| Instrumentation.FirstTerminatorAfterEmptyLine | src/main/kotlin/com/malinskiy/adam/request/transform/InstrumentationResponseTransformer.kt:38-41 | The empty line left in front of the buffer never ends an atom. It only shifts the terminator's index by one. |
| Instrumentation.LeadingEmptyLineIgnored | src/main/kotlin/com/malinskiy/adam/request/transform/InstrumentationResponseTransformer.kt:72-88 | Parsing an atom with an empty line in front gives the same state and reply as parsing the atom alone. |
| Instrumentation.ToMapIgnoresEmptyLine | src/main/kotlin/com/malinskiy/adam/request/transform/InstrumentationResponseTransformer.kt:199 | The empty-line filter makes the parameters of a block independent of an empty line in front. |
| Instrumentation.CodeBlockIgnoresEmptyLine | src/main/kotlin/com/malinskiy/adam/request/transform/InstrumentationResponseTransformer.kt:169-195 | An empty line in front of a code block changes neither its time nor its outcome. |
| Instrumentation.ToMapOfStatusLines | src/main/kotlin/com/malinskiy/adam/request/transform/InstrumentationResponseTransformer.kt:198-204 | `toMap` reads back the pairs of well-formed `INSTRUMENTATION_STATUS: key=value` lines, the last pair winning for a repeated key. |
| Instrumentation.EntryOfAssignment | src/main/kotlin/com/malinskiy/adam/request/transform/InstrumentationResponseTransformer.kt:200-202 | The `mapNotNull` lambda gives back the pair of a plain `key=value` piece, with or without its newline. |
| Instrumentation.PairsToMapLastWins | src/main/kotlin/com/malinskiy/adam/request/transform/InstrumentationResponseTransformer.kt:203 | `toMap` keeps the value of the last pair with a given key. |
| Instrumentation.PairsToMapKeys | src/main/kotlin/com/malinskiy/adam/request/transform/InstrumentationResponseTransformer.kt:203 | `toMap` has exactly the keys of the pairs. |
| Instrumentation.TestEventsKinds | src/main/kotlin/com/malinskiy/adam/request/transform/InstrumentationResponseTransformer.kt:107-158 | For a known status with events: START gives `TestStarted` alone; IGNORED gives `TestStarted`, `TestIgnored`, `TestEnded`; ERROR and FAILURE give `TestFailed`, `TestEnded`; ASSUMPTION_FAILURE gives `TestAssumptionFailed`, `TestEnded`; SUCCESS gives `TestEnded` alone. The list starts with `TestStarted` exactly for START and IGNORED, and ends with `TestEnded` exactly for the other statuses. `TestIgnored`, `TestFailed` and `TestAssumptionFailed` appear exactly for their statuses. Every `TestEnded` carries empty metrics. |
| Instrumentation.TestEventsAboutTest | src/main/kotlin/com/malinskiy/adam/request/transform/InstrumentationResponseTransformer.kt:109-158 | A block has test events exactly when it names its test, is not IN_PROGRESS, and has a `stack` where the status needs one. All of its events are about that test. The last is `TestEnded` exactly for a status that ends the test, and no other is. Failures carry the block's `stack`. A block has at most three events. |
| Instrumentation.StatusReportStartsRun | src/main/kotlin/com/malinskiy/adam/request/transform/InstrumentationResponseTransformer.kt:98-105 | A block throws `NumberFormat` exactly when it is the first block and its `numtests` is not a number, and it then changes nothing. Otherwise the run is marked started. `TestRunStartedEvent` is handed out exactly when this is the first block and it has `numtests`. The event comes first and carries the expected count, which is the value of `numtests`. |
| Instrumentation.StatusReportCountsTests | src/main/kotlin/com/malinskiy/adam/request/transform/InstrumentationResponseTransformer.kt:109-160 | The executed count goes up by one exactly when the block succeeds with a status that ends a test, whether or not it reports events. A block reports at most one `TestEnded`, and only for such a status. Every event other than the run start is about the block's test. |
| Instrumentation.UnknownStatusThrows | src/main/kotlin/com/malinskiy/adam/request/transform/InstrumentationResponseTransformer.kt:159 | An unknown status code throws after the run has been marked started. |
| Instrumentation.StatusReportKeepsRunConsistent | src/main/kotlin/com/malinskiy/adam/request/transform/InstrumentationResponseTransformer.kt:90-167 | A status block keeps the run state consistent with the events handed out. |
| Instrumentation.CodeBlockOutcome | src/main/kotlin/com/malinskiy/adam/request/transform/InstrumentationResponseTransformer.kt:169-195 | A code line too short for `substring` throws `StringIndexOutOfBounds` with the state unchanged. Code -1 sets `finishReported` and changes nothing else, and hands out exactly `[TestRunEnded(RunTime(atom), map[])]`. Any other code, or one that is not a number, changes nothing and returns null. |
| Instrumentation.CodeLineValue | src/main/kotlin/com/malinskiy/adam/request/transform/InstrumentationResponseTransformer.kt:173 | A code line written as `<token>: <code>` is long enough for `substring`, and after the space is trimmed `toIntOrNull` gives back exactly the code. |
| Instrumentation.StatusAtomOfLines | src/main/kotlin/com/malinskiy/adam/request/transform/InstrumentationResponseTransformer.kt:90-92 | A block of `INSTRUMENTATION_STATUS: key=value` lines ending in `INSTRUMENTATION_STATUS_CODE: <code>` reports the status of that code with the written pairs as its parameters. |
| Instrumentation.CodeAtomOfLine | src/main/kotlin/com/malinskiy/adam/request/transform/InstrumentationResponseTransformer.kt:169-195 | A block ending in `INSTRUMENTATION_CODE: <code>` marks the run finished; code -1 also sets `finishReported` and hands out exactly `TestRunEnded` with the block's time, and any other code hands out nothing. |
| Instrumentation.PassingTestBlock | src/main/kotlin/com/malinskiy/adam/request/transform/InstrumentationResponseTransformer.kt:90-167 | In a started run, the three lines `INSTRUMENTATION_STATUS: class=C`, `INSTRUMENTATION_STATUS: test=t`, `INSTRUMENTATION_STATUS_CODE: 0` count one more executed test and hand out exactly `[TestEnded(C#t, no metrics)]`. |
| Instrumentation.CodeBlockKeepsRunConsistent | src/main/kotlin/com/malinskiy/adam/request/transform/InstrumentationResponseTransformer.kt:169-195 | A code block keeps the run state consistent with the events handed out. |
| Instrumentation.ParseKeepsRunConsistent | src/main/kotlin/com/malinskiy/adam/request/transform/InstrumentationResponseTransformer.kt:72-88 | Parsing any atom keeps the run state consistent with the events handed out: `finishReported` holds exactly when a `TestRunEnded` was handed out, nothing counts before the first status block, and a reported run start sets `startReported`. |
| Instrumentation.InitialRunConsistent | src/main/kotlin/com/malinskiy/adam/request/transform/InstrumentationResponseTransformer.kt:25-29 | The initial state is consistent with no events, and closing it reports "No test results". |
| Instrumentation.RunTimeLastWins | src/main/kotlin/com/malinskiy/adam/request/transform/InstrumentationResponseTransformer.kt:180-186 | Only the last `Time: ` line counts; lines before it do not matter. |
| Instrumentation.RunTimeWithoutTimeLine | src/main/kotlin/com/malinskiy/adam/request/transform/InstrumentationResponseTransformer.kt:177-186 | Without a `Time: ` line the run time is 0. |
| Instrumentation.CloseKeepsRunConsistent | src/main/kotlin/com/malinskiy/adam/request/transform/InstrumentationResponseTransformer.kt:53-69 | Closing keeps the run state consistent with the events handed out. |
| Instrumentation.CloseAlwaysSignals | src/main/kotlin/com/malinskiy/adam/request/transform/InstrumentationResponseTransformer.kt:53-69 | On a consistent run, `close` returns null exactly when a `TestRunEnded` was already handed out. Otherwise its last event is `TestRunEnded` or `TestRunFailed`. It is a failure exactly when no block was seen and the run did not finish, or fewer tests ran than expected. |
| Instrumentation.CloseRunBranches | src/main/kotlin/com/malinskiy/adam/request/transform/InstrumentationResponseTransformer.kt:53-69 | The exact outcome of `close` in each case. After the end was reported: null, nothing changes. No status block and not finished: `[TestRunFailed("No test results")]`, nothing changes. Fewer tests executed than expected: `[TestRunFailed]` with the incomplete-run message of the two counts, nothing changes. Started and complete: exactly `[TestRunEnded(0, map[])]`, and only `finishReported` is set. Finished without a status block and complete: `[TestRunStartedEvent(0), TestRunEnded(0, map[])]`, and only `finishReported` is set. |
| Instrumentation.IncompleteMessageCounts | src/main/kotlin/com/malinskiy/adam/request/transform/InstrumentationResponseTransformer.kt:59 | The incomplete-run message is `Test run failed to complete. Expected `, a text, ` tests, executed ` and a text, where the two texts read back as the expected and the executed count. |
| Instrumentation.CloseWithoutStatus | src/main/kotlin/com/malinskiy/adam/request/transform/InstrumentationResponseTransformer.kt:60-68 | A finished run that saw no status block is closed as `TestRunStartedEvent(0)` followed by `TestRunEnded`. |
| Instrumentation.CloseTwice | src/main/kotlin/com/malinskiy/adam/request/transform/InstrumentationResponseTransformer.kt:54-67 | Once `close` has ended the run, closing again returns null. |
| Numbers.ToIntOrNull | src/main/kotlin/com/malinskiy/adam/request/transform/InstrumentationResponseTransformer.kt:109 | A number read is within the 32-bit `Int` range. A negative one was written with a minus sign. Its value is stated by `ToIntOrNullOfDigits` and `IntToStringRoundTrip`. |
| Numbers.ToIntOrNullOfDigits | src/main/kotlin/com/malinskiy/adam/request/transform/InstrumentationResponseTransformer.kt:109 | An optional `+` or `-`, any number of leading zeros and the digits of n read as n, negated after `-`; the result is null exactly when that value is outside the `Int` range. |
| Numbers.LeadingZerosValue | src/main/kotlin/com/malinskiy/adam/request/transform/InstrumentationResponseTransformer.kt:109 | Zeros in front of a run of digits do not change its value. |
| Numbers.IntToStringRoundTrip | src/main/kotlin/com/malinskiy/adam/request/transform/InstrumentationResponseTransformer.kt:59 | `toIntOrNull` reads back every `Int` as `toString` writes it in the incomplete-run message. |
| Numbers.SecondsToMillis | src/main/kotlin/com/malinskiy/adam/request/transform/InstrumentationResponseTransformer.kt:183 | A time that is read lies in the `Long` range. The text is trimmed of characters up to U+0020 at both ends and loses one trailing `f`, `F`, `d` or `D` before it is read; its value is stated by `SecondsToMillisOfDecimal`, `SecondsToMillisOfWhole`, `SignedMillis` and `SecondsToMillisPadded`. |
| Numbers.ClampLong | src/main/kotlin/com/malinskiy/adam/request/transform/InstrumentationResponseTransformer.kt:183 | `toLong()` saturates: a value past either end of the `Long` range gives that end, and a value inside it is kept. |
| Numbers.SecondsToMillisOfDecimal | src/main/kotlin/com/malinskiy/adam/request/transform/InstrumentationResponseTransformer.kt:183 | A `Time:` text of digits, a `.` and digits gives `Millis`: the whole seconds times 1000 plus the fraction's first three digits, with the digits past the third truncated, saturated to the `Long` range. |
| Numbers.SecondsToMillisOfWhole | src/main/kotlin/com/malinskiy/adam/request/transform/InstrumentationResponseTransformer.kt:183 | A `Time:` text of digits gives the seconds times 1000, saturated to the `Long` range. |
| Numbers.SignedMillis | src/main/kotlin/com/malinskiy/adam/request/transform/InstrumentationResponseTransformer.kt:183 | A `+` in front of the number changes nothing; a `-` negates the milliseconds before they are saturated. |
| Numbers.SecondsToMillisPadded | src/main/kotlin/com/malinskiy/adam/request/transform/InstrumentationResponseTransformer.kt:183 | For a text whose ends are not characters up to U+0020 and that does not end in a suffix, putting such characters on either side and one `f`, `F`, `d` or `D` right after it does not change the time that is read. |
| Numbers.JavaTrim | src/main/kotlin/com/malinskiy/adam/request/transform/InstrumentationResponseTransformer.kt:183 | The trim of `toDoubleOrNull`: neither end of the result is a character up to U+0020, and every character of the result comes from the input. |
| Numbers.JavaTrimPadded | src/main/kotlin/com/malinskiy/adam/request/transform/InstrumentationResponseTransformer.kt:183 | Padding with characters up to U+0020 on either side of a text with clean ends is undone by the trim. |
| Numbers.StripFloatSuffix | src/main/kotlin/com/malinskiy/adam/request/transform/InstrumentationResponseTransformer.kt:183 | One trailing `f`, `F`, `d` or `D` is removed and the rest is kept as it is; a text without one is unchanged. |
| Numbers.SecondsToMillisNeedsDigit | src/main/kotlin/com/malinskiy/adam/request/transform/InstrumentationResponseTransformer.kt:183 | A text without a digit is not a number, so the time falls back to 0. |
| Text.Lines | src/main/kotlin/com/malinskiy/adam/request/transform/InstrumentationResponseTransformer.kt:36 | `lines()` gives at least one line, and no line holds a newline. |
| Text.SplitThenJoin | src/main/kotlin/com/malinskiy/adam/request/transform/InstrumentationResponseTransformer.kt:36 | Joining the pieces of a split with the delimiter gives back the text. |
| Text.Trim | src/main/kotlin/com/malinskiy/adam/request/transform/InstrumentationResponseTransformer.kt:91 | A trimmed text is the input with only white space removed from its two ends, and neither of its ends is white space. |
| Text.TrimDropsSpace | src/main/kotlin/com/malinskiy/adam/request/transform/InstrumentationResponseTransformer.kt:91 | The space after the colon of a code line is trimmed away from a value with clean ends. |
| Text.TrimClean | src/main/kotlin/com/malinskiy/adam/request/transform/InstrumentationResponseTransformer.kt:202 | A text with no white space at either end is its own trim, so trimming twice is trimming once. |
| RequestProtocol.NewRequest | src/main/kotlin/com/malinskiy/adam/request/Request.kt:30 | A request built without a target is addressed to `HostTarget`. |
| RequestProtocol.Connection.Handshake | src/main/kotlin/com/malinskiy/adam/request/Request.kt:38-46 | The request is written once and one answer is read. The result is the rejection of that answer. |
| RequestProtocol.Rejection | src/main/kotlin/com/malinskiy/adam/request/Request.kt:42-45 | Rejection happens exactly when the answer is not OKAY. It carries the server's message, or "no message received" when there is none. |
| RequestProtocol.Hex | src/main/kotlin/com/malinskiy/adam/request/Request.kt:55 | `%X` writes upper-case hexadecimal digits with no leading zero. |
| RequestProtocol.Format04X | src/main/kotlin/com/malinskiy/adam/request/Request.kt:55 | `%04X`: the hexadecimal digits left-padded with zeros to four. Its length and value are stated by `FormatFourDigits` and `OversizedFrameMisread`. |
| RequestProtocol.HexRoundTrip | src/main/kotlin/com/malinskiy/adam/request/Request.kt:55 | The digits `%X` writes read back as the number. |
| RequestProtocol.HexLength | src/main/kotlin/com/malinskiy/adam/request/Request.kt:55 | `%X` writes at most k digits exactly when the number is below 16^k. |
| RequestProtocol.HexValueDigits | src/main/kotlin/com/malinskiy/adam/request/Request.kt:55 | A run of characters has a hexadecimal value exactly when all of them are hexadecimal digits. |
| RequestProtocol.FormatFourDigits | src/main/kotlin/com/malinskiy/adam/request/Request.kt:55 | `%04X` of a length below 65536 is exactly four digits that read back as the length. |
| RequestProtocol.CreateBaseRequest | src/main/kotlin/com/malinskiy/adam/request/Request.kt:53-57 | The frame is hexadecimal digits followed by the target prefix and the request. Below 65536 characters the digits are exactly four and give the payload's length. |
| RequestProtocol.ReadFrame | src/main/kotlin/com/malinskiy/adam/request/Request.kt:53-57 | How the adb server reads the frame `createBaseRequest` writes: whatever it returns is the text right after the four length digits. Its agreement with the writer is `FrameRoundTrip`. |
| RequestProtocol.FrameRoundTrip | src/main/kotlin/com/malinskiy/adam/request/Request.kt:53-57 | The adb server, reading four digits of length and then the payload, gets back the target prefix and the request, for any request shorter than 65536 characters. |
| RequestProtocol.OversizedFrameMisread | src/main/kotlin/com/malinskiy/adam/request/Request.kt:55 | From 65536 characters on, `%04X` writes more than four digits and the server reads a different request. |
| RequestProtocol.GetSinglePropFrame | src/test/kotlin/com/malinskiy/adam/request/GetSinglePropRequestTest.kt:27-29 | `shell:getprop x` with an empty target prefix is framed as `000Fshell:getprop x`. |
| RequestProtocol.Validate | src/main/kotlin/com/malinskiy/adam/request/Request.kt:59 | The default `validate` accepts every request. |
| RequestProtocol.Connection.constructor | src/main/kotlin/com/malinskiy/adam/request/Request.kt:38 | The channels of a handshake: nothing written yet, and the server's answers still to be read. |
| Install.InstallCommand | src/main/kotlin/com/malinskiy/adam/request/sync/InstallRemotePackageRequest.kt:26-39 | The command the constructor builds. Its shape is stated by `InstallCommandShape`, its words by `FusedCommandWords`. |
| Install.InstallCommandShape | src/main/kotlin/com/malinskiy/adam/request/sync/InstallRemotePackageRequest.kt:27-39 | The command starts with `pm install `, then `-r ` when reinstalling, and ends with the path. After `pm install `, and after `-r ` when reinstalling, come the extra arguments joined by spaces and then the path, with nothing between them. Without extra arguments it is `pm install ` and the path. |
| Install.FusedCommandWords | src/main/kotlin/com/malinskiy/adam/request/sync/InstallRemotePackageRequest.kt:34-38 | As written, with extra arguments, the command splits into the head words, every extra argument but the last, and one word that is the last argument glued to the path. |
| Install.GrantFlagCommand | src/main/kotlin/com/malinskiy/adam/request/sync/InstallRemotePackageRequest.kt:27-39 | With path `/sdcard/a.apk` and extra argument `-g`, the command is `pm install -g/sdcard/a.apk`. |
| Install.GrantFlagFusedWithPath | src/main/kotlin/com/malinskiy/adam/request/sync/InstallRemotePackageRequest.kt:34-38 | That command splits into three words, the last `-g/sdcard/a.apk`, where the intended command has four. |
| Install.SeparatedCommandWords | src/main/kotlin/com/malinskiy/adam/request/sync/InstallRemotePackageRequest.kt:27-39 | With a space before the path, the command splits into exactly the intended words: `pm`, `install`, `-r` exactly when reinstalling, every extra argument, and the path. |
| Install.InstallCommandSeparated | src/main/kotlin/com/malinskiy/adam/request/sync/InstallRemotePackageRequest.kt:27-39 | The command with the evidently intended space before the path. Its words are stated by `SeparatedCommandWords`, its shape by `SeparatedCommandShape`. |
| Install.SeparatedCommandShape | src/main/kotlin/com/malinskiy/adam/request/sync/InstallRemotePackageRequest.kt:27-39 | The corrected command starts with `pm install ` and ends with the path. Without extra arguments it equals the command as written. |

## Left out

- I/O is left out. The `ByteArray` chunks given to `process` are already
  decoded into text, and the read and write channels of the handshake are
  the `Connection` fields. The transport's charset is left out: one
  character stands for one byte, so the frame length is the character count.
- `lines()` is modelled for `\n` only. A `\r` or `\r\n` terminator is not
  modelled.
- `Time:` values are modelled in plain decimal notation, with the trim of
  characters up to U+0020 at both ends and one optional `f`, `F`, `d` or
  `D` suffix. Hexadecimal floating-point text (`0x1.8p1`), exponents,
  `NaN`, infinities, Unicode digits and the rounding of `Double` are left
  out; such a text gives `None`, so the time falls back to 0. The exact
  value times 1000 is truncated and saturated.
- `toIntOrNull` accepts ASCII digits only.
- The counters `testsExpected` and `testsExecuted` are unbounded. The
  32-bit wrap-around after 2^31 executed tests is not modelled.
- `Target.serialize` is not part of this model. The frame takes the
  serialized target prefix as text.
- The `log.warn` of a rejected handshake is not modelled.
- RequestProtocol.Connection.Handshake: requires an answer to be pending.
  Reading from a closed channel is the transport's behaviour and is not
  modelled.
- Instrumentation.ToMapOfStatusLines: covers only status lines whose keys
  are plain. A key must be non-empty, must not start with white space, and
  must not contain `=`, `:` or a newline. A value must not contain `=`, `:`
  or a newline, and must not have white space at either end. Other lines
  are modelled by `ToMap` itself, but the read-back property is not stated
  for them.
- Instrumentation.ParseKeepsRunConsistent: `ConsistentRun` does not exclude
  a second `TestRunStartedEvent`. A status block that arrives after `close`
  has ended a run without one can report one, and the code allows this.
- `SyncShellCommandRequest` and `StringResponseTransformer`, which
  `InstallRemotePackageRequest` delegates to, are not part of this model.
  Only the command text is.
- The events do depend on where chunk boundaries fall, and `Transform` is
  specified on the whole buffer as it stands. The code can cut an atom at a
  chunk boundary: with the chunks `INSTRUMENTATION_STATUS_CODE: -` and
  `1\n`, the first call already sees a terminator line, whose code `-` is
  not a number, so the block throws at `TODO()`. The whole text at once
  would have been one status block with code -1. No lemma states
  independence from chunk boundaries, since it does not hold.

## Findings

| source | as written | input that shows it | evidently intended | confidence | as-written member | corrected member |
|---|---|---|---|---|---|---|
| src/main/kotlin/com/malinskiy/adam/request/sync/InstallRemotePackageRequest.kt:34-38 | the joined extra arguments are followed by the path with no space between them | `InstallRemotePackageRequest("/sdcard/a.apk", false, listOf("-g"))` gives `pm install -g/sdcard/a.apk` | a space after the extra arguments, so that the path is a word of its own: `pm install -g /sdcard/a.apk` | not executed | Install.GrantFlagFusedWithPath | Install.SeparatedCommandWords |
