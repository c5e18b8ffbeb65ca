# Verified model of dsql-cli

`dsql` is a command-line client for Aurora DSQL. This project models the parts of
it whose correctness is hardest to see from the code and proves properties of
them:

- **SQL statement framing.** A byte state machine (seven lexical states, nested
  comments, dollar tags with unbounded look-ahead, a two-byte look-behind for `E'`)
  cuts a stream of text into semicolon-terminated statements. It is proved
  independent of how the input is chunked, and compared with a recursive lexer for
  section 4.1 of the PostgreSQL manual. The exact statement is about constructs: the
  scanner enters the constructs of the manual **if and only if** no `E'` or dollar
  quote follows at once upon a token that is no word but ends like one (a number, a
  parameter, a lone dollar sign, a closed dollar quote), and no escape string is
  continued over a newline (section 4.1.2.1). Terminators and the construct left open
  then agree too; in the other direction they may agree by chance, as on
  `$$a$$$$b$$;`. For a token that ends like a word, of whatever kind, a dollar quote
  and an escape string are given in which the scanner finds a terminator and the manual
  has none, and for a continued constant one whole input.
- **The callers of the framing.** Command strings, shell lines with their validator,
  and the script reader with its UTF-8 carry.
- **The session protocol.** Every call is a step over an adversarial world
  (connection loss, a liveness flag that lags, failed and interrupted reconnects,
  dropped futures, failing sinks, failing setting capture), and safety is proved over
  every run. What comes next in a run is never submitted on a connection with an
  abandoned request **if and only if** no call returns an error with its response
  unread while the driver leaves the session unmarked and goes on. The tracked
  transaction state is right **if and only if** no action misleads the session, by a
  sink that fails on a BEGIN the server carries out or by a capture query rejected
  inside a block; only the first can cost an open transaction, and exactly when is
  proved as well. Runs of the shell that show what each of these costs are given.
- **Text with a meaning.** Secret redaction, whose output is proved not to depend on
  the bytes of a replaced value (and shown to do so behind a quote that an earlier value
  leaves open), bounded diagnostics, shell patterns as LIKE parameters, cluster selectors.
- **Results and metrics.** The column allocator and the lines it produces, the event
  protocol of the four sinks, also when writers fail, the JSON Lines log, and the
  merging of metric pages with exactly when it succeeds and why it fails.

## How the model is laid out

Each module follows one source file or one concern of it. Algorithms that update
state are classes or methods with loops, each proved against a specification
function; what the source promises is then proved about that function. What the
specification functions themselves mean is stated without them, in explicit bytes,
indices and names: in `Constructs`, `SecretKeys`, `SignalLaws`, `SessionOutcomes`,
`MetricsLaws`, `TableText`, `TextSafety` and `SelectorLaws`.
`Bytes`, `Numbers`, `Wrappers` and `Sequences` are shared vocabulary.

| file | content |
|---|---|
| `Scanner.dfy`, `Constructs.dfy` | the state machine and its loop; the constructs it enters, byte by byte |
| `Framing.dfy`, `StatementStreams.dfy` | cutting, the stream object, runs of pushes |
| `Lexicon.dfy`, `Numerals.dfy`, `ReferenceLexer.dfy` | the manual's constructs and the recursive lexer |
| `Classification.dfy`, `ClassificationLaws.dfy` | trivia, leading keywords, statement classes |
| `Submission.dfy`, `ScriptReader.dfy`, `Utf8.dfy` | the callers of the stream, decoding |
| `Session.dfy`, `SessionOutcomes.dfy` | the session object, and what a call leaves behind |
| `Signals.dfy`, `SignalLaws.dfy` | the drivers that may drop a call, and their verdict read off the schedule |
| `SessionRuns.dfy`, `SessionUnread.dfy`, `SessionTracking.dfy` | safety over runs, responses left unread, and the simulation of the server |
| `CatalogSinks.dfy` | the bounded sink of a catalog query |
| `Redaction.dfy`, `SecretKeys.dfy`, `RedactionLaws.dfy` | secrets: spans, which keys and values they are, what shows |
| `Sanitizing.dfy`, `TextSafety.dfy` | diagnostics, characters, and what clean text is |
| `Patterns.dfy`, `Selectors.dfy`, `SelectorLaws.dfy` | shell patterns, cluster selectors and their parts |
| `Metrics.dfy`, `MetricsLaws.dfy` | pages of points merged into buckets, and what comes out point by point |
| `TableLayout.dfy`, `TableText.dfy` | widths and lines, and what a cell shows |
| `Sinks.dfy`, `SinkLaws.dfy` | sinks, what they share, and the grammar they accept |

Foreign calls are inputs: connector results, liveness, answers of the server,
captures, cancel results, signals, the time, the service that delivers metric pages,
the success of writes and of an executed statement are all chosen freely by the world. Bytes
are `0..255`; text that the source handles by characters is a sequence of Unicode
scalar values. `None` from a push stands for the error that a statement is too large.

Where the code and its documentation differ the code is followed. The manual of the
shell says that catalog patterns are the text behind the command name; the code takes
the text behind as many characters as the name has, so a blank between the backslash
and the name moves part of the name into the argument
(`Patterns.ArgumentIsBehindName` gives the exact condition, and
`Patterns.BlankShiftsArgument` the shortest line).

## Model

| member | source | states |
|---|---|---|
| `Scanner.RunScan` | src/sql/scanner.rs:221-332 | the scanning loop reports the terminator ends and the last state of the step-by-step specification that every lemma below speaks about |
| `Scanner.Turn` | src/sql/scanner.rs:226-329 | one turn of the loop moves index and state as the specification of its lexical state says |
| `Scanner.ReadDelimiter` | src/sql/scanner.rs:339-364 | the dollar-tag look-ahead and its look-behind find the delimiter the specification names |
| `Constructs.DelimiterMeans` | src/sql/scanner.rs:346-363 | the look-ahead ends at an index exactly when a second dollar sign stands before it and between the two there is no byte or a tag: letters, underscores, bytes of non-ASCII characters and, behind the first, digits |
| `Constructs.DollarQuoteMeans` | src/sql/scanner.rs:339-364 | a dollar quote is opened exactly by such a delimiter behind no letter, digit, underscore, dollar sign or byte of a non-ASCII character |
| `Constructs.EscapePrefixMeans` | src/sql/scanner.rs:334-337 | an escape string is opened exactly by `E` or `e` behind none of these bytes |
| `Constructs.DollarQuoteHides` | src/sql/scanner.rs:295-312 | whatever the tag, a semicolon between two copies of the delimiter is no terminator, and the one behind them is the only one |
| `Constructs.StringHides` | src/sql/scanner.rs:264-273 | for every text, its quotes doubled and the whole between quotes, the only terminator is the semicolon behind |
| `Constructs.EscapeStringHides` | src/sql/scanner.rs:275-288 | the same for escape strings of every text, quotes and backslashes behind backslashes |
| `Constructs.NestedCommentHides` | src/sql/scanner.rs:314-327 | a semicolon behind the end of an inner comment is still inside the outer one |
| `Constructs.LineEndMeans` | src/sql/scanner.rs:308-313 | a line comment ends behind the first line feed or carriage return |
| `Constructs.DollarEndMeans` | src/sql/scanner.rs:300-307 | a dollar-quoted body ends behind the first place where the bytes of its delimiter stand |
| `Framing.ScanExtended` | src/sql/scanner.rs:221-332 | look-ahead: more text keeps every terminator already found and adds only terminators beyond the shorter text |
| `Framing.ScanRestart` | src/sql/scanner.rs:221-332 | look-behind: scanning may start over behind any byte that is no part of a word |
| `StatementStreams.StatementStream.Push` | src/sql/scanner.rs:102-130 | a push succeeds exactly when every statement and the pending text fit the limit, and then emits and keeps what framing the whole pending text gives, each statement with its class |
| `StatementStreams.CutAll` | src/sql/scanner.rs:107-121 | the cutting loop over the ends of one scan gives what cutting and rescanning would |
| `StatementStreams.ChunkInvariance` | src/sql/scanner.rs:70-130 | for every split of an input, the pushes together emit and leave pending what one push does; with a limit they all succeed if and only if the whole input fits it |
| `StatementStreams.FrameInTwo` | src/sql/scanner.rs:102-130 | framing two pieces one after the other is framing them at once |
| `StatementStreams.FitsInTwo` | src/sql/scanner.rs:110-128 | a limit holds of the whole exactly when it holds of both pushes |
| `StatementStreams.Conservation` | src/sql/scanner.rs:72-76 | emitted texts followed by the pending text are the input |
| `StatementStreams.EmittedIsFixpoint` | src/sql/scanner.rs:102-130 | an emitted statement framed alone is itself, ends in a semicolon and leaves nothing pending |
| `StatementStreams.StatementStream.PendingIsTrivia` | src/sql/scanner.rs:146-149 | the pending text is trivia exactly when it is in the grammar of whitespace and closed comments |
| `StatementStreams.StatementStream.TakeCompleteStatement` | src/sql/scanner.rs:151-162 | a pending text is handed over exactly when it is closed and more than trivia, and stays otherwise |
| `Lexicon.RunBlock` | src/sql/scanner.rs:314-327 | the depth counter ends a comment where the nesting of comments does, at every depth |
| `Lexicon.RunDollar` | src/sql/scanner.rs:300-307 | a dollar-quoted body ends at the first copy of its delimiter |
| `Lexicon.RunEscaped` | src/sql/scanner.rs:275-288 | escape-string processing ends at the quote the manual names |
| `ReferenceLexer.ScannerMeetsManual` | src/sql/scanner.rs:202-364 | the scanner enters exactly the constructs of the recursive lexer if and only if no two tokens clash; when none do, terminators and the construct left open agree too |
| `ReferenceLexer.LexAgrees` | src/sql/scanner.rs:221-364 | the same from every token boundary on |
| `ReferenceLexer.DollarQuoteIsSplit` | src/sql/scanner.rs:342-344 | behind any byte of a word, and so behind each kind of token that ends like one, the scanner reports a terminator in `$$;$$`, which the manual reads as one closed dollar quote |
| `ReferenceLexer.EscapeStringIsSplit` | src/sql/scanner.rs:334-337 | the same for the escape string `E'\';'` |
| `Numerals.NumberTail` | src/sql/scanner.rs:334-344 | a numeric constant ends in a digit, a letter or a point, and the look-behind never takes the `E` it may end in for the prefix of an escape string |
| `ReferenceLexer.AdjacentDollarQuotesScan` | src/sql/scanner.rs:342-344 | on `$$$$$$;` the scanner reports a terminator |
| `ReferenceLexer.AdjacentDollarQuotesLex` | src/sql/scanner.rs:342-344 | on the same input the manual has none: the second dollar quote is open |
| `ReferenceLexer.DollarQuoteBehindNumberScan` | src/sql/scanner.rs:342-344 | on `1$$;$$` the scanner reports a terminator, since its look-behind takes the number for a word |
| `ReferenceLexer.DollarQuoteBehindNumberLex` | src/sql/scanner.rs:342-344 | on the same input the manual has none: a number and a closed dollar quote |
| `ReferenceLexer.EscapeBehindNumberScan` | src/sql/scanner.rs:334-337 | on a number followed by the escape string `E'\';'` the scanner reports a terminator |
| `ReferenceLexer.EscapeBehindNumberLex` | src/sql/scanner.rs:334-337 | on the same input the manual has none: a number and a closed escape string |
| `ReferenceLexer.ContinuedConstantScan` | src/sql/scanner.rs:334-337 | on an escape string continued over a newline the scanner reports a terminator |
| `ReferenceLexer.ContinuedConstantLex` | src/sql/scanner.rs:334-337 | on the same input the manual has none: the continued constant is open |
| `Classification.SkipTriviaLoop` | src/sql/scanner.rs:397-430 | the skipping loop stops where its specification does |
| `Classification.LeadingKeywords` | src/sql/scanner.rs:374-393 | the loop collects the leading words of the specification |
| `Classification.SkippableIsTrivia` | src/sql/scanner.rs:146-149 | nothing open and everything skipped holds if and only if the text is in the trivia grammar, which also holds no terminator |
| `Classification.ClosedTriviaMeans` | src/sql/scanner.rs:397-430 | closed trivia is exactly the trivia behind which the scanner is in no comment |
| `ClassificationLaws.TriviaKeepsKeywords` | src/sql/scanner.rs:374-430 | closed trivia before a text never changes its leading keywords |
| `ClassificationLaws.TriviaKeepsClass` | src/sql/scanner.rs:166-189 | closed trivia before a statement never changes its class |
| `ClassificationLaws.CaseKeepsClass` | src/sql/scanner.rs:166-189 | letter case never changes the class of a statement |
| `ClassificationLaws.ClassOfFirstWord` | src/sql/scanner.rs:174-188 | BEGIN, COMMIT, END, SAVEPOINT and RELEASE decide the class whatever follows the word |
| `ClassificationLaws.ClassOfTwoWords` | src/sql/scanner.rs:174-182 | ROLLBACK and ABORT end a transaction unless TO comes next, START begins one only before TRANSACTION |
| `ClassificationLaws.OtherMeans` | src/sql/scanner.rs:166-189 | a statement is of no class if and only if it has no leading word, or its first one spells none of the eight keywords, or is START without TRANSACTION next |
| `ClassificationLaws.ClassOfOtherWord` | src/sql/scanner.rs:166-189 | the same for every word in front, whatever follows it |
| `ClassificationLaws.ClassWithoutWord` | src/sql/scanner.rs:374-393 | a text with no letter behind its trivia is of no class |
| `ClassificationLaws.ClassInOpenComment` | src/sql/scanner.rs:397-430 | a comment that stays open makes no class, whatever words it holds |
| `ClassificationLaws.WordEndMeans` | src/sql/scanner.rs:374-393 | words are maximal runs of ASCII letters |
| `Submission.SplitCommand` | src/cli.rs:459-483 | a command string is refused exactly when it is too large or ends inside a construct; what its statements leave out is trivia |
| `Submission.FrameSubmission` | src/shell/mod.rs:360-391 | a line within the limit is never refused, and its statements are those of one framing |
| `Submission.Validate` | src/shell/editor.rs:75-94 | a line is complete exactly when it is blank, too large, a meta-command, or framed with only trivia left |
| `TextSafety.BlankLineMeans` | src/shell/editor.rs:76-78 | a line is blank exactly when each of its characters has the Unicode property White_Space |
| `Submission.ReadLine` | src/shell/mod.rs:100-212 | for every line, whether it is skipped, refused as too large, read as a meta-command, kept for more or submitted; the submitted texts followed by the trivia left are the line |
| `Submission.CutsKeepUtf8` | src/sql/scanner.rs:114-123 | every cut falls on a character boundary: statements of valid UTF-8 and the rest are valid UTF-8 |
| `Utf8.CheckSound` | src/cli.rs:537-545 | accepted bytes are valid UTF-8, and a broken-off rest is one to three bytes that may begin a character |
| `TextSafety.EncodedIsCharacter` | src/cli.rs:537-545 | the encoding of every Unicode scalar value is accepted as one character |
| `TextSafety.CharacterIsEncoded` | src/cli.rs:537-545 | every accepted character is the encoding of a scalar value |
| `Utf8.MalformedForGood` | src/cli.rs:540-544 | no continuation makes a rejected buffer valid |
| `ScriptReader.ExecuteScript` | src/cli.rs:512-574 | a script runs to its end exactly when the source does not fail, the file is valid UTF-8, framing it at once fits the limit and leaves trivia, and every statement succeeds; it runs a prefix of the statements of that one framing, all of them on success; every other end has its reason in the file, within a carry and a chunk behind the decoded text, all of whose statements have run |
| `ScriptReader.TakeChunk` | src/cli.rs:534-562 | one turn keeps: decoded bytes, carry of at most three bytes and unread bytes are the file, and what ran is what the decoded bytes frame to |
| `Session.ManagedSession.Execute` | src/app.rs:810-820 | one call makes the step of the specification, with at most one submission |
| `Session.ManagedSession.PrepareFor` | src/app.rs:834-859 | refuses, lets through or reconnects as specified, and changes nothing else |
| `Session.ManagedSession.FinalizeWith` | src/app.rs:861-892 | the state, settings and reconnect demand after every kind of answer |
| `SessionOutcomes.SuccessMoves` | src/app.rs:861-877 | a call that succeeds leaves the session active behind a BEGIN, idle over an idle server behind a COMMIT or ROLLBACK, and otherwise in the state it was |
| `SessionOutcomes.SucceedsExactly` | src/app.rs:810-892 | a call that nobody drops succeeds exactly when it is prepared, its connection is whole, and the server can and does carry the statement out |
| `SessionOutcomes.StoppedCall` | src/shell/mod.rs:452-523 | a call that a driver walks away from is cut at the await the world names, or never starts |
| `SessionOutcomes.ErrorMoves` | src/app.rs:879-890 | a call that fails on a connection still alive turns active into failed and leaves every other state; a refused one leaves the state |
| `Session.ManagedSession.Reconnect` | src/app.rs:894-925 | the attempt loop makes the steps of the specification |
| `SessionOutcomes.ThreeAttempts` | src/app.rs:894-925 | a reconnect is given up exactly when three attempts have failed |
| `Session.ManagedSession.TakeReconnected` | src/app.rs:786-788 | a reconnect is reported once |
| `Session.ManagedSession.DemandReconnect` | src/app.rs:794-800 | an idle session must reconnect, any other becomes uncertain |
| `Session.ManagedSession.CurrentReconnectState` | src/app.rs:770-784 | the label is the one the specification gives |
| `SessionOutcomes.DueAfterFiftyFiveMinutes` | src/app.rs:770-784 | an idle live session is due from 3300 seconds after it connected on, and never before |
| `Signals.CoordinateSignals` | src/shell/mod.rs:470-523 | the coordination loop reaches the verdict of the two nested selects |
| `SignalLaws.FinishesByIndex` | src/shell/mod.rs:470-523 | read off the schedule: the statement is left to finish if and only if at most one signal comes before its first completion outside a cancel request, an interrupt with a handle whose request comes to its end or is never answered; when the shell goes on behind a stop |
| `SignalLaws.TerminateStops` | src/shell/mod.rs:479-481 | a terminate signal or a closed channel stops the statement and the shell, with or without a handle |
| `SignalLaws.ShellEndsByIndex` | src/shell/mod.rs:217-234 | which schedules end the shell |
| `SignalLaws.VerdictByIndex` | src/shell/mod.rs:470-523 | the verdict on every schedule, by the first wake that each select waits for |
| `Signals.ExecuteWithSignals` | src/shell/mod.rs:452-533 | every way out other than completion, and a completion whose cancel request failed, leaves the session uncertain |
| `Signals.LoadCatalogRows` | src/sql/metadata.rs:145-187 | an unsettled catalog query forces a reconnect or makes the session uncertain; the rows are not stale if and only if the call succeeded in time and the sink kept every row |
| `SessionRuns.EveryRunIsSafe` | src/app.rs:810-925 | over every run: nothing is submitted on a connection on which the future of a call was dropped; every connector call is made from idle with the settings captured after the most recent successful statement, and none while that capture is missing; the submissions are the calls in order, each at most once |
| `SessionUnread.CleanIffUnexposed` | src/app.rs:861-892 | whatever comes next at any point of a run is submitted on a connection without an abandoned request (dropped or left unread) if and only if no call of the run returns an error with its response unread while its driver leaves the session unmarked and goes on |
| `SessionUnread.StepGuards` | src/db/session.rs:400-512 | an action leaves the session guarded against abandoned requests if and only if it does not expose an unread response |
| `SessionUnread.UnreadRunIsUnclean` | src/shell/mod.rs:208-230 | a run of two statements typed into the shell, in which the first one's sink fails on a row and the second is submitted on the same connection |
| `SessionUnread.BatchNeverExposes` | src/cli.rs:441-443 | a batch statement that leaves its response unread ends its program |
| `SessionRuns.SafeCall` | src/app.rs:810-892 | a call submits its text at most once and keeps captures and settings in step |
| `SessionRuns.BlockedForGood` | src/app.rs:834-847 | uncertain, and a lost connection outside idle, are absorbing: no run from there submits or connects |
| `SessionRuns.ReconnectTries` | src/app.rs:894-925 | at most three attempts, stopping at the first success; without one only the log changes |
| `SessionRuns.ReconnectSettles` | src/app.rs:908-913 | a session that has just reconnected is connected, on a new connection with the same settings |
| `SessionRuns.LossIsRemembered` | src/app.rs:879-886 | a connection seen to break blocks the session for good exactly when the statement was part of a transaction or would begin one; otherwise a reconnect is required |
| `SessionRuns.LabelForetells` | src/app.rs:770-784 | each reconnect label foretells what the next undisturbed statement does first |
| `SessionTracking.TracksCall` | src/app.rs:834-892 | a call keeps "tracked idle means the server is idle" if and only if it loses no BEGIN, and the whole of tracking if and only if it is not misled |
| `SessionTracking.EveryRunTracks` | src/app.rs:834-959 | over every run: after each part of it the tracked state is right on a live connection, if and only if no action misleads the session while it stays certain |
| `SessionTracking.EveryRunKeepsIdle` | src/app.rs:834-959 | over every run: after each part of it tracked idle means that the server is idle, if and only if no action loses a BEGIN (the server carries it out, the call returns an error) while the session stays certain |
| `SessionTracking.EveryRunGivesUpNoBlock` | src/app.rs:834-925 | over every run: no action at any point of it gives up a transaction open on a live connection, if and only if the program never goes on with an idle session whose server is in a block and whose settings are current; without a lost BEGIN it never does |
| `SessionTracking.LossStrands` | src/app.rs:879-890 | an action loses a BEGIN exactly when it leaves an idle session over a server in a block |
| `SessionTracking.DueCallGivesUp` | src/app.rs:848-857 | from such a session, the next undisturbed statement for which a reconnect is due or required gives up the block exactly when the settings are current |
| `SessionTracking.SinkFailureGivesUpBlock` | src/app.rs:879-890 | in the shell, a sink that fails on a successful BEGIN leaves the session idle, and the proactive reconnect of a later statement gives up the open block |
| `SessionTracking.CaptureRejectionMisleads` | src/app.rs:861-877 | a capture query rejected behind a BEGIN leaves the session tracked active while the block of the server is aborted |
| `CatalogSinks.CatalogSink.EmitRow` | src/sql/metadata.rs:208-236 | a row is kept exactly when it and all rows before it stay within the row, field and byte limits, and truncation is flagged exactly when a row was dropped |
| `CatalogSinks.KeptGrows` | src/sql/metadata.rs:208-236 | the kept rows stay a subsequence of the delivered ones |
| `CatalogSinks.TotalBytesMeans` | src/sql/metadata.rs:216-231 | what counts against the byte limit is every byte of every kept field |
| `Redaction.Redact` | src/error.rs:304-366 | the loop, which jumps over separators and values, replaces exactly the specified spans and keeps every other byte in order |
| `Redaction.SkipToSeparator` | src/error.rs:337-341 | jumping behind the separator of a key that is no secret skips no secret key |
| `Redaction.SpansAreSecret` | src/error.rs:304-366 | every replaced range is the value of a secret key |
| `Redaction.SecretsAreCovered` | src/error.rs:304-366 | every secret key has the range of its value, which may be empty, replaced or lies inside a replaced value |
| `SecretKeys.PlainKeyMeans` | src/error.rs:439-468 | a key of small letters, digits, underscores and dashes is secret if and only if it is one of the 23 names or starts with `x-amz-` |
| `SecretKeys.CaseKeepsSecrecy` | src/error.rs:439-441 | keys that differ only in ASCII letter case are secret alike |
| `SecretKeys.EncodingKeepsSecrecy` | src/error.rs:470-499 | which bytes of a key are percent-encoded, in digits of which case, never changes whether it is secret |
| `SecretKeys.KeyMeans` | src/error.rs:439-499 | however it is encoded, a key is secret if and only if what it encodes is one of the 23 names, or starts with `x-amz-`, in any letter case |
| `SecretKeys.UnquotedKey` | src/error.rs:304-341 | a run of key bytes before `=` or `:` is a key exactly at the start of the text or behind one of the thirteen bytes that may precede one |
| `SecretKeys.QuotedKey` | src/error.rs:312-336 | a key between equal quotes is found across the blanks before its separator |
| `SecretKeys.ValueEndMeans` | src/error.rs:343-437 | where a value ends, by its first byte that is no blank and its separator: closing quote, end of line, end of text, or the first byte that ends a value |
| `SecretKeys.QuoteCloseMeans` | src/error.rs:403-423 | the closing quote is the one reached by bytes that are neither quote nor backslash and by pairs behind a backslash |
| `Redaction.EmptyValue` | src/error.rs:343-365 | the range of a value is empty exactly when nothing quoted follows and the text, the line, or (behind `=`) the value ends at once |
| `Redaction.SecretBehindBlankStays` | src/error.rs:391-401 | on `pwd= x` the range is empty, and the text behind the blank stays in the output |
| `Redaction.RedactionKeepsUtf8` | src/error.rs:343-365 | all slice points are character boundaries, also behind a backslash skip into a character, and the output is valid UTF-8 |
| `RedactionLaws.ValueDoesNotShow` | src/error.rs:304-437 | redaction hides its values: inside a replaced range any stretch without quotes and backslashes can be exchanged for any other that would not end the value, of any length, and the whole output stays the same |
| `RedactionLaws.BareValueDoesNotShow` | src/error.rs:343-365 | the same inside a value without quotes for stretches that may hold quotes and backslashes, unless an earlier value opens a quote that is never closed |
| `RedactionLaws.OpenQuoteShowsSecret` | src/error.rs:403-423 | an earlier open quote is closed by a quote in a secret, and the rest of that secret shows |
| `RedactionLaws.RestBehind` | src/error.rs:364-365 | behind the end of a value, redaction depends only on the text from there on |
| `RedactionLaws.QuoteAcross` | src/error.rs:403-423 | the search for a closing quote, which may skip a byte, ends at the same place whatever plain bytes it passes |
| `Redaction.KeyBoundaries` | src/error.rs:337 | the slice of a key falls on character boundaries |
| `Redaction.DecodeKey` | src/error.rs:470-488 | the decoding loop computes the percent decoding of the specification |
| `Utf8.FloorCharBoundary` | src/error.rs:297-302 | the nearest character boundary at or before an index |
| `Sanitizing.SanitizeTerminalText` | src/error.rs:163-174 | the result holds no control character but newline and tab |
| `TextSafety.CleanMeans` | src/error.rs:163-174 | text is clean exactly when, byte by byte, it holds no control but newline and tab, no delete and no C1 control |
| `TextSafety.CleanStays` | src/error.rs:163-174 | clean text is left as it is |
| `TextSafety.ControlIsEscaped` | src/error.rs:168-170 | every other control character becomes its escape |
| `TextSafety.EscapeMeans` | src/error.rs:168-170 | which names its code in four hexadecimal digits |
| `Sanitizing.SanitizeDiagnostic` | src/error.rs:282-295 | the result is clean UTF-8 of at most 65536 bytes, in full when that fits, otherwise cut at a character boundary and marked |
| `TextSafety.SmallDiagnosticStays` | src/error.rs:282-288 | a clean diagnostic that fits is shown in full with its secrets replaced |
| `TextSafety.LargeDiagnosticIsMarked` | src/error.rs:290-295 | one that does not is a beginning, shortened by at most three bytes to a boundary, and the marker |
| `Patterns.BuildRelationPattern` | src/sql/metadata.rs:624-637 | the loop builds the LIKE parameter of the specification |
| `Patterns.LikeMeansGlob` | src/sql/metadata.rs:624-637 | a name matches the parameter under LIKE if and only if it matches the shell pattern with the star as any sequence and all else literal |
| `Patterns.UndoubleLoop` | src/shell/commands.rs:250-264 | the loop undoes the doubling of quotes or finds a lone one |
| `Patterns.QuotedReadsBack` | src/shell/commands.rs:236-265 | a quoted argument reads back as the text that was quoted |
| `Patterns.PatternMeans` | src/shell/commands.rs:236-265 | an argument asks for a pattern exactly when it is that pattern, plain, or its quoted form |
| `Patterns.ParseQuoted` | src/shell/commands.rs:173-200 | the three catalog commands ask for relations, tables and schemas with the pattern that was quoted |
| `Patterns.MalformedMeans` | src/shell/commands.rs:173-184 | a line behind a backslash is refused without a command exactly when it has a line break or no name |
| `Patterns.QuotedNameMatchesItself` | src/shell/commands.rs:173-265 | for a star-free, newline-free name the quoted argument of the relations command gives a parameter that matches that name alone |
| `Patterns.ArgumentIsBehindName` | src/shell/commands.rs:181-184 | the argument is the text behind the command name if and only if the name follows the backslash at once |
| `Patterns.BlankShiftsArgument` | src/shell/commands.rs:181-184 | a bare `\ d` asks for the relations named d, where `\d` asks for all |
| `Patterns.TrimMeans` | src/shell/commands.rs:184 | trimming takes away white space at both ends and leaves none there |
| `Selectors.ParsesIffPrinted` | src/target.rs:290-370 | a text is accepted with certain fields if and only if it is the printed form of well-formed fields, so the three forms are disjoint |
| `Selectors.PrintedParses` | src/target.rs:290-370 | printing the fields of a selector parses back to that selector |
| `Selectors.ParsedPrints` | src/target.rs:290-370 | an accepted text is the printed form of the fields it was parsed to |
| `SelectorLaws.RegionMeans` | src/target.rs:410-433 | a Region has one to twenty small letters, digits and dashes, at least two of them dashes, none at an end or next to another, and only digits behind the last |
| `SelectorLaws.BareMeans` | src/target.rs:290-309 | a text is accepted as an identifier exactly when it has 26 small letters and digits |
| `SelectorLaws.OnePartition` | src/target.rs:383-408 | each Region matches exactly one partition, the one its first letters name |
| `Selectors.TargetEndpointParses` | src/cli.rs:631-648 | a target exists exactly when the Region is well formed and agrees, and its endpoint parses to the same identifier and Region |
| `Metrics.BucketIsSample` | src/aws/metrics.rs:751-760 | every time in the window lies in exactly one bucket, which is one of the samples |
| `Metrics.MergePoints` | src/aws/metrics.rs:682-696 | merging points keeps, per bucket, the last finite value in the window |
| `MetricsLaws.LastValueMeans` | src/aws/metrics.rs:682-696 | the sample of a bucket is the value of the last finite point between its two bounds, and is missing exactly when there is none |
| `Metrics.MergePage` | src/aws/metrics.rs:665-697 | a page is refused exactly when a result is forbidden; otherwise buckets, incomplete metrics and the latest sample are those of all results so far |
| `Metrics.Fetch` | src/aws/metrics.rs:626-738 | there is a snapshot exactly when the service comes to a page without a token within the page bound, after usable pages with tokens that all differ; it shows for each metric and bucket the last finite value in the window over all pages; otherwise the error is that of the request, of a forbidden result, of a repeated token or of the bound at the page where it occurs |
| `Metrics.FailureIsTheOnlyOne` | src/aws/metrics.rs:655-708 | a service that fails a fetch fails it at one page and for one reason, and has no last page |
| `MetricsLaws.FailureMeans` | src/aws/metrics.rs:647-708 | what each error of a fetch says about the answer to the request where it stopped |
| `MetricsLaws.StaleMeans` | src/aws/metrics.rs:665-738 | a snapshot is stale if and only if the last page was incomplete, the last result for some metric was not complete, or something was sampled but nothing in the last two periods |
| `MetricsLaws.IncompleteMeans` | src/aws/metrics.rs:666-678 | a metric is incomplete exactly when its last result is |
| `MetricsLaws.LatestMeans` | src/aws/metrics.rs:691-695 | the latest sample is the greatest time of any finite point in the window for a requested metric |
| `TableLayout.ColumnWidths` | src/output/table.rs:222-264 | widths are at least one and sum to the available room; headers are served level by level, so columns still short of theirs differ by at most one, and room is dealt out only when every header fits |
| `TableLayout.ServeRound` | src/output/table.rs:243-257 | one round raises exactly the columns that are short, while room remains, and conserves the sum |
| `TableLayout.DealOut` | src/output/table.rs:259-263 | extra room goes to the columns in turn and is spent exactly |
| `TableLayout.EscapeTerminalTextToWidth` | src/output/table.rs:311-358 | the two loops compute the specified text |
| `TableLayout.EscapedFits` | src/output/table.rs:311-358 | what is shown fits the width, holds no control character, and is the whole escaped text whenever that fits |
| `TableLayout.TruncateToWidth` | src/output/table.rs:289-309 | the loop computes the specified truncation |
| `TableLayout.TruncatedFits` | src/output/table.rs:289-309 | a truncated text fits its width |
| `TableLayout.FittingMeans` | src/output/table.rs:296-305 | the kept part is the longest prefix within the budget |
| `TableLayout.LayOut` | src/output/table.rs:62-110 | the header line, the rule and every row have the display width of the terminal, or of one character and a separator per column if it is narrower |
| `TableText.CellMeans` | src/output/table.rs:96-104 | a cell shows its whole escaped text when that fits, and otherwise a beginning of it and up to three dots |
| `TableText.ShownMeans` | src/output/table.rs:316-322 | how each character is shown: newline, return and tab by a letter, other controls by four hexadecimal digits, all else as it is |
| `TableText.NullMeans` | src/output/table.rs:102 | a NULL is shown as such wherever four characters fit |
| `TableText.LineMeans` | src/output/table.rs:266-279 | a line is its cells, each with blanks up to the width of its column, with bars between |
| `TableText.RuleMeans` | src/output/table.rs:281-287 | the rule is a run of dashes per column with plus signs between |
| `Sinks.TableSink.Emit` | src/output/table.rs:173-203 | an event is accepted, and the state moves, exactly as the protocol says; a refused event changes nothing, and the first failed write is remembered |
| `Sinks.ExpandedSink.Emit` | src/output/expanded.rs:195-225 | the same for the expanded listing, which puts its result set back when it refuses a row and loses it when the row cannot be written |
| `Sinks.JsonlSink.Emit` | src/output/jsonl.rs:64-146 | the same for JSON Lines, with the frame each accepted event appends; a failed write leaves a torn frame and changes nothing else |
| `Sinks.DelimitedSink.Emit` | src/output/delimited.rs:128-207 | the same for CSV and TSV, with the record each accepted event appends; a column set whose write fails still counts as seen |
| `SinkLaws.SinksAcceptAlike` | src/output/table.rs:173-203 | while writes go through, table, expanded and JSON Lines accept exactly the same event sequences |
| `SinkLaws.TableAcceptsGrammar` | src/output/table.rs:173-203 | and these are the beginnings of: notices, commands, and result sets whose rows have their width and whose completion reports their number, with an error at the very end only |
| `SinkLaws.TableSetsApart` | src/output/table.rs:62-130 | what follows is set apart by a blank line exactly when a column set or a completion was accepted before |
| `SinkLaws.DelimitedAcceptsSingle` | src/output/delimited.rs:128-207 | of those sequences the delimited formats accept the ones with at most one column set |
| `SinkLaws.TableShowsPrefix` | src/output/table.rs:141-203 | with failing writers a table accepts the beginning of what it accepts on good ones, and all of it if and only if no write fails |
| `SinkLaws.ExpandedShowsPrefix` | src/output/expanded.rs:163-225 | the same for the expanded listing |
| `SinkLaws.RecordsAreRectangular` | src/output/delimited.rs:128-207 | whatever is fed and whichever writes fail, all records have the width of the one column set |
| `SinkLaws.RecordsSpellEvents` | src/output/delimited.rs:128-207 | whichever writes fail, the records are those of the accepted column sets and rows, in order |
| `SinkLaws.RowsBehindFailedHeader` | src/output/delimited.rs:136-152 | as a component, the sink accepts rows behind a column set whose write failed; the program stops feeding it at the first error |
| `SinkLaws.GoesOnBehindTornFrame` | src/output/jsonl.rs:40-48 | as a component, and unlike a table, JSON Lines accepts further events behind a frame that broke off; the program stops feeding it at the first error |
| `SinkLaws.CellReadsBack` | src/output/delimited.rs:96-112 | the encoding of NULL and of leading backslashes is reversible, also for cells escaped for a terminal |
| `SinkLaws.CellIsText` | src/output/delimited.rs:96-112 | a cell that would not start with a backslash is written as it is, or for a terminal as it is escaped |
| `SinkLaws.TerminalIsSafe` | src/output/delimited.rs:96-112 | on a terminal no header and no cell holds a control character |
| `SinkLaws.EveryLogIsTrue` | src/output/jsonl.rs:64-146 | in every log, also one with torn frames, result numbers count up from zero, rows belong to the result in progress and have its width, completions report their true row counts, nothing follows an error, and the whole frames spell exactly the accepted events; the log has no torn frame if and only if no write failed |

## Left out

- Operators: the reference lexer follows sections 4.1.1, 4.1.2.1, 4.1.2.2, 4.1.2.4, 4.1.2.6, 4.1.4 and 4.1.5 of the manual and reads every other byte as a mark of its own.
- `ReferenceLexer.ScannerMeetsManual`: the equivalence is about constructs; terminators can agree in spite of a clash.
- The server of the simulation moves by statement class; what a statement does beyond its class (COMMIT AND CHAIN, words such as BEGIN2) is not modelled.
- Concurrency inside one call: a dropped future is a call cut at one of its awaits, and the signal loop runs before the effect of the call it decides about; a session starts idle, as the connector always reports.
- Delays between reconnect attempts, timeouts and clocks: the time of a call and the outcome of each wait are inputs.
- The sink that drops output after an interrupt, and pager and timing sinks: tests of one flag.
- The text that the table and expanded sinks write apart from table lines, and where within an event a write fails: an event is written or it is not.
- `Sinks.DelimitedSink.Emit`: the world says when the buffered CSV writer reports a failure; which bytes it has written by then is not modelled.
- CSV quoting and JSON escaping: records and frames are values.
- `TableLayout.TruncateToWidth`: takes the width of a text to be the sum over its characters, as `TableLayout.LayOut` does.
- `TableLayout.LayOut`: takes display width to be additive over characters and one for printable ASCII, which the width tables of the library need not be for joined emoji.
- Character slices of a meta-command whose name is not ASCII: command lines are sequences of characters, so byte offsets inside a character do not arise.
- Toggles, help, connection information and the other meta-commands: pure matches.
- AWS adapters, TLS, tokens, discovery paging, the editor, completion, history and the dashboard: foreign calls and user interface.
