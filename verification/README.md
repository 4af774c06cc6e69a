# Verified model of the agent sandbox's core algorithms

The repository is a sandbox server for coding agents. Between its tool handlers sit several small state
machines and text algorithms with sharp intended behaviour. This project models them in Dafny, one module per
component, and proves what they promise for every input, every run or every interleaving.

| module | what it models |
|---|---|
| `Text`, `Runs` | strings, byte-wise order, sorting and first-seen order; runs of a step system |
| `Tokenize` | identifier-aware tokenisation of source text |
| `IndexState`, `Ranking`, `SearchIndex`, `IndexHistory` | the incremental BM25 symbol index: its fields, its scores, its methods, and what its answers depend on |
| `Glob` | the `**`-aware path matcher |
| `Workspace` | path containment in a finite file system with symlinks and missing tails |
| `LspMultiplexer`, `LspWire` | the language-server client: concurrent calls over one connection, and message framing |
| `WatchLog`, `WatchProcess` | the bounded event log of a watched shell, and the goroutines that feed it |
| `HealthTracker`, `CanonicalArgs` | rolling windows over tool calls, and the canonical form of tool arguments |
| `ShellQuote`, `SshConfig` | the ProxyCommand line and the Host-block surgery of `ssh-setup` |
| `GoTestFailures`, `RerunTargets`, `Coverage` | folding test events into failures, what a rerun of them is aimed at, and the inverse index from covered lines to tests |

## Main results

- **Search index.** Every add, replace and remove keeps all eight fields equal to a recount of the live units
  (`Synced`); the hard point is `df` in the middle of the removal loop. Two indexes with the same contents,
  however reached, return the same (score, file, symbol) sequence for every query and limit. Any list of changes
  replayed through the methods is such a history, and so is a fresh build. Scores are positive, no division is by
  zero, and rarer tokens, shorter units and more occurrences score higher.
- **Glob.** The matcher terminates and accepts exactly the textbook relation on the path padded with empty
  names. It is the textbook relation on every path if and only if the pattern cannot run past the end of a
  path, and a witness path is built for every pattern that can.
- **Workspace.** Every resolved path is under the root component by component. It resolves to itself exactly when
  it has no symlink among its existing prefixes. That holds whenever the kernel can follow the links of the
  existing part of the argument (an exact condition per argument is given), and for all arguments exactly when
  Go's library follows no more links than the kernel, which is not so on Linux. Relative arguments are taken from
  the root, and cleaning an argument names no other entry than following it where no link is met.
- **Language-server client.** Over every interleaving each request channel gets at most one message, no
  buffered send blocks, a call only consumes a message with its own id or the connection failure, and no returned
  call stays in flight. What it consumes is a genuine reply exactly when no server request with its id was
  delivered while it was in flight. A call that starts after the server's death is turned away; one left waiting on
  a dead connection is unanswered exactly when it registered after the drain.
- **Framing.** Frames read back exactly, with any other headers around the length, and leave trailing bytes; a
  frame cut off anywhere fails to read.
- **Watched shell.** Ids are contiguous, the log never exceeds its cap, no event is delivered twice, and a poll
  misses exactly what was dropped beyond its cursor. After `exited`, an `idle_timeout` or an `error` can still be
  recorded under exact conditions on the two goroutines, and `exited` is final exactly when neither holds.
- **Health.** Ring buffers and running counts agree with the plain list of past observations. Two argument
  trees have the same canonical text exactly when they are equal once `{}` and `[]` are identified.
- **ssh config.** Replacing a block is idempotent and local on every text. Quoting any list of strings is
  undone by the shell's quoting and tokenising rules.
- **Test output and coverage.** Both folds equal a direct declarative reading of their input. A rerun
  of the failed tests selects one of them under an exact condition on the names of all of them; for colon-free
  names, exactly when it is called like the first component of some failed test's package path.

## Parameters of the model

- Unicode tables and the stopword list (`CharClass`), the logarithm (any strictly increasing function that is
  0 at 1), and `filepath.Match` on one segment (`SegmentMatch`) are parameters. The exact glob results ask one
  law of `filepath.Match`: a non-empty pattern segment that matches the empty name is a run of `*`, so it matches
  every slash-free name (`StarLaw`).
- The results on single camel boundaries ask of the Unicode tables that no character is both upper and lower case,
  that both are letters, and that digits are not (`Consistent`).
- The numbers of symlinks the kernel and Go's `filepath.EvalSymlinks` follow are two parameters, `kernel` and
  `library` (40 and 255 on Linux).
- Watch patterns are predicates, the extraction of file, message and diff from a test's output is a function,
  and every clock reading is an argument.
- Scores and rates are over `real`; floating-point rounding is not modelled.
- A string stands for a Go byte string, except in `Tokenize`, where it is a string of code points; UTF-8 orders
  both alike.
- A failed system call or malformed input is a value (`Option`, `Outcome`, `Read`), never a precondition.

## Where code and documentation disagree

The model follows the code in each case.

- `docs/src/content/docs/tools/glob.md:22` says `*.md` finds top-level files only; a pattern without a slash is
  matched against the base name at any depth (`internal/tools/glob.go:125-133`; `OneSegmentMatchesLastName`).
- The pattern `*/*` accepts the path `a`, because an exhausted path keeps supplying empty names
  (`internal/tools/glob.go:146-155`; `TwoStarsAcceptOneName`, `TextbookExactlyUnlessOvershoot`).
- `internal/workspace/workspace.go:59-63` promises a canonical path with the symlinks on existing components
  resolved. Every `Lstat` error counts as a missing entry (`internal/workspace/workspace.go:123`), also that of a
  parent reached through more links than the kernel follows. If the library can still follow them, an existing
  entry below that parent is rejoined verbatim although it may be a symlink (`LinkSurvives`,
  `SymlinkFreeExactly`).
- `exited` need not be the last event, although `docs/src/content/docs/tools/watch-process.md:65` has it follow the
  idle timeout: until the exit code is visible, and after that when it is past its running check, the watchdog
  can still record `idle_timeout`, and the stderr goroutine can still record `error`
  (`IdleTimeoutAfterExit`, `ErrorAfterExit`, `ExitedIsFinalExactly`).
- A call that passes the closed check before the server dies and registers afterwards waits until its context
  ends (`internal/lsp/client.go:207-218`; `LateRegistrationHangs`, `DeadConnectionAnswers`).
- A frame with an integer id is taken for the answer to the request of that id, and its `method` is never looked at
  (`internal/lsp/client.go:170-191`), although in JSON-RPC 2.0 a frame with an id and a method is a request of the
  server's own. Such a request whose id is in flight is consumed as the answer, and the answer is then dropped
  (`GenuineExactly`, `MisroutedRun`).
- `internal/tools/run_failing_tests.go:117-120` expects failures named `package:test`; they are named with a `/`
  (`internal/verify/go_test_failures.go:155`), so a name is never read as its own test in its own package
  (`FailureNamesNeverSplitBack`, `NameMissesItsPackage`). Whether a failed test is rerun all the same depends on the
  other names and on the fallback to all packages (`SelectedExactly`, `RerunExactly`): a single failure usually is
  not (`SingleFailureMissed`), but can be (`SingleFailureHit`, `HitThroughAnother`).

## Model

| member | source | states |
|---|---|---|
| Tokenize.SplitCamel | internal/search/tokenize.go:60-75 | the loop with a moving start computes the recursive cutting of a word |
| Tokenize.CamelSplitExact | internal/search/tokenize.go:57-95 | the segments concatenate to the word, none is empty, and cuts are exactly at the three kinds of boundary |
| Tokenize.Tokenize | internal/search/tokenize.go:25-48 | the loops over words and segments emit the specified token list, in order |
| Tokenize.TokensMeaning | internal/search/tokenize.go:17-48 | a string is a token exactly when it is a non-stopword word of the text or one of its camel segments, in lower case |
| Tokenize.FieldsExact | internal/search/tokenize.go:50-55 | the words are exactly the maximal runs of letters and digits of the text, in order, once each |
| Tokenize.TokensExact | internal/search/tokenize.go:17-55 | a string is a token exactly when it is no stopword and is, in lower case, a maximal run of the text or a camel segment of one |
| Tokenize.SubTokensExact | internal/search/tokenize.go:39-45 | the segments that count give one token each, in their order |
| Tokenize.OneWord | internal/search/tokenize.go:32-46 | a text of one word gives the word unless it is a stopword, then its segments' tokens |
| Tokenize.TokensConcat | internal/search/tokenize.go:25-55 | texts joined by any separator are tokenised one after the other |
| Tokenize.LowerThenCapitalised | internal/search/tokenize.go:57-95 | a lower-case run and a capitalised word are cut apart |
| Tokenize.AcronymThenCapitalised | internal/search/tokenize.go:57-95 | an acronym and a capitalised word are cut before the last capital |
| Tokenize.LettersAndDigits | internal/search/tokenize.go:59-95 | letters and digits are cut apart, either way round |
| IndexState.CountedAdd | internal/search/index.go:142-158 | counting one unit in under a fresh id keeps every count equal to a recount of the live units |
| IndexState.CountedRemove | internal/search/index.go:160-179 | counting one live unit out does the same, in the middle of a removal |
| IndexState.FiledAdd | internal/search/index.go:156 | appending a fresh id to its file keeps fileUnits a partition and appends to that file's contents only |
| IndexState.FiledRemove | internal/search/index.go:160-179 | dropping a file's ids and its list keeps the partition and the contents of every other file |
| IndexState.SyncedAdd | internal/search/index.go:142-158 | one added unit keeps all eight fields in step and appends that unit to its file |
| IndexState.SyncedRemove | internal/search/index.go:160-179 | one removed file keeps all eight fields in step and removes exactly that file |
| IndexState.DocsBound | internal/search/index.go:200-204 | a document frequency never exceeds the number of units and is positive for a token in use |
| IndexState.UnitTokensExact | internal/search/index.go:236-244 | every token of symbol, signature and doc is indexed as often as it occurs there; kind and file are not |
| Ranking.LiveFits | internal/search/index.go:195-212 | for every token of a live unit df is present and between 1 and totalDocs, and totalLen covers the unit's length |
| Ranking.Contribution | internal/search/index.go:204-213 | a query token adds a positive amount to the units containing it and nothing to the others |
| Ranking.ScoreStep | internal/search/index.go:199-215 | one more query token adds exactly its contribution to each score |
| Ranking.StepNumbers | internal/search/index.go:198-213 | every divisor Search uses is non-zero and the arithmetic is that token's contribution |
| Ranking.IdfClosedForm | internal/search/index.go:203 | the inverse document frequency is ln((N + 1) / (df + 1/2)) |
| Ranking.NormAnchors | internal/search/index.go:195-210 | the length normalisation is 1/4 at length zero, 1 at the average length, and linear |
| Ranking.TermScoreAnchors | internal/search/index.go:209-212 | one occurrence in a unit of average length scores exactly the inverse document frequency, and nothing scores two and a half times it |
| Ranking.RarerScoresHigher | internal/search/index.go:200-213 | of two tokens occurring equally often in a unit, the one in fewer units scores higher |
| Ranking.DenserScoresHigher | internal/search/index.go:205-213 | of two units, the shorter at no fewer occurrences, or the one with more at no greater length, scores higher |
| Ranking.AnswerOrder | internal/search/index.go:220-233 | an answer is within its limit, higher scores first, equal ones by file and then by symbol |
| Ranking.KeyBeforeTotal | internal/search/index.go:220-229 | the comparator is a strict total order on (score, file, symbol) |
| SearchIndex.Index.constructor | internal/search/index.go:54-63 | a new index is in step and empty |
| SearchIndex.Unique | internal/search/index.go:256-270 | the distinct values in first-seen order |
| SearchIndex.CountToken | internal/search/index.go:246-254 | the multiplicity of a token |
| SearchIndex.TokensOfUnit | internal/search/index.go:239-244 | symbol, signature and doc tokens, in that order |
| SearchIndex.Index.CountIn | internal/search/index.go:153-155 | df grows by one for exactly the tokens of the unit, whatever their multiplicity |
| SearchIndex.Index.CountOut | internal/search/index.go:165-170 | df shrinks by one for exactly the tokens of the unit, and a key disappears exactly at zero |
| SearchIndex.Index.AddUnit | internal/search/index.go:143-157 | keeps the index in step and appends the unit to its file |
| SearchIndex.Index.AddUnitsLocked | internal/search/index.go:142-158 | keeps the index in step and appends all units to their file |
| SearchIndex.Index.DropUnit | internal/search/index.go:165-176 | the counts stay right after each unit of a removal |
| SearchIndex.Index.RemoveFileLocked | internal/search/index.go:160-179 | keeps the index in step and removes exactly that file |
| SearchIndex.Index.RemoveFile | internal/search/index.go:123-128 | applies a removal to the contents |
| SearchIndex.Index.AddFile | internal/search/index.go:102-120 | replaces the file's units; a non-Go path changes nothing and an unparsable file is removed |
| SearchIndex.Build | internal/search/index.go:67-83 | builds an index in step that holds the units of the parsable files |
| SearchIndex.Index.ScoreToken | internal/search/index.go:199-215 | after each query token the scores map holds exactly the touched units with their scores so far |
| SearchIndex.Index.Search | internal/search/index.go:183-234 | returns an answer: every hit once, in comparator order, cut at the limit |
| IndexHistory.CopiesFromContents | internal/search/index.go:142-179 | the number of live copies of a unit is determined by the contents |
| IndexHistory.SameCount | internal/search/index.go:142-179 | equal contents give equally many units with any property, whatever their ids |
| IndexHistory.SameStats | internal/search/index.go:142-179 | equal contents give equal df, totalLen and totalDocs |
| IndexHistory.RankingExact | internal/search/index.go:217-229 | a full ranking holds each result as often as there are hits giving it |
| IndexHistory.HistoryIndependence | internal/search/index.go:183-234 | indexes with equal contents answer every query and limit with the same (score, file, symbol) sequence |
| IndexHistory.UnlimitedAnswerExact | internal/search/index.go:183-234 | without a limit every hit is returned exactly once, nothing else, in order and with a positive score |
| IndexHistory.Replay | internal/search/index.go:99-128 | any list of changes put through a new index's own methods is a run, in step at every state |
| IndexHistory.RunContents | internal/search/index.go:102-128 | after any run of changes the index holds those changes applied in order |
| IndexHistory.LatestChangeWins | internal/search/index.go:99-128 | however long the history, a file holds what its last effective change put there |
| IndexHistory.HistoriesWithSameEnd | internal/search/index.go:99-234 | runs whose last changes agree file by file end in indexes that answer alike |
| IndexHistory.BuildIsHistory | internal/search/index.go:67-83 | a fresh build holds what adding each walked file once would |
| IndexHistory.BuildAnswersLikeRun | internal/search/index.go:65-234 | a built index answers every query like any run, such as a replay, that ends with the same files |
| Glob.DoublestarMatch | internal/tools/glob.go:140-158 | the loop terminates and equals the two-string recursion |
| Glob.MatchDoublestarPrefix | internal/tools/glob.go:162-177 | a terminal answer is reached exactly on a `**` prefix, and it is the matcher's answer |
| Glob.PopSegment | internal/tools/glob.go:182-188 | cuts at the first slash, and shortens a non-empty string, which is why the matcher terminates |
| Glob.PathNames | internal/tools/glob.go:140-188 | every path that does not end in a slash is the join of segments that the results below speak of |
| Glob.OneSegmentMatchesLastName | internal/tools/glob.go:117-133 | a pattern of one segment accepts exactly the paths, at any depth, whose last name it matches |
| Glob.LongerPatternsExactly | internal/tools/glob.go:117-158 | through the entry point too, a longer pattern is the textbook relation on every path if and only if it cannot run past the end |
| Glob.AcceptsListed | internal/tools/glob.go:140-188 | on joined segments the string matcher is a matcher on segment lists |
| Glob.AcceptsExactly | internal/tools/glob.go:140-188 | the matcher accepts exactly the textbook relation on the path padded with empty names |
| Glob.TextbookExactlyUnlessOvershoot | internal/tools/glob.go:117-158 | the matcher is the textbook relation on every path if and only if the pattern cannot run past the end |
| Glob.TextbookWhenSegmentsNeedNames | internal/tools/glob.go:117-158 | when no plain segment matches the empty name, the matcher is the textbook relation |
| Glob.OvershootWitness | internal/tools/glob.go:146-155 | every pattern that runs past the end accepts some path it should not |
| Glob.TwoStarsAcceptOneName | internal/tools/glob.go:146-155 | `*/*` accepts `a` |
| Glob.LastSegmentJoin | internal/tools/glob.go:126-131 | the base name of a path is its last segment |
| Workspace.EvalSymlinksAllowMissing | internal/workspace/workspace.go:118-140 | the walk upwards resolves the longest existing prefix and keeps the missing rest |
| Workspace.Rejoin | internal/workspace/workspace.go:128-130 | joining the missing components restores their order |
| Workspace.Resolve | internal/workspace/workspace.go:64-83 | succeeds exactly when the resolved path has the root as a component-wise prefix |
| Workspace.ResolvedSplit | internal/workspace/workspace.go:118-140 | a resolved path is a real prefix followed by the components the kernel did not see |
| Workspace.EscapesExactly | internal/workspace/workspace.go:75-81 | the relative path starts with `..` exactly when the target is not under the root |
| Workspace.WalkReal | internal/workspace/workspace.go:124 | symlink evaluation only arrives at existing entries that are no symlinks |
| Workspace.ResolveMissingReal | internal/workspace/workspace.go:118-140 | when the kernel can follow the existing prefix, the first missing component is missing under the resolved prefix too |
| Workspace.ResolvedSymlinkFree | internal/workspace/workspace.go:59-63 | no existing prefix of a resolved path is a symlink |
| Workspace.ResolvedIsFixed | internal/workspace/workspace.go:118-140 | resolving a resolved path returns it, however many tail components are missing |
| Workspace.FixedExactly | internal/workspace/workspace.go:118-140 | a path resolves to itself exactly when none of its existing prefixes is a symlink |
| Workspace.ResolveContains | internal/workspace/workspace.go:59-83 | a resolved path is under the root, is a fixed point exactly when symlink-free, and is symlink-free whenever the kernel can follow the existing prefix |
| Workspace.SymlinkFreeForArgument | internal/workspace/workspace.go:59-83 | for each argument, the result is symlink-free exactly when the kernel can follow the existing prefix, or nothing along the rejoined tail is a link |
| Workspace.LinkSurvives | internal/workspace/workspace.go:122-137 | for any two bounds with the library's larger, an argument whose resolved path is an existing symlink |
| Workspace.SymlinkFreeExactly | internal/workspace/workspace.go:59-83 | every resolved path is symlink-free if and only if the library follows no more links than the kernel |
| Workspace.ExistingResolvesToItsEntry | internal/workspace/workspace.go:59-83 | an argument whose lexically cleaned path the kernel sees resolves to the real, symlink-free entry that the cleaned path reaches; a link that leads nowhere is an error |
| Workspace.RelativeResolves | internal/workspace/workspace.go:59-83 | a relative argument is taken from the root: it resolves to the entry there, or to the file to be created there |
| Workspace.AbsoluteResolves | internal/workspace/workspace.go:59-83 | an absolute argument is taken from the root of the file system, and is accepted exactly under the workspace root |
| Workspace.RelativeIsBelowRoot | internal/workspace/workspace.go:65-68 | a relative argument, whatever it holds, resolves as the same argument written after the root |
| Workspace.WalkIsClean | internal/workspace/workspace.go:68 | where a walk that meets no link arrives is the cleaned path |
| Workspace.LinkFreeResolvesToItsEntry | internal/workspace/workspace.go:64-83 | an argument that leads without links to an entry resolves to that entry, whatever dots and slashes it holds |
| Workspace.NewRootIsFixed | internal/workspace/workspace.go:28-44 | an accepted root is a real directory that resolves to itself |
| Workspace.NewRootExactly | internal/workspace/workspace.go:28-44 | the written form of a real directory is accepted as it stands, and no relative path is |
| LspMultiplexer.InitInv | internal/lsp/client.go:68-75 | a new client satisfies the multiplexer invariant |
| LspMultiplexer.StepInv | internal/lsp/client.go:167-248 | every atomic step of callers, read loop, cancellation and shutdown keeps the invariant |
| LspMultiplexer.RunSafety | internal/lsp/client.go:167-248 | over every interleaving: at most one message per channel, own id or failure only, ids never reused, no returned call in flight |
| LspMultiplexer.SendsNeverBlock | internal/lsp/client.go:185-203 | a send by deliver or the drain never blocks |
| LspMultiplexer.ResponseIsRouted | internal/lsp/client.go:185-193 | a frame reaches the call with its id; an unknown or duplicate id changes nothing |
| LspMultiplexer.MisroutedExactly | internal/lsp/client.go:167-193 | the misrouted ids of a run are those a server request was delivered to while in flight |
| LspMultiplexer.GenuineExactly | internal/lsp/client.go:167-248 | the frame a call consumed is a reply exactly when no server request with its id was delivered while it was in flight |
| LspMultiplexer.MisroutedRun | internal/lsp/client.go:170-191 | a concrete run in which a server request is consumed as the answer and the answer is dropped |
| LspMultiplexer.DeadConnectionAnswers | internal/lsp/client.go:195-218 | on a dead connection a waiting call is answered exactly when it registered before the drain |
| LspMultiplexer.LateRegistrationHangs | internal/lsp/client.go:207-218 | a concrete run in which a call registers after the drain |
| LspMultiplexer.LateCallNeverAnswered | internal/lsp/client.go:206-248 | such a call can only end by cancellation or a failed write |
| LspMultiplexer.DeathCloses | internal/lsp/client.go:195-196 | once the read loop has seen the server's death the client is closed |
| LspMultiplexer.ClosedForGood | internal/lsp/client.go:206-209 | a closed client stays closed, and every call started after that is at its beginning or has returned the closed error, with nothing in flight |
| LspMultiplexer.ClosedCheck | internal/lsp/client.go:207-209 | the check turns a call away exactly when the client is closed |
| LspMultiplexer.CallsCanMove | internal/lsp/client.go:206-248 | outside the drain every unreturned call has a step, and a waiting one with a message can take it |
| LspMultiplexer.ReaderCanMove | internal/lsp/client.go:167-203 | the read loop always has a step, the drain included |
| LspMultiplexer.OutcomesHaveCauses | internal/lsp/client.go:206-248 | every outcome was brought about by its own step |
| LspMultiplexer.SettledForGood | internal/lsp/client.go:212-247 | a failed write, a cancellation, a failed encoding or a taken message is what the call reports, exactly |
| LspWire.Reader.ReadLine | internal/lsp/wire.go:37-40 | takes up to and including the first newline, or everything when there is none |
| LspWire.Reader.ReadContentLength | internal/lsp/wire.go:34-52 | the header loop computes the specified length or error and leaves the rest of the stream |
| LspWire.Reader.ReadMessage | internal/lsp/wire.go:22-32 | reads exactly one frame, or fails with the specified error |
| LspWire.Writer.WriteMessage | internal/lsp/wire.go:67-80 | appends exactly one frame to the stream |
| LspWire.DecimalValue | internal/lsp/wire.go:72 | printing then reading a length gives it back |
| LspWire.ValueDecimal | internal/lsp/wire.go:59 | reading then printing a numeral without leading zeros gives it back |
| LspWire.ParseWrittenLength | internal/lsp/wire.go:54-64 | a written header line parses to its length |
| LspWire.LengthLineExactly | internal/lsp/wire.go:54-64 | a padded and signed number counts exactly when it is not negative and fits in 64 bits |
| LspWire.NumbersOnly | internal/lsp/wire.go:59-62 | nothing but an optional sign and digits is a number |
| LspWire.HeaderBlock | internal/lsp/wire.go:34-52 | any header block is read as its last well-formed Content-Length, and without one it is an error |
| LspWire.ExtraHeaderIgnored | internal/lsp/wire.go:24-31 | a line without a well-formed length can be inserted anywhere |
| LspWire.CutInHeader | internal/lsp/wire.go:37-40 | a stream that ends before the blank line is a header error |
| LspWire.CutInBody | internal/lsp/wire.go:27-30 | a stream that ends inside the body is a short body, whatever the headers |
| LspWire.CutFrameFails | internal/lsp/wire.go:22-52 | every proper prefix of a written frame fails, in the header or in the body |
| LspWire.FrameRoundTrip | internal/lsp/wire.go:22-80 | a frame with any other headers around its length is read back exactly |
| LspWire.FramesRoundTrip | internal/lsp/wire.go:22-80 | any list of written bodies is read back in order and trailing bytes stay |
| WatchLog.AppendedOk | internal/tools/shell_registry.go:308-332 | appending keeps ids contiguous and the log within its cap, dropping in batches |
| WatchLog.BackgroundShell.Watched | internal/tools/shell_registry.go:159-173 | a watched shell starts with `started` as event 1 |
| WatchLog.BackgroundShell.AppendEventLocked | internal/tools/shell_registry.go:308-332 | the retained events stay the undropped tail of the full history |
| WatchLog.BackgroundShell.Events | internal/tools/shell_registry.go:290-303 | returns exactly the retained events after the given id, and the number dropped |
| WatchLog.BackgroundShell.ObserveWatchLine | internal/tools/shell_registry.go:207-225 | captures the line and records it once, under the first matching pattern |
| WatchLog.ObservedExact | internal/tools/shell_registry.go:207-225 | of any list of lines exactly the matching ones are reported, once each, in order, each under the first pattern that matches it |
| WatchLog.BackgroundShell.ObserveWatchStdout | internal/tools/shell_registry.go:232-239 | captures the bytes and refreshes the activity time unless they are empty |
| WatchLog.BackgroundShell.RecordWatchIdleTimeout | internal/tools/shell_registry.go:243-250 | appends one idle_timeout event |
| WatchLog.BackgroundShell.RecordWatchExit | internal/tools/shell_registry.go:254-261 | appends one exited event with the code |
| WatchLog.BackgroundShell.SetExit | internal/tools/shell_registry.go:387-391 | makes the exit code visible |
| WatchLog.CaptureExact | internal/tools/shell_registry.go:372-384 | the buffer is the stream's first bytes up to the cap, and when exactly the truncated flag is set |
| WatchLog.TruncatedExactly | internal/tools/shell_registry.go:372-384 | with a non-empty last chunk the flag says exactly that bytes were lost |
| WatchLog.CaptureOfReads | internal/tools/shell_registry.go:359-384 | fed with non-empty chunks, as its callers do, the buffer is the stream's first bytes and the flag says exactly that bytes were lost |
| WatchLog.PollOnce | internal/tools/shell_registry.go:286-303 | a poll delivers what is retained beyond its cursor and misses exactly max(0, dropped - since) |
| WatchLog.PollingSafe | internal/tools/shell_registry.go:286-332 | over every interleaving of appends and polls nothing is delivered twice and every id seen was delivered or missed |
| WatchLog.FrequentPollsMissNothing | internal/tools/shell_registry.go:311-331 | a poller at most 923 events behind (the cap of 1024, less a batch of 102, plus one) misses nothing |
| WatchProcess.StepInv | internal/tools/watch_process.go:264-302 | every step of drain, lifecycle and watchdog keeps the history invariant |
| WatchProcess.HistoryIsSane | internal/tools/watch_process.go:264-302 | `started` first and only once, at most one `exited` and one `idle_timeout`, and a visible exit code has its event |
| WatchProcess.IdleTimeoutAfterExit | internal/tools/watch_process.go:264-302 | after `exited` a timeout can still be recorded exactly when the watchdog is past its running check, or has yet to make it while the exit code is not visible |
| WatchProcess.ErrorAfterExit | internal/tools/watch_process.go:237-243 | an error can still be recorded exactly while stderr is being scanned |
| WatchProcess.ExitedIsFinalExactly | internal/tools/watch_process.go:237-302 | after `exited` nothing more is ever recorded exactly when stderr is drained and the watchdog cannot fire |
| WatchProcess.ExitedIsNotAlwaysLast | internal/tools/watch_process.go:264-302 | a concrete run in which idle_timeout follows exited |
| WatchProcess.ExitCodeIsTheProcessOwn | internal/tools/watch_process.go:264-268 | the recorded and visible exit code is the one the process exited with |
| WatchProcess.ExitCanBecomeVisible | internal/tools/watch_process.go:264-268 | from every reachable state the exit gets recorded and made visible without help from the others |
| WatchProcess.WatchdogRound | internal/tools/watch_process.go:280-292 | a round with activity records nothing and waits again; a round after the exit stops |
| HealthTracker.ClampNeverChangesRate | internal/metrics/metrics.go:394-407 | the failure rate is always within [0,1], so clamping it changes nothing |
| HealthTracker.ErrorPush | internal/metrics/health/tracker.go:218-247 | overwriting one slot keeps the ring equal to the last outcomes and the counter equal to their failures |
| HealthTracker.Tracker.constructor | internal/metrics/health/tracker.go:104-129 | non-positive settings take their defaults, and both windows start empty |
| HealthTracker.Tracker.RecordErrorOutcome | internal/metrics/health/tracker.go:218-247 | the published rate is the failure rate of the last min(n, window) outcomes |
| HealthTracker.RingOccurrences | internal/metrics/health/tracker.go:270-278 | scanning the ring counts the hash inside the window among the tool's last 4 x threshold calls |
| HealthTracker.RingPush | internal/metrics/health/tracker.go:258-268 | writing one slot keeps the ring equal to the last calls |
| HealthTracker.ToolPush | internal/metrics/health/tracker.go:254-290 | one more call keeps ring, counted flags and counter equal to their reading of the call list |
| HealthTracker.BurstingExactly | internal/metrics/health/tracker.go:279-289 | a hash's flag is set exactly when its latest call reached the threshold |
| HealthTracker.RisesExactly | internal/metrics/health/tracker.go:279-289 | the counter is the number of calls that took their hash from below the threshold to at it |
| HealthTracker.FailsExact | internal/metrics/health/tracker.go:218-232 | the failure count is the number of failed outcomes |
| HealthTracker.OccurrencesExact | internal/metrics/health/tracker.go:270-277 | the scan counts exactly the entries of the hash that are not before the cutoff |
| HealthTracker.ReachedExactly | internal/metrics/health/tracker.go:258-281 | a call reaches the threshold exactly when that many of its tool's last 4 x threshold calls have its hash and lie in its window |
| HealthTracker.SpacedCallsNeverBurst | internal/metrics/health/tracker.go:249-289 | calls that never repeat within a window are never counted |
| HealthTracker.SteadyRepetitionCountsOnce | internal/metrics/health/tracker.go:249-289 | calls that all repeat within every window are counted once, at the call that makes them threshold many |
| HealthTracker.CountInWindow | internal/metrics/health/tracker.go:271-278 | the scan counts the occurrences at or after the cutoff |
| HealthTracker.Tracker.RecordRepetition | internal/metrics/health/tracker.go:254-290 | an empty hash changes nothing, any other is recorded with all tools' windows, flags and counters kept exact |
| CanonicalArgs.Canonicalize | internal/metrics/health/tracker.go:321-343 | whatever order the map is ranged in, the result is the one canonical form |
| CanonicalArgs.CanonicalizeFields | internal/metrics/health/tracker.go:328-331 | fields are emitted in key order |
| CanonicalArgs.CanonicalizeItems | internal/metrics/health/tracker.go:333-338 | elements keep their order |
| CanonicalArgs.EncodeInjective | internal/metrics/health/tracker.go:314-343 | an encoding determines its tree up to empty objects, and where it ends |
| CanonicalArgs.EncodeNormal | internal/metrics/health/tracker.go:314-343 | writing empty arrays for empty objects does not change the encoding |
| CanonicalArgs.CanonicalTextExact | internal/metrics/health/tracker.go:292-343 | two trees have the same canonical text exactly when equal once `{}` and `[]` are identified |
| CanonicalArgs.EmptyObjectIsEmptyArray | internal/metrics/health/tracker.go:321-343 | the empty object and the empty array collide |
| ShellQuote.ShellQuote | cmd/sandbox-forward/sshsetup.go:231-250 | the safety scan decides between the bare and the quoted form |
| ShellQuote.LexQuoted | cmd/sandbox-forward/sshsetup.go:229-250 | the shell reads any quoted string as that one word |
| ShellQuote.QuoteRoundTrip | cmd/sandbox-forward/sshsetup.go:229-250 | the space-joined quotations of any list are read back as exactly that list |
| ShellQuote.BareExactly | cmd/sandbox-forward/sshsetup.go:229-250 | a string stays bare exactly when it is not empty and holds ASCII letters, digits and seven punctuation characters only |
| ShellQuote.ProxyCommandReadsBack | cmd/sandbox-forward/sshsetup.go:211-221 | the shell runs the forwarder with exactly the given server and arguments |
| SshConfig.FindHostBlock | cmd/sandbox-forward/sshsetup.go:361-380 | the first block of the host and the next Host line after it, or not found |
| SshConfig.HostLineExactly | cmd/sandbox-forward/sshsetup.go:382-389 | Host lines are exactly the lines that, after blanks, begin with the keyword in any case and a space or tab |
| SshConfig.HostNameIs | cmd/sandbox-forward/sshsetup.go:391-404 | the name of a Host line is its first pattern |
| SshConfig.WriteLines | cmd/sandbox-forward/sshsetup.go:346-356 | emits the lines with their newlines, without the empty piece after a final newline |
| SshConfig.AppendedText | cmd/sandbox-forward/sshsetup.go:317-328 | without such a block, the new text is the old lines, at most one blank line, and the block |
| SshConfig.SplicedText | cmd/sandbox-forward/sshsetup.go:331-342 | with such a block, the new text is the lines before it, the new block and the lines after it |
| SshConfig.ReplaceHostBlock | cmd/sandbox-forward/sshsetup.go:304-314 | computes the specified replacement in all three cases |
| SshConfig.ReplacedText | cmd/sandbox-forward/sshsetup.go:304-356 | on every text the byte-level replacement is the line-by-line replacement |
| SshConfig.ReplaceTwice | cmd/sandbox-forward/sshsetup.go:297-314 | on lines, replacing twice is replacing once |
| SshConfig.ReplaceCounts | cmd/sandbox-forward/sshsetup.go:297-314 | the number of blocks of that host stays, except that none becomes one |
| SshConfig.ReplaceIdempotent | cmd/sandbox-forward/sshsetup.go:252-314 | setting the same block up again changes no byte |
| SshConfig.ReplaceIsLocal | cmd/sandbox-forward/sshsetup.go:252-342 | every line outside the replaced block is kept in order, and where the new block stands |
| SshConfig.BuiltBlockIsBlock | cmd/sandbox-forward/sshsetup.go:209-227 | the block ssh-setup writes has one Host line, its first, naming the host |
| GoTestFailures.SentinelRoundTrip | internal/verify/go_test_failures.go:92-172 | the sentinel gives the key back exactly when the package name has no NUL |
| GoTestFailures.TestNameExact | internal/verify/go_test_failures.go:142-172 | a failure is named package/test exactly when the package name has no NUL |
| GoTestFailures.GoFailFrame.ApplyEvent | internal/verify/go_test_failures.go:113-122 | only non-empty output and fail events change a frame |
| GoTestFailures.ScanGoEvents | internal/verify/go_test_failures.go:65-90 | one frame per named test in first-seen order, with its outputs and its sentinel |
| GoTestFailures.ListFrames | internal/verify/go_test_failures.go:82-89 | the sentinel goes to the end of its own frame only |
| GoTestFailures.FailureOfClosedFrame | internal/verify/go_test_failures.go:142-172 | a closed frame becomes a failure described by the outputs before the sentinel and named after its key exactly when the package has no NUL |
| GoTestFailures.FramesToFailures | internal/verify/go_test_failures.go:126-137 | the failures of exactly the failed frames, in order |
| GoTestFailures.ParseGoTest2JSON | internal/verify/go_test_failures.go:41-44 | the whole parse is the declarative reading of the events |
| GoTestFailures.FailuresExact | internal/verify/go_test_failures.go:63-159 | the failures are exactly the named tests with a fail event, once each, in the order the stream first names them, with their outputs in stream order |
| GoTestFailures.OutputsExact | internal/verify/go_test_failures.go:113-119 | the outputs of a test are those of its own non-empty output events, in stream order, each once |
| GoTestFailures.NamedKeysInOrder | internal/verify/go_test_failures.go:68-72 | the named keys are those of the events that name a test, in stream order |
| GoTestFailures.ProjectionDecides | internal/verify/go_test_failures.go:63-122 | a test's record depends on its own events only |
| GoTestFailures.InterleavingInvariance | internal/verify/go_test_failures.go:63-159 | reordering events of different tests yields the same bag of failure records |
| Text.FirstSeenOrder | internal/verify/go_test_failures.go:63-64 | an earlier key in first-seen order occurs in the stream before any later one |
| Text.LessAtFirstDifference | internal/search/index.go:225-228 | strings are ordered at their first difference, a proper prefix first |
| Coverage.FileKeysFor | internal/tools/coverage_index.go:248-259 | the keys are exactly the path and what follows each of its slashes |
| Coverage.AddLines | internal/tools/coverage_index.go:228-235 | the tests are added on exactly the lines of the range |
| Coverage.AddRecord | internal/tools/coverage_index.go:225-236 | the fan-out happens under exactly the keys of the file |
| Coverage.BuildCoverageByFile | internal/tools/coverage_index.go:216-239 | every file and line holds exactly what the records contribute to it |
| Coverage.CoverageIndex.Ingest | internal/tools/coverage_index.go:59-73 | the stored index is replaced by that of the new profile |
| Coverage.CoverageIndex.TestsCovering | internal/tools/coverage_index.go:80-113 | returns the sorted duplicate-free listing of the names on the asked lines, split again |
| Coverage.AnswerExact | internal/tools/coverage_index.go:75-113 | a name is listed exactly when it qualifies a covering test |
| Coverage.TestsCoveringLists | internal/tools/coverage_index.go:75-113 | the result is duplicate-free, in name order, and names every covering test and nothing else |
| Coverage.TestsCoveringExact | internal/tools/coverage_index.go:75-113 | the result is exactly the covering tests if and only if the packages it touches are colon-free |
| Coverage.SplitQualified | internal/tools/run_failing_tests.go:141-149 | splitting a qualified name gives it back exactly when the package is colon-free |
| RerunTargets.ExtractRerunTargets | internal/tools/run_failing_tests.go:121-139 | the sorted duplicate-free parent tests and packages read from the failure names |
| RerunTargets.FailureNamesNeverSplitBack | internal/tools/run_failing_tests.go:141-149 | no failure name is ever split back into the package and test it was made from |
| RerunTargets.NameMissesItsPackage | internal/tools/run_failing_tests.go:117-139 | read on its own, no failure's name points to the package of the test it names |
| RerunTargets.ComposeGoRerunArgv | internal/tools/run_failing_tests.go:91-115 | the command line names the first tests up to the limit, in the packages read or, with none or too many, everywhere |
| RerunTargets.TargetsOfEvents | internal/tools/run_failing_tests.go:117-139 | the target sets are what the failed tests' names are read as |
| RerunTargets.SelectedExactly | internal/tools/run_failing_tests.go:87-139 | a test is rerun in its own package exactly when some name is read as its parent test, the limit keeps it, and its package is named, or none or too many are |
| RerunTargets.RerunExactly | internal/tools/run_failing_tests.go:87-139 | with colon-free names, exactly when its parent test is called like the first component of some failed test's package path and the limit keeps it |
| RerunTargets.SingleFailureMissed | internal/tools/run_failing_tests.go:87-139 | a single failure whose package path does not begin with the test's name is not rerun |
| RerunTargets.SingleFailureHit | internal/tools/run_failing_tests.go:87-139 | a single failure whose package path begins with the test's name is rerun |
| RerunTargets.HitThroughAnother | internal/tools/run_failing_tests.go:87-139 | a test is rerun in its own package through the name of another failure that holds a colon |
| RerunTargets.ColonFreeTarget | internal/tools/run_failing_tests.go:117-139 | for colon-free, NUL-free names the target is the first component of the package path, in no package |
| RerunTargets.ColonFreeRerun | internal/tools/run_failing_tests.go:117-139 | after such a run the rerun names those first components and no package |

## Left out

- Index: path normalisation, walking and Go extraction; `AddFile` and `Build` take their outcome. The lock, `FileCount` and `UnitCount`. The order of results that tie on score, file and symbol, which the comparator does not fix.
- IndexHistory.BuildIsHistory: walked files are distinct, as a directory walk guarantees.
- Glob.AcceptsExactly: patterns are without empty segments and paths do not end in a slash; on other strings the matcher is specified by its own recursion only. A malformed segment pattern is read as no match, as the code does.
- Workspace.ExistingResolvesToItsEntry: cleaning is lexical, as in the code, so for an argument with `..` after a symlink the entry is that of the cleaned path, not the one the kernel would reach through the argument as given.
- Workspace: the file system is one value, so changes during a call are not captured; permission errors. The "no existing ancestor" error cannot occur because the root directory exists. `Size` and workspace sets.
- LspMultiplexer: a step system on values rather than a class, because its subject is interleaving; each critical section and each channel operation is one step. Frames without an integer id do nothing and are no steps. The subprocess, the handshake, request and response bodies, `didOpen` bookkeeping, and `Shutdown` beyond its closing of the client. Whether a written request is answered at all.
- LspWire: JSON encoding and decoding, write failures, and memory for huge lengths. The characters trimmed around a length are the ASCII ones; bodies are no longer than the largest 64-bit integer.
- WatchLog: watch state is a value inside a field and event timestamps are dropped; shell registration, process groups and the display of events.
- WatchProcess: stdout and stderr lines that match no pattern are no steps, and the decision that the idle timeout has elapsed is free.
- HealthTracker: rings per tool are sequences in a map rather than slices updated in place. The failure streak and the time since the last green run. Counted flags for hashes never seen again are kept for ever, as in the code.
- CanonicalArgs: encodings are token lists, so JSON string escaping and number formatting are taken to be injective; SHA-256 and its truncation; values that do not encode.
- ShellQuote.QuoteRoundTrip: the shell model covers sections 2.2.1, 2.2.2 and 2.3 of the POSIX.1-2017 Shell Command Language and reads anything those sections leave to other rules as undefined. ssh's own percent expansion is not modelled.
- SshConfig: reading and atomically rewriting the file, key generation and upload, and ssh's own reading of its config file beyond the Host lines this code looks for.
- SshConfig.BuiltBlockIsBlock: values with line breaks are excluded, since the written block would then have other lines.
- GoTestFailures: decoding of JSON lines, and the regular expressions that find file, message and diff.
- RerunTargets: running the tests. The `-run` expression is read as the list of the names in it, so characters special to regular expressions, such as the dot of a host name, are taken literally; `./...` is read as every package.
- Coverage: reading and parsing the profile, the nil receiver and the lock; lines are any integers.
- The remaining tools, servers, snapshots, lint parsers, metrics wiring, limits and formatting: input and output over unseen libraries, or easy members.
