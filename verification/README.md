# Log tail change detector of docker-gui

docker-gui is a desktop front end for Docker. While a container's log view is
open, `ListenForContainerLogs` polls the container's whole log buffer once per
second. From each buffer it derives a cheap fingerprint: the first thirty bytes
of the last line, computed by `getLastLogTimeStamp`. With `docker logs
--timestamps` those bytes are the RFC 3339 timestamp that starts the line. The
loop keeps two fingerprints, `lastLogTimeStamp` (last observed) and
`lastSentLogTimeStamp` (last sent). It emits a `container:log:new` event with
the full buffer when the observed fingerprint is non-empty and differs from the
one last sent.

The project has three modules:

- `GoStrings` (`go_strings.dfy`) models Go's `strings.Split` with a
  one-character separator, plus its inverse `Join`. `Split` is never empty, and
  `Split("", sep) == [""]`.
- `LogTail` (`log_tail.dfy`) models `getLastLogTimeStamp`, which consists of
  `LastLine` and `Fingerprint`. It also gives a reference definition of the
  selected line (`TailLine`: what follows the last newline once a single
  trailing newline is dropped) and proves that the two agree.
- `PollEngine` (`poll_engine.dfy`) models one iteration of the polling loop as
  the pure function `Step` over `PollState(lastObserved, lastSent)`. The ticker
  becomes a finite sequence of `FetchResult`s, and the loop becomes the fold
  `Run`. The loop itself is also written as methods: `Tick` is the loop body
  and `Listen` the loop, which keeps the source's variable names.

The fold is stated for any fingerprint function, and its laws say which
properties of the fingerprint they rely on. `Tick`, `Listen` and the concrete
lemmas use `LogTail.Fingerprint`.

Modelling conventions:

- A Go string is a byte string. Here one `char` stands for one byte, so `|s|`
  is Go's `len(s)` and `s[..30]` is `s[:30]`.
- The Docker fetch (`containerLogs`) is an input. Each tick receives
  `Fetched(logs)` or `FetchFailed(error)`.
- The emitted event is an output: `Some(logs)` for a tick, or the sequence of
  emitted texts for a run.
- Error logging is dropped.
- `Split` never returns an empty list, so the `len(lines) > 0` guard of
  `getLastLogTimeStamp` always holds. `LastLine` therefore omits that guard.
  Its `lastLine != ""` test is kept as written, although `len(lastLine) >= 30`
  already implies it.

Reading the loop as a fold brings out three things:

- `ReachableConsistent`: every state reached from the initial empty state
  satisfies `lastSent == lastObserved`.
- `EngineMatchesReference`: the two-variable loop emits exactly what a
  one-variable reference (`Reference`) emits. The reference emits a fetched
  text when its fingerprint is non-empty and differs from the last non-empty
  fingerprint seen.
- `UnchangedTailSilent`: a new tail line whose first thirty bytes equal the
  previous line's is not reported. This is the precision limit of a prefix
  fingerprint, and `NewTailEmits` requires a changed prefix for
  exactly that reason.

## Model

| member | source | states |
|---|---|---|
| `GoStrings.Split` | internal/api.go:122-123 | `strings.Split` never returns an empty list, so the `len(lines) > 0` guard is always true |
| `GoStrings.SplitCount` | internal/api.go:122 | a split has exactly one more piece than the text has separators |
| `GoStrings.SplitPiecesNoSep` | internal/api.go:122 | no piece of a split contains the separator |
| `GoStrings.JoinSplit` | internal/api.go:122 | joining the pieces with the separator gives back the original text, so no byte is lost or reordered |
| `GoStrings.SplitJoin` | internal/api.go:122 | splitting the join of any non-empty list of separator-free pieces gives back that list: the pieces are determined uniquely |
| `GoStrings.SplitTrailingSep` | internal/api.go:122-126 | a trailing newline adds exactly one empty piece at the end, and changes nothing else |
| `GoStrings.LastOfSplit` | internal/api.go:122-128 | the last piece is the text after the last separator, or the whole text when there is none |
| `LogTail.Fingerprint` | internal/api.go:120-138 | the fingerprint is either empty or exactly 30 bytes long |
| `LogTail.LastLine` | internal/api.go:121-131 | the split-then-pick selection as written; its own contract says only that the selected line holds no newline, and `LastLineIsTailLine` and `TrailingNewlineSkipped` carry the rest |
| `LogTail.LastLineIsTailLine` | internal/api.go:121-131 | the selected line is the text after the last newline once one trailing newline is dropped |
| `LogTail.FingerprintSpec` | internal/api.go:133-137 | the fingerprint is non-empty exactly when that tail line has at least 30 bytes; it is then the line's first 30 bytes; it never contains a newline |
| `LogTail.FingerprintIsLinePrefix` | internal/api.go:133-137 | the 30-byte rule stated plainly on the selected line, read directly off the two branches: a non-empty fingerprint is its first 30 bytes, and a line shorter than 30 bytes gives the empty fingerprint; `FingerprintSpec` is the independent form |
| `LogTail.FingerprintOccursInLogs` | internal/api.go:133-134 | a non-empty fingerprint occurs verbatim in the log text |
| `LogTail.TrailingNewlineSkipped` | internal/api.go:124-126 | with one trailing newline, the line before it is selected |
| `LogTail.TrailingNewlineExample` | internal/api.go:124-126 | `"a\nb\n"` selects `"b"` |
| `LogTail.DoubleNewlineGivesEmpty` | internal/api.go:124-137 | only one trailing empty piece is skipped: a text ending in two newlines selects the empty line and gives the empty fingerprint |
| `LogTail.EmptyLogsGiveEmpty` | internal/api.go:121-137 | the empty buffer selects the empty line and gives the empty fingerprint |
| `PollEngine.Step` | internal/api.go:151-165 | a failed fetch changes nothing and emits nothing; an empty fingerprint keeps `lastObserved`, a non-empty one replaces it; a non-empty `lastObserved` stays non-empty; a step emits iff the fetch succeeded and the new `lastObserved` is non-empty and differs from `lastSent`; an emission carries the full fetched text and leaves `lastSent == lastObserved`; otherwise `lastSent` is unchanged |
| `PollEngine.Run` | internal/api.go:147-166 | a run emits at most once per tick, never empties a non-empty observed fingerprint, and leaves `lastSent` unchanged when it emits nothing |
| `PollEngine.RunAppend` | internal/api.go:150-166 | running the ticks in two batches, the second starting from the state the first left, is the same as running them at once |
| `PollEngine.FailedFetchesSilent` | internal/api.go:151-155 | a sequence of failed fetches leaves the state unchanged and emits nothing |
| `PollEngine.FailuresInvisible` | internal/api.go:151-155 | inserting failed fetches anywhere among the ticks changes neither the final state nor the emitted texts |
| `PollEngine.EmittedWereFetched` | internal/api.go:162-165 | every emitted text is the full text of one of the successful fetches |
| `PollEngine.StepPreservesConsistent` | internal/api.go:157-165 | when fingerprints are well formed, a step keeps `lastSent == lastObserved` and a well-formed `lastObserved` |
| `PollEngine.RunPreservesConsistent` | internal/api.go:150-166 | the same invariant holds after any number of ticks |
| `PollEngine.ReachableConsistent` | internal/api.go:147-166 | every state the loop reaches from two empty fingerprints satisfies the invariant |
| `PollEngine.RunMatchesReference` | internal/api.go:157-165 | from a consistent state, the loop emits exactly what the one-fingerprint reference emits |
| `PollEngine.EngineMatchesReference` | internal/api.go:147-166 | from the initial state, the loop over `getLastLogTimeStamp` emits exactly what the reference emits |
| `PollEngine.EmissionsChangeFingerprint` | internal/api.go:157-165 | every emitted text has a non-empty fingerprint; the first differs from the one already sent; no two consecutive emissions share a fingerprint; the last one's fingerprint is what the final state records as sent |
| `PollEngine.RepeatedPollSilent` | internal/api.go:157-165 | polling the same buffer twice in a row emits nothing the second time |
| `PollEngine.UnchangedTailSilent` | internal/api.go:157-165 | a poll emits nothing after a poll whose tail line or fingerprint is the same |
| `PollEngine.NewTailEmits` | internal/api.go:157-165 | from a consistent state, a tail line of at least 30 bytes with a new 30-byte prefix is emitted in full, and both fingerprints become that prefix |
| `PollEngine.ShortTailSilent` | internal/api.go:157-160 | a tail line shorter than 30 bytes leaves `lastObserved` unchanged and, from a consistent state, changes nothing and emits nothing |
| `PollEngine.Tick` | internal/api.go:151-165 | the loop body as written, on the source's two variables, computes exactly `Step` |
| `PollEngine.Listen` | internal/api.go:147-166 | the loop, over a finite sequence of ticks from two empty fingerprints, computes `Run`, emits what the reference emits, and ends in a consistent state |

## Left out

- `WailsInit`, `ListImages`, `GetContainers`, `RunContainer` and `StopContainer` (internal/api.go:23-94) only forward to the Docker client and the Wails runtime. They are foreign calls with no logic of their own.
- `containerLogs` (internal/api.go:96-118) demultiplexes Docker's log stream through library I/O. It is modelled only by its outcome, a `FetchResult` that holds the text or an error.
- The one-second ticker, the `container:log:stop` handler and `ticker.Stop()` (internal/api.go:141-145, 150) are timing and event plumbing. The ticks are a finite input sequence instead. After `ticker.Stop()` the source's loop blocks without ever ending, and that is not modelled.
- Logging of fetch errors (internal/api.go:153) is a side effect with no bearing on the state.
- `AttachToContainerShell` (internal/api.go:169-243) is goroutines, a shared cancel, channel selection and network I/O. Its output reader reads into a nil slice, so it has no behaviour that can be stated.
- main.go configures the application window and binds the API. It is host bootstrap only.
- Byte semantics: a `char` stands for one byte. Multi-byte UTF-8 characters, which Go's `[:30]` may cut in the middle, are not modelled separately.
