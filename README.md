# Sandbox command logs, sandbox creation and a persisted value, in Dafny

This project models three parts of a chat application that drives remote
sandboxes, and proves properties of the model:

- **Command log streaming** (`components/commands-logs/command-logs.tsx`).
  `getCommandLogs` is an async generator. It reads a log endpoint's body
  chunk by chunk, splits the buffer on newlines and yields one
  `logSchema`-validated record per non-empty line. An abort signal stops the
  loop. `getCommand` fetches a command's status through `cmdSchema`. The
  `CommandLogs` component starts one session per instance; a ref guard
  keeps it to one. It forwards every record to `onLog`, then merges the
  fetched status into the record it passes to `onCompleted`. `logContent`
  renders the command line and its log data.
- **The `createSandbox` tool** (`ai/tools/create-sandbox.ts`). This covers
  its input schema, where `ports` holds at most two numbers. It also covers
  the clamp of the requested timeout to 45 minutes and the `loading` and
  `done` progress writes around the call that creates the sandbox.
- **`useLocalStorageValue`** (`lib/use-local-storage-value.ts`). This is a
  string state loaded from `localStorage` on mount, with writes debounced
  by 150 ms.

Modules:

| file | module | models |
|---|---|---|
| `wrappers.dfy` | `Wrappers` | `Option`, `Result` |
| `js.dfy` | `Js` | JSON values and the error kinds the code meets |
| `text.dfy` | `Text` | `String.prototype.split` with one character, `Array.prototype.join` |
| `command_types.dfy` | `CommandTypes` | the two record types and the two zod schemas |
| `log_stream.dfy` | `LogStream` | `getCommandLogs`: its step semantics, a chunking-independent reference, and the imperative loop proved against both |
| `command_logs_view.dfy` | `CommandLogsView` | `getCommand`, the `CommandLogs` component (a class with the ref guard), `logContent` |
| `create_sandbox.dfy` | `CreateSandbox` | the tool's schema, timeout and execution |
| `local_storage_value.dfy` | `LocalStorageValue` | the hook as a class whose methods are the steps of React and the browser |

### How the generator is modelled

A run of `getCommandLogs` depends on four things, all given up front:

- what `fetch` does: it responds or throws;
- what each `reader.read()` gives: a chunk of decoded text or a rejection,
  followed by `done`;
- when the abort signal fires. The signal is also given to `fetch`
  (line 88): a request, or a read of its body, that is still pending when
  it fires is rejected with an `AbortError`. So an abort during the `fetch`
  await makes the generator throw that error, and an abort during a read
  ends the loop through the `catch` at line 109;
- `JSON.parse` itself. It is a parameter `parseJson`, a partial function
  where `None` is a thrown `SyntaxError`.

JavaScript runs on one thread, so the signal can only change while the
generator is suspended. The model counts the generator's suspensions with a
clock. The `fetch` await is suspension 1, and each read and each `yield`
adds one. `abortAt = Some(n)` means every test of `signal.aborted` made at
clock `n` or later reads true.

`ReadLoop` and `SegmentLoop` follow the `while` and `for` loops branch by
branch. `Expected` and `Reference` define what a run that is never aborted
should do. They depend only on the concatenated received text, not on how
it was split into chunks. The imperative methods `GetCommandLogs`,
`ReadStream` and `DecodePieces` are loops with invariants, proved against
both definitions.

### Where the code departs from its evident intent

The model follows the code in each case:

- **`onCompleted` after an abort.** A cancelled session is meant not to
  complete. In the code, an abort seen after the response has arrived
  makes the generator return normally (lines 94 and 109), and nothing at
  lines 34-42 tests the signal. So the status is still fetched and
  `onCompleted` is still called. See `AbortedSessionStillCompletes`. Only
  an abort while the log request is pending keeps the session silent: see
  `AbortDuringFetchReportsNothing`.
- **Records after an abort.** The signal is tested only at lines 94 and
  109. The `for` loop at lines 101-106 goes on yielding the rest of the
  current chunk's lines after the signal fires. See
  `YieldsContinueAfterAbort`.
- **The default timeout.** The comment at `ai/tools/create-sandbox.ts:48`
  speaks of a 30-minute default and of an environment variable. The code
  uses neither: the default is `45 * 60 * 1000` ms, the same as the maximum.
  Values below the maximum, including negative ones, pass through unclamped.
- **The strict-mode cleanup.** In React strict mode the effect runs, its
  cleanup runs, and then it runs again. The cleanup aborts the controller
  of the first run while its `fetch` is pending, and that run holds the
  only session the ref guard lets start. The second run starts nothing. So
  under strict mode the component reports no records and never completes
  (`RunEffectTwice`).

## Model

| member | source | states |
|---|---|---|
| `Text.Split` | components/commands-logs/command-logs.tsx:100 | `s.split(sep)`, at least one piece; further properties in `SplitPieces`, `JoinSplit`, `SplitJoin` |
| `Text.Join` | components/commands-logs/command-logs.tsx:70-71 | `parts.join(sep)`, `''` for no pieces |
| `Text.SplitPieces` | components/commands-logs/command-logs.tsx:100 | `line.split('\n')` has one more piece than the buffer has newlines, and no piece holds a newline |
| `Text.JoinSplit` | components/commands-logs/command-logs.tsx:100-107 | rejoining the pieces with `'\n'` gives the buffer back: splitting loses no text |
| `Text.SplitJoin` | components/commands-logs/command-logs.tsx:100 | splitting undoes a join of newline-free pieces |
| `Text.SplitWithoutSeparator` | components/commands-logs/command-logs.tsx:100 | a newline-free string splits into itself alone |
| `Text.SplitFirstPiece` | components/commands-logs/command-logs.tsx:100 | a newline-free first line followed by a newline is split off as the first piece |
| `Text.SplitAppend` | components/commands-logs/command-logs.tsx:99-100 | splitting `x + y` keeps the complete pieces of `x`, and its last piece continues into `y` |
| `Text.JoinAppend` | components/commands-logs/command-logs.tsx:71 | joining one more piece appends the separator and the piece, or just the piece when there was none |
| `Text.JoinWithout` | components/commands-logs/command-logs.tsx:70 | a character in neither the pieces nor the separator is not in their join |
| `CommandTypes.ParseStreamName` | components/commands-logs/command-logs.tsx:77 | the enum accepts exactly `"stdout"` and `"stderr"`, each as its own name |
| `CommandTypes.LogSchema` | components/commands-logs/command-logs.tsx:75-79 | `logSchema.parse`; exactly characterized by `LogSchemaExact` |
| `CommandTypes.LogSchemaExact` | components/commands-logs/command-logs.tsx:75-79 | `logSchema` accepts a document as a record iff it is an object agreeing with the record's JSON form on `data`, `stream` and `timestamp`; other keys are ignored; every rejection is a schema error |
| `CommandTypes.LogSchemaRoundTrip` | components/commands-logs/command-logs.tsx:75-79 | validating a record's JSON form gives the record back |
| `CommandTypes.OptionalNumber` | components/commands-logs/command-logs.tsx:119 | `z.number().optional()` for `exitCode`: an absent key is no value, a number is kept, and anything else, `null` included, is a `SchemaError`; used by `CmdSchema`, whose exact characterization `CmdSchemaExact` covers both the absent and the present key |
| `CommandTypes.CmdSchema` | components/commands-logs/command-logs.tsx:115-120 | `cmdSchema.parse`; exactly characterized by `CmdSchemaExact` |
| `CommandTypes.CmdSchemaExact` | components/commands-logs/command-logs.tsx:115-120 | `cmdSchema` accepts a document as a status iff it is an object agreeing with the status's JSON form on the three required keys and on the optional `exitCode`; every rejection is a schema error |
| `CommandTypes.CmdSchemaRoundTrip` | components/commands-logs/command-logs.tsx:115-120 | validating a status's JSON form gives the status back |
| `LogStream.ReadLoop` | components/commands-logs/command-logs.tsx:94-112 | the `while` loop never drops a record already yielded |
| `LogStream.SegmentLoop` | components/commands-logs/command-logs.tsx:100-107 | the `for` loop never drops a record already yielded |
| `LogStream.CompleteLines` | components/commands-logs/command-logs.tsx:100-101 | the pieces the `for` loop visits, all but the last piece of `line.split('\n')`; they are what `RecordsAreNonEmptyLines` and `ChunkBoundaryIndependence` decode |
| `LogStream.Remainder` | components/commands-logs/command-logs.tsx:107 | the buffer kept for the next read, the last piece; `RemainderIsLastLine` shows it is the text after the last newline and `RemainderAppend` that carrying it across a chunk equals splitting all the text at once |
| `LogStream.ParseLog` | components/commands-logs/command-logs.tsx:103-104 | `logSchema.parse(JSON.parse(line))`: text that is not JSON is a `SyntaxError`, and JSON is checked by `LogSchema` |
| `LogStream.DecodeLines` | components/commands-logs/command-logs.tsx:101-106 | the reference decoding of a run of lines: empty lines skipped, the rest parsed up to the first failure. `DecodeLinesOneToOne` gives one record per non-empty line, in order, and `DecodeLinesAppend` how it splits over concatenation |
| `LogStream.NonEmpty` | components/commands-logs/command-logs.tsx:102 | the lines kept by the `if (lines[i])` test are all non-empty |
| `LogStream.Session` | components/commands-logs/command-logs.tsx:81-113 | a whole run: a request pending when the signal fires rejects with `AbortError`; a failed `fetch` propagates; otherwise the read loop from an empty buffer. Its properties are `NeverAbortedIsReference` and `AbortCutsShort` |
| `LogStream.Expected` | components/commands-logs/command-logs.tsx:94-112 | the reference from a buffer on: the decoded complete lines of all the text received, then the first line failure, else the first read failure, else a normal return; equal to the loop by `ReadLoopNeverAborted` |
| `LogStream.Reference` | components/commands-logs/command-logs.tsx:81-113 | the reference for a whole run that is never aborted, independent of chunk boundaries; equal to the run by `NeverAbortedIsReference` |
| `LogStream.GetCommandLogs` | components/commands-logs/command-logs.tsx:81-113 | the generator yields the records and ends as the step semantics says. Never aborted, it equals the reference run on the received text. Aborted, it is the reference run cut short, ending normally or with the request's `AbortError`. Aborted by the time the request settles, it yields nothing and throws `AbortError` |
| `LogStream.ReadStream` | components/commands-logs/command-logs.tsx:93-112 | the read loop with its buffer yields what `ReadLoop` says; its invariant keeps the buffer equal to the text after the last newline received |
| `LogStream.DecodePieces` | components/commands-logs/command-logs.tsx:100-106 | the loop over one chunk's pieces either stops the run as `SegmentLoop` does or continues it from the last piece, at the clock after its yields |
| `LogStream.ReceivedAppend` | components/commands-logs/command-logs.tsx:99 | one more chunk after reads that did not fail appends its text to what was received |
| `LogStream.RemainderIsLastLine` | components/commands-logs/command-logs.tsx:107 | the kept buffer holds no newline and is exactly the received text after its last newline |
| `LogStream.RemainderAppend` | components/commands-logs/command-logs.tsx:99-107 | carrying the buffer into the next chunk gives the same lines, and the same new buffer, as splitting all the text at once |
| `LogStream.DecodeLinesAppend` | components/commands-logs/command-logs.tsx:101-106 | decoding two runs of lines decodes the second only when the first had no failure |
| `LogStream.DecodeLinesOneToOne` | components/commands-logs/command-logs.tsx:101-105 | decoded records match the non-empty lines one to one and in order, up to the first line that fails, whose error is the failure |
| `LogStream.SegmentLoopNeverAborted` | components/commands-logs/command-logs.tsx:100-107 | never aborted, the `for` loop yields the decoded remaining pieces, then continues from the last piece unless a line failed |
| `LogStream.ReadLoopNeverAborted` | components/commands-logs/command-logs.tsx:94-112 | never aborted, the read loop from any buffer and read onward behaves as the reference on the text still to come |
| `LogStream.ExpectedAfterChunk` | components/commands-logs/command-logs.tsx:99-107 | the reference taken one chunk at a time: the chunk's complete lines first, then the rest from the new buffer |
| `LogStream.NeverAbortedIsReference` | components/commands-logs/command-logs.tsx:81-113 | a run that is never aborted has exactly the reference outcome |
| `LogStream.ChunkBoundaryIndependence` | components/commands-logs/command-logs.tsx:99-107 | delivering text in any chunks yields the same records and end as delivering it in one chunk |
| `LogStream.RecordsAreNonEmptyLines` | components/commands-logs/command-logs.tsx:100-104 | when every non-empty complete line parses, a never-aborted run yields exactly one record per such line, in order, and ends as the reader did |
| `LogStream.TrailingTextDiscarded` | components/commands-logs/command-logs.tsx:96-107 | a final chunk without a newline changes nothing: the unterminated tail is never parsed |
| `LogStream.ReadLoopCutShort` | components/commands-logs/command-logs.tsx:94-111 | from any loop state, the aborted loop is the never-aborted loop cut short |
| `LogStream.SegmentLoopCutShort` | components/commands-logs/command-logs.tsx:100-111 | from any piece, the aborted `for` loop is the never-aborted one cut short |
| `LogStream.AbortCutsShort` | components/commands-logs/command-logs.tsx:86-111 | an aborted run yields a prefix of the reference records and then returns normally or throws the request's `AbortError`, or it is identical to the reference run |
| `LogStream.SegmentLoopIgnoresSignal` | components/commands-logs/command-logs.tsx:101-111 | for any abort time, from any piece: with no failing line, every record of the remaining complete pieces is yielded, one tick each, and the loop goes on from the last piece; with one, the run ends after the records before it, rethrowing the failure exactly when the signal has not fired by then |
| `LogStream.ChunkPiecesDecode` | components/commands-logs/command-logs.tsx:99-106 | from the first piece of a buffer whose complete lines all decode, every record of those lines is yielded, in order |
| `LogStream.ChunkPiecesFail` | components/commands-logs/command-logs.tsx:99-111 | from the first piece of a buffer one of whose complete lines fails, the run ends after the records before it, rethrowing the failure exactly when the signal has not fired by then |
| `LogStream.YieldsContinueAfterAbort` | components/commands-logs/command-logs.tsx:96-106 | for any read that delivers a chunk before the signal fires, at any clock and abort time: all the records of the buffer's complete lines are yielded whatever the signal does while they are consumed |
| `LogStream.ErrorWhileAbortedIsSwallowed` | components/commands-logs/command-logs.tsx:96-111 | for any read that delivers a chunk before the signal fires: a failing complete line ends the run after the records before it; its error is rethrown when the signal has not fired by then, and the run ends normally when it has |
| `CommandLogsView.GetCommand` | components/commands-logs/command-logs.tsx:122-126 | one status request, its body parsed as JSON and checked by `cmdSchema`; its outcomes are `GetCommandOutcomes` |
| `CommandLogsView.GetCommandOutcomes` | components/commands-logs/command-logs.tsx:122-126 | a failed request fails with its error; a body holding a status's JSON form gives that status; a non-JSON body is a `SyntaxError` |
| `CommandLogsView.Completion` | components/commands-logs/command-logs.tsx:35-42 | the completed record takes identity and start time from the status and the command line from the prop; a missing exit code becomes 0; it carries no logs |
| `CommandLogsView.Report` | components/commands-logs/command-logs.tsx:43-47 | an `AbortError` is reported not at all, and any other error exactly once |
| `CommandLogsView.SessionEvents` | components/commands-logs/command-logs.tsx:24-49 | the events of one session: the `onLog` calls, then the completion or a report; its shape is `SessionEventsShape` |
| `CommandLogsView.LogEvents` | components/commands-logs/command-logs.tsx:26-32 | one `onLog` per record, in order, tagged with the command's sandbox and command ids |
| `CommandLogsView.Finish` | components/commands-logs/command-logs.tsx:34-48 | after the records comes at most one more event |
| `CommandLogsView.EventsShape` | components/commands-logs/command-logs.tsx:26-48 | for any records and end: the `onLog` calls come first; a completion is only ever last and there is at most one; there is one iff the generator returned and the status is valid, and it carries the merged record; otherwise what follows the records is the report of the generator's error, or of the status error |
| `CommandLogsView.SessionEventsShape` | components/commands-logs/command-logs.tsx:24-49 | the same shape, reports included, for the events of a whole session |
| `CommandLogsView.NeverAbortedSessionLogs` | components/commands-logs/command-logs.tsx:26-32 | a never-aborted session reports, first and in order, exactly the reference records |
| `CommandLogsView.AbortedSessionStillCompletes` | components/commands-logs/command-logs.tsx:26-42 | an aborted session reports a prefix of the reference records; with a valid status it still ends with `onCompleted` after a normal return, even when the signal fires during the first read |
| `CommandLogsView.AbortDuringFetchReportsNothing` | components/commands-logs/command-logs.tsx:43-48 | a signal fired by the time the log request settles leaves the session with no event at all |
| `CommandLogsView.CommandLogs.constructor` | components/commands-logs/command-logs.tsx:13 | a new instance has an empty ref and has produced no events |
| `CommandLogsView.CommandLogs.Effect` | components/commands-logs/command-logs.tsx:15-53 | the first run sets the ref and produces exactly the session's events; a later run changes nothing; at most one session and at most one completion ever |
| `CommandLogsView.RunEffectTwice` | components/commands-logs/command-logs.tsx:13-53 | strict mode's effect, cleanup, effect: the cleanup aborts the only session during its `fetch`, and the component reports nothing |
| `CommandLogsView.LogData` | components/commands-logs/command-logs.tsx:71 | the `data` of every log, in order |
| `CommandLogsView.Header` | components/commands-logs/command-logs.tsx:70-72 | the bracketed time, then the command and its arguments joined by spaces |
| `CommandLogsView.Body` | components/commands-logs/command-logs.tsx:71 | the logs' data concatenated, `''` when there are none |
| `CommandLogsView.LogContent` | components/commands-logs/command-logs.tsx:62-73 | the header, a newline, the body; read back by `LogContentReadsBack` |
| `CommandLogsView.LogContentReadsBack` | components/commands-logs/command-logs.tsx:62-73 | with newline-free time and command line, the rendered text's first line is the header and the rest is the logs' concatenated data; with no logs the text is the header and a newline |
| `CommandLogsView.LogContentAppend` | components/commands-logs/command-logs.tsx:71-72 | one more log appends exactly its data to the rendered text |
| `CreateSandbox.EffectiveTimeout` | ai/tools/create-sandbox.ts:50-53 | `Math.min(timeout ?? DEFAULT, MAX)`; its bounds are `EffectiveTimeoutBounds` |
| `CreateSandbox.EffectiveTimeoutBounds` | ai/tools/create-sandbox.ts:50-53 | the timeout never exceeds 2,700,000 ms; the default is 2,700,000 ms; a request up to that is kept and a larger one is clamped to it |
| `CreateSandbox.EffectiveTimeoutStable` | ai/tools/create-sandbox.ts:52-53 | clamping is idempotent and monotonic |
| `CreateSandbox.Numbers` | ai/tools/create-sandbox.ts:27 | an array is accepted iff every item is a number, and then item by item |
| `CreateSandbox.PortsField` | ai/tools/create-sandbox.ts:26-29 | an absent key, or an array of at most two numbers |
| `CreateSandbox.TimeoutField` | ai/tools/create-sandbox.ts:20-22 | an absent key, or a number |
| `CreateSandbox.ParseInput` | ai/tools/create-sandbox.ts:19-33 | an object whose two fields pass; its properties are `ValidInputHasAtMostTwoPorts` and `ParseInputRoundTrip` |
| `CreateSandbox.ValidInputHasAtMostTwoPorts` | ai/tools/create-sandbox.ts:26-29 | accepted input has no ports or at most two; three or more are rejected whatever they are |
| `CreateSandbox.ParseInputRoundTrip` | ai/tools/create-sandbox.ts:19-33 | every input the schema describes is accepted as itself |
| `CreateSandbox.CreatedMessage` | ai/tools/create-sandbox.ts:66 | the tool's result text for the new sandbox's id; `ExecuteOrder` states that a successful run returns it for the id `create` gave |
| `CreateSandbox.Writes` | ai/tools/create-sandbox.ts:39-64 | the statuses written to the stream, in order; what they are is `WritesMembers` and their order `WritesAppend` |
| `CreateSandbox.WritesMembers` | ai/tools/create-sandbox.ts:39-64 | a status is written exactly when some `Written` event of the run carries it |
| `CreateSandbox.WritesAppend` | ai/tools/create-sandbox.ts:39-64 | the statuses of two runs one after the other are those of the first, then those of the second, so the order of the writes is kept |
| `CreateSandbox.Execute` | ai/tools/create-sandbox.ts:39-66 | the writes and the creation call in program order, and the result; its order is `ExecuteOrder` |
| `CreateSandbox.ExecuteOrder` | ai/tools/create-sandbox.ts:39-66 | `loading` is written first, under the tool call's id. Then the sandbox is created with the effective timeout and the given ports. `done` with the new id follows only on success, and the message names the id. A creation error propagates with no `done` |
| `LocalStorageValue.Storage.GetItem` | lib/use-local-storage-value.ts:8 | `getItem` is null iff the key is absent, and else is the stored string |
| `LocalStorageValue.Storage.SetItem` | lib/use-local-storage-value.ts:20 | `setItem` sets one entry, keeps every other and is logged in order |
| `LocalStorageValue.LocalStorageValue.constructor` | lib/use-local-storage-value.ts:4-5 | the first render holds `''`, an empty slot and no timers |
| `LocalStorageValue.LocalStorageValue.PersistEffect` | lib/use-local-storage-value.ts:16-21 | the timer the slot names is cleared, and a write of the current value is scheduled and named by the slot |
| `LocalStorageValue.LocalStorageValue.PersistCleanup` | lib/use-local-storage-value.ts:22-27 | the timer the slot names is cleared and the slot is emptied |
| `LocalStorageValue.LocalStorageValue.SetValue` | lib/use-local-storage-value.ts:14-28 | an equal value changes nothing. A new value replaces the pending write with exactly one write of that value. Storage is untouched |
| `LocalStorageValue.LocalStorageValue.Mount` | lib/use-local-storage-value.ts:7-21 | after mount the value is the stored one, or the initial one when nothing is stored. Exactly one write of it is pending, named by the slot; one timer is scheduled, or two when the stored value differs; storage is untouched |
| `LocalStorageValue.LocalStorageValue.TimerFire` | lib/use-local-storage-value.ts:19-21 | a live timer writes the value it was scheduled with under the key and nothing else; a cleared timer does nothing |
| `LocalStorageValue.LocalStorageValue.Teardown` | lib/use-local-storage-value.ts:22-27 | unmount cancels the pending write without flushing it |
| `LocalStorageValue.AtMostOnePending` | lib/use-local-storage-value.ts:16-21 | at most one timer is ever live, and a live timer writes the current value |
| `LocalStorageValue.DebouncedBurst` | lib/use-local-storage-value.ts:7-28 | mount, then any burst of values within the delay, then the timer: storage is written once, under the key, with the last value (the stored one, or `''`, when there was none) |

## Left out

- Byte decoding: the reader delivers decoded text. `TextDecoder` with `stream: true`, including characters split across chunks, is not modelled.
- `JSON.parse` is the parameter `parseJson`, not a JSON parser.
- Numbers are unbounded integers. JavaScript's floating point, `NaN`, infinities and fractional timestamps, timeouts or ports are not modelled.
- The reader is a finite sequence of reads. A stream that never ends is not modelled.
- The request URLs and headers are not modelled. A response with a null `body` (the `!` at line 91) is not modelled either: every response has one.
- `toLocaleTimeString` is not modelled: the formatted start time is a parameter of `LogContent`.
- React's scheduling is not modelled: batching, render timing and concurrent rendering are absent. Each effect, cleanup and timer callback is one atomic step, in the order React runs them.
- A change of the hook's `key` between renders is not modelled: the key is fixed per instance.
- Real time is not modelled, including the 150 ms delay. A timer fires when `TimerFire` is called; `DebouncedBurst` assumes the burst is faster than the delay.
- `console.error` is a `Reported` event. The message text is not checked.
- `Sandbox.create` is the parameter `create`. The writer's part type, `data-create-sandbox`, is not modelled either.
- The `SANDBOX_TIMEOUT_MS` variable appears only in a comment. The code does not read it.
- JSX rendering is not modelled: the `<pre>` element and its classes.
- The `.describe` texts of the schema are not modelled.
- The layout and header components and the Next.js configuration are not part of this model.
- Text.Split: its own contract states only that there is at least one piece. The piece count and the absence of separators are the separate lemma `Text.SplitPieces`.
- CommandLogsView.Finish: its own contract states only that at most one event follows the records. Which event it is, completion or report, is stated by `CommandLogsView.EventsShape`.
- Steps after unmount are not modelled as React runs them: the model has no mounted flag, so a `SetValue` after `Teardown` schedules a write that React would drop.
- The unmount cleanup of `CommandLogs` (line 51) is not a step of its own: the time it aborts the signal is the session's `abortAt`.
- The callbacks `onLog` and `onCompleted` are assumed to return normally. Both run inside the `try` at lines 25-48, and what the code does when one throws is not modelled. When `onCompleted` throws, the `catch` reports that error after the completion. When `onLog` throws, the `for await` closes the generator, the error is reported, and no further record is consumed and `onCompleted` is not called. `EventsShape` and `SessionEventsShape` describe only callbacks that return.
