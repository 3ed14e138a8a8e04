/** The `CommandLogs` component: it starts one `getCommandLogs` session per
    instance, forwards every record to `onLog`, and once the records are
    exhausted fetches the command's status and reports the merged record to
    `onCompleted`. Also `getCommand` and the text the component renders,
    `logContent`.

    The calls the component makes to the code around it (`onLog`,
    `onCompleted`, `console.error`) are recorded, in order, as events. */
module CommandLogsView {
  import opened Wrappers
  import opened Js
  import opened Text
  import opened CommandTypes
  import opened LogStream

  datatype Event =
    | OnLog(sandboxId: string, cmdId: string, log: CommandLog)
    | OnCompleted(record: Command)
    | Reported(error: Error)

  /** What the status request of `getCommand` met: a response body, or a
      `fetch` (or `response.json()` read) that threw. */
  datatype StatusResponse = StatusBody(body: string) | StatusFailed(error: Error)

  /** Everything one session depends on besides the component's props. */
  datatype SessionEnv = SessionEnv(
    fetch: FetchOutcome,
    reader: seq<ReadOutcome>,
    abortAt: Option<nat>,
    status: StatusResponse)

  /** `getCommand(sandboxId, cmdId)` (lines 122-126): one request, its body
      parsed as JSON and validated by `cmdSchema`. */
  function GetCommand(status: StatusResponse, parseJson: string -> Option<Json>): Result<CommandStatus, Error> {
    match status
    case StatusFailed(e) => Failure(e)
    case StatusBody(body) =>
      match parseJson(body)
      case None => Failure(SyntaxError)
      case Some(j) => CmdSchema(j)
  }

  /** A failed request fails with its own error; a body that is the JSON form
      of a status yields that status; a body that is not JSON is a
      `SyntaxError`. No retry is made. */
  lemma GetCommandOutcomes(status: StatusResponse, parseJson: string -> Option<Json>, s: CommandStatus)
    ensures status.StatusFailed? ==> GetCommand(status, parseJson) == Failure(status.error)
    ensures status.StatusBody? && parseJson(status.body) == Some(StatusToJson(s)) ==>
      GetCommand(status, parseJson) == Success(s)
    ensures status.StatusBody? && parseJson(status.body).None? ==>
      GetCommand(status, parseJson) == Failure(SyntaxError)
  {
    CmdSchemaRoundTrip(s);
  }

  /** The record passed to `onCompleted` (lines 35-42): identity and start
      time from the fetched status, the exit code from the status or 0, the
      command line from the component's own command. */
  function Completion(command: Command, status: CommandStatus): (r: Command)
    ensures r.sandboxId == status.sandboxId && r.cmdId == status.cmdId && r.startedAt == status.startedAt
    ensures r.exitCode == Some(status.exitCode.GetOr(0))
    ensures status.exitCode.None? ==> r.exitCode == Some(0)
    ensures r.command == command.command && r.args == command.args
    ensures r.logs.None?
  {
    Command(status.sandboxId, status.cmdId, command.command, command.args,
            status.startedAt, Some(status.exitCode.GetOr(0)), None)
  }

  /** The `catch` of lines 43-48: abort errors are ignored, every other
      error is reported to the console. */
  function Report(e: Error): (r: seq<Event>)
    ensures r == [] <==> e == AbortError
    ensures e != AbortError ==> r == [Reported(e)]
  {
    if e == AbortError then [] else [Reported(e)]
  }

  /** One `onLog` call per record, in order, tagged with the command. */
  function LogEvents(command: Command, records: seq<CommandLog>): (events: seq<Event>)
    ensures |events| == |records|
    ensures forall i :: 0 <= i < |records| ==> events[i] == OnLog(command.sandboxId, command.cmdId, records[i])
  {
    if records == [] then [] else [OnLog(command.sandboxId, command.cmdId, records[0])] + LogEvents(command, records[1..])
  }

  /** The events of one session (lines 24-49): the records of the generator
      as `onLog` calls, then, when the generator returned, the status fetch
      and `onCompleted`; any error ends the session with a report. */
  function SessionEvents(command: Command, env: SessionEnv, parseJson: string -> Option<Json>): seq<Event> {
    var o := Session(env.fetch, env.reader, env.abortAt, parseJson);
    LogEvents(command, o.records) + Finish(command, o.end, GetCommand(env.status, parseJson))
  }

  /** What follows the records: a report of the generator's error, or,
      after a normal end, the completion or a report of the status error. */
  function Finish(command: Command, end: End, status: Result<CommandStatus, Error>): (r: seq<Event>)
    ensures |r| <= 1
  {
    match end
    case Threw(e) => Report(e)
    case Returned =>
      match status
      case Success(s) => [OnCompleted(Completion(command, s))]
      case Failure(e) => Report(e)
  }

  /** No two events are completions. */
  ghost predicate AtMostOneCompletion(events: seq<Event>) {
    forall i, j :: 0 <= i < j < |events| && events[i].OnCompleted? ==> !events[j].OnCompleted?
  }

  /** A session reports each record once, in order, then at most one
      completion, which is the last event. It completes exactly when the
      generator returned and the status was fetched and valid; the
      completion carries the merged record. Otherwise what follows the
      records is the report of the generator's error or of the status
      error, which is nothing for an `AbortError`. */
  lemma SessionEventsShape(command: Command, env: SessionEnv, parseJson: string -> Option<Json>)
    ensures var o := Session(env.fetch, env.reader, env.abortAt, parseJson);
      var events := SessionEvents(command, env, parseJson);
      && events[..|o.records|] == LogEvents(command, o.records)
      && (forall i :: 0 <= i < |events| && events[i].OnCompleted? ==> i == |events| - 1)
      && AtMostOneCompletion(events)
      && ((exists i :: 0 <= i < |events| && events[i].OnCompleted?) <==>
            o.end == Returned && GetCommand(env.status, parseJson).Success?)
      && (o.end == Returned && GetCommand(env.status, parseJson).Success? ==>
            events[|events| - 1] == OnCompleted(Completion(command, GetCommand(env.status, parseJson).value)))
      && (o.end.Threw? ==> events[|o.records|..] == Report(o.end.error))
      && (o.end == Returned && GetCommand(env.status, parseJson).Failure? ==>
            events[|o.records|..] == Report(GetCommand(env.status, parseJson).error))
  {
    var o := Session(env.fetch, env.reader, env.abortAt, parseJson);
    EventsShape(command, o.records, o.end, GetCommand(env.status, parseJson));
  }

  /** The shape of the events for any records and any ends. */
  lemma EventsShape(command: Command, records: seq<CommandLog>, end: End, status: Result<CommandStatus, Error>)
    ensures var events := LogEvents(command, records) + Finish(command, end, status);
      && events[..|records|] == LogEvents(command, records)
      && (forall i :: 0 <= i < |events| && events[i].OnCompleted? ==> i == |events| - 1)
      && AtMostOneCompletion(events)
      && ((exists i :: 0 <= i < |events| && events[i].OnCompleted?) <==> end == Returned && status.Success?)
      && (end == Returned && status.Success? ==>
            events[|events| - 1] == OnCompleted(Completion(command, status.value)))
      && (end.Threw? ==> events[|records|..] == Report(end.error))
      && (end == Returned && status.Failure? ==> events[|records|..] == Report(status.error))
  {
    var logs := LogEvents(command, records);
    var tail := Finish(command, end, status);
    assert (logs + tail)[..|records|] == logs;
    assert (logs + tail)[|records|..] == tail;
    NoCompletionInLogs(logs + tail, command, records);
    CompletionOnlyLast(logs + tail, |logs|);
    FinishCompletes(logs + tail, command, records, end, status);
  }

  /** The records' events hold no completion. */
  lemma NoCompletionInLogs(events: seq<Event>, command: Command, records: seq<CommandLog>)
    requires |records| <= |events| && events[..|records|] == LogEvents(command, records)
    ensures forall i :: 0 <= i < |records| ==> !events[i].OnCompleted?
  {
    forall i | 0 <= i < |records| ensures !events[i].OnCompleted? {
      assert events[i] == events[..|records|][i];
    }
  }

  /** After the records, there is a completion exactly when the generator
      returned and the status is valid. */
  lemma FinishCompletes(events: seq<Event>, command: Command, records: seq<CommandLog>, end: End,
                        status: Result<CommandStatus, Error>)
    requires events == LogEvents(command, records) + Finish(command, end, status)
    requires forall i :: 0 <= i < |records| ==> !events[i].OnCompleted?
    ensures (exists i :: 0 <= i < |events| && events[i].OnCompleted?) <==> end == Returned && status.Success?
    ensures end == Returned && status.Success? ==>
      events[|events| - 1] == OnCompleted(Completion(command, status.value))
  {
    var n := |records|;
    var tail := Finish(command, end, status);
    if end == Returned && status.Success? {
      assert events[n] == tail[0];
    } else {
      forall i | n <= i < |events| ensures !events[i].OnCompleted? {
        assert events[i] == tail[i - n];
      }
    }
  }

  /** When no event before position `n` is a completion and at most one
      follows, a completion can only be the last event, and there is at
      most one. */
  lemma CompletionOnlyLast(events: seq<Event>, n: nat)
    requires |events| <= n + 1
    requires forall i :: 0 <= i < n && i < |events| ==> !events[i].OnCompleted?
    ensures forall i :: 0 <= i < |events| && events[i].OnCompleted? ==> i == |events| - 1 && i == n
    ensures AtMostOneCompletion(events)
  {
  }

  /** A session that is never aborted reports, one for one, the records of
      the complete lines it received, whatever the chunking. */
  lemma NeverAbortedSessionLogs(command: Command, env: SessionEnv, parseJson: string -> Option<Json>)
    requires env.abortAt.None?
    ensures var r := Reference(env.fetch, env.reader, parseJson);
      var events := SessionEvents(command, env, parseJson);
      |r.records| <= |events| && events[..|r.records|] == LogEvents(command, r.records)
  {
    NeverAbortedIsReference(env.fetch, env.reader, parseJson);
    SessionEventsShape(command, env, parseJson);
  }

  /** An aborted session reports a prefix of the never-aborted session's
      records, and after a normal end it goes on as the source does: the
      status fetch and `onCompleted`. Nothing at lines 26-42 tests the
      signal, so an abort does not keep `onCompleted` from being called. A
      signal that fires during the first read, for one, rejects that read
      (line 109 then breaks): no records, and still a completion. */
  lemma AbortedSessionStillCompletes(command: Command, env: SessionEnv, parseJson: string -> Option<Json>)
    requires env.fetch.Responded?
    requires GetCommand(env.status, parseJson).Success?
    ensures var o := Session(env.fetch, env.reader, env.abortAt, parseJson);
      var full := Reference(env.fetch, env.reader, parseJson);
      o.records <= full.records &&
      (o.end == Returned ==>
        SessionEvents(command, env, parseJson) ==
          LogEvents(command, o.records) + [OnCompleted(Completion(command, GetCommand(env.status, parseJson).value))])
    ensures env.abortAt == Some(2) ==>
      SessionEvents(command, env, parseJson) ==
        [OnCompleted(Completion(command, GetCommand(env.status, parseJson).value))]
  {
    AbortCutsShort(env.fetch, env.reader, env.abortAt, parseJson);
  }

  /** A signal that has fired by the time the log request settles makes
      `fetch` reject with an `AbortError` (line 88), which the `catch`
      ignores (line 45): the session reports nothing at all, neither
      records nor a completion nor an error. */
  lemma AbortDuringFetchReportsNothing(command: Command, env: SessionEnv, parseJson: string -> Option<Json>)
    requires Aborted(env.abortAt, 1)
    ensures SessionEvents(command, env, parseJson) == []
  {
    assert LogEvents(command, []) == [];
  }

  /** One instance of the component: the ref guard `ref.current` (true once
      an iterator has been stored) and the events it has produced. */
  class CommandLogs {
    const command: Command
    var ref: bool
    var events: seq<Event>
    /** The number of iterators this instance has created. */
    ghost var sessions: nat

    ghost predicate Valid()
      reads this
    {
      && sessions <= 1
      && (ref <==> sessions == 1)
      && (!ref ==> events == [])
      && AtMostOneCompletion(events)
    }

    constructor (command: Command)
      ensures Valid()
      ensures this.command == command && !ref && events == []
    {
      this.command := command;
      ref := false;
      events := [];
      sessions := 0;
    }

    /** The effect of lines 15-53, run with the environment its session
        meets. The first run starts the session; any later run (a strict-mode
        re-run, say) finds the ref set and starts nothing. */
    method Effect(env: SessionEnv, parseJson: string -> Option<Json>)
      requires Valid()
      modifies this
      ensures Valid() && ref
      ensures old(ref) ==> events == old(events) && sessions == old(sessions)
      ensures !old(ref) ==> events == SessionEvents(command, env, parseJson) && sessions == 1
    {
      if ref {
        return;
      }
      ref := true;
      sessions := sessions + 1;
      var records, end := GetCommandLogs(env.fetch, env.reader, env.abortAt, parseJson);
      for i := 0 to |records|
        invariant ref && sessions == 1
        invariant events == LogEvents(command, records[..i])
      {
        LogEventsStep(command, records, i);
        events := events + [OnLog(command.sandboxId, command.cmdId, records[i])];
      }
      assert records[..|records|] == records;
      ghost var logs := events;
      match end
      case Threw(e) =>
        events := events + Report(e);
      case Returned =>
        match GetCommand(env.status, parseJson)
        case Success(s) =>
          events := events + [OnCompleted(Completion(command, s))];
        case Failure(e) =>
          events := events + Report(e);
      assert events == logs + Finish(command, end, GetCommand(env.status, parseJson));
      assert events == SessionEvents(command, env, parseJson);
      SessionEventsShape(command, env, parseJson);
      assert AtMostOneCompletion(events);
    }
  }

  /** One more record, one more `onLog` call at the end. */
  lemma LogEventsStep(command: Command, records: seq<CommandLog>, i: nat)
    requires i < |records|
    ensures LogEvents(command, records[..i + 1]) ==
      LogEvents(command, records[..i]) + [OnLog(command.sandboxId, command.cmdId, records[i])]
  {
    assert records[..i + 1] == records[..i] + [records[i]];
  }

  /** React strict mode on mount: the effect, its cleanup, then the effect
      again. The first run starts the only session the ref guard lets
      start, and that session suspends at `fetch`. The cleanup (line 51)
      aborts its controller while the request is pending, so the session
      runs with the signal fired at clock 1. The second run finds the ref
      set and starts nothing. The component reports nothing at all, whatever
      the network (`fetch`, `reader`, `status`) would have given. */
  method RunEffectTwice(command: Command, fetch: FetchOutcome, reader: seq<ReadOutcome>,
                        status: StatusResponse, second: SessionEnv, parseJson: string -> Option<Json>)
    returns (events: seq<Event>)
    ensures events == []
  {
    var view := new CommandLogs(command);
    // the first run, whose controller the cleanup aborts during the fetch
    var first := SessionEnv(fetch, reader, Some(1), status);
    view.Effect(first, parseJson);
    view.Effect(second, parseJson);
    AbortDuringFetchReportsNothing(command, first, parseJson);
    events := view.events;
  }

  // ---------------------------------------------------------------------
  // logContent (lines 62-73)

  /** The `data` of each log, in order. */
  function LogData(logs: seq<CommandLog>): (r: seq<string>)
    ensures |r| == |logs| && forall i :: 0 <= i < |logs| ==> r[i] == logs[i].data
  {
    if logs == [] then [] else [logs[0].data] + LogData(logs[1..])
  }

  /** `command.logs?.map((log) => log.data).join('') || ''` */
  function Body(logs: Option<seq<CommandLog>>): string {
    match logs
    case None => ""
    case Some(ls) => Join(LogData(ls), "")
  }

  /** The first line: the start time in brackets, then the command line. */
  function Header(command: Command, time: string): string {
    "[" + time + "] " + command.command + " " + Join(command.args, " ")
  }

  /** The text the component renders. `time` is the start time as
      `toLocaleTimeString` formats it. */
  function LogContent(command: Command, time: string): string {
    Header(command, time) + "\n" + Body(command.logs)
  }

  /** When the time, the command and its arguments hold no newline, the
      rendered text reads back as the header line followed by the log data:
      its first line is the header and the rest, joined, is the
      concatenated `data` of the logs (empty when there are none). */
  lemma LogContentReadsBack(command: Command, time: string)
    requires '\n' !in time && '\n' !in command.command
    requires forall i :: 0 <= i < |command.args| ==> '\n' !in command.args[i]
    ensures var lines := Split(LogContent(command, time), '\n');
      lines[0] == Header(command, time) && Join(lines[1..], "\n") == Body(command.logs)
    ensures command.logs.None? || command.logs == Some([]) ==> LogContent(command, time) == Header(command, time) + "\n"
  {
    JoinWithout(command.args, " ", '\n');
    var h := Header(command, time);
    assert '\n' !in h by {
      assert h == "[" + time + "] " + command.command + " " + Join(command.args, " ");
    }
    SplitFirstPiece(h, '\n', Body(command.logs));
    assert h + ['\n'] + Body(command.logs) == LogContent(command, time);
    JoinSplit(Body(command.logs), '\n');
    var lines := Split(LogContent(command, time), '\n');
    assert lines[1..] == Split(Body(command.logs), '\n');
  }

  /** Rendering is incremental: one more log record adds exactly its data
      at the end of the rendered text. */
  lemma {:induction false} LogContentAppend(command: Command, time: string, log: CommandLog)
    ensures var logs := command.logs.GetOr([]);
      LogContent(command.(logs := Some(logs + [log])), time) == LogContent(command, time) + log.data
  {
    var logs := command.logs.GetOr([]);
    assert LogData(logs + [log]) == LogData(logs) + [log.data];
    JoinAppend(LogData(logs), log.data, "");
    if logs == [] {
      assert Join(LogData(logs), "") == "";
    }
    assert Body(command.logs) == Join(LogData(logs), "");
  }
}
