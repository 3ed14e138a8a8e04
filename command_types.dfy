/** The records that flow through the command-log pipeline, and the two zod
    schemas that validate them: `logSchema` for one line of the log stream
    and `cmdSchema` for the status of a command. */
module CommandTypes {
  import opened Wrappers
  import opened Js

  /** `z.enum(['stdout', 'stderr'])` */
  datatype StreamName = Stdout | Stderr

  /** One parsed log record. */
  datatype CommandLog = CommandLog(data: string, stream: StreamName, timestamp: int)

  /** One remote execution, as the parent UI holds it. */
  datatype Command = Command(
    sandboxId: string,
    cmdId: string,
    command: string,
    args: seq<string>,
    startedAt: int,
    exitCode: Option<int>,
    logs: Option<seq<CommandLog>>)

  /** What `cmdSchema` accepts: the final status of a command. */
  datatype CommandStatus = CommandStatus(
    sandboxId: string,
    cmdId: string,
    startedAt: int,
    exitCode: Option<int>)

  function StreamText(s: StreamName): string {
    match s
    case Stdout => "stdout"
    case Stderr => "stderr"
  }

  /** The enum check: exactly the two stream names are accepted. */
  function ParseStreamName(j: Json): (r: Option<StreamName>)
    ensures r.Some? <==> j == JString("stdout") || j == JString("stderr")
    ensures r.Some? ==> j == JString(StreamText(r.value))
  {
    match j
    case JString(s) =>
      if s == "stdout" then Some(Stdout)
      else if s == "stderr" then Some(Stderr)
      else None
    case _ => None
  }

  /** The keys `logSchema` looks at; zod drops every other key. */
  const LogKeys: set<string> := {"data", "stream", "timestamp"}

  /** The keys `cmdSchema` requires; `exitCode` is optional. */
  const StatusKeys: set<string> := {"sandboxId", "cmdId", "startedAt"}

  /** `m` and `n` have the same entries for every key of `keys`. */
  predicate AgreeOn(m: map<string, Json>, n: map<string, Json>, keys: set<string>) {
    forall k :: k in keys ==> (k in m <==> k in n) && (k in m ==> m[k] == n[k])
  }

  /** The JSON object a log record is written as on the wire. */
  function LogToJson(log: CommandLog): Json {
    JObject(map[
      "data" := JString(log.data),
      "stream" := JString(StreamText(log.stream)),
      "timestamp" := JNumber(log.timestamp)])
  }

  /** `logSchema.parse(j)` */
  function LogSchema(j: Json): Result<CommandLog, Error> {
    match j
    case JObject(f) =>
      if "data" in f && f["data"].JString?
        && "stream" in f && ParseStreamName(f["stream"]).Some?
        && "timestamp" in f && f["timestamp"].JNumber?
      then Success(CommandLog(f["data"].s, ParseStreamName(f["stream"]).value, f["timestamp"].n))
      else Failure(SchemaError)
    case _ => Failure(SchemaError)
  }

  /** The schema accepts `j` as `log` exactly when `j` is an object whose
      three log keys are those of `log`'s JSON form, whatever other keys it
      holds; every other document is a schema error. */
  lemma LogSchemaExact(j: Json, log: CommandLog)
    ensures LogSchema(j) == Success(log) <==> j.JObject? && AgreeOn(j.fields, LogToJson(log).fields, LogKeys)
    ensures LogSchema(j).Failure? ==> LogSchema(j).error == SchemaError
  {
    var e := LogToJson(log).fields;
    if j.JObject? && AgreeOn(j.fields, e, LogKeys) {
      assert "data" in LogKeys && "stream" in LogKeys && "timestamp" in LogKeys;
      assert j.fields["data"] == JString(log.data);
      assert j.fields["stream"] == JString(StreamText(log.stream));
      assert j.fields["timestamp"] == JNumber(log.timestamp);
    }
  }

  /** Writing a record and validating it gives the record back. */
  lemma LogSchemaRoundTrip(log: CommandLog)
    ensures LogSchema(LogToJson(log)) == Success(log)
  {
    LogSchemaExact(LogToJson(log), log);
  }

  /** The JSON object the status endpoint answers with; an absent exit code
      is an absent key. */
  function StatusToJson(status: CommandStatus): Json {
    var required := map[
      "sandboxId" := JString(status.sandboxId),
      "cmdId" := JString(status.cmdId),
      "startedAt" := JNumber(status.startedAt)];
    match status.exitCode
    case None => JObject(required)
    case Some(code) => JObject(required["exitCode" := JNumber(code)])
  }

  /** `z.number().optional()` for the `exitCode` key: an absent key is
      `None`, a number is kept, anything else (including `null`) fails. */
  function OptionalNumber(f: map<string, Json>, key: string): Result<Option<int>, Error> {
    if key !in f then Success(None)
    else match f[key]
      case JNumber(n) => Success(Some(n))
      case _ => Failure(SchemaError)
  }

  /** `cmdSchema.parse(j)` */
  function CmdSchema(j: Json): Result<CommandStatus, Error> {
    match j
    case JObject(f) =>
      if "sandboxId" in f && f["sandboxId"].JString?
        && "cmdId" in f && f["cmdId"].JString?
        && "startedAt" in f && f["startedAt"].JNumber?
        && OptionalNumber(f, "exitCode").Success?
      then Success(CommandStatus(f["sandboxId"].s, f["cmdId"].s, f["startedAt"].n,
                                 OptionalNumber(f, "exitCode").value))
      else Failure(SchemaError)
    case _ => Failure(SchemaError)
  }

  /** The schema accepts `j` as `status` exactly when `j` is an object that
      agrees with `status`'s JSON form on the three required keys and on
      `exitCode` (absent when the status has none); other keys are ignored. */
  lemma CmdSchemaExact(j: Json, status: CommandStatus)
    ensures CmdSchema(j) == Success(status) <==>
      j.JObject? && AgreeOn(j.fields, StatusToJson(status).fields, StatusKeys + {"exitCode"})
    ensures CmdSchema(j).Failure? ==> CmdSchema(j).error == SchemaError
  {
    var e := StatusToJson(status).fields;
    var keys := StatusKeys + {"exitCode"};
    assert "sandboxId" in keys && "cmdId" in keys && "startedAt" in keys && "exitCode" in keys;
    assert e["sandboxId"] == JString(status.sandboxId);
    assert e["cmdId"] == JString(status.cmdId);
    assert e["startedAt"] == JNumber(status.startedAt);
    assert status.exitCode.None? <==> "exitCode" !in e;
    if CmdSchema(j) == Success(status) {
      var f := j.fields;
      forall k | k in keys
        ensures (k in f <==> k in e) && (k in f ==> f[k] == e[k])
      {
        if k == "exitCode" && status.exitCode.Some? {
          assert e[k] == JNumber(status.exitCode.value);
        }
      }
    }
  }

  /** Writing a status and validating it gives the status back. */
  lemma CmdSchemaRoundTrip(status: CommandStatus)
    ensures CmdSchema(StatusToJson(status)) == Success(status)
  {
    CmdSchemaExact(StatusToJson(status), status);
  }
}
