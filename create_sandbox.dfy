/** The `createSandbox` tool: its input schema, the effective timeout it
    asks for, and the two progress writes around the creation of the
    sandbox. */
module CreateSandbox {
  import opened Wrappers
  import opened Js

  /** 45 minutes in milliseconds, the provider's maximum. */
  const MaxTimeoutMs: int := 45 * 60 * 1000
  /** The timeout used when the caller gives none: also 45 minutes. */
  const DefaultTimeoutMs: int := 45 * 60 * 1000

  /** `Math.min(timeout ?? DEFAULT_TIMEOUT_MS, MAX_TIMEOUT_MS)` */
  function EffectiveTimeout(timeout: Option<int>): int {
    var requested := timeout.GetOr(DefaultTimeoutMs);
    if requested <= MaxTimeoutMs then requested else MaxTimeoutMs
  }

  /** The default is 2,700,000 ms; the result never exceeds 2,700,000 ms; a
      request up to the maximum is passed through unchanged (there is no
      lower bound) and a larger one is clamped to exactly the maximum. */
  lemma EffectiveTimeoutBounds(timeout: Option<int>)
    ensures EffectiveTimeout(timeout) <= 2700000
    ensures timeout.None? ==> EffectiveTimeout(timeout) == 2700000
    ensures timeout.Some? && timeout.value <= 2700000 ==> EffectiveTimeout(timeout) == timeout.value
    ensures timeout.Some? && timeout.value > 2700000 ==> EffectiveTimeout(timeout) == 2700000
  {
  }

  /** Clamping is idempotent and monotonic in the request. */
  lemma EffectiveTimeoutStable(t: int, u: int)
    ensures EffectiveTimeout(Some(EffectiveTimeout(Some(t)))) == EffectiveTimeout(Some(t))
    ensures t <= u ==> EffectiveTimeout(Some(t)) <= EffectiveTimeout(Some(u))
  {
  }

  /** The tool's validated input. */
  datatype SandboxInput = SandboxInput(timeout: Option<int>, ports: Option<seq<int>>)

  /** The items of a JSON array, when all of them are numbers. */
  function Numbers(items: seq<Json>): (r: Option<seq<int>>)
    ensures r.Some? <==> forall i :: 0 <= i < |items| ==> items[i].JNumber?
    ensures r.Some? ==> |r.value| == |items| && forall i :: 0 <= i < |items| ==> items[i] == JNumber(r.value[i])
  {
    if items == [] then Some([])
    else if !items[0].JNumber? then None
    else match Numbers(items[1..])
      case None => None
      case Some(rest) => Some([items[0].n] + rest)
  }

  /** `z.array(z.number()).max(2).optional()` for the `ports` key. */
  function PortsField(f: map<string, Json>): Result<Option<seq<int>>, Error> {
    if "ports" !in f then Success(None)
    else match f["ports"]
      case JArray(items) =>
        (match Numbers(items)
         case Some(ports) => if |ports| <= 2 then Success(Some(ports)) else Failure(SchemaError)
         case None => Failure(SchemaError))
      case _ => Failure(SchemaError)
  }

  /** `z.number().optional()` for the `timeout` key. */
  function TimeoutField(f: map<string, Json>): Result<Option<int>, Error> {
    if "timeout" !in f then Success(None)
    else match f["timeout"]
      case JNumber(n) => Success(Some(n))
      case _ => Failure(SchemaError)
  }

  /** The input schema of lines 19-33. */
  function ParseInput(j: Json): Result<SandboxInput, Error> {
    match j
    case JObject(f) =>
      if TimeoutField(f).Success? && PortsField(f).Success?
      then Success(SandboxInput(TimeoutField(f).value, PortsField(f).value))
      else Failure(SchemaError)
    case _ => Failure(SchemaError)
  }

  /** The JSON object that gives `input`, with absent keys for absent fields. */
  function InputToJson(input: SandboxInput): Json {
    var withTimeout := match input.timeout
      case None => map[]
      case Some(t) => map["timeout" := JNumber(t)];
    match input.ports
    case None => JObject(withTimeout)
    case Some(ps) => JObject(withTimeout["ports" := JArray(seq(|ps|, i requires 0 <= i < |ps| => JNumber(ps[i])))])
  }

  /** Valid input has no ports or at most two; a list of three or more is
      rejected, whatever its items. */
  lemma ValidInputHasAtMostTwoPorts(j: Json)
    ensures ParseInput(j).Success? ==> ParseInput(j).value.ports.None? || |ParseInput(j).value.ports.value| <= 2
    ensures j.JObject? && "ports" in j.fields && j.fields["ports"].JArray? && |j.fields["ports"].items| > 2 ==>
      ParseInput(j).Failure?
  {
  }

  /** Every input the schema describes is accepted as itself. */
  lemma ParseInputRoundTrip(input: SandboxInput)
    requires input.ports.None? || |input.ports.value| <= 2
    ensures ParseInput(InputToJson(input)) == Success(input)
  {
    var j := InputToJson(input);
    if input.ports.Some? {
      var ps := input.ports.value;
      var items := j.fields["ports"].items;
      assert forall i :: 0 <= i < |items| ==> items[i] == JNumber(ps[i]);
      assert Numbers(items).value == ps;
    }
  }

  /** What the tool streams to the chat: `{ status: 'loading' }`, then
      `{ sandboxId, status: 'done' }`. */
  datatype CreateStatus = Loading | Done(sandboxId: string)

  /** One `writer.write` of a `data-create-sandbox` part, or the call to
      `Sandbox.create` with the timeout and ports it is given. */
  datatype ToolEvent =
    | Written(id: string, status: CreateStatus)
    | CreateCalled(timeout: int, ports: Option<seq<int>>)

  datatype Execution = Execution(events: seq<ToolEvent>, result: Result<string, Error>)

  /** The text around the sandbox id in the tool's result (line 66). */
  const CreatedPrefix: string := "Sandbox created with ID: "
  const CreatedSuffix: string := ". You can now upload files, run commands, and access services on the exposed ports."

  /** The tool's result for a sandbox created with id `sandboxId`. */
  function CreatedMessage(sandboxId: string): string {
    CreatedPrefix + sandboxId + CreatedSuffix
  }

  /** `execute` (lines 39-64). `create` stands for `Sandbox.create`: the id
      of the new sandbox, or the error it throws. */
  function Execute(input: SandboxInput, toolCallId: string,
                   create: (int, Option<seq<int>>) -> Result<string, Error>): Execution {
    var timeout := EffectiveTimeout(input.timeout);
    var before := [Written(toolCallId, Loading), CreateCalled(timeout, input.ports)];
    match create(timeout, input.ports)
    case Failure(e) => Execution(before, Failure(e))
    case Success(id) => Execution(before + [Written(toolCallId, Done(id))], Success(CreatedMessage(id)))
  }

  /** The statuses written in a run, in order: one per `Written` event and
      nothing for the call to `create`. */
  function Writes(events: seq<ToolEvent>): seq<CreateStatus> {
    if events == [] then []
    else match events[0]
      case Written(_, s) => [s] + Writes(events[1..])
      case CreateCalled(_, _) => Writes(events[1..])
  }

  /** `loading` is written before the sandbox is created and `done` with
      that sandbox's id after it, both under the tool call's id; the sandbox
      is asked for the effective timeout and the given ports. When creation
      throws, `done` is never written and the error propagates. */
  lemma ExecuteOrder(input: SandboxInput, toolCallId: string,
                     create: (int, Option<seq<int>>) -> Result<string, Error>)
    ensures var x := Execute(input, toolCallId, create);
      var ask := create(EffectiveTimeout(input.timeout), input.ports);
      && (forall e :: e in x.events && e.Written? ==> e.id == toolCallId)
      && x.events[0] == Written(toolCallId, Loading)
      && x.events[1] == CreateCalled(EffectiveTimeout(input.timeout), input.ports)
      && Writes(x.events) == [Loading] + (if ask.Success? then [Done(ask.value)] else [])
      && x.result == (if ask.Success? then Success(CreatedMessage(ask.value)) else Failure(ask.error))
  {
    var timeout := EffectiveTimeout(input.timeout);
    var loading := Written(toolCallId, Loading);
    var called := CreateCalled(timeout, input.ports);
    WritesCons(called, []);
    WritesCons(loading, [called]);
    assert Writes([loading, called]) == [Loading] by {
      assert [loading] + [called] == [loading, called];
    }
    match create(timeout, input.ports)
    case Failure(e) =>
    case Success(id) =>
      var done := Written(toolCallId, Done(id));
      WritesCons(done, []);
      WritesAppend([loading, called], [done]);
  }

  /** The writes of a run that starts with `e`. */
  lemma WritesCons(e: ToolEvent, rest: seq<ToolEvent>)
    ensures Writes([e] + rest) == (if e.Written? then [e.status] else []) + Writes(rest)
  {
    assert ([e] + rest)[1..] == rest;
  }

  /** The statuses of two runs one after the other are those of the first,
      then those of the second. */
  lemma {:induction false} WritesAppend(a: seq<ToolEvent>, b: seq<ToolEvent>)
    ensures Writes(a + b) == Writes(a) + Writes(b)
    decreases |a|
  {
    if a == [] {
      assert a + b == b;
    } else {
      assert (a + b)[0] == a[0] && (a + b)[1..] == a[1..] + b;
      WritesAppend(a[1..], b);
    }
  }

  /** A status is written exactly when some `Written` event of the run
      carries it. */
  lemma {:induction false} WritesMembers(events: seq<ToolEvent>)
    ensures forall s :: s in Writes(events) <==> exists e :: e in events && e.Written? && e.status == s
    decreases |events|
  {
    if events != [] {
      WritesMembers(events[1..]);
      assert forall e :: e in events <==> e == events[0] || e in events[1..];
    }
  }
}
