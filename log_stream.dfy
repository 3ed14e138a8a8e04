/** `getCommandLogs`: the async generator that reads the log endpoint's body
    chunk by chunk, splits it into lines and yields one validated record per
    non-empty line.

    The environment of one run is given up front:
    - `fetch`: whether `await fetch(...)` produced a response or threw;
    - `reader`: what each successive `await reader.read()` produced: a chunk
      of already decoded text, or a rejection; after the last entry the
      reader reports `done`;
    - `abortAt`: when the abort signal fires. The code runs on one thread, so
      the signal can only change while the generator is suspended. The
      suspensions are counted by a clock: the `fetch` await is suspension 1,
      and every read await and every `yield` adds one. `Some(n)` means that
      `signal.aborted` reads true at every test made after the clock has
      reached `n`; `None` means the signal never fires;
    - `parseJson`: `JSON.parse`, a partial function from a line to a JSON
      value (`None` stands for a thrown `SyntaxError`).

    A run ends by returning (`Returned`) or by throwing (`Threw`). */
module LogStream {
  import opened Wrappers
  import opened Js
  import opened Text
  import opened CommandTypes

  datatype FetchOutcome = Responded | FetchFailed(error: Error)

  datatype ReadOutcome = Chunk(text: string) | ReadFailed(error: Error)

  datatype End = Returned | Threw(error: Error)

  /** The records yielded, in order, and how the generator ended. */
  datatype Outcome = Outcome(records: seq<CommandLog>, end: End)

  /** `signal.aborted` when tested with the clock at `clock`. */
  predicate Aborted(abortAt: Option<nat>, clock: nat) {
    abortAt.Some? && abortAt.value <= clock
  }

  /** The newline-terminated lines of `text`: every piece of
      `text.split('\n')` but the last. */
  function CompleteLines(text: string): seq<string> {
    var parts := Split(text, '\n');
    parts[..|parts| - 1]
  }

  /** The unterminated tail of `text`: the last piece of `text.split('\n')`. */
  function Remainder(text: string): string {
    var parts := Split(text, '\n');
    parts[|parts| - 1]
  }

  /** `logSchema.parse(JSON.parse(line))` (lines 103-104). */
  function ParseLog(line: string, parseJson: string -> Option<Json>): Result<CommandLog, Error> {
    match parseJson(line)
    case None => Failure(SyntaxError)
    case Some(j) => LogSchema(j)
  }

  /** The records of a run of lines, up to the first line that fails. */
  datatype Decoded = Decoded(records: seq<CommandLog>, failure: Option<Error>)

  /** Reference decoding of lines: empty lines are skipped, every other line
      is parsed, and the first failure stops the decoding. */
  function DecodeLines(lines: seq<string>, parseJson: string -> Option<Json>): Decoded {
    if lines == [] then Decoded([], None)
    else if lines[0] == "" then DecodeLines(lines[1..], parseJson)
    else match ParseLog(lines[0], parseJson)
      case Failure(e) => Decoded([], Some(e))
      case Success(log) =>
        var rest := DecodeLines(lines[1..], parseJson);
        Decoded([log] + rest.records, rest.failure)
  }

  // ---------------------------------------------------------------------
  // The generator, step by step

  /** The `while (!signal?.aborted)` loop (lines 94-112), entered before the
      read numbered `k` with buffer `line`, having yielded `acc`. The signal
      also reaches the response body (line 88): a read still pending when it
      fires is rejected with an `AbortError`, and the `catch` finds the
      signal set and breaks (line 109). So a read during which the signal
      fires ends the run normally, whatever the reader would have given. */
  function ReadLoop(reader: seq<ReadOutcome>, k: nat, line: string, clock: nat,
                    abortAt: Option<nat>, parseJson: string -> Option<Json>,
                    acc: seq<CommandLog>): (r: Outcome)
    requires k <= |reader|
    ensures acc <= r.records
    decreases |reader| - k
  {
    if Aborted(abortAt, clock) then Outcome(acc, Returned)
    else if Aborted(abortAt, clock + 1) then Outcome(acc, Returned)
    else if k == |reader| then Outcome(acc, Returned)
    else match reader[k]
      case ReadFailed(e) => Outcome(acc, Threw(e))
      case Chunk(s) =>
        SegmentLoop(reader, k, Split(line + s, '\n'), 0, clock + 1, abortAt, parseJson, acc)
  }

  /** The `for` loop over the pieces `segs` of the buffer (lines 100-107),
      at piece `i`, inside the read numbered `k`. */
  function SegmentLoop(reader: seq<ReadOutcome>, k: nat, segs: seq<string>, i: nat, clock: nat,
                       abortAt: Option<nat>, parseJson: string -> Option<Json>,
                       acc: seq<CommandLog>): (r: Outcome)
    requires k < |reader| && i < |segs|
    ensures acc <= r.records
    decreases |reader| - k, |segs| - i
  {
    if i == |segs| - 1 then ReadLoop(reader, k + 1, segs[i], clock, abortAt, parseJson, acc)
    else if segs[i] == "" then SegmentLoop(reader, k, segs, i + 1, clock, abortAt, parseJson, acc)
    else match ParseLog(segs[i], parseJson)
      case Failure(e) =>
        Outcome(acc, if Aborted(abortAt, clock) then Returned else Threw(e))
      case Success(log) =>
        SegmentLoop(reader, k, segs, i + 1, clock + 1, abortAt, parseJson, acc + [log])
  }

  /** A whole run of the generator. `fetch` is given the signal (line 88):
      when it has fired by the time the request settles, the request is
      rejected with an `AbortError`, whatever the network would have done.
      A failed `fetch` (line 86) is outside the `try` and always
      propagates. */
  function Session(fetch: FetchOutcome, reader: seq<ReadOutcome>, abortAt: Option<nat>,
                   parseJson: string -> Option<Json>): Outcome {
    if Aborted(abortAt, 1) then Outcome([], Threw(AbortError))
    else match fetch
    case FetchFailed(e) => Outcome([], Threw(e))
    case Responded => ReadLoop(reader, 0, "", 1, abortAt, parseJson, [])
  }

  // ---------------------------------------------------------------------
  // The reference behaviour of a run that is never aborted

  /** The text of the chunks read before the first failed read. */
  function Received(reader: seq<ReadOutcome>): string {
    if reader == [] then ""
    else match reader[0]
      case ReadFailed(_) => ""
      case Chunk(s) => s + Received(reader[1..])
  }

  /** The first failed read, if any. */
  function FirstReadError(reader: seq<ReadOutcome>): Option<Error> {
    if reader == [] then None
    else match reader[0]
      case ReadFailed(e) => Some(e)
      case Chunk(_) => FirstReadError(reader[1..])
  }

  /** The run that starts with `line` in the buffer and then reads `reader`,
      stated on the received text alone: the records of its complete lines,
      then the first line failure, else the first read failure, else a
      normal return. */
  function Expected(line: string, reader: seq<ReadOutcome>, parseJson: string -> Option<Json>): Outcome {
    var d := DecodeLines(CompleteLines(line + Received(reader)), parseJson);
    match d.failure
    case Some(e) => Outcome(d.records, Threw(e))
    case None =>
      match FirstReadError(reader)
      case Some(e) => Outcome(d.records, Threw(e))
      case None => Outcome(d.records, Returned)
  }

  /** The reference for a whole run that is never aborted. */
  function Reference(fetch: FetchOutcome, reader: seq<ReadOutcome>, parseJson: string -> Option<Json>): Outcome {
    match fetch
    case FetchFailed(e) => Outcome([], Threw(e))
    case Responded => Expected("", reader, parseJson)
  }

  /** `o` is the run `full` cut short by the signal: it is `full` itself,
      or it yields a prefix of `full`'s records and then ends normally or
      with the `AbortError` of an aborted request. */
  predicate CutShort(o: Outcome, full: Outcome) {
    o == full || ((o.end == Returned || o.end == Threw(AbortError)) && o.records <= full.records)
  }

  // ---------------------------------------------------------------------
  // The imperative generator

  /** `getCommandLogs(sandboxId, cmdId, signal)`, as the consumer sees it:
      the records it yields, in order, and how it ends. */
  method GetCommandLogs(fetch: FetchOutcome, reader: seq<ReadOutcome>, abortAt: Option<nat>,
                        parseJson: string -> Option<Json>)
    returns (yielded: seq<CommandLog>, end: End)
    ensures Outcome(yielded, end) == Session(fetch, reader, abortAt, parseJson)
    ensures abortAt.None? ==> Outcome(yielded, end) == Reference(fetch, reader, parseJson)
    ensures CutShort(Outcome(yielded, end), Reference(fetch, reader, parseJson))
    ensures Aborted(abortAt, 1) ==> yielded == [] && end == Threw(AbortError)
  {
    NeverAbortedIsReference(fetch, reader, parseJson);
    AbortCutsShort(fetch, reader, abortAt, parseJson);
    if Aborted(abortAt, 1) {
      return [], Threw(AbortError);
    }
    if fetch.FetchFailed? {
      return [], Threw(fetch.error);
    }
    yielded, end := ReadStream(reader, abortAt, parseJson);
  }

  /** The `try` and the read loop of `getCommandLogs` (lines 89-112), once
      the response has arrived at clock 1. */
  method ReadStream(reader: seq<ReadOutcome>, abortAt: Option<nat>, parseJson: string -> Option<Json>)
    returns (yielded: seq<CommandLog>, end: End)
    ensures Outcome(yielded, end) == ReadLoop(reader, 0, "", 1, abortAt, parseJson, [])
  {
    ghost var result := ReadLoop(reader, 0, "", 1, abortAt, parseJson, []);
    yielded := [];
    var clock: nat := 1;
    var line := "";
    var k := 0;
    ghost var received := "";
    while !Aborted(abortAt, clock)
      invariant k <= |reader|
      invariant ReadLoop(reader, k, line, clock, abortAt, parseJson, yielded) == result
      invariant FirstReadError(reader[..k]).None?
      invariant received == Received(reader[..k])
      invariant line == Remainder(received)
      decreases |reader| - k
    {
      clock := clock + 1;
      if Aborted(abortAt, clock) {
        // the pending read is rejected by the abort, and line 109 breaks
        break;
      }
      if k == |reader| {
        // line 97: the reader is done
        break;
      }
      match reader[k]
      case ReadFailed(e) =>
        // line 110: the signal is not set, so the error is rethrown
        return yielded, Threw(e);
      case Chunk(s) =>
        ghost var before := line;
        line := line + s;
        var segs := Split(line, '\n');
        assert result == SegmentLoop(reader, k, segs, 0, clock, abortAt, parseJson, yielded);
        var stop;
        yielded, clock, stop := DecodePieces(reader, k, segs, clock, abortAt, parseJson, yielded);
        if stop.Some? {
          return yielded, stop.value;
        }
        assert result == ReadLoop(reader, k + 1, segs[|segs| - 1], clock, abortAt, parseJson, yielded);
        line := segs[|segs| - 1];
        ReceivedRemainderStep(reader, k, received, before);
        received := received + s;
        k := k + 1;
    }
    end := Returned;
  }

  /** The `for` loop over the pieces of the buffer (lines 100-106), with the
      `catch` of a failure inside it: either the run ends (`stop`) or it goes
      on with the last piece as the buffer. `reader` and `k` only name the
      read the pieces come from. */
  method DecodePieces(ghost reader: seq<ReadOutcome>, ghost k: nat, segs: seq<string>, clock: nat,
                      abortAt: Option<nat>, parseJson: string -> Option<Json>, acc: seq<CommandLog>)
    returns (yielded: seq<CommandLog>, clockAfter: nat, stop: Option<End>)
    requires k < |reader| && |segs| >= 1
    ensures stop.Some? ==> SegmentLoop(reader, k, segs, 0, clock, abortAt, parseJson, acc) == Outcome(yielded, stop.value)
    ensures stop.None? ==>
              SegmentLoop(reader, k, segs, 0, clock, abortAt, parseJson, acc) ==
              ReadLoop(reader, k + 1, segs[|segs| - 1], clockAfter, abortAt, parseJson, yielded)
  {
    ghost var result := SegmentLoop(reader, k, segs, 0, clock, abortAt, parseJson, acc);
    yielded, clockAfter := acc, clock;
    var i := 0;
    while i < |segs| - 1
      invariant 0 <= i <= |segs| - 1
      invariant SegmentLoop(reader, k, segs, i, clockAfter, abortAt, parseJson, yielded) == result
    {
      if segs[i] != "" {
        match ParseLog(segs[i], parseJson)
        case Failure(e) =>
          // line 109: break when the signal is set, else line 110 rethrows
          if Aborted(abortAt, clockAfter) {
            return yielded, clockAfter, Some(Returned);
          }
          return yielded, clockAfter, Some(Threw(e));
        case Success(log) =>
          yielded := yielded + [log];
          clockAfter := clockAfter + 1;
      }
      i := i + 1;
    }
    stop := None;
  }

  // ---------------------------------------------------------------------
  // Lemmas

  /** The buffer invariant: after the chunk numbered `k`, the buffer is the
      text after the last newline of everything read so far. */
  lemma ReceivedRemainderStep(reader: seq<ReadOutcome>, k: nat, received: string, line: string)
    requires k < |reader| && reader[k].Chunk?
    requires FirstReadError(reader[..k]).None?
    requires received == Received(reader[..k]) && line == Remainder(received)
    ensures FirstReadError(reader[..k + 1]).None?
    ensures received + reader[k].text == Received(reader[..k + 1])
    ensures Remainder(line + reader[k].text) == Remainder(received + reader[k].text)
  {
    ReceivedPrefixStep(reader, k);
    RemainderAppend(received, reader[k].text);
  }

  /** Reading one more chunk appends its text to what was received. */
  lemma ReceivedPrefixStep(reader: seq<ReadOutcome>, k: nat)
    requires k < |reader| && reader[k].Chunk?
    requires FirstReadError(reader[..k]).None?
    ensures FirstReadError(reader[..k + 1]).None?
    ensures Received(reader[..k + 1]) == Received(reader[..k]) + reader[k].text
  {
    assert reader[..k + 1] == reader[..k] + [Chunk(reader[k].text)];
    ReceivedAppend(reader[..k], reader[k].text);
  }

  /** Appending a chunk after reader that did not fail appends its text. */
  lemma {:induction false} ReceivedAppend(reader: seq<ReadOutcome>, s: string)
    requires FirstReadError(reader).None?
    ensures Received(reader + [Chunk(s)]) == Received(reader) + s
    ensures FirstReadError(reader + [Chunk(s)]).None?
  {
    if reader == [] {
      assert [Chunk(s)][1..] == [];
    } else {
      assert (reader + [Chunk(s)])[1..] == reader[1..] + [Chunk(s)];
      ReceivedAppend(reader[1..], s);
    }
  }

  /** The buffer never holds a newline, and it is exactly the text after
      the last newline of `text` (all of `text` when it has none). */
  lemma RemainderIsLastLine(text: string)
    ensures '\n' !in Remainder(text)
    ensures |Remainder(text)| <= |text|
    ensures text[|text| - |Remainder(text)|..] == Remainder(text)
    ensures |Remainder(text)| < |text| ==> text[|text| - |Remainder(text)| - 1] == '\n'
  {
    var parts := Split(text, '\n');
    assert Remainder(text) == parts[|parts| - 1];
    SplitPieces(text, '\n');
    assert '\n' !in parts[|parts| - 1];
    JoinSplit(text, '\n');
    LastPieceOfJoin(parts, text);
  }

  /** The last piece of a newline join is its text after the last newline. */
  lemma LastPieceOfJoin(parts: seq<string>, text: string)
    requires |parts| >= 1 && text == Join(parts, "\n")
    ensures var r := parts[|parts| - 1];
      && |r| <= |text|
      && text[|text| - |r|..] == r
      && (|r| < |text| ==> text[|text| - |r| - 1] == '\n')
  {
    var r := parts[|parts| - 1];
    if |parts| > 1 {
      var init := parts[..|parts| - 1];
      JoinAppend(init, r, "\n");
      assert init + [r] == parts;
      AfterLastSeparator(text, Join(init, "\n"), r);
    }
  }

  /** The text after a separator at the end of `text`. */
  lemma AfterLastSeparator(text: string, before: string, r: string)
    requires text == before + "\n" + r
    ensures |r| < |text|
    ensures text[|text| - |r|..] == r
    ensures text[|text| - |r| - 1] == '\n'
  {
  }

  /** Reading more text `s` with buffer `Remainder(text)` leaves the same
      buffer, and finds the same new complete lines, as reading `text + s`
      from the start. */
  lemma RemainderAppend(text: string, s: string)
    ensures Remainder(Remainder(text) + s) == Remainder(text + s)
    ensures CompleteLines(text + s) == CompleteLines(text) + CompleteLines(Remainder(text) + s)
  {
    var px := Split(text, '\n');
    var init := px[..|px| - 1];
    var last := px[|px| - 1];
    var tail := Split(last + s, '\n');
    var whole := Split(text + s, '\n');
    assert Remainder(text) == last && CompleteLines(text) == init;
    assert Remainder(last + s) == tail[|tail| - 1] && CompleteLines(last + s) == tail[..|tail| - 1];
    SplitAppend(text, s, '\n');
    assert whole == init + tail;
    InitLastOfConcat(init, tail);
    assert Remainder(text + s) == whole[|whole| - 1] == tail[|tail| - 1];
    assert CompleteLines(text + s) == whole[..|whole| - 1] == init + tail[..|tail| - 1];
  }

  /** Cutting the last element off a concatenation with a non-empty
      second part. */
  lemma InitLastOfConcat(a: seq<string>, b: seq<string>)
    requires |b| >= 1
    ensures (a + b)[..|a + b| - 1] == a + b[..|b| - 1]
    ensures (a + b)[|a + b| - 1] == b[|b| - 1]
  {
  }

  /** Decoding a concatenation of lines: the second part is decoded only
      when the first part did not fail. */
  lemma {:induction false} DecodeLinesAppend(a: seq<string>, b: seq<string>, parseJson: string -> Option<Json>)
    ensures DecodeLines(a + b, parseJson) == Then(DecodeLines(a, parseJson), DecodeLines(b, parseJson))
  {
    if a == [] {
      assert a + b == b;
    } else {
      var ab := a + b;
      assert ab[0] == a[0] && ab[1..] == a[1..] + b;
      DecodeLinesAppend(a[1..], b, parseJson);
      DecodeLinesHead(a, parseJson);
      DecodeLinesHead(ab, parseJson);
      StepThen(a[0], DecodeLines(a[1..], parseJson), DecodeLines(b, parseJson), parseJson);
    }
  }

  /** The decoding of `da`'s lines followed by `db`'s: `db` counts only
      when `da` did not fail. */
  function Then(da: Decoded, db: Decoded): Decoded {
    if da.failure.Some? then da else Decoded(da.records + db.records, db.failure)
  }

  /** Decoding one line in front of lines decoded as `rest`. */
  function DecodeStep(line: string, rest: Decoded, parseJson: string -> Option<Json>): Decoded {
    if line == "" then rest
    else match ParseLog(line, parseJson)
      case Failure(e) => Decoded([], Some(e))
      case Success(log) => Decoded([log] + rest.records, rest.failure)
  }

  lemma DecodeLinesHead(lines: seq<string>, parseJson: string -> Option<Json>)
    requires lines != []
    ensures DecodeLines(lines, parseJson) == DecodeStep(lines[0], DecodeLines(lines[1..], parseJson), parseJson)
  {
  }

  lemma StepThen(line: string, d: Decoded, db: Decoded, parseJson: string -> Option<Json>)
    ensures DecodeStep(line, Then(d, db), parseJson) == Then(DecodeStep(line, d, parseJson), db)
  {
    if line != "" && ParseLog(line, parseJson).Success? {
      assert [ParseLog(line, parseJson).value] + d.records + db.records ==
        [ParseLog(line, parseJson).value] + (d.records + db.records);
    }
  }

  /** The lines of `lines` that are not empty, in order. */
  function NonEmpty(lines: seq<string>): (r: seq<string>)
    ensures forall i :: 0 <= i < |r| ==> r[i] != ""
  {
    if lines == [] then []
    else if lines[0] == "" then NonEmpty(lines[1..])
    else [lines[0]] + NonEmpty(lines[1..])
  }

  /** Decoding `d` corresponds one to one, in order, to the lines `ne`:
      when all of them parse, there is one record per line; otherwise
      decoding fails with the failure of the first one that does not,
      after the records of those before it. */
  ghost predicate OneToOne(d: Decoded, ne: seq<string>, parseJson: string -> Option<Json>) {
    && (d.failure.None? <==> forall j :: 0 <= j < |ne| ==> ParseLog(ne[j], parseJson).Success?)
    && (d.failure.None? ==>
          |d.records| == |ne| && forall j :: 0 <= j < |ne| ==> ParseLog(ne[j], parseJson) == Success(d.records[j]))
    && (d.failure.Some? ==>
          && |d.records| < |ne|
          && ParseLog(ne[|d.records|], parseJson) == Failure(d.failure.value)
          && forall j :: 0 <= j < |d.records| ==> ParseLog(ne[j], parseJson) == Success(d.records[j]))
  }

  /** Decoding corresponds one to one, in order, to the non-empty lines;
      empty lines count for nothing. */
  lemma {:induction false} DecodeLinesOneToOne(lines: seq<string>, parseJson: string -> Option<Json>)
    ensures OneToOne(DecodeLines(lines, parseJson), NonEmpty(lines), parseJson)
  {
    if lines != [] {
      DecodeLinesOneToOne(lines[1..], parseJson);
      if lines[0] != "" {
        assert NonEmpty(lines) == [lines[0]] + NonEmpty(lines[1..]);
        match ParseLog(lines[0], parseJson)
        case Failure(e) =>
          assert ([lines[0]] + NonEmpty(lines[1..]))[0] == lines[0];
        case Success(log) =>
          OneToOneCons(log, lines[0], DecodeLines(lines[1..], parseJson), NonEmpty(lines[1..]), parseJson);
      }
    }
  }

  /** A line that parses, in front of lines decoded one to one. */
  lemma OneToOneCons(log: CommandLog, line: string, d: Decoded, ne: seq<string>,
                     parseJson: string -> Option<Json>)
    requires ParseLog(line, parseJson) == Success(log)
    requires OneToOne(d, ne, parseJson)
    ensures OneToOne(Decoded([log] + d.records, d.failure), [line] + ne, parseJson)
  {
    var ne' := [line] + ne;
    var rs := [log] + d.records;
    assert forall j :: 0 < j < |ne'| ==> ne'[j] == ne[j - 1];
    assert forall j :: 0 < j < |rs| ==> rs[j] == d.records[j - 1];
    if d.failure.None? {
      forall j | 0 <= j < |ne'| ensures ParseLog(ne'[j], parseJson).Success? {
        if j > 0 { assert ne'[j] == ne[j - 1]; }
      }
    } else {
      assert !ParseLog(ne[|d.records|], parseJson).Success?;
      assert ne'[|rs|] == ne[|d.records|];
    }
  }

  /** Records `acc` then the decoded lines `d`, then, unless one of them
      failed, the rest of the run `after`. */
  function AndThen(acc: seq<CommandLog>, d: Decoded, after: Outcome): Outcome {
    match d.failure
    case Some(e) => Outcome(acc + d.records, Threw(e))
    case None => Outcome(acc + d.records + after.records, after.end)
  }

  /** The loop over the pieces of one chunk never aborted: it yields the
      records of the remaining complete pieces and then goes on like the
      reference from the last piece. */
  lemma {:induction false} SegmentLoopNeverAborted(reader: seq<ReadOutcome>, k: nat, segs: seq<string>, i: nat,
                                                   clock: nat, parseJson: string -> Option<Json>,
                                                   acc: seq<CommandLog>)
    requires k < |reader| && i < |segs|
    requires '\n' !in segs[|segs| - 1]
    ensures SegmentLoop(reader, k, segs, i, clock, None, parseJson, acc) ==
      AndThen(acc, DecodeLines(segs[i..|segs| - 1], parseJson),
              Expected(segs[|segs| - 1], reader[k + 1..], parseJson))
    decreases |reader| - k, 0, |segs| - i
  {
    var after := Expected(segs[|segs| - 1], reader[k + 1..], parseJson);
    if i == |segs| - 1 {
      assert segs[i..|segs| - 1] == [];
      ReadLoopNeverAborted(reader, k + 1, segs[i], clock, parseJson, acc);
      assert acc + [] == acc;
    } else {
      var lines := segs[i..|segs| - 1];
      assert lines[0] == segs[i];
      assert lines[1..] == segs[i + 1..|segs| - 1];
      if segs[i] == "" {
        SegmentLoopNeverAborted(reader, k, segs, i + 1, clock, parseJson, acc);
      } else if ParseLog(segs[i], parseJson).Success? {
        var log := ParseLog(segs[i], parseJson).value;
        SegmentLoopNeverAborted(reader, k, segs, i + 1, clock + 1, parseJson, acc + [log]);
        var rest := DecodeLines(segs[i + 1..|segs| - 1], parseJson);
        assert DecodeLines(lines, parseJson) == Decoded([log] + rest.records, rest.failure);
        AndThenCons(acc, log, rest, after);
      } else {
        assert DecodeLines(lines, parseJson) == Decoded([], Some(ParseLog(segs[i], parseJson).error));
        assert acc + [] == acc;
      }
    }
  }

  /** The read loop never aborted behaves like the reference on the text
      still to be received. */
  lemma {:induction false} ReadLoopNeverAborted(reader: seq<ReadOutcome>, k: nat, line: string, clock: nat,
                                                parseJson: string -> Option<Json>, acc: seq<CommandLog>)
    requires k <= |reader|
    requires '\n' !in line
    ensures var e := Expected(line, reader[k..], parseJson);
      ReadLoop(reader, k, line, clock, None, parseJson, acc) == Outcome(acc + e.records, e.end)
    decreases |reader| - k, 2
  {
    SplitWithoutSeparator(line, '\n');
    assert CompleteLines(line) == [];
    if k == |reader| {
      assert line + Received([]) == line;
      assert acc + [] == acc;
    } else {
      assert reader[k..] == [reader[k]] + reader[k + 1..];
      match reader[k]
      case ReadFailed(e) =>
        assert line + Received(reader[k..]) == line;
        assert acc + [] == acc;
      case Chunk(s) =>
        ReadLoopNeverAbortedChunk(reader, k, line, clock, parseJson, acc);
    }
  }

  /** `ReadLoopNeverAborted` for a read that delivers a chunk. */
  lemma {:induction false} ReadLoopNeverAbortedChunk(reader: seq<ReadOutcome>, k: nat, line: string, clock: nat,
                                                     parseJson: string -> Option<Json>, acc: seq<CommandLog>)
    requires k < |reader| && reader[k].Chunk?
    requires '\n' !in line
    ensures var e := Expected(line, reader[k..], parseJson);
      ReadLoop(reader, k, line, clock, None, parseJson, acc) == Outcome(acc + e.records, e.end)
    decreases |reader| - k, 1
  {
    var s := reader[k].text;
    var segs := Split(line + s, '\n');
    var d := DecodeLines(CompleteLines(line + s), parseJson);
    var after := Expected(Remainder(line + s), reader[k + 1..], parseJson);
    assert ReadLoop(reader, k, line, clock, None, parseJson, acc) ==
      SegmentLoop(reader, k, segs, 0, clock + 1, None, parseJson, acc);
    RemainderIsLastLine(line + s);
    SegmentLoopNeverAborted(reader, k, segs, 0, clock + 1, parseJson, acc);
    assert segs[0..|segs| - 1] == CompleteLines(line + s);
    assert SegmentLoop(reader, k, segs, 0, clock + 1, None, parseJson, acc) == AndThen(acc, d, after);
    assert reader[k..] == [Chunk(s)] + reader[k + 1..];
    ExpectedAfterChunk(line, s, reader[k + 1..], parseJson);
    AndThenShift(acc, d, after);
  }

  /** A record yielded is a record decoded. */
  lemma AndThenCons(acc: seq<CommandLog>, log: CommandLog, rest: Decoded, after: Outcome)
    ensures AndThen(acc + [log], rest, after) == AndThen(acc, Decoded([log] + rest.records, rest.failure), after)
  {
    assert acc + [log] + rest.records == acc + ([log] + rest.records);
    assert acc + [log] + rest.records + after.records == acc + ([log] + rest.records) + after.records;
  }

  /** Records already yielded stay in front. */
  lemma AndThenShift(acc: seq<CommandLog>, d: Decoded, after: Outcome)
    ensures var e := AndThen([], d, after);
      AndThen(acc, d, after) == Outcome(acc + e.records, e.end)
  {
    assert [] + d.records == d.records;
    assert acc + d.records + after.records == acc + (d.records + after.records);
  }

  /** The reference, one chunk at a time: the complete lines of the chunk
      first, then the rest of the run from the new buffer. */
  lemma ExpectedAfterChunk(line: string, s: string, rest: seq<ReadOutcome>, parseJson: string -> Option<Json>)
    ensures Expected(line, [Chunk(s)] + rest, parseJson) ==
      AndThen([], DecodeLines(CompleteLines(line + s), parseJson), Expected(Remainder(line + s), rest, parseJson))
  {
    var reader := [Chunk(s)] + rest;
    assert reader[1..] == rest;
    var text := Received(rest);
    assert line + Received(reader) == (line + s) + text;
    assert FirstReadError(reader) == FirstReadError(rest);
    RemainderAppend(line + s, text);
    DecodeLinesAppend(CompleteLines(line + s), CompleteLines(Remainder(line + s) + text), parseJson);
    assert [] + DecodeLines(CompleteLines(line + s), parseJson).records == DecodeLines(CompleteLines(line + s), parseJson).records;
  }

  /** A run that is never aborted yields exactly what the reference says:
      its outcome depends on the received text, not on how it was cut into
      chunks. */
  lemma NeverAbortedIsReference(fetch: FetchOutcome, reader: seq<ReadOutcome>, parseJson: string -> Option<Json>)
    ensures Session(fetch, reader, None, parseJson) == Reference(fetch, reader, parseJson)
  {
    if fetch.Responded? {
      assert reader[0..] == reader;
      ReadLoopNeverAborted(reader, 0, "", 1, parseJson, []);
    }
  }

  /** Chunk-boundary independence: delivering `chunks` one by one yields the
      same records, and ends the same way, as delivering their concatenation
      as a single chunk. */
  lemma ChunkBoundaryIndependence(chunks: seq<string>, parseJson: string -> Option<Json>)
    ensures Session(Responded, ChunkReads(chunks), None, parseJson) ==
            Session(Responded, [Chunk(Join(chunks, ""))], None, parseJson)
  {
    NeverAbortedIsReference(Responded, ChunkReads(chunks), parseJson);
    NeverAbortedIsReference(Responded, [Chunk(Join(chunks, ""))], parseJson);
    ChunkReadsReceived(chunks);
    var whole := [Chunk(Join(chunks, ""))];
    assert whole[1..] == [];
    assert Received(whole) == Join(chunks, "") + "";
    assert Join(chunks, "") + "" == Join(chunks, "");
    assert FirstReadError(whole) == FirstReadError(whole[1..]);
    assert Expected("", whole, parseJson) == Expected("", ChunkReads(chunks), parseJson);
  }

  /** Successful reader of the given chunks. */
  function ChunkReads(chunks: seq<string>): (reader: seq<ReadOutcome>)
    ensures |reader| == |chunks|
    ensures forall i :: 0 <= i < |chunks| ==> reader[i] == Chunk(chunks[i])
  {
    if chunks == [] then [] else [Chunk(chunks[0])] + ChunkReads(chunks[1..])
  }

  lemma {:induction false} ChunkReadsReceived(chunks: seq<string>)
    ensures Received(ChunkReads(chunks)) == Join(chunks, "")
    ensures FirstReadError(ChunkReads(chunks)).None?
  {
    if chunks != [] {
      ChunkReadsReceived(chunks[1..]);
      assert ChunkReads(chunks)[1..] == ChunkReads(chunks[1..]);
      if |chunks| == 1 {
        assert chunks[1..] == [];
      }
    }
  }

  /** A never-aborted run yields one record per non-empty complete line of
      the received text, in order, whenever all of them parse; then it ends
      as the reader did. Empty lines are skipped. */
  lemma RecordsAreNonEmptyLines(reader: seq<ReadOutcome>, parseJson: string -> Option<Json>)
    ensures var o := Session(Responded, reader, None, parseJson);
      var lines := NonEmpty(CompleteLines(Received(reader)));
      (forall j :: 0 <= j < |lines| ==> ParseLog(lines[j], parseJson).Success?) ==>
        |o.records| == |lines| &&
        (forall j :: 0 <= j < |lines| ==> ParseLog(lines[j], parseJson) == Success(o.records[j])) &&
        o.end == if FirstReadError(reader).Some? then Threw(FirstReadError(reader).value) else Returned
  {
    var lines := CompleteLines(Received(reader));
    NeverAbortedIsReference(Responded, reader, parseJson);
    assert "" + Received(reader) == Received(reader);
    DecodeLinesOneToOne(lines, parseJson);
  }

  /** When the reader reports `done`, an unterminated tail is never parsed:
      a last chunk without a newline changes nothing. */
  lemma TrailingTextDiscarded(reader: seq<ReadOutcome>, tail: string, parseJson: string -> Option<Json>)
    requires FirstReadError(reader).None?
    requires '\n' !in tail
    ensures Session(Responded, reader + [Chunk(tail)], None, parseJson) == Session(Responded, reader, None, parseJson)
  {
    NeverAbortedIsReference(Responded, reader + [Chunk(tail)], parseJson);
    NeverAbortedIsReference(Responded, reader, parseJson);
    ReceivedAppend(reader, tail);
    var t := Received(reader);
    assert "" + (t + tail) == t + tail && "" + t == t;
    RemainderAppend(t, tail);
    RemainderIsLastLine(t);
    SplitWithoutSeparator(Remainder(t) + tail, '\n');
    assert CompleteLines(Remainder(t) + tail) == [];
    assert CompleteLines(t) + [] == CompleteLines(t);
  }

  /** An abort that is seen at line 94 or at line 109 ends the run early but
      normally; inside the `try` an abort never causes a throw and never
      changes a record. */
  lemma {:induction false} ReadLoopCutShort(reader: seq<ReadOutcome>, k: nat, line: string, clock: nat,
                                            abortAt: Option<nat>, parseJson: string -> Option<Json>,
                                            acc: seq<CommandLog>)
    requires k <= |reader|
    ensures CutShort(ReadLoop(reader, k, line, clock, abortAt, parseJson, acc),
                     ReadLoop(reader, k, line, clock, None, parseJson, acc))
    decreases |reader| - k
  {
    if !Aborted(abortAt, clock + 1) && k < |reader| && reader[k].Chunk? {
      SegmentLoopCutShort(reader, k, Split(line + reader[k].text, '\n'), 0, clock + 1, abortAt, parseJson, acc);
    }
  }

  lemma {:induction false} SegmentLoopCutShort(reader: seq<ReadOutcome>, k: nat, segs: seq<string>, i: nat,
                                               clock: nat, abortAt: Option<nat>,
                                               parseJson: string -> Option<Json>, acc: seq<CommandLog>)
    requires k < |reader| && i < |segs|
    ensures CutShort(SegmentLoop(reader, k, segs, i, clock, abortAt, parseJson, acc),
                     SegmentLoop(reader, k, segs, i, clock, None, parseJson, acc))
    decreases |reader| - k, |segs| - i
  {
    if i == |segs| - 1 {
      ReadLoopCutShort(reader, k + 1, segs[i], clock, abortAt, parseJson, acc);
    } else if segs[i] == "" {
      SegmentLoopCutShort(reader, k, segs, i + 1, clock, abortAt, parseJson, acc);
    } else if ParseLog(segs[i], parseJson).Success? {
      var log := ParseLog(segs[i], parseJson).value;
      SegmentLoopCutShort(reader, k, segs, i + 1, clock + 1, abortAt, parseJson, acc + [log]);
    }
  }

  /** Whenever the signal fires, the run is the never-aborted run cut short:
      the same records up to some point, then a normal return or the
      `AbortError` of the request. A run that throws any other error is
      exactly the never-aborted run. */
  lemma AbortCutsShort(fetch: FetchOutcome, reader: seq<ReadOutcome>, abortAt: Option<nat>,
                       parseJson: string -> Option<Json>)
    ensures CutShort(Session(fetch, reader, abortAt, parseJson), Reference(fetch, reader, parseJson))
  {
    NeverAbortedIsReference(fetch, reader, parseJson);
    if fetch.Responded? {
      ReadLoopCutShort(reader, 0, "", 1, abortAt, parseJson, []);
    }
  }

  /** The `for` loop (lines 101-106) never tests the signal. From piece `i`
      on, whatever the signal does, the complete pieces are decoded as when
      it never fires, one clock tick per record yielded. When none of them
      fails, every record is yielded and the run goes on from the last
      piece. When one fails, the run ends after the records before it, and
      the failure is rethrown exactly when the signal has not fired by then
      (line 109). */
  lemma {:induction false} SegmentLoopIgnoresSignal(reader: seq<ReadOutcome>, k: nat, segs: seq<string>, i: nat,
                                                    clock: nat, abortAt: Option<nat>,
                                                    parseJson: string -> Option<Json>, acc: seq<CommandLog>)
    requires k < |reader| && i < |segs|
    ensures var d := DecodeLines(segs[i..|segs| - 1], parseJson);
      d.failure.None? ==>
        SegmentLoop(reader, k, segs, i, clock, abortAt, parseJson, acc) ==
        ReadLoop(reader, k + 1, segs[|segs| - 1], clock + |d.records|, abortAt, parseJson, acc + d.records)
    ensures var d := DecodeLines(segs[i..|segs| - 1], parseJson);
      d.failure.Some? ==>
        SegmentLoop(reader, k, segs, i, clock, abortAt, parseJson, acc) ==
        Outcome(acc + d.records, if Aborted(abortAt, clock + |d.records|) then Returned else Threw(d.failure.value))
    decreases |segs| - i
  {
    if i == |segs| - 1 {
      assert segs[i..|segs| - 1] == [];
      assert acc + [] == acc;
    } else {
      DecodePiecesHead(segs, i, parseJson);
      var d := DecodeLines(segs[i..|segs| - 1], parseJson);
      var rest := DecodeLines(segs[i + 1..|segs| - 1], parseJson);
      if segs[i] == "" {
        assert d == rest;
        SegmentLoopIgnoresSignal(reader, k, segs, i + 1, clock, abortAt, parseJson, acc);
      } else if ParseLog(segs[i], parseJson).Success? {
        var log := ParseLog(segs[i], parseJson).value;
        assert d == Decoded([log] + rest.records, rest.failure);
        SegmentLoopIgnoresSignal(reader, k, segs, i + 1, clock + 1, abortAt, parseJson, acc + [log]);
        ConsRecords(acc, log, rest.records);
      } else {
        assert d == Decoded([], Some(ParseLog(segs[i], parseJson).error));
        assert acc + [] == acc;
      }
    }
  }

  /** Decoding the complete pieces from piece `i` on, one piece at a time. */
  lemma DecodePiecesHead(segs: seq<string>, i: nat, parseJson: string -> Option<Json>)
    requires i < |segs| - 1
    ensures DecodeLines(segs[i..|segs| - 1], parseJson) ==
      DecodeStep(segs[i], DecodeLines(segs[i + 1..|segs| - 1], parseJson), parseJson)
  {
    var lines := segs[i..|segs| - 1];
    assert lines[0] == segs[i] && lines[1..] == segs[i + 1..|segs| - 1];
    DecodeLinesHead(lines, parseJson);
  }

  /** One record more, in front of the rest. */
  lemma ConsRecords(acc: seq<CommandLog>, log: CommandLog, rest: seq<CommandLog>)
    ensures acc + [log] + rest == acc + ([log] + rest)
    ensures |[log] + rest| == 1 + |rest|
  {
  }

  /** A read that delivers a chunk, before the signal fires, starts the
      `for` loop over the pieces of the buffer. */
  lemma ReadLoopChunk(reader: seq<ReadOutcome>, k: nat, line: string, clock: nat, abortAt: Option<nat>,
                      parseJson: string -> Option<Json>, acc: seq<CommandLog>)
    requires k < |reader| && reader[k].Chunk? && !Aborted(abortAt, clock + 1)
    ensures ReadLoop(reader, k, line, clock, abortAt, parseJson, acc) ==
      SegmentLoop(reader, k, Split(line + reader[k].text, '\n'), 0, clock + 1, abortAt, parseJson, acc)
  {
  }

  /** The complete lines are the pieces from the first on, but the last. */
  lemma CompleteLinesAreInit(text: string)
    ensures var segs := Split(text, '\n');
      segs[0..|segs| - 1] == CompleteLines(text)
  {
  }

  /** From the first piece of a buffer `text` whose complete lines all
      decode, by `SegmentLoopIgnoresSignal`: their records are all yielded. */
  lemma {:induction false} ChunkPiecesDecode(reader: seq<ReadOutcome>, k: nat, text: string, clock: nat,
                                             abortAt: Option<nat>, parseJson: string -> Option<Json>,
                                             acc: seq<CommandLog>)
    requires k < |reader| && DecodeLines(CompleteLines(text), parseJson).failure.None?
    ensures acc + DecodeLines(CompleteLines(text), parseJson).records <=
      SegmentLoop(reader, k, Split(text, '\n'), 0, clock, abortAt, parseJson, acc).records
  {
    CompleteLinesAreInit(text);
    SegmentLoopIgnoresSignal(reader, k, Split(text, '\n'), 0, clock, abortAt, parseJson, acc);
  }

  /** `SegmentLoopIgnoresSignal` from the first piece of a buffer `text`
      one of whose complete lines fails. */
  lemma {:induction false} ChunkPiecesFail(reader: seq<ReadOutcome>, k: nat, text: string, clock: nat,
                                           abortAt: Option<nat>, parseJson: string -> Option<Json>,
                                           acc: seq<CommandLog>)
    requires k < |reader| && DecodeLines(CompleteLines(text), parseJson).failure.Some?
    ensures var d := DecodeLines(CompleteLines(text), parseJson);
      SegmentLoop(reader, k, Split(text, '\n'), 0, clock, abortAt, parseJson, acc) ==
      Outcome(acc + d.records, if Aborted(abortAt, clock + |d.records|) then Returned else Threw(d.failure.value))
  {
    CompleteLinesAreInit(text);
    SegmentLoopIgnoresSignal(reader, k, Split(text, '\n'), 0, clock, abortAt, parseJson, acc);
  }

  /** Once a chunk has been read, every record of its complete lines is
      yielded, whatever the signal does while they are consumed: the signal
      is not tested again before the next read. */
  lemma {:induction false} YieldsContinueAfterAbort(reader: seq<ReadOutcome>, k: nat, line: string, clock: nat, abortAt: Option<nat>,
                                 parseJson: string -> Option<Json>, acc: seq<CommandLog>)
    requires k < |reader| && reader[k].Chunk? && !Aborted(abortAt, clock + 1)
    ensures var d := DecodeLines(CompleteLines(line + reader[k].text), parseJson);
      d.failure.None? ==> acc + d.records <= ReadLoop(reader, k, line, clock, abortAt, parseJson, acc).records
  {
    if DecodeLines(CompleteLines(line + reader[k].text), parseJson).failure.None? {
      ReadLoopChunk(reader, k, line, clock, abortAt, parseJson, acc);
      ChunkPiecesDecode(reader, k, line + reader[k].text, clock + 1, abortAt, parseJson, acc);
    }
  }

  /** A line of a chunk that fails to parse ends the run after the records
      before it: its error is rethrown when the signal has not fired by
      then, and the run ends normally when it fired while those records
      were consumed (line 109). */
  lemma {:induction false} ErrorWhileAbortedIsSwallowed(reader: seq<ReadOutcome>, k: nat, line: string, clock: nat, abortAt: Option<nat>,
                                     parseJson: string -> Option<Json>, acc: seq<CommandLog>)
    requires k < |reader| && reader[k].Chunk? && !Aborted(abortAt, clock + 1)
    ensures var d := DecodeLines(CompleteLines(line + reader[k].text), parseJson);
      d.failure.Some? ==>
        ReadLoop(reader, k, line, clock, abortAt, parseJson, acc) ==
        Outcome(acc + d.records, if Aborted(abortAt, clock + 1 + |d.records|) then Returned else Threw(d.failure.value))
  {
    if DecodeLines(CompleteLines(line + reader[k].text), parseJson).failure.Some? {
      ReadLoopChunk(reader, k, line, clock, abortAt, parseJson, acc);
      ChunkPiecesFail(reader, k, line + reader[k].text, clock + 1, abortAt, parseJson, acc);
    }
  }
}
