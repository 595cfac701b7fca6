/** One chat session of the load generator: the token stream of each request, and the history that grows
    from turn to turn. */
module ChatSession {
  import opened Api

  // ---------- One request ----------

  datatype StreamLine =
    | Skipped                 // blank, or not a data line
    | Done                    // data: [DONE]
    | Chunk(text: string)     // a data line; an empty text carries no token
    | Broken(error: string)   // a data line that is no chunk, or a read that fails

  /** Times are clock readings in seconds; latencies are in milliseconds. */
  datatype Inference = Inference(ttft: real, tpot: real, totalTokens: nat, response: string)

  predicate Ends(line: StreamLine) { line.Done? || line.Broken? }

  /** How many lines are read before the stream ends, starting from line `i`. */
  function ReadFrom(stream: seq<StreamLine>, i: nat): (n: nat)
    requires i <= |stream|
    ensures i <= n <= |stream| && (n < |stream| ==> Ends(stream[n]))
    ensures forall j :: i <= j < n ==> !Ends(stream[j])
    decreases |stream| - i
  {
    if i == |stream| || Ends(stream[i]) then i else ReadFrom(stream, i + 1)
  }

  function UpToEnd(stream: seq<StreamLine>): nat { ReadFrom(stream, 0) }

  /** The exception that reading the stream raises, if it does not get to Done or to the end of the lines. */
  function StreamError(stream: seq<StreamLine>): Option<string> {
    var n := UpToEnd(stream);
    if n < |stream| && stream[n].Broken? then Some(stream[n].error) else None
  }

  predicate IsToken(line: StreamLine) { line.Chunk? && line.text != "" }

  /** The tokens among the first `n` lines, joined. */
  function Response(stream: seq<StreamLine>, n: nat): string
    requires n <= |stream|
  {
    if n == 0 then ""
    else Response(stream, n - 1) + (if IsToken(stream[n - 1]) then stream[n - 1].text else "")
  }

  function TokenCount(stream: seq<StreamLine>, n: nat): nat
    requires n <= |stream|
  {
    if n == 0 then 0 else TokenCount(stream, n - 1) + (if IsToken(stream[n - 1]) then 1 else 0)
  }

  /** The first token among the first `n` lines. */
  function FirstToken(stream: seq<StreamLine>, n: nat): (i: Option<nat>)
    requires n <= |stream|
    ensures match i
            case None => forall j :: 0 <= j < n ==> !IsToken(stream[j])
            case Some(k) => k < n && IsToken(stream[k]) && forall j :: 0 <= j < k ==> !IsToken(stream[j])
  {
    if n == 0 then None
    else
      var i := FirstToken(stream, n - 1);
      if i.None? && IsToken(stream[n - 1]) then Some(n - 1) else i
  }

  /** Python's `t or other` on a clock reading that may be missing. */
  function Or(t: Option<real>, other: real): real {
    if t.Some? && t.value != 0.0 then t.value else other
  }

  function DoneReading(stream: seq<StreamLine>, times: seq<real>): Option<real>
    requires |times| == |stream|
  {
    var n := UpToEnd(stream);
    if n < |stream| && stream[n].Done? then Some(times[n]) else None
  }

  function FirstTokenReading(stream: seq<StreamLine>, times: seq<real>, n: nat): Option<real>
    requires |times| == |stream| && n <= |stream|
  {
    var i := FirstToken(stream, n);
    if i.Some? then Some(times[i.value]) else None
  }

  function TimeOfDone(stream: seq<StreamLine>, times: seq<real>, end: real): real
    requires |times| == |stream|
  {
    Or(DoneReading(stream, times), end)
  }

  function TimeOfFirstToken(stream: seq<StreamLine>, times: seq<real>, end: real): real
    requires |times| == |stream|
  {
    Or(FirstTokenReading(stream, times, UpToEnd(stream)), TimeOfDone(stream, times, end))
  }

  /** The latencies in milliseconds, before rounding. */
  function FirstTokenLatency(sent: real, first: real): real { (first - sent) * 1000.0 }

  function PerTokenLatency(first: real, done: real, tokens: nat): real {
    if tokens > 1 then (done - first) / (tokens - 1) as real * 1000.0 else 0.0
  }

  /** How the platform rounds to one decimal. Nothing is assumed of it. */
  type Rounding = real -> real

  /** What a request returns, by the stream alone. */
  function InferenceOf(stream: seq<StreamLine>, sent: real, times: seq<real>, end: real, round: Rounding):
    Result<Inference, string>
    requires |times| == |stream|
  {
    if StreamError(stream).Some? then Err(StreamError(stream).value)
    else
      var n := UpToEnd(stream);
      var (first, done) := (TimeOfFirstToken(stream, times, end), TimeOfDone(stream, times, end));
      var tokens := TokenCount(stream, n);
      Ok(Inference(round(FirstTokenLatency(sent, first)), round(PerTokenLatency(first, done, tokens)),
                   tokens, Response(stream, n)))
  }

  /** Reads the stream up to [DONE], collecting tokens and the times of the first one and of the end. */
  method ReadStream(stream: seq<StreamLine>, times: seq<real>)
    returns (error: Option<string>, firstToken: Option<real>, done: Option<real>, totalTokens: nat,
             fullResponse: string)
    requires |times| == |stream|
    ensures error == StreamError(stream)
    ensures var n := UpToEnd(stream);
            && done == DoneReading(stream, times)
            && firstToken == FirstTokenReading(stream, times, n)
            && totalTokens == TokenCount(stream, n)
            && fullResponse == Response(stream, n)
  {
    error, firstToken, done, fullResponse := None, None, None, "";
    var tokenTimes: seq<real> := [];
    var i := 0;
    while i < |stream|
      invariant 0 <= i <= |stream| && error == None && done == None && UpToEnd(stream) == ReadFrom(stream, i)
      invariant |tokenTimes| == TokenCount(stream, i)
      invariant fullResponse == Response(stream, i)
      invariant firstToken == FirstTokenReading(stream, times, i)
    {
      if stream[i].Done? {
        done := Some(times[i]);
        break;
      }
      if stream[i].Broken? {
        error := Some(stream[i].error);
        break;
      }
      if IsToken(stream[i]) {
        if firstToken == None {
          firstToken := Some(times[i]);
        }
        tokenTimes := tokenTimes + [times[i]];
        fullResponse := fullResponse + stream[i].text;
      }
      i := i + 1;
    }
    assert i == UpToEnd(stream);
    totalTokens := |tokenTimes|;
  }

  method RunInference(stream: seq<StreamLine>, sent: real, times: seq<real>, end: real, round: Rounding)
    returns (r: Result<Inference, string>)
    requires |times| == |stream|
    ensures r == InferenceOf(stream, sent, times, end, round)
  {
    var error, firstToken, done, totalTokens, fullResponse := ReadStream(stream, times);
    if error.Some? {
      return Err(error.value);
    }
    var tDone := Or(done, end);
    var tFirstToken := Or(firstToken, tDone);
    var perToken := 0.0;
    if totalTokens > 1 {
      perToken := (tDone - tFirstToken) / (totalTokens - 1) as real * 1000.0;
    }
    return Ok(Inference(round((tFirstToken - sent) * 1000.0), round(perToken), totalTokens, fullResponse));
  }

  /** The texts of the chosen lines, joined. */
  ghost function Joined(stream: seq<StreamLine>, lines: seq<nat>): string
    requires forall k :: 0 <= k < |lines| ==> lines[k] < |stream| && stream[lines[k]].Chunk?
  {
    if lines == [] then "" else Joined(stream, lines[..|lines| - 1]) + stream[lines[|lines| - 1]].text
  }

  /** `lines` are, in order, the lines before `n` that carry text. */
  ghost predicate TextLines(stream: seq<StreamLine>, n: nat, lines: seq<nat>)
    requires n <= |stream|
  {
    && (forall k :: 0 <= k < |lines| ==> lines[k] < n && stream[lines[k]].Chunk? && stream[lines[k]].text != "")
    && (forall k, l :: 0 <= k < l < |lines| ==> lines[k] < lines[l])
    && (forall i {:trigger Chosen(lines, i)} :: 0 <= i < n && stream[i].Chunk? && stream[i].text != "" ==>
          Chosen(lines, i))
  }

  ghost predicate Chosen(lines: seq<nat>, i: nat) { i in lines }

  ghost function TokenLines(stream: seq<StreamLine>, n: nat): seq<nat>
    requires n <= |stream|
  {
    if n == 0 then [] else TokenLines(stream, n - 1) + (if IsToken(stream[n - 1]) then [n - 1] else [])
  }

  lemma {:induction false} TokensAreTextLines(stream: seq<StreamLine>, n: nat)
    requires n <= |stream|
    ensures TextLines(stream, n, TokenLines(stream, n))
    ensures TokenCount(stream, n) == |TokenLines(stream, n)|
    ensures Response(stream, n) == Joined(stream, TokenLines(stream, n))
  {
    if n > 0 {
      var before := TokenLines(stream, n - 1);
      TokensAreTextLines(stream, n - 1);
      NextLine(stream, n - 1, before);
      if IsToken(stream[n - 1]) {
        assert TokenLines(stream, n) == before + [n - 1];
      } else {
        assert TokenLines(stream, n) == before;
        assert Response(stream, n) == Response(stream, n - 1);
      }
    }
  }

  lemma NextLine(stream: seq<StreamLine>, n: nat, before: seq<nat>)
    requires n < |stream| && TextLines(stream, n, before)
    ensures var lines := before + [n];
            if IsToken(stream[n])
            then TextLines(stream, n + 1, lines) && Joined(stream, lines) == Joined(stream, before) + stream[n].text
            else TextLines(stream, n + 1, before)
  {
    if IsToken(stream[n]) {
      var lines := before + [n];
      assert lines[..|lines| - 1] == before && lines[|lines| - 1] == n;
      forall i | 0 <= i < n + 1 && stream[i].Chunk? && stream[i].text != ""
        ensures Chosen(lines, i)
      {
        assert i < n ==> Chosen(before, i);
      }
    }
  }

  lemma FirstTokenIsFirstLine(stream: seq<StreamLine>, n: nat, lines: seq<nat>)
    requires n <= |stream| && TextLines(stream, n, lines)
    ensures FirstToken(stream, n) == if lines == [] then None else Some(lines[0])
  {
    if FirstToken(stream, n).Some? {
      assert Chosen(lines, FirstToken(stream, n).value);
    }
  }

  /** What a request returns, line by line: `n` lines are read before the first end, `lines` of them carry text.
      It raises if that end is a broken line. Otherwise the tokens are counted and joined, the first-token latency
      runs from sending to the first of them, and the per-token latency is the mean over the others up to [DONE].
      A clock reading that is missing or zero is replaced as Python's `or` does. */
  lemma InferenceMeaning(stream: seq<StreamLine>, sent: real, times: seq<real>, end: real, round: Rounding)
    returns (n: nat, lines: seq<nat>)
    requires |times| == |stream|
    ensures n <= |stream| && (forall i :: 0 <= i < n ==> !stream[i].Done? && !stream[i].Broken?)
    ensures n < |stream| ==> stream[n].Done? || stream[n].Broken?
    ensures TextLines(stream, n, lines)
    ensures var r := InferenceOf(stream, sent, times, end, round);
            if n < |stream| && stream[n].Broken? then r == Err(stream[n].error)
            else
              var done := if n < |stream| && times[n] != 0.0 then times[n] else end;
              var first := if lines != [] && times[lines[0]] != 0.0 then times[lines[0]] else done;
              && r.Ok? && r.value.totalTokens == |lines| && r.value.response == Joined(stream, lines)
              && r.value.ttft == round((first - sent) * 1000.0)
              && r.value.tpot == round(if |lines| > 1 then (done - first) / (|lines| - 1) as real * 1000.0 else 0.0)
  {
    n := UpToEnd(stream);
    lines := TokenLines(stream, n);
    TokensAreTextLines(stream, n);
    FirstTokenIsFirstLine(stream, n, lines);
    InferenceFields(stream, sent, times, end, round, n, if lines == [] then None else Some(lines[0]));
  }

  lemma InferenceFields(stream: seq<StreamLine>, sent: real, times: seq<real>, end: real, round: Rounding,
                        n: nat, token: Option<nat>)
    requires |times| == |stream| && n == UpToEnd(stream) && token == FirstToken(stream, n)
    ensures var r := InferenceOf(stream, sent, times, end, round);
            if n < |stream| && stream[n].Broken? then r == Err(stream[n].error)
            else
              var done := if n < |stream| && times[n] != 0.0 then times[n] else end;
              var first := if token.Some? && times[token.value] != 0.0 then times[token.value] else done;
              && r.Ok? && r.value.totalTokens == TokenCount(stream, n) && r.value.response == Response(stream, n)
              && r.value.ttft == round((first - sent) * 1000.0)
              && r.value.tpot == round(PerTokenLatency(first, done, r.value.totalTokens))
  {}

  /** The rounding is off by at most `tolerance`, and does not go below zero from above. */
  ghost predicate RoundsWithin(round: Rounding, tolerance: real) {
    forall x :: -tolerance <= round(x) - x <= tolerance && (x >= 0.0 ==> round(x) >= 0.0)
  }

  /** On a nondecreasing clock no latency is negative, and the first-token latency plus the per-token latency
      of the other tokens is the whole duration up to the end, but for one rounding per token. */
  lemma LatenciesAddUp(stream: seq<StreamLine>, sent: real, times: seq<real>, end: real, round: Rounding,
                       tolerance: real)
    requires |times| == |stream| && StreamError(stream).None? && RoundsWithin(round, tolerance) && sent <= end
    requires forall i :: 0 <= i < |times| ==> sent <= times[i] <= end
    requires forall i, j :: 0 <= i <= j < |times| ==> times[i] <= times[j]
    ensures var (first, done) := (TimeOfFirstToken(stream, times, end), TimeOfDone(stream, times, end));
            var r := InferenceOf(stream, sent, times, end, round).value;
            var n := r.totalTokens;
            && sent <= first <= done <= end && r.ttft >= 0.0 && r.tpot >= 0.0
            && (n > 1 ==> var error := r.ttft + r.tpot * (n - 1) as real - (done - sent) * 1000.0;
                          -tolerance * n as real <= error <= tolerance * n as real)
  {
    var (first, done) := (TimeOfFirstToken(stream, times, end), TimeOfDone(stream, times, end));
    var n := TokenCount(stream, UpToEnd(stream));
    if n > 1 {
      var (x, y) := (FirstTokenLatency(sent, first), PerTokenLatency(first, done, n));
      DivideAndMultiply(done - first, (n - 1) as real);
      assert -tolerance <= round(x) - x <= tolerance && -tolerance <= round(y) - y <= tolerance;
      ErrorsAddUp(round(x) - x, round(y) - y, tolerance, (n - 1) as real);
      assert round(x) + round(y) * (n - 1) as real
          == (x + y * (n - 1) as real) + (round(x) - x) + (round(y) - y) * (n - 1) as real;
    }
  }

  lemma DivideAndMultiply(x: real, k: real)
    requires x >= 0.0 && k > 0.0
    ensures x / k >= 0.0 && x / k * 1000.0 * k == x * 1000.0
  {
    assert x / k * k == x;
  }

  lemma ErrorsAddUp(a: real, b: real, tolerance: real, k: real)
    requires -tolerance <= a <= tolerance && -tolerance <= b <= tolerance && k >= 0.0
    ensures -tolerance * (k + 1.0) <= a + b * k <= tolerance * (k + 1.0)
  {
    assert (tolerance - b) * k >= 0.0 && (b + tolerance) * k >= 0.0;
  }

  // ---------- One session ----------

  datatype Role = System | User | Assistant

  datatype Message = Message(role: Role, content: string)

  datatype SessionId = ChatId(n: nat) | InjectId(k: nat)

  datatype RowKind = Chat | Inject

  datatype Row = Row(session: SessionId, kind: RowKind, turn: nat, promptMessages: int,
                     ttft: real, tpot: real, totalTokens: nat)

  const SYSTEM_PROMPT := "You are a helpful assistant."

  /** Python's turns[:maxTurns], where a negative count drops from the end. */
  function Prompts(turns: seq<string>, maxTurns: int): seq<string> {
    if maxTurns >= |turns| then turns
    else if maxTurns >= 0 then turns[..maxTurns]
    else if |turns| + maxTurns >= 0 then turns[..|turns| + maxTurns]
    else []
  }

  /** The server: what turn `i` sent with these messages gets back, or the exception it raises. */
  type Server = (nat, seq<Message>) -> Result<Inference, string>

  /** The messages a request carries: every earlier exchange, then the new user text. */
  function Request(prompts: seq<string>, server: Server, i: nat): seq<Message>
    requires i < |prompts|
    decreases i, 1
  {
    History(prompts, server, i) + [Message(User, prompts[i])]
  }

  function History(prompts: seq<string>, server: Server, i: nat): seq<Message>
    requires i <= |prompts|
    decreases i, 0
  {
    if i == 0 then [Message(System, SYSTEM_PROMPT)]
    else Request(prompts, server, i - 1) + [Message(Assistant, Reply(prompts, server, i - 1))]
  }

  function Reply(prompts: seq<string>, server: Server, i: nat): string
    requires i < |prompts|
    decreases i, 2
  {
    var r := server(i, Request(prompts, server, i));
    if r.Ok? then r.value.response else ""
  }

  /** The row of turn `i`, which sent `request` and got `x`. */
  function RowOf(session: nat, i: nat, request: seq<Message>, x: Inference): Row {
    Row(ChatId(session), Chat, i + 1, |request|, x.ttft, x.tpot, x.totalTokens)
  }

  /** Exactly: from the front for a count, and all but that many for a negative one. */
  lemma PromptsArePrefix(turns: seq<string>, maxTurns: int)
    ensures Prompts(turns, maxTurns) <= turns
    ensures var n := |Prompts(turns, maxTurns)|;
            if maxTurns >= 0 then n <= maxTurns && n <= |turns| && (n == maxTurns || n == |turns|)
            else n == if -maxTurns <= |turns| then |turns| + maxTurns else 0
  {}

  /** Turn `i` was answered on exactly its request, and left row `row`, which counts two messages a turn. */
  ghost predicate Answered(session: nat, prompts: seq<string>, server: Server, i: nat, row: Row)
    requires i < |prompts|
  {
    var request := Request(prompts, server, i);
    && server(i, request).Ok? && row.session == ChatId(session) && row.kind == Chat
    && row.turn == i + 1 && row.promptMessages == 2 * (i + 1)
    && var x := server(i, request).value;
       row.ttft == x.ttft && row.tpot == x.tpot && row.totalTokens == x.totalTokens
  }

  /** Some turn raised `e` on its request, after turns that were all answered and not stopped. */
  ghost predicate RaisedAt(prompts: seq<string>, server: Server, stop: nat -> bool, e: string) {
    exists i: nat :: i < |prompts| && server(i, Request(prompts, server, i)) == Err(e)
                     && forall j: nat :: j < i ==> server(j, Request(prompts, server, j)).Ok? && !stop(j)
  }

  lemma OneTurn(session: nat, prompts: seq<string>, server: Server, i: nat, request: seq<Message>,
                after: seq<Message>, row: Row)
    requires i < |prompts| && request == History(prompts, server, i) + [Message(User, prompts[i])]
    requires server(i, request).Ok?
    requires after == request + [Message(Assistant, server(i, request).value.response)]
    requires row == RowOf(session, i, request, server(i, request).value)
    ensures Answered(session, prompts, server, i, row) && after == History(prompts, server, i + 1)
  {
    RequestsGrow(prompts, server, i);
    assert request == Request(prompts, server, i);
  }

  /** Runs the turns until they are used up, the stop event is seen set after a turn, or a request raises.
      The server is arbitrary, so its answers in the rows say exactly which messages were sent. */
  method RunChatSession(session: nat, turns: seq<string>, maxTurns: int, server: Server, stop: nat -> bool)
    returns (r: Result<seq<Row>, string>)
    ensures var prompts := Prompts(turns, maxTurns);
            match r
            case Ok(rows) =>
              && |rows| <= |prompts|
              && (forall i :: 0 <= i < |rows| ==> Answered(session, prompts, server, i, rows[i]))
              && (forall i :: 0 <= i < |rows| - 1 ==> !stop(i))
              && (|rows| < |prompts| ==> rows != [] && stop(|rows| - 1))
            case Err(e) => RaisedAt(prompts, server, stop, e)
  {
    var prompts := Prompts(turns, maxTurns);
    var messages := [Message(System, SYSTEM_PROMPT)];
    var results: seq<Row> := [];
    for i := 0 to |prompts|
      invariant messages == History(prompts, server, i) && |results| == i
      invariant forall j :: 0 <= j < i ==> Answered(session, prompts, server, j, results[j]) && !stop(j)
    {
      messages := messages + [Message(User, prompts[i])];
      ghost var request := messages;
      var outcome := server(i, messages);
      if outcome.Err? {
        assert request == Request(prompts, server, i);
        forall j: nat | j < i ensures server(j, Request(prompts, server, j)).Ok? && !stop(j) {
          assert Answered(session, prompts, server, j, results[j]);
        }
        assert server(i, Request(prompts, server, i)) == Err(outcome.error);
        return Err(outcome.error);
      }
      var x := outcome.value;
      messages := messages + [Message(Assistant, x.response)];
      results := results + [Row(ChatId(session), Chat, i + 1, |messages| - 1, x.ttft, x.tpot, x.totalTokens)];
      OneTurn(session, prompts, server, i, request, messages, results[i]);
      if stop(i) {
        return Ok(results);
      }
    }
    return Ok(results);
  }

  /** Each request is a strict prefix of the next, extended by exactly the reply it got and the next user
      text; and the request of turn t carries 2t messages. */
  lemma {:induction false} RequestsGrow(prompts: seq<string>, server: Server, i: nat)
    requires i < |prompts|
    ensures |Request(prompts, server, i)| == 2 * (i + 1)
    ensures i == 0 ==>
              Request(prompts, server, i)
              == [Message(System, "You are a helpful assistant."), Message(User, prompts[0])]
    ensures i + 1 < |prompts| ==>
              var answer := server(i, Request(prompts, server, i));
              Request(prompts, server, i + 1)
              == Request(prompts, server, i)
                 + [Message(Assistant, if answer.Ok? then answer.value.response else ""),
                    Message(User, prompts[i + 1])]
  {
    if i > 0 {
      RequestsGrow(prompts, server, i - 1);
    }
    if i + 1 < |prompts| {
      var reply := Message(Assistant, Reply(prompts, server, i));
      assert Request(prompts, server, i + 1)
          == (Request(prompts, server, i) + [reply]) + [Message(User, prompts[i + 1])];
    }
  }

  /** So every earlier request is a prefix of every later one: the server's cached prefix stays valid. */
  lemma {:induction false} EarlierRequestsArePrefixes(prompts: seq<string>, server: Server, i: nat, j: nat)
    requires i <= j < |prompts|
    ensures Request(prompts, server, i) <= Request(prompts, server, j)
    decreases j
  {
    if i < j {
      EarlierRequestsArePrefixes(prompts, server, i, j - 1);
      RequestsGrow(prompts, server, j - 1);
    }
  }
}
