/** An agent's conversation as a value: what pushing, trimming and a whole turn make of it. */
module Conversation {
  import opened Wrappers

  datatype Role = System | User | Assistant | ToolOutput

  datatype Msg = Msg(role: Role, text: string)

  datatype ToolCall = ToolCall(id: Option<string>, name: string, arguments: Option<string>)

  // What a provider answers; ok when the call returned and the answer says so.
  datatype Reply = Reply(ok: bool, error: Option<string>, content: Option<string>, calls: seq<ToolCall>)

  datatype ToolOutcome = ToolOutcome(success: bool, output: Option<string>, error: Option<string>)

  datatype ToolResult = ToolResult(id: string, name: string, output: string, success: bool)

  // The provider, asked with a list of messages in round r, and the tools: number n run on its
  // arguments as call c of round r. Either may answer as it likes.
  datatype World = World(
    tools: seq<string>,
    chat: (seq<Msg>, nat) -> Reply,
    run: (nat, string, nat, nat) -> ToolOutcome)

  datatype Limits = Limits(maxIterations: nat, maxHistory: nat)

  // history is what the agent holds; log is everything pushed since the last reset.
  datatype Convo = Convo(history: seq<Msg>, log: seq<Msg>, hasSystem: bool)

  function GetOr(o: Option<string>, default: string): string {
    match o case Some(s) => s case None => default
  }

  // ---- Pushing and trimming ----

  function Push(c: Convo, m: Msg): Convo {
    c.(history := c.history + [m], log := c.log + [m])
  }

  function PushAll(c: Convo, ms: seq<Msg>): Convo {
    c.(history := c.history + ms, log := c.log + ms)
  }

  function Trim(c: Convo, max: nat): Convo {
    if max == 0 || |c.history| <= max then c else c.(history := c.history[|c.history| - max..])
  }

  predicate Suffix(s: seq<Msg>, t: seq<Msg>) {
    |s| <= |t| && t[|t| - |s|..] == s
  }

  lemma PushAllSuffix(c: Convo, ms: seq<Msg>)
    requires Suffix(c.history, c.log)
    ensures Suffix(PushAll(c, ms).history, PushAll(c, ms).log)
  {
  }

  lemma TrimSuffix(c: Convo, max: nat)
    requires Suffix(c.history, c.log)
    ensures Suffix(Trim(c, max).history, Trim(c, max).log)
  {
  }

  // ---- Tools ----

  // The first tool of a name; |tools| when there is none.
  function FindTool(tools: seq<string>, name: string): (n: nat)
    ensures n <= |tools|
    ensures n < |tools| ==> tools[n] == name
    ensures forall i :: 0 <= i < n ==> tools[i] != name
  {
    if tools == [] || tools[0] == name then 0
    else
      var n := 1 + FindTool(tools[1..], name);
      assert forall i :: 1 <= i < n ==> tools[i] == tools[1..][i - 1];
      n
  }

  lemma FindToolIs(tools: seq<string>, name: string, n: nat)
    requires n <= |tools|
    requires n < |tools| ==> tools[n] == name
    requires forall i :: 0 <= i < n ==> tools[i] != name
    ensures FindTool(tools, name) == n
  {
  }

  function ResultOf(w: World, call: ToolCall, round: nat, index: nat): ToolResult {
    var id, n := GetOr(call.id, ""), FindTool(w.tools, call.name);
    if n == |w.tools| then ToolResult(id, call.name, "Tool not found", false)
    else
      var out := w.run(n, GetOr(call.arguments, "{}"), round, index);
      ToolResult(id, call.name,
                 if out.success then GetOr(out.output, "") else GetOr(out.error, "Tool error"),
                 out.success)
  }

  function Dispatched(w: World, calls: seq<ToolCall>, round: nat): (r: seq<ToolResult>)
    ensures |r| == |calls|
  {
    seq(|calls|, i requires 0 <= i < |calls| => ResultOf(w, calls[i], round, i))
  }

  function ResultMsg(r: ToolResult): Msg {
    Msg(ToolOutput, "[" + r.name + "] " + r.output)
  }

  function ResultMsgs(rs: seq<ToolResult>): (ms: seq<Msg>)
    ensures |ms| == |rs|
  {
    seq(|rs|, i requires 0 <= i < |rs| => ResultMsg(rs[i]))
  }

  // ---- A turn ----

  // The messages one round with tool calls adds, oldest first.
  function RoundMsgs(w: World, reply: Reply, round: nat): seq<Msg> {
    (if reply.content.Some? then [Msg(Assistant, reply.content.value)] else [])
    + ResultMsgs(Dispatched(w, reply.calls, round))
  }

  function AfterRound(w: World, limits: Limits, c: Convo, reply: Reply, round: nat): Convo {
    Trim(PushAll(c, RoundMsgs(w, reply, round)), limits.maxHistory)
  }

  // How a turn ends; requests are the message lists the provider was asked with, in order.
  datatype TurnEnd = TurnEnd(convo: Convo, response: string, requests: seq<seq<Msg>>)

  function Rounds(w: World, limits: Limits, c: Convo, round: nat): TurnEnd
    decreases limits.maxIterations - round
  {
    if round >= limits.maxIterations then TurnEnd(c, "(no response)", [])
    else
      var reply := w.chat(c.history, round);
      if !reply.ok then
        TurnEnd(c, GetOr(reply.error, "Provider error"), [c.history])
      else if reply.calls == [] then
        var text := GetOr(reply.content, "");
        TurnEnd(Push(c, Msg(Assistant, text)), text, [c.history])
      else
        var rest := Rounds(w, limits, AfterRound(w, limits, c, reply, round), round + 1);
        rest.(requests := [c.history] + rest.requests)
  }

  // A turn that will end so has made these requests and stands at c before a round.
  ghost predicate OnCourse(w: World, limits: Limits, end: TurnEnd, made: seq<seq<Msg>>, c: Convo, round: nat) {
    var rest := Rounds(w, limits, c, round);
    end == TurnEnd(rest.convo, rest.response, made + rest.requests)
  }

  lemma CourseStep(w: World, limits: Limits, end: TurnEnd, made: seq<seq<Msg>>, c: Convo, round: nat)
    requires OnCourse(w, limits, end, made, c, round)
    ensures round >= limits.maxIterations ==> end == TurnEnd(c, "(no response)", made)
    ensures round < limits.maxIterations ==>
              var reply := w.chat(c.history, round);
              if !reply.ok then
                end == TurnEnd(c, GetOr(reply.error, "Provider error"), made + [c.history])
              else if reply.calls == [] then
                var text := GetOr(reply.content, "");
                end == TurnEnd(Push(c, Msg(Assistant, text)), text, made + [c.history])
              else OnCourse(w, limits, end, made + [c.history], AfterRound(w, limits, c, reply, round), round + 1)
  {
  }

  lemma PushAllTwice(c: Convo, a: seq<Msg>, b: seq<Msg>)
    ensures PushAll(PushAll(c, a), b) == PushAll(c, a + b)
  {
  }

  function Opened(c: Convo, prompt: string, input: string): Convo {
    var d := if c.hasSystem then c else Push(c, Msg(System, prompt)).(hasSystem := true);
    Push(d, Msg(User, input))
  }

  function Turn(w: World, limits: Limits, c: Convo, prompt: string, input: string): TurnEnd {
    Rounds(w, limits, Opened(c, prompt, input), 0)
  }

  const EMPTY := Convo([], [], false)

  // ---- What every turn keeps ----

  lemma {:induction false} RoundsKeepSuffix(w: World, limits: Limits, c: Convo, round: nat)
    requires Suffix(c.history, c.log)
    ensures var end := Rounds(w, limits, c, round);
            Suffix(end.convo.history, end.convo.log) && c.log <= end.convo.log
    decreases limits.maxIterations - round
  {
    if round < limits.maxIterations {
      var reply := w.chat(c.history, round);
      if reply.ok && reply.calls == [] {
        PushAllSuffix(c, [Msg(Assistant, GetOr(reply.content, ""))]);
      } else if reply.ok {
        PushAllSuffix(c, RoundMsgs(w, reply, round));
        TrimSuffix(PushAll(c, RoundMsgs(w, reply, round)), limits.maxHistory);
        RoundsKeepSuffix(w, limits, AfterRound(w, limits, c, reply, round), round + 1);
      }
    }
  }

  // The turns since a reset, one after the other.
  datatype TurnInput = TurnInput(world: World, prompt: string, input: string)

  function Turns(limits: Limits, turns: seq<TurnInput>): Convo {
    if turns == [] then EMPTY
    else
      var last := turns[|turns| - 1];
      Turn(last.world, limits, Turns(limits, turns[..|turns| - 1]), last.prompt, last.input).convo
  }

  // After any turns, with any provider and tools, the history is the end of all that was said
  // since the reset: nothing is reordered, invented or dropped from the middle.
  lemma {:induction false} HistoryIsSuffix(limits: Limits, turns: seq<TurnInput>)
    ensures Suffix(Turns(limits, turns).history, Turns(limits, turns).log)
  {
    if turns != [] {
      var last, c := turns[|turns| - 1], Turns(limits, turns[..|turns| - 1]);
      HistoryIsSuffix(limits, turns[..|turns| - 1]);
      var opening := if c.hasSystem then [] else [Msg(System, last.prompt)];
      PushAllSuffix(c, opening);
      PushAllSuffix(PushAll(c, opening), [Msg(User, last.input)]);
      assert PushAll(c, opening).history == if c.hasSystem then c.history else c.history + opening;
      assert PushAll(c, opening).log == if c.hasSystem then c.log else c.log + opening;
      RoundsKeepSuffix(last.world, limits, Opened(c, last.prompt, last.input), 0);
    }
  }

  // The provider is asked at most maxIterations times a turn, at least once unless that is 0; from
  // the second time on it sees a history within the maximum.
  lemma {:induction false} RequestsBounded(w: World, limits: Limits, c: Convo, round: nat)
    requires round <= limits.maxIterations
    ensures var requests := Rounds(w, limits, c, round).requests;
            && |requests| <= limits.maxIterations - round
            && (round < limits.maxIterations ==> requests != [] && requests[0] == c.history)
            && (limits.maxHistory != 0 ==> forall i :: 1 <= i < |requests| ==> |requests[i]| <= limits.maxHistory)
    decreases limits.maxIterations - round
  {
    if round < limits.maxIterations {
      var reply := w.chat(c.history, round);
      if reply.ok && reply.calls != [] {
        RequestsBounded(w, limits, AfterRound(w, limits, c, reply, round), round + 1);
      }
    }
  }

  // A message tells what the tool of a name put out.
  predicate Tells(m: Msg, name: string, output: string) {
    m == Msg(ToolOutput, "[" + name + "] " + output)
  }

  // What a round with tool calls adds, oldest first: the provider's own words, if any, and then one
  // message a call, with the tool's name and what it said.
  predicate Said(w: World, reply: Reply, round: nat, said: seq<Msg>) {
    var own := if reply.content.Some? then 1 else 0;
    && |said| == own + |reply.calls|
    && (reply.content.Some? ==> said[0] == Msg(Assistant, reply.content.value))
    && forall i :: 0 <= i < |reply.calls| ==>
         Tells(said[own + i], reply.calls[i].name, ResultOf(w, reply.calls[i], round, i).output)
  }

  lemma SaidAt(w: World, reply: Reply, round: nat, i: nat)
    requires i < |reply.calls|
    ensures var said, own := RoundMsgs(w, reply, round), if reply.content.Some? then 1 else 0;
            && |said| == own + |reply.calls|
            && Tells(said[own + i], reply.calls[i].name, ResultOf(w, reply.calls[i], round, i).output)
  {
    var own := if reply.content.Some? then 1 else 0;
    var results := Dispatched(w, reply.calls, round);
    assert results[i] == ResultOf(w, reply.calls[i], round, i);
    assert RoundMsgs(w, reply, round)[own + i] == ResultMsgs(results)[i] == ResultMsg(results[i]);
  }

  lemma RoundSays(w: World, reply: Reply, round: nat)
    ensures Said(w, reply, round, RoundMsgs(w, reply, round))
  {
    var own := if reply.content.Some? then 1 else 0;
    forall i | 0 <= i < |reply.calls|
      ensures Tells(RoundMsgs(w, reply, round)[own + i], reply.calls[i].name,
                    ResultOf(w, reply.calls[i], round, i).output)
    {
      SaidAt(w, reply, round, i);
    }
  }

  // The provider answered a request with tool calls, and next is the request with what the round
  // added, the oldest messages over the maximum cut off.
  predicate Follows(w: World, limits: Limits, request: seq<Msg>, next: seq<Msg>, round: nat) {
    var reply := w.chat(request, round);
    var all := request + RoundMsgs(w, reply, round);
    && reply.ok && reply.calls != []
    && Said(w, reply, round, RoundMsgs(w, reply, round))
    && next == if limits.maxHistory == 0 || |all| <= limits.maxHistory then all else all[|all| - limits.maxHistory..]
  }

  lemma RoundFollows(w: World, limits: Limits, c: Convo, round: nat)
    requires w.chat(c.history, round).ok && w.chat(c.history, round).calls != []
    ensures Follows(w, limits, c.history, AfterRound(w, limits, c, w.chat(c.history, round), round).history, round)
  {
    RoundSays(w, w.chat(c.history, round), round);
  }

  // A turn that asks twice has gone through a tool round in between.
  lemma SecondRequest(w: World, limits: Limits, c: Convo, round: nat)
    requires |Rounds(w, limits, c, round).requests| > 1
    ensures var reply := w.chat(c.history, round);
            var next := AfterRound(w, limits, c, reply, round);
            && reply.ok && reply.calls != []
            && var rest := Rounds(w, limits, next, round + 1);
            && Rounds(w, limits, c, round) == rest.(requests := [c.history] + rest.requests)
            && Rounds(w, limits, c, round).requests[1] == next.history
  {
  }

  // Each request but the first is the one before with what its round added.
  ghost predicate Chain(w: World, limits: Limits, requests: seq<seq<Msg>>, round: nat)
    decreases |requests|
  {
    |requests| > 1 ==>
      Follows(w, limits, requests[0], requests[1], round) && Chain(w, limits, requests[1..], round + 1)
  }

  // In a turn they are.
  lemma {:induction false} RequestsFollow(w: World, limits: Limits, c: Convo, round: nat)
    ensures Chain(w, limits, Rounds(w, limits, c, round).requests, round)
    decreases limits.maxIterations - round
  {
    var requests := Rounds(w, limits, c, round).requests;
    if |requests| > 1 {
      SecondRequest(w, limits, c, round);
      RoundFollows(w, limits, c, round);
      var next := AfterRound(w, limits, c, w.chat(c.history, round), round);
      RequestsFollow(w, limits, next, round + 1);
      assert requests[1..] == Rounds(w, limits, next, round + 1).requests;
    }
  }

  // The first request of a turn is what the agent held, with the system prompt if it has not been
  // said since the reset, and the user's words.
  lemma FirstRequest(w: World, limits: Limits, c: Convo, prompt: string, input: string)
    requires limits.maxIterations > 0
    ensures var requests := Turn(w, limits, c, prompt, input).requests;
            requests != [] && requests[0] ==
            c.history + (if c.hasSystem then [] else [Msg(System, prompt)]) + [Msg(User, input)]
  {
  }

  // How a turn ended, told from the provider's answer to the last request.
  predicate Ended(w: World, limits: Limits, end: TurnEnd, round: nat) {
    end.requests != [] ==>
      var reply := w.chat(end.requests[|end.requests| - 1], round + |end.requests| - 1);
      var last, history := end.requests[|end.requests| - 1], end.convo.history;
      if !reply.ok then
        end.response == GetOr(reply.error, "Provider error") && history == last
      else if reply.calls == [] then
        end.response == GetOr(reply.content, "") && history == last + [Msg(Assistant, end.response)]
      else
        && end.response == "(no response)" && round + |end.requests| == limits.maxIterations
        && Follows(w, limits, last, history, round + |end.requests| - 1)
  }

  lemma EndedLater(w: World, limits: Limits, first: seq<Msg>, rest: TurnEnd, round: nat)
    requires rest.requests != [] && Ended(w, limits, rest, round + 1)
    ensures Ended(w, limits, rest.(requests := [first] + rest.requests), round)
  {
    assert ([first] + rest.requests)[|rest.requests|] == rest.requests[|rest.requests| - 1];
  }

  lemma EndsAtOnce(w: World, limits: Limits, c: Convo, round: nat)
    requires |Rounds(w, limits, c, round).requests| == 1
    ensures Ended(w, limits, Rounds(w, limits, c, round), round)
  {
    var reply := w.chat(c.history, round);
    if reply.ok && reply.calls != [] {
      assert round + 1 >= limits.maxIterations;
      RoundFollows(w, limits, c, round);
    }
  }

  // A turn ends with the provider's error, which leaves the history as it was asked with, with its
  // plain answer, which is then the newest message, or with the iterations used up by tool rounds.
  lemma {:induction false} TurnEnds(w: World, limits: Limits, c: Convo, round: nat)
    ensures Ended(w, limits, Rounds(w, limits, c, round), round)
    decreases limits.maxIterations - round
  {
    var requests := Rounds(w, limits, c, round).requests;
    if |requests| == 1 {
      EndsAtOnce(w, limits, c, round);
    } else if |requests| > 1 {
      SecondRequest(w, limits, c, round);
      var next := AfterRound(w, limits, c, w.chat(c.history, round), round);
      TurnEnds(w, limits, next, round + 1);
      EndedLater(w, limits, c.history, Rounds(w, limits, next, round + 1), round);
    }
  }

  // A turn with a tool round leaves the maximum exceeded by the final answer at most.
  lemma ToolTurnBounded(w: World, limits: Limits, c: Convo, round: nat)
    requires round < limits.maxIterations && limits.maxHistory != 0
    requires w.chat(c.history, round).ok && w.chat(c.history, round).calls != []
    ensures |Rounds(w, limits, c, round).convo.history| <= limits.maxHistory + 1
  {
    var reply := w.chat(c.history, round);
    RoundsFromShort(w, limits, AfterRound(w, limits, c, reply, round), round + 1);
  }

  lemma {:induction false} RoundsFromShort(w: World, limits: Limits, c: Convo, round: nat)
    requires |c.history| <= limits.maxHistory != 0
    ensures |Rounds(w, limits, c, round).convo.history| <= limits.maxHistory + 1
    decreases limits.maxIterations - round
  {
    if round < limits.maxIterations {
      var reply := w.chat(c.history, round);
      if reply.ok && reply.calls != [] {
        RoundsFromShort(w, limits, AfterRound(w, limits, c, reply, round), round + 1);
      }
    }
  }

  // What the last request and the answer to it say about the maximum: an error adds nothing to what
  // was asked with, a plain answer adds itself, and what a tool round adds is trimmed.
  predicate LeavesRoom(w: World, limits: Limits, c: Convo, requests: seq<seq<Msg>>, round: nat) {
    if requests == [] then |c.history| <= limits.maxHistory
    else
      var last := requests[|requests| - 1];
      var reply := w.chat(last, round + |requests| - 1);
      if !reply.ok then |last| <= limits.maxHistory
      else if reply.calls == [] then |last| < limits.maxHistory
      else true
  }

  // A turn leaves the history within its maximum exactly when its last request left room for what
  // the answer to it added. Only a tool round trims.
  lemma {:induction false} WithinMaximumExactly(w: World, limits: Limits, c: Convo, round: nat)
    requires limits.maxHistory != 0
    ensures var end := Rounds(w, limits, c, round);
            |end.convo.history| <= limits.maxHistory <==> LeavesRoom(w, limits, c, end.requests, round)
    decreases limits.maxIterations - round
  {
    if round < limits.maxIterations {
      var reply := w.chat(c.history, round);
      if reply.ok && reply.calls != [] {
        var next := AfterRound(w, limits, c, reply, round);
        var rest := Rounds(w, limits, next, round + 1);
        WithinMaximumExactly(w, limits, next, round + 1);
        RoomLater(w, limits, c, next, rest.requests, round);
      }
    }
  }

  lemma RoomLater(w: World, limits: Limits, c: Convo, next: Convo, requests: seq<seq<Msg>>, round: nat)
    requires requests == [] ==> |next.history| <= limits.maxHistory
    requires w.chat(c.history, round).ok && w.chat(c.history, round).calls != []
    ensures LeavesRoom(w, limits, c, [c.history] + requests, round) <==>
            LeavesRoom(w, limits, next, requests, round + 1)
  {
    if requests != [] {
      assert ([c.history] + requests)[|requests|] == requests[|requests| - 1];
    }
  }

  // A round answers its calls one by one, in order, each by the first tool of its name and by
  // nothing else; these answers are the newest messages unless there are more than fit.
  lemma {:induction false} RoundAnswersCalls(w: World, limits: Limits, c: Convo, reply: Reply, round: nat, i: nat)
    requires limits.maxHistory == 0 || |reply.calls| <= limits.maxHistory
    requires i < |reply.calls|
    ensures var h := AfterRound(w, limits, c, reply, round).history;
            && |h| >= |reply.calls| - i
            && Tells(h[|h| - (|reply.calls| - i)], reply.calls[i].name, ResultOf(w, reply.calls[i], round, i).output)
  {
    var own := if reply.content.Some? then 1 else 0;
    SaidAt(w, reply, round, i);
    NewestKept(c, RoundMsgs(w, reply, round), limits.maxHistory, own + i);
  }

  // Trimming leaves the newest messages in their places from the end.
  lemma {:induction false} NewestKept(c: Convo, said: seq<Msg>, max: nat, j: nat)
    requires j < |said| && (max == 0 || |said| - j <= max)
    ensures var h, n := Trim(PushAll(c, said), max).history, |said| - j;
            |h| >= n && h[|h| - n] == said[j]
  {
    var all, h, n := c.history + said, Trim(PushAll(c, said), max).history, |said| - j;
    assert all[|all| - n] == said[j];
    assert h == all[|all| - |h|..];
  }

  // A result reports what a tool did: its output if it succeeded, otherwise its error.
  predicate Reports(r: ToolResult, out: ToolOutcome) {
    && r.success == out.success
    && (out.success ==> r.output == match out.output case Some(s) => s case None => "")
    && (!out.success ==> r.output == match out.error case Some(s) => s case None => "Tool error")
  }

  // A call is answered by the first tool of its name, or told that there is none; the result
  // carries the call's own id and name, and reports what that tool did.
  lemma ResultExactly(w: World, call: ToolCall, round: nat, index: nat)
    ensures var r := ResultOf(w, call, round, index);
            && r.id == GetOr(call.id, "") && r.name == call.name
            && (call.name !in w.tools ==> !r.success && r.output == "Tool not found")
            && (call.name in w.tools ==>
                  exists n: nat :: n < |w.tools| && w.tools[n] == call.name && call.name !in w.tools[..n]
                                   && Reports(r, w.run(n, GetOr(call.arguments, "{}"), round, index)))
  {
  }

  // ---- The system prompt, and the maximum ----

  ghost predicate NoSystem(ms: seq<Msg>) {
    forall m :: m in ms ==> m.role != System
  }

  // The system prompt is the first message, and no other message is one.
  ghost predicate PromptFirst(ms: seq<Msg>) {
    ms != [] && ms[0].role == System && NoSystem(ms[1..])
  }

  // A tool round drops the oldest message exactly when what it adds takes the history past the
  // maximum; the system prompt is not exempt.
  lemma RoundDropsOldestExactly(w: World, limits: Limits, c: Convo, reply: Reply, round: nat)
    ensures var added := RoundMsgs(w, reply, round);
            && |added| == (if reply.content.Some? then 1 else 0) + |reply.calls|
            && (c.history <= AfterRound(w, limits, c, reply, round).history
                && |AfterRound(w, limits, c, reply, round).history| == |c.history| + |added|
                <==> limits.maxHistory == 0 || |c.history| + |added| <= limits.maxHistory)
            && (PromptFirst(c.history) ==>
                  (NoSystem(AfterRound(w, limits, c, reply, round).history)
                   <==> limits.maxHistory != 0 && |c.history| + |added| > limits.maxHistory))
  {
    if PromptFirst(c.history) {
      PromptLostExactly(c, RoundMsgs(w, reply, round), limits.maxHistory);
    }
  }

  lemma PromptFirstAppend(ms: seq<Msg>, said: seq<Msg>)
    requires PromptFirst(ms) && NoSystem(said)
    ensures PromptFirst(ms + said)
  {
    assert (ms + said)[1..] == ms[1..] + said;
  }

  lemma PromptLostExactly(c: Convo, said: seq<Msg>, max: nat)
    requires PromptFirst(c.history) && NoSystem(said)
    ensures NoSystem(Trim(PushAll(c, said), max).history) <==> max != 0 && |c.history| + |said| > max
  {
    PromptFirstAppend(c.history, said);
    SuffixHasPrompt(Trim(PushAll(c, said), max).history, c.history + said);
  }

  // Of what starts with the only prompt, the end holds no prompt exactly when it is not the whole.
  lemma SuffixHasPrompt(s: seq<Msg>, t: seq<Msg>)
    requires PromptFirst(t) && Suffix(s, t)
    ensures NoSystem(s) <==> |s| < |t|
  {
    if |s| < |t| {
      forall i | 0 <= i < |s| ensures s[i].role != System {
        assert s[i] == t[1..][|t| - |s| - 1 + i];
      }
    } else {
      assert s[0] == t[0];
    }
  }

  // Once dropped the system prompt does not come back: a turn puts it in only while none was put
  // in since the reset.
  lemma {:induction false} DroppedPromptStaysDropped(w: World, limits: Limits, c: Convo, round: nat)
    requires c.hasSystem && NoSystem(c.history)
    ensures var end := Rounds(w, limits, c, round).convo;
            end.hasSystem && NoSystem(end.history)
    decreases limits.maxIterations - round
  {
    if round < limits.maxIterations {
      var reply := w.chat(c.history, round);
      if reply.ok && reply.calls != [] {
        assert NoSystem(RoundMsgs(w, reply, round));
        DroppedPromptStaysDropped(w, limits, AfterRound(w, limits, c, reply, round), round + 1);
      }
    }
  }

  lemma {:induction false} RoundsKeepPromptFirst(w: World, limits: Limits, c: Convo, round: nat)
    requires c.hasSystem && PromptFirst(c.log)
    ensures var end := Rounds(w, limits, c, round).convo;
            end.hasSystem && PromptFirst(end.log)
    decreases limits.maxIterations - round
  {
    if round < limits.maxIterations {
      var reply := w.chat(c.history, round);
      if reply.ok && reply.calls == [] {
        PromptFirstAppend(c.log, [Msg(Assistant, GetOr(reply.content, ""))]);
      } else if reply.ok {
        PromptFirstAppend(c.log, RoundMsgs(w, reply, round));
        RoundsKeepPromptFirst(w, limits, AfterRound(w, limits, c, reply, round), round + 1);
      }
    }
  }

  lemma OpenedPromptFirst(c: Convo, prompt: string, input: string)
    requires if c.hasSystem then PromptFirst(c.log) else c.log == []
    ensures Opened(c, prompt, input).hasSystem && PromptFirst(Opened(c, prompt, input).log)
  {
    PromptFirstAppend(if c.hasSystem then c.log else [Msg(System, prompt)], [Msg(User, input)]);
  }

  // Over any turns since a reset one system prompt is said, and it is said first. The history has
  // lost it exactly when it has lost anything.
  lemma {:induction false} PromptDroppedExactly(limits: Limits, turns: seq<TurnInput>)
    ensures var c := Turns(limits, turns);
            if turns == [] then c == EMPTY
            else
              && c.hasSystem && PromptFirst(c.log)
              && (NoSystem(c.history) <==> |c.history| < |c.log|)
  {
    if turns != [] {
      var last, before := turns[|turns| - 1], Turns(limits, turns[..|turns| - 1]);
      PromptDroppedExactly(limits, turns[..|turns| - 1]);
      OpenedPromptFirst(before, last.prompt, last.input);
      RoundsKeepPromptFirst(last.world, limits, Opened(before, last.prompt, last.input), 0);
      HistoryIsSuffix(limits, turns);
      SuffixHasPrompt(Turns(limits, turns).history, Turns(limits, turns).log);
    }
  }

  // The texts of the messages of one role, in order.
  function TextsBy(role: Role, ms: seq<Msg>): seq<string> {
    if ms == [] then []
    else
      var before, last := TextsBy(role, ms[..|ms| - 1]), ms[|ms| - 1];
      if last.role == role then before + [last.text] else before
  }

  lemma {:induction false} TextsConcat(role: Role, a: seq<Msg>, b: seq<Msg>)
    ensures TextsBy(role, a + b) == TextsBy(role, a) + TextsBy(role, b)
  {
    if b == [] {
      assert a + b == a;
    } else {
      TextsConcat(role, a, b[..|b| - 1]);
      assert (a + b)[..|a + b| - 1] == a + b[..|b| - 1];
    }
  }

  lemma {:induction false} NoTexts(role: Role, ms: seq<Msg>)
    requires forall m :: m in ms ==> m.role != role
    ensures TextsBy(role, ms) == []
  {
    if ms != [] {
      NoTexts(role, ms[..|ms| - 1]);
      assert ms[|ms| - 1] in ms;
    }
  }

  // The rounds of a turn put no words into the user's mouth, nor a system prompt.
  lemma {:induction false} RoundsKeepTexts(w: World, limits: Limits, c: Convo, round: nat, role: Role)
    requires role == User || role == System
    ensures TextsBy(role, Rounds(w, limits, c, round).convo.log) == TextsBy(role, c.log)
    decreases limits.maxIterations - round
  {
    if round < limits.maxIterations {
      var reply := w.chat(c.history, round);
      if reply.ok && reply.calls == [] {
        var said := [Msg(Assistant, GetOr(reply.content, ""))];
        NoTexts(role, said);
        TextsConcat(role, c.log, said);
      } else if reply.ok {
        var said := RoundMsgs(w, reply, round);
        NoTexts(role, said);
        TextsConcat(role, c.log, said);
        RoundsKeepTexts(w, limits, AfterRound(w, limits, c, reply, round), round + 1, role);
      }
    }
  }

  lemma OneText(role: Role, m: Msg)
    ensures TextsBy(role, [m]) == if m.role == role then [m.text] else []
  {
    assert [m][..0] == [];
  }

  lemma PushedTexts(role: Role, ms: seq<Msg>, m: Msg)
    ensures TextsBy(role, ms + [m]) == TextsBy(role, ms) + if m.role == role then [m.text] else []
  {
    TextsConcat(role, ms, [m]);
    OneText(role, m);
  }

  lemma OpenedTexts(c: Convo, prompt: string, input: string, role: Role)
    ensures TextsBy(role, Opened(c, prompt, input).log) ==
            TextsBy(role, c.log) + (if c.hasSystem || role != System then [] else [prompt])
                                 + (if role == User then [input] else [])
  {
    var system, user := Msg(System, prompt), Msg(User, input);
    PushedTexts(role, c.log, system);
    PushedTexts(role, if c.hasSystem then c.log else c.log + [system], user);
  }

  function Inputs(turns: seq<TurnInput>): (r: seq<string>)
    ensures |r| == |turns| && forall i :: 0 <= i < |turns| ==> r[i] == turns[i].input
  {
    seq(|turns|, i requires 0 <= i < |turns| => turns[i].input)
  }

  lemma InputsNext(turns: seq<TurnInput>)
    requires turns != []
    ensures Inputs(turns) == Inputs(turns[..|turns| - 1]) + [turns[|turns| - 1].input]
  {
  }

  // What one turn adds to them.
  lemma TurnTexts(turn: TurnInput, limits: Limits, c: Convo)
    ensures var log := Turn(turn.world, limits, c, turn.prompt, turn.input).convo.log;
            && TextsBy(User, log) == TextsBy(User, c.log) + [turn.input]
            && TextsBy(System, log) == TextsBy(System, c.log) + if c.hasSystem then [] else [turn.prompt]
  {
    OpenedTexts(c, turn.prompt, turn.input, User);
    OpenedTexts(c, turn.prompt, turn.input, System);
    RoundsKeepTexts(turn.world, limits, Opened(c, turn.prompt, turn.input), 0, User);
    RoundsKeepTexts(turn.world, limits, Opened(c, turn.prompt, turn.input), 0, System);
  }

  // Over any turns since a reset: what was said as the user are the turns' inputs, in order, and
  // what was said as the system is the first turn's prompt, once.
  lemma {:induction false} SaidByUserAndSystem(limits: Limits, turns: seq<TurnInput>)
    ensures var log := Turns(limits, turns).log;
            && TextsBy(User, log) == Inputs(turns)
            && TextsBy(System, log) == if turns == [] then [] else [turns[0].prompt]
  {
    if turns != [] {
      var init, last := turns[..|turns| - 1], turns[|turns| - 1];
      var before := Turns(limits, init);
      SaidByUserAndSystem(limits, init);
      PromptDroppedExactly(limits, init);
      TurnTexts(last, limits, before);
      InputsNext(turns);
    }
  }

  // Nothing trims a conversation without tool calls: n plain turns leave 2n + 1 messages, whatever
  // the maximum.
  lemma {:induction false} PlainTurnsGrow(limits: Limits, turns: seq<TurnInput>)
    requires limits.maxIterations > 0 && turns != []
    requires forall i :: 0 <= i < |turns| ==>
               forall h, r :: turns[i].world.chat(h, r).ok && turns[i].world.chat(h, r).calls == []
    ensures |Turns(limits, turns).history| == 2 * |turns| + 1 && Turns(limits, turns).hasSystem
  {
    var before, last := turns[..|turns| - 1], turns[|turns| - 1];
    if before != [] {
      PlainTurnsGrow(limits, before);
    }
    var c := Opened(Turns(limits, before), last.prompt, last.input);
    assert last.world.chat(c.history, 0).ok && last.world.chat(c.history, 0).calls == [];
  }
}
