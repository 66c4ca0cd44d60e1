/**
 The agent object: a growable array of messages that owns its texts on the heap, and the bounded
 loop of provider calls and tool runs.
 */
module Agent {
  import opened Conversation

  // A string on the C heap.
  class HeapText {
    const value: string

    constructor (value: string)
      ensures this.value == value
    {
      this.value := value;
    }
  }

  // The strings allocated and not yet freed.
  class Heap {
    ghost var live: set<HeapText>

    constructor ()
      ensures live == {}
    {
      live := {};
    }

    // nc_strdup
    method Dup(s: string) returns (t: HeapText)
      modifies this
      ensures fresh(t) && t.value == s
      ensures live == old(live) + {t} && t !in old(live)
    {
      t := new HeapText(s);
      live := live + {t};
    }

    // free: only of what is live, so nothing is freed twice.
    method Free(t: HeapText)
      requires t in live
      modifies this
      ensures live == old(live) - {t}
    {
      live := live - {t};
    }
  }

  datatype OwnedMessage = OwnedMessage(role: Role, content: HeapText)

  datatype HeldResult = HeldResult(id: HeapText, name: HeapText, output: HeapText, success: bool)

  // ---- Owned messages as a sequence ----

  function Values(ms: seq<OwnedMessage>): (r: seq<Msg>)
    ensures |r| == |ms|
  {
    seq(|ms|, i requires 0 <= i < |ms| => Msg(ms[i].role, ms[i].content.value))
  }

  ghost function Texts(ms: seq<OwnedMessage>): set<HeapText> {
    set m | m in ms :: m.content
  }

  // No two messages share a text.
  ghost predicate Unshared(ms: seq<OwnedMessage>) {
    forall i, j :: 0 <= i < j < |ms| ==> ms[i].content != ms[j].content
  }

  lemma OwnedAppend(ms: seq<OwnedMessage>, m: OwnedMessage)
    requires Unshared(ms) && m.content !in Texts(ms)
    ensures Values(ms + [m]) == Values(ms) + [Msg(m.role, m.content.value)]
    ensures Texts(ms + [m]) == Texts(ms) + {m.content}
    ensures Unshared(ms + [m])
  {
  }

  // Cutting off the first n messages takes exactly their texts away.
  lemma OwnedDrop(ms: seq<OwnedMessage>, n: nat)
    requires Unshared(ms) && n <= |ms|
    ensures Values(ms[n..]) == Values(ms)[n..]
    ensures Texts(ms[n..]) == Texts(ms) - Texts(ms[..n])
    ensures Unshared(ms[n..])
  {
  }

  // ---- Held tool results ----

  ghost function Trio(r: HeldResult): set<HeapText> {
    {r.id, r.name, r.output}
  }

  ghost function ResultTexts(rs: seq<HeldResult>): set<HeapText> {
    if rs == [] then {} else Trio(rs[0]) + ResultTexts(rs[1..])
  }

  // Every result has three texts to itself.
  ghost predicate Separate(rs: seq<HeldResult>) {
    rs != [] ==>
      && rs[0].id != rs[0].name && rs[0].id != rs[0].output && rs[0].name != rs[0].output
      && Trio(rs[0]) !! ResultTexts(rs[1..])
      && Separate(rs[1..])
  }

  lemma {:induction false} ResultAppend(rs: seq<HeldResult>, r: HeldResult)
    requires Separate(rs) && Trio(r) !! ResultTexts(rs)
    requires r.id != r.name && r.id != r.output && r.name != r.output
    ensures Separate(rs + [r]) && ResultTexts(rs + [r]) == ResultTexts(rs) + Trio(r)
  {
    if rs != [] {
      assert (rs + [r])[1..] == rs[1..] + [r];
      ResultAppend(rs[1..], r);
    } else {
      assert ([r])[1..] == [];
    }
  }

  lemma SeparateNext(rs: seq<HeldResult>, i: nat)
    requires i < |rs| && Separate(rs[i..])
    ensures var r, rest := rs[i], rs[i + 1..];
            && ResultTexts(rs[i..]) == Trio(r) + ResultTexts(rest) && Trio(r) !! ResultTexts(rest)
            && r.id != r.name && r.id != r.output && r.name != r.output
            && Separate(rest)
  {
  }

  lemma MessagesNext(c: Convo, rs: seq<ToolResult>, i: nat)
    requires i < |rs|
    ensures Push(PushAll(c, ResultMsgs(rs[..i])), ResultMsg(rs[i])) == PushAll(c, ResultMsgs(rs[..i + 1]))
  {
  }

  ghost predicate Reads(h: HeldResult, r: ToolResult) {
    h.id.value == r.id && h.name.value == r.name && h.output.value == r.output && h.success == r.success
  }

  class Agent {
    const world: World
    const limits: Limits
    const heap: Heap
    var history: array<OwnedMessage>
    var len: nat
    var hasSystem: bool
    ghost var messages: seq<Msg>       // the history as a value
    ghost var log: seq<Msg>            // everything pushed since the last reset
    ghost var requests: seq<seq<Msg>>  // every message list sent to the provider

    ghost function Held(): seq<OwnedMessage>
      reads this, history
      requires len <= history.Length
    {
      history[..len]
    }

    // The texts of the history are live and its own.
    ghost predicate Valid()
      reads this, history, heap
    {
      len <= history.Length && Unshared(Held()) && Owned() <= heap.live && messages == Values(Held())
    }

    ghost function Owned(): set<HeapText>
      reads this, history
      requires len <= history.Length
    {
      Texts(Held())
    }

    ghost function State(): Convo
      reads this
    {
      Convo(messages, log, hasSystem)
    }

    // The history accounts for all live texts but the others.
    ghost predicate Accounts(others: set<HeapText>)
      reads this, history, heap
      requires len <= history.Length
    {
      heap.live == others + Owned() && others !! Owned()
    }

    // nc_agent_init, for what the conversation needs
    constructor (world: World, limits: Limits, heap: Heap)
      ensures Valid() && fresh(history)
      ensures this.world == world && this.limits == limits && this.heap == heap
      ensures State() == EMPTY && Owned() == {} && requests == []
    {
      this.world := world;
      this.limits := limits;
      this.heap := heap;
      history := new OwnedMessage[0];
      len := 0;
      hasSystem := false;
      messages := [];
      log := [];
      requests := [];
    }

    // history_push: grows the array when it is full, then stores a copy of the content.
    method PushMessage(role: Role, content: string, ghost others: set<HeapText>)
      requires Valid() && Accounts(others)
      modifies this, history, heap
      ensures Valid() && (history == old(history) || fresh(history))
      ensures State() == Push(old(State()), Msg(role, content)) && requests == old(requests)
      ensures Accounts(others)
    {
      var copy := heap.Dup(content);
      var m := OwnedMessage(role, copy);
      if len >= history.Length {
        var newCap := if history.Length != 0 then history.Length * 2 else 32;
        var moved := new OwnedMessage[newCap](_ => m);
        forall i | 0 <= i < len {
          moved[i] := history[i];
        }
        history := moved;
      }
      history[len] := m;
      len := len + 1;
      log := log + [Msg(role, content)];
      messages := messages + [Msg(role, content)];
      assert Held() == old(Held()) + [m];
      OwnedAppend(old(Held()), m);
    }

    // nc_agent_trim_history: frees the oldest messages over the maximum and moves the rest down.
    method TrimHistory(ghost others: set<HeapText>)
      requires Valid() && Accounts(others)
      modifies this, history, heap
      ensures Valid() && history == old(history)
      ensures State() == Trim(old(State()), limits.maxHistory) && requests == old(requests)
      ensures Accounts(others)
    {
      var max := limits.maxHistory;
      if max == 0 || len <= max {
        return;
      }
      var remove := len - max;
      FreeFirst(remove);
      forall i | 0 <= i < len - remove {
        history[i] := history[i + remove];
      }
      len := len - remove;
      messages := messages[remove..];
      assert Held() == old(Held())[remove..];
      OwnedDrop(old(Held()), remove);
    }

    // Frees the contents of the first n messages.
    method FreeFirst(n: nat)
      requires Valid() && n <= len
      modifies heap
      ensures heap.live == old(heap.live) - Texts(Held()[..n])
    {
      for i := 0 to n
        invariant heap.live == old(heap.live) - Texts(Held()[..i])
      {
        var ms := Held();
        assert ms[..i + 1] == ms[..i] + [ms[i]];
        forall x | x in ms[..i] ensures x.content != ms[i].content {
          var k :| 0 <= k < i && ms[k] == x;
        }
        assert ms[i] in ms;
        heap.Free(history[i].content);
        assert forall x :: x in ms[..i + 1] <==> x in ms[..i] || x == ms[i];
      }
    }

    // nc_agent_reset_history
    method ResetHistory()
      requires Valid()
      modifies this, heap
      ensures Valid() && history == old(history)
      ensures State() == EMPTY && Owned() == {} && requests == old(requests)
      ensures heap.live == old(heap.live) - old(Owned())
    {
      FreeFirst(len);
      assert Held()[..len] == Held();
      len := 0;
      hasSystem := false;
      messages := [];
      log := [];
    }

    // The messages array of a request.
    method BuildMessages() returns (msgs: seq<Msg>)
      requires Valid()
      ensures msgs == messages
    {
      msgs := [];
      for i := 0 to len
        invariant msgs == messages[..i]
      {
        msgs := msgs + [Msg(history[i].role, history[i].content.value)];
      }
    }

    method FindNamed(name: string) returns (n: nat)
      ensures n == FindTool(world.tools, name)
    {
      n := 0;
      while n < |world.tools| && world.tools[n] != name
        invariant n <= |world.tools|
        invariant forall i :: 0 <= i < n ==> world.tools[i] != name
      {
        n := n + 1;
      }
      FindToolIs(world.tools, name, n);
    }

    method RunCall(call: ToolCall, round: nat, index: nat) returns (r: HeldResult)
      modifies heap
      ensures Reads(r, ResultOf(world, call, round, index))
      ensures fresh(Trio(r)) && r.id != r.name && r.id != r.output && r.name != r.output
      ensures heap.live == old(heap.live) + Trio(r)
    {
      var n := FindNamed(call.name);
      var id := heap.Dup(GetOr(call.id, ""));
      var name := heap.Dup(call.name);
      if n == |world.tools| {
        var missing := heap.Dup("Tool not found");
        return HeldResult(id, name, missing, false);
      }
      var out := world.run(n, GetOr(call.arguments, "{}"), round, index);
      var text := heap.Dup(if out.success then GetOr(out.output, "") else GetOr(out.error, "Tool error"));
      return HeldResult(id, name, text, out.success);
    }

    // nc_agent_dispatch_tools
    method DispatchTools(calls: seq<ToolCall>, round: nat) returns (results: seq<HeldResult>)
      modifies heap
      ensures |results| == |calls|
      ensures forall i :: 0 <= i < |calls| ==> Reads(results[i], Dispatched(world, calls, round)[i])
      ensures Separate(results) && fresh(ResultTexts(results))
      ensures heap.live == old(heap.live) + ResultTexts(results)
    {
      results := [];
      for i := 0 to |calls|
        invariant |results| == i
        invariant forall k :: 0 <= k < i ==> Reads(results[k], Dispatched(world, calls, round)[k])
        invariant Separate(results) && fresh(ResultTexts(results))
        invariant heap.live == old(heap.live) + ResultTexts(results)
      {
        label before:
        var r := RunCall(calls[i], round, i);
        assert Trio(r) !! ResultTexts(results) by {
          assert fresh@before(Trio(r));
        }
        ResultAppend(results, r);
        results := results + [r];
      }
    }

    // Pushes a result as a message and frees it.
    method PushResult(result: HeldResult, ghost r: ToolResult, ghost others: set<HeapText>)
      requires Valid() && Reads(result, r)
      requires result.id != result.name && result.id != result.output && result.name != result.output
      requires others !! Trio(result) && Accounts(others + Trio(result))
      modifies this, history, heap
      ensures Valid() && (history == old(history) || fresh(history))
      ensures State() == Push(old(State()), ResultMsg(r)) && requests == old(requests)
      ensures Accounts(others)
    {
      PushMessage(ToolOutput, "[" + result.name.value + "] " + result.output.value, others + Trio(result));
      heap.Free(result.id);
      heap.Free(result.name);
      heap.Free(result.output);
    }

    method PushResults(results: seq<HeldResult>, ghost rs: seq<ToolResult>, ghost others: set<HeapText>)
      requires Valid() && |results| == |rs| && Separate(results)
      requires forall i :: 0 <= i < |rs| ==> Reads(results[i], rs[i])
      requires others !! ResultTexts(results) && Accounts(others + ResultTexts(results))
      modifies this, history, heap
      ensures Valid() && (history == old(history) || fresh(history))
      ensures State() == PushAll(old(State()), ResultMsgs(rs)) && requests == old(requests)
      ensures Accounts(others)
    {
      for i := 0 to |results|
        invariant Valid() && (history == old(history) || fresh(history))
        invariant State() == PushAll(old(State()), ResultMsgs(rs[..i])) && requests == old(requests)
        invariant Separate(results[i..]) && others !! ResultTexts(results[i..])
        invariant Accounts(others + ResultTexts(results[i..]))
      {
        SeparateNext(results, i);
        ghost var others' := others + ResultTexts(results[i + 1..]);
        assert others + ResultTexts(results[i..]) == others' + Trio(results[i]);
        PushResult(results[i], rs[i], others');
        MessagesNext(old(State()), rs, i);
      }
      assert rs[..|rs|] == rs;
      assert results[|results|..] == [];
    }

    // The part of the loop after an answer with tool calls.
    method Round(reply: Reply, round: nat, ghost others: set<HeapText>)
      requires Valid() && Accounts(others)
      modifies this, history, heap
      ensures Valid() && (history == old(history) || fresh(history))
      ensures State() == AfterRound(world, limits, old(State()), reply, round) && requests == old(requests)
      ensures Accounts(others)
    {
      ghost var said := if reply.content.Some? then [Msg(Assistant, reply.content.value)] else [];
      if reply.content.Some? {
        PushMessage(Assistant, reply.content.value, others);
      }
      assert State() == PushAll(old(State()), said);
      var results := DispatchTools(reply.calls, round);
      PushResults(results, Dispatched(world, reply.calls, round), others);
      PushAllTwice(old(State()), said, ResultMsgs(Dispatched(world, reply.calls, round)));
      TrimHistory(others);
    }

    // A plain answer: duplicated for the caller, then pushed.
    method Answer(text: string, ghost others: set<HeapText>) returns (response: HeapText)
      requires Valid() && Accounts(others)
      modifies this, history, heap
      ensures Valid() && (history == old(history) || fresh(history))
      ensures State() == Push(old(State()), Msg(Assistant, text)) && requests == old(requests)
      ensures response.value == text && fresh(response) && response !in others
      ensures Accounts(others + {response})
    {
      response := heap.Dup(text);
      PushMessage(Assistant, response.value, others + {response});
    }

    // One provider call with the present history.
    method Ask(round: nat) returns (reply: Reply)
      requires Valid()
      modifies this`requests
      ensures Valid() && reply == world.chat(messages, round) && requests == old(requests) + [messages]
    {
      var msgs := BuildMessages();
      reply := world.chat(msgs, round);
      requests := requests + [msgs];
    }

    // One pass of the turn's loop: asks, and answers or goes through a tool round, in a turn that has
    // made some requests and will end so.
    method AskOnce(iter: nat, ghost end: TurnEnd, ghost made: seq<seq<Msg>>, ghost others: set<HeapText>)
      returns (response: HeapText?)
      requires Valid() && Accounts(others) && iter < limits.maxIterations
      requires OnCourse(world, limits, end, made, State(), iter)
      modifies this, history, heap
      ensures Valid() && (history == old(history) || fresh(history))
      ensures requests == old(requests) + [old(State()).history]
      ensures response == null ==>
                Accounts(others) && OnCourse(world, limits, end, made + [old(State()).history], State(), iter + 1)
      ensures response != null ==>
                && fresh(response) && response !in others && Accounts(others + {response})
                && end == TurnEnd(State(), response.value, made + [old(State()).history])
    {
      CourseStep(world, limits, end, made, State(), iter);
      var reply := Ask(iter);
      if !reply.ok {
        response := heap.Dup(GetOr(reply.error, "Provider error"));
        return;
      }
      if reply.calls == [] {
        response := Answer(GetOr(reply.content, ""), others);
        return;
      }
      Round(reply, iter, others);
      return null;
    }

    // The loop of nc_agent_turn.
    method RunRounds(ghost others: set<HeapText>) returns (response: HeapText)
      requires Valid() && Accounts(others)
      modifies this, history, heap
      ensures Valid() && (history == old(history) || fresh(history))
      ensures var end := Rounds(world, limits, old(State()), 0);
              && State() == end.convo
              && response.value == end.response
              && requests == old(requests) + end.requests
      ensures fresh(response) && response !in others && Accounts(others + {response})
    {
      ghost var end, made := Rounds(world, limits, State(), 0), [];
      var iter := 0;
      while iter < limits.maxIterations
        invariant 0 <= iter <= limits.maxIterations
        invariant Valid() && (history == old(history) || fresh(history))
        invariant Accounts(others)
        invariant requests == old(requests) + made
        invariant OnCourse(world, limits, end, made, State(), iter)
        decreases limits.maxIterations - iter
      {
        ghost var asked := State().history;
        var answer := AskOnce(iter, end, made, others);
        made := made + [asked];
        if answer != null {
          return answer;
        }
        iter := iter + 1;
      }
      CourseStep(world, limits, end, made, State(), iter);
      response := heap.Dup("(no response)");
    }

    // nc_agent_turn: what is said and answered is the turn as a value, and of all the strings
    // allocated on the way the ones left live are those of the history and the answer.
    method TakeTurn(prompt: string, input: string) returns (response: HeapText)
      requires Valid()
      modifies this, history, heap
      ensures Valid() && (history == old(history) || fresh(history))
      ensures var end := Turn(world, limits, old(State()), prompt, input);
              && State() == end.convo
              && response.value == end.response
              && requests == old(requests) + end.requests
      ensures limits.maxIterations > 0 ==>
                |requests| > |old(requests)| && requests[|old(requests)|] ==
                old(State()).history + (if old(hasSystem) then [] else [Msg(System, prompt)]) + [Msg(User, input)]
      ensures heap.live == (old(heap.live) - old(Owned())) + Owned() + {response}
      ensures response !in Owned() && fresh(response)
    {
      ghost var others := heap.live - Owned();
      if limits.maxIterations > 0 {
        FirstRequest(world, limits, State(), prompt, input);
      }
      if !hasSystem {
        PushMessage(System, prompt, others);
        hasSystem := true;
      }
      PushMessage(User, input, others);
      response := RunRounds(others);
    }
  }
}
