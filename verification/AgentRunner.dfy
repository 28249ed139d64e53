// packages/core/src/agent/agent-runner.ts: the subagent's turn loop against an arbitrary provider.
module AgentRunner {
  import opened Results
  import opened Whitespace
  import opened ResultPayload
  import opened ToolAnswers

  datatype Response = Response(content: string, calls: seq<Call>, promptTokens: Option<nat>)

  /** What a provider call comes to: a response, a context-overflow error or another error. */
  datatype Reply = Good(response: Response) | Overflow | Failure

  datatype Choice = Required | Auto | Unset

  datatype Status = Done | MaxTurns | Aborted | Errored

  /** `viaResult` when the output is the payload of an accepted `agent_result` call. */
  datatype Outcome = Outcome(status: Status, output: string, turns: nat, viaResult: bool)

  datatype TurnEnd = Threw | Finish(outcome: Outcome) | NextTurn

  /** A main request as it went out. */
  datatype Sent = Sent(messages: seq<Msg>, choice: Choice, dangling: bool)

  /** A main response, and the tool choice it was asked under. */
  datatype Heard = Heard(choice: Choice, response: Response)

  predicate IsResult(c: Call) { c.name == AGENT_RESULT }

  function ResultCalls(calls: seq<Call>): seq<Call> {
    if calls == [] then []
    else if IsResult(calls[0]) then [calls[0]] + ResultCalls(calls[1..])
    else ResultCalls(calls[1..])
  }

  function Investigative(calls: seq<Call>): seq<Call> {
    if calls == [] then []
    else if IsResult(calls[0]) then Investigative(calls[1..])
    else [calls[0]] + Investigative(calls[1..])
  }

  /** `[system, summary]`, or the summary alone where the list does not begin with a system message. */
  function Compacted(messages: seq<Msg>, summary: string): seq<Msg> {
    (if messages != [] && messages[0].System? then [messages[0]] else [])
    + [User("[Summary of the investigation so far]\n" + summary)]
  }

  predicate OnlySystem(messages: seq<Msg>) { forall m <- messages :: m.System? }

  lemma {:induction false} CallsSplit(calls: seq<Call>)
    ensures ResultCalls(calls) == [] ==> Investigative(calls) == calls
    ensures Investigative(calls) == [] ==> ResultCalls(calls) == calls
  {
    hide IsResult;
    if calls != [] {
      CallsSplit(calls[1..]);
      assert calls == [calls[0]] + calls[1..];
    }
  }

  /** A rejected result call without an id. */
  ghost predicate Unkeyed(r: Response) {
    exists c <- r.calls :: IsResult(c) && c.id.None?
  }

  ghost predicate Investigates(r: Response) {
    exists c <- r.calls :: !IsResult(c)
  }

  lemma {:induction false} CallsInvestigate(content: string, calls: seq<Call>, tokens: Option<nat>)
    ensures Investigative(calls) != [] <==> Investigates(Response(content, calls, tokens))
  {
    hide IsResult;
    if calls != [] {
      CallsInvestigate(content, calls[1..], tokens);
      assert forall c <- calls :: c == calls[0] || c in calls[1..];
    }
  }

  class AgentLoop {
    const structured: bool
    const hasRealTools: bool
    const maxTurns: nat
    const window: nat               // 0 when unknown
    const maxTokens: nat
    const provider: nat -> Reply    // the n-th call of `provider.complete`
    const toolsThrow: nat -> bool   // whether the n-th `runToolCalls` throws
    const signal: nat -> bool       // the n-th look at the abort signal
    const digest: seq<Msg> -> string  // `buildSalvageDigest`
    const reason: string              // the text of what was thrown, if anything is

    var messages: seq<Msg>
    var lastPromptTokens: nat
    var lastText: string
    var turns: nat
    var investigated: bool
    var calls: nat
    var batches: nat
    var looks: nat
    ghost var sent: seq<Sent>
    ghost var heard: seq<Heard>
    ghost var dangling: bool        // a steer since the last compaction left a call unanswered

    constructor (structured: bool, hasRealTools: bool, maxTurns: nat, window: nat, maxTokens: nat, system: string,
                 task: string, provider: nat -> Reply, toolsThrow: nat -> bool, signal: nat -> bool,
                 digest: seq<Msg> -> string, reason: string)
      ensures messages == [System(system), User(task)] && calls == 0 && sent == [] && heard == []
      ensures Orderly() && !investigated && turns == 0 && lastText == ""
      ensures this.maxTurns == maxTurns && this.hasRealTools == hasRealTools && this.structured == structured
      ensures this.provider == provider && this.digest == digest && this.reason == reason
    {
      this.structured, this.hasRealTools, this.maxTurns := structured, hasRealTools, maxTurns;
      this.window, this.maxTokens, this.provider, this.toolsThrow := window, maxTokens, provider, toolsThrow;
      this.signal, this.digest, this.reason := signal, digest, reason;
      messages := [System(system), User(task)];
      lastPromptTokens, lastText, turns, investigated, calls, batches, looks := 0, "", 0, false, 0, 0, 0;
      sent, heard, dangling := [], [], false;
      new;
      StartAnswered(system, task);
    }

    /** Every message list, sent or current, has all its calls answered unless a steer left one
        dangling; and then some response had a result call without an id. */
    ghost predicate Orderly()
      reads this
    {
      && messages != []
      && (AllAnswered(messages) <==> !dangling)
      && SentOrderly()
    }

    /** The part of it that is about the past. */
    ghost predicate SentOrderly()
      reads this
    {
      && (forall q <- sent :: AllAnswered(q.messages) <==> !q.dangling)
      && (dangling || (exists q <- sent :: q.dangling) ==> exists h <- heard :: Unkeyed(h.response))
      && (investigated ==> exists h <- heard :: Investigates(h.response))
    }

    method IsAborted() returns (b: bool)
      modifies `looks
      ensures b == signal(old(looks)) && looks == old(looks) + 1
    {
      b := signal(looks);
      looks := looks + 1;
    }

    method Complete() returns (r: Reply)
      modifies `calls
      ensures calls == old(calls) + 1 && r == provider(old(calls))
    {
      r := provider(calls);
      calls := calls + 1;
    }

    /** `compactAgentMessages`: replace the conversation by [system, summary]. */
    method Compact() returns (ok: bool)
      requires Orderly()
      modifies `messages, `calls, `lastPromptTokens, `dangling
      ensures Orderly() && calls == old(calls) + if OnlySystem(old(messages)) then 0 else 1
      ensures ok <==> OnlySystem(old(messages)) || provider(old(calls)).Good?
      ensures ok ==> calls == old(calls) || |messages| <= 2
      ensures messages == old(messages) || |messages| <= 2
      ensures messages == if !ok || OnlySystem(old(messages)) then old(messages)
                          else Compacted(old(messages), provider(old(calls)).response.content)
    {
      if forall m <- messages :: m.System? {
        return true;
      }
      var r := Complete();
      if !r.Good? {
        return false;
      }
      var summary := User("[Summary of the investigation so far]\n" + r.response.content);
      var system := messages[0];
      SummaryAnswered(system, summary);
      messages := if system.System? then [system, summary] else [summary];
      lastPromptTokens := 0;
      dangling := false;
      return true;
    }

    /** One main request as logged. */
    method SendMain(choice: Choice) returns (r: Reply)
      requires Orderly()
      modifies `calls, `sent
      ensures Orderly() && calls == old(calls) + 1 && r == provider(old(calls))
      ensures sent == old(sent) + [Sent(messages, choice, dangling)]
    {
      sent := sent + [Sent(messages, choice, dangling)];
      r := Complete();
    }

    /** The last prompt filled four fifths of the window, less what the answer may take of it. */
    predicate NearFull()
      reads this
    {
      var answer := if 2 * maxTokens <= window then maxTokens else window / 2;
      window > 0 && lastPromptTokens as real >= 0.8 * (if answer < window then window - answer else 1) as real
    }

    /** Compact ahead of a full window, and only then. */
    method CompactNearFull() returns (ok: bool)
      requires Orderly()
      modifies `messages, `calls, `lastPromptTokens, `dangling
      ensures Orderly() && calls <= old(calls) + 1
      ensures !old(NearFull()) ==> ok && calls == old(calls) && messages == old(messages)
      ensures !old(NearFull()) ==> lastPromptTokens == old(lastPromptTokens)
      ensures old(NearFull()) ==> (ok <==> OnlySystem(old(messages)) || provider(old(calls)).Good?)
      ensures messages == if !old(NearFull()) || !ok || OnlySystem(old(messages)) then old(messages)
                          else Compacted(old(messages), provider(old(calls)).response.content)
      ensures messages == old(messages) || |messages| <= 2
      // a call that was worth making leaves nothing more to compact
      ensures ok ==> calls == old(calls) || |messages| <= 2
    {
      var reserve := if maxTokens < window / 2 then maxTokens else window / 2;
      var effective := if window - reserve < 1 then 1 else window - reserve;
      // lastPromptTokens / effective >= 0.8
      ok := true;
      if window > 0 && 5 * lastPromptTokens >= 4 * effective {
        ok := Compact();
      }
    }

    /** Send, and once more after compacting if the request overflows. */
    method SendOrRetry(choice: Choice) returns (reply: Reply)
      requires Orderly()
      modifies `messages, `calls, `lastPromptTokens, `dangling, `sent, `looks
      ensures var first := provider(old(calls));
        if !first.Overflow? || signal(old(looks)) || |old(messages)| <= 2 then
          && reply == first && calls == old(calls) + 1 && messages == old(messages)
          && lastPromptTokens == old(lastPromptTokens)
        else if OnlySystem(old(messages)) then reply == provider(old(calls) + 1) && messages == old(messages)
        else if !provider(old(calls) + 1).Good? then reply == Failure && messages == old(messages)
        else
          && reply == provider(old(calls) + 2)
          && messages == Compacted(old(messages), provider(old(calls) + 1).response.content)
      ensures Orderly() && calls <= old(calls) + 3 && |sent| <= |old(sent)| + 2
      ensures |old(messages)| <= 2 ==> calls <= old(calls) + 1
      ensures reply.Good? ==>
        && calls > 0 && provider(calls - 1) == reply
        && sent != [] && sent[|sent| - 1] == Sent(messages, choice, dangling)
      ensures messages == old(messages) || |messages| <= 2
    {
      hide AllAnswered, Unkeyed, Investigates, Compacted, OnlySystem;
      reply := SendMain(choice);
      if reply.Good? {
        return reply;
      }
      var stop := IsAborted();
      if stop || !reply.Overflow? || |messages| <= 2 {
        return reply;
      }
      var ok := Compact();
      if !ok {
        return Failure;
      }
      reply := SendMain(choice);
    }

    /** Compaction ahead of a full window, the request, and the retry: at most three provider calls. */
    method CompleteWithCompaction(choice: Choice) returns (r: Option<Response>)
      requires Orderly()
      modifies `messages, `calls, `lastPromptTokens, `dangling, `sent, `looks
      ensures Orderly() && calls <= old(calls) + 3 && |sent| <= |old(sent)| + 2
      // a response is the provider's latest, to the conversation as it stands
      ensures r.Some? ==>
        && calls > 0 && provider(calls - 1) == Good(r.value)
        && sent != [] && sent[|sent| - 1] == Sent(messages, choice, dangling)
      ensures r.Some? && r.value.promptTokens.Some? ==> lastPromptTokens == r.value.promptTokens.value
      // and the conversation is as it was, or compacted
      ensures messages == old(messages) || |messages| <= 2
    {
      hide AllAnswered, Unkeyed, Investigates, Compacted, OnlySystem;
      var ok := CompactNearFull();
      if !ok {
        return None;
      }
      var reply := SendOrRetry(choice);
      if !reply.Good? {
        return None;
      }
      if reply.response.promptTokens.Some? {
        lastPromptTokens := reply.response.promptTokens.value;
      }
      return Some(reply.response);
    }

    /** `runToolCalls`: one tool message per call, in order, under `callKey(call, index)`. */
    method RunToolCalls(toolCalls: seq<Call>) returns (threw: bool)
      modifies `messages, `batches
      ensures !threw ==> messages == old(messages) + ToolMsgs(WireKeys(toolCalls))
      ensures threw ==> messages == old(messages)
    {
      threw := toolsThrow(batches);
      batches := batches + 1;
      if !threw { messages := messages + ToolMsgs(WireKeys(toolCalls)); }
    }

    /** Answer every rejected result call with "investigate first". */
    method SteerInvestigateFirst(resultCalls: seq<Call>)
      modifies `messages
      ensures messages == old(messages) + ToolMsgs(SteerKeys(resultCalls))
    {
      var i := 0;
      assert resultCalls[0..] == resultCalls;
      while i < |resultCalls|
        invariant i <= |resultCalls|
        invariant messages + ToolMsgs(SteerKeys(resultCalls[i..])) == old(messages) + ToolMsgs(SteerKeys(resultCalls))
      {
        var key := resultCalls[i].id.GetOr(AGENT_RESULT);
        assert resultCalls[i..][1..] == resultCalls[i + 1..];
        assert ToolMsgs([key] + SteerKeys(resultCalls[i + 1..])) == [ToolMsg(key)] + ToolMsgs(SteerKeys(resultCalls[i + 1..]));
        assert messages + ([ToolMsg(key)] + ToolMsgs(SteerKeys(resultCalls[i + 1..])))
            == messages + [ToolMsg(key)] + ToolMsgs(SteerKeys(resultCalls[i + 1..]));
        messages := messages + [ToolMsg(key)];
        i := i + 1;
      }
      assert messages + [] == messages;
    }

    method PushUser(text: string)
      requires Orderly()
      modifies `messages
      ensures Orderly() && messages == old(messages) + [User(text)]
    {
      SpokenAnswered(messages, User(text));
      messages := messages + [User(text)];
    }

    /** Between the model's message and the answers to its calls: `before` is what came before. */
    ghost predicate Mid(before: seq<Msg>, res: Response)
      reads this
    {
      && SentOrderly() && before != [] && (AllAnswered(before) <==> !dangling)
      && messages == before + [Assistant(res.content, res.calls)]
      && heard != [] && heard[|heard| - 1].response == res
    }

    /** Ask for the turn's response and record it. */
    method Ask(turn: nat) returns (answer: Option<Response>, ghost before: seq<Msg>)
      requires Orderly() && lastText == LastWords(heard)
      modifies this
      ensures calls <= old(calls) + 3 && turns == turn && investigated == old(investigated)
      ensures SentOrderly() && lastText == LastWords(heard)
      ensures answer.Some? ==> Mid(before, answer.value) && sent != [] && sent[|sent| - 1].messages == before
      ensures answer.Some? ==> calls > 0 && provider(calls - 1) == Good(answer.value)
      ensures heard == if answer.None? then old(heard) else
        old(heard) + [Heard(if hasRealTools && turn < maxTurns && !investigated then Required else Auto, answer.value)]
    {
      hide AllAnswered, Unkeyed, Investigates, NearFull, OnlySystem, Compacted;
      turns := turn;
      before := messages;
      var choice := if hasRealTools && !investigated && turn < maxTurns then Required else Auto;
      answer := CompleteWithCompaction(choice);
      if answer.Some? {
        var res := answer.value;
        before := messages;
        messages := messages + [Assistant(res.content, res.calls)];
        heard := heard + [Heard(choice, res)];
        if |res.content| > 0 { lastText := res.content; }
      }
    }

    /** Run the real tool calls, which is what counts as investigation. */
    method Investigate(res: Response, ghost before: seq<Msg>) returns (threw: bool)
      requires Mid(before, res)
      modifies `messages, `batches, `investigated
      ensures SentOrderly() && (investigated <==> old(investigated) || Investigative(res.calls) != [])
      ensures !threw ==> messages == before + [Assistant(res.content, res.calls)] + ToolMsgs(WireKeys(Investigative(res.calls)))
      ensures Investigative(res.calls) == [] ==> Mid(before, res) && !threw
    {
      var investigative := Investigative(res.calls);
      CallsSplit(res.calls);
      CallsInvestigate(res.content, res.calls, res.promptTokens);
      threw := false;
      if investigative != [] {
        investigated := true;
        assert Investigates(heard[|heard| - 1].response);
        threw := RunToolCalls(investigative);
      } else {
        assert messages + ToolMsgs(WireKeys([])) == messages;
      }
    }

    /** Reject result calls that came before any investigation. */
    method Steer(res: Response, ghost before: seq<Msg>)
      requires Mid(before, res) && res.calls != [] && ResultCalls(res.calls) == res.calls
      modifies `messages, `dangling
      ensures Orderly() && (dangling <==> old(dangling) || exists c <- res.calls :: c.id.None?)
      ensures messages == before + [Assistant(res.content, res.calls)] + ToolMsgs(SteerKeys(res.calls))
    {
      hide SteerKeys, WireKeys, ResultCalls, AllAnswered, ToolMsgs;
      SteerInvestigateFirst(res.calls);
      TurnAnswered(before, res.content, res.calls, SteerKeys(res.calls));
      SteerMatchesWire(res.calls);
      AllResults(res.calls);
      if exists c <- res.calls :: c.id.None? {
        dangling := true;
        assert Unkeyed(heard[|heard| - 1].response);
      }
    }

    /** A response with no calls: an answer, or a nudge to carry on. */
    method FinalizeOrNudge(content: string) returns (done: bool)
      requires Orderly()
      modifies `messages
      ensures Orderly() && (done <==> !structured && (investigated || !Blank(content)))
      ensures if done then messages == old(messages) else old(messages) < messages
    {
      if structured {
        PushUser("Call the agent_result tool with your final result to finish.");
        return false;
      }
      if Blank(content) && !investigated {
        PushUser("You haven't investigated yet.");
        return false;
      }
      return true;
    }

    method MaybePushCountdown(turn: nat)
      requires Orderly()
      modifies `messages
      ensures Orderly() && old(messages) <= messages
      ensures messages == old(messages) <==> turn + 2 != maxTurns || maxTurns < 4
    {
      if turn + 2 == maxTurns && maxTurns >= 4 {
        PushUser("[budget] 2 turns left");
      }
    }

    /** One round of the loop: ask, run the tools, and accept, steer or nudge. */
    method TakeTurn(turn: nat) returns (end: TurnEnd)
      requires Orderly() && lastText == LastWords(heard)
      modifies this
      ensures SentOrderly() && calls <= old(calls) + 3 && turns == turn && old(heard) <= heard
      ensures lastText == LastWords(heard)
      ensures end.NextTurn? ==> Orderly()
      // the response is the provider's latest; with it the run ends exactly if it is accepted
      ensures !end.Threw? ==> calls > 0 && heard != [] && var res := heard[|heard| - 1].response;
        && |heard| == |old(heard)| + 1 && provider(calls - 1) == Good(res)
        && (investigated <==> old(investigated) || Investigates(res))
        && (end.Finish? <==> if Submits(res.calls) then investigated || !hasRealTools
                             else res.calls == [] && !structured && (investigated || !Blank(res.content)))
        && (end.Finish? ==> end.outcome.viaResult == Submits(res.calls) && Answers(res, end.outcome.output))
      // the next round starts from what was sent, what came back and the answers to its calls
      ensures end.NextTurn? ==> sent != [] && heard != [] && var q, res := sent[|sent| - 1], heard[|heard| - 1].response;
        q.messages + [Assistant(res.content, res.calls)]
        + ToolMsgs(if ResultCalls(res.calls) != [] then SteerKeys(res.calls) else WireKeys(res.calls)) <= messages
      ensures end.Finish? ==> end.outcome.status == Done && end.outcome.turns == turn
      // a structured result is accepted only after real investigation, or with no real tools
      ensures end.Finish? && end.outcome.viaResult ==> investigated || !hasRealTools
      ensures end.Finish? && !end.outcome.viaResult ==> !structured
      // an answer from memory needs a provider that ignored `required`, or the last turn
      ensures end.Finish? && hasRealTools && turn < maxTurns ==>
        investigated || exists h <- heard :: h.choice.Required? && h.response.calls == []
    {
      hide SentOrderly, AllAnswered, ToolMsgs, WireKeysFrom, SteerKeys, ResultCalls, Investigative, Blank, Investigates, Submits,
        Answers, LastWords;
      var answer, before := Ask(turn);
      if answer.None? {
        return Threw;
      }
      var res := answer.value;
      var resultCalls := ResultCalls(res.calls);
      CallsSplit(res.calls);
      CallsInvestigate(res.content, res.calls, res.promptTokens);
      ResponseAnswers(res);
      var threw := Investigate(res, before);
      if threw {
        return Threw;
      }
      if resultCalls != [] {
        if investigated || !hasRealTools {
          return Finish(Outcome(Done, Payload(resultCalls[0].args), turn, true));
        }
        Steer(res, before);
        return NextTurn;
      }
      TurnAnswered(before, res.content, res.calls, WireKeys(res.calls));
      assert Orderly();
      if res.calls == [] {
        assert heard[|heard| - 1] in heard;
        var done := FinalizeOrNudge(res.content);
        if done {
          return Finish(Outcome(Done, res.content, turn, false));
        }
      }
      MaybePushCountdown(turn);
      return NextTurn;
    }

    /** The wrap-up call: its output is empty only if the model's own result payload is. */
    method FinalizeAfterCap() returns (output: string, ghost last: Option<Response>)
      requires Orderly()
      modifies this
      ensures SentOrderly() && calls <= old(calls) + 3 && heard == old(heard) && turns == old(turns)
      ensures investigated == old(investigated) && lastText == old(lastText)
      // what the provider said last, if it was asked and answered; or else what can be salvaged
      ensures last.Some? ==> calls > 0 && provider(calls - 1) == Good(last.value) && !signal(old(looks))
      ensures if last.Some? && (Submits(last.value.calls) || !Blank(last.value.content)) then Answers(last.value, output)
              else output == if signal(old(looks)) && lastText != "" then lastText else Salvage(messages)
      // the output is empty exactly when the model's own result says nothing
      ensures output == "" <==> last.Some? && Submits(last.value.calls) && Answers(last.value, "")
    {
      hide Payload, AllAnswered, ResultCalls, Unkeyed, Investigates, Submits, Answers;
      last := None;
      var stop := IsAborted();
      if stop {
        output := Partial();
        return output, None;
      }
      PushUser(if structured then "FINAL TURN: call agent_result" else "FINAL TURN: answer now");
      var answer := CompleteWithCompaction(if structured then Required else Unset);
      if answer.Some? {
        last := answer;
        var resultCalls := ResultCalls(answer.value.calls);
        ResponseAnswers(answer.value);
        if resultCalls != [] {
          AnswerIsOne(answer.value, Payload(resultCalls[0].args), "");
          return Payload(resultCalls[0].args), last;
        }
        if !Blank(answer.value.content) {
          return answer.value.content, last;
        }
      }
      return Salvage(messages), last;
    }

    /** What the loop and its limits come to: accepted results follow investigation, and an answer from
        memory needs a provider that ignored `required`, or the last turn. */
    ghost predicate Earned(r: Outcome)
      reads this
    {
      && r.turns <= maxTurns && (r.status == Done ==> 1 <= r.turns) && (r.status == MaxTurns ==> r.turns == maxTurns)
      && (r.status == Done && r.viaResult && hasRealTools ==> exists h <- heard :: Investigates(h.response))
      && (r.status == Done && hasRealTools && r.turns < maxTurns ==>
            || (exists h <- heard :: Investigates(h.response))
            || (exists h <- heard :: h.choice.Required? && h.response.calls == []))
    }

    /** What a run hands over: a finished one what the response heard last says, and so one out of turns
        if its last response says anything; any other the last words heard, or else a digest. */
    ghost predicate Delivers(r: Outcome, last: Option<Response>)
      reads this
    {
      && (last.Some? ==> calls > 0 && provider(calls - 1) == Good(last.value))
      && match r.status
         case Done =>
           && heard != [] && last == Some(heard[|heard| - 1].response)
           && r.viaResult == Submits(last.value.calls) && Answers(last.value, r.output)
         case MaxTurns =>
           if last.Some? && (Submits(last.value.calls) || !Blank(last.value.content)) then Answers(last.value, r.output)
           else r.output == Salvage(messages) || (last.None? && r.output == LastWords(heard) != "")
         case Aborted => r.output == if LastWords(heard) != "" then LastWords(heard) else Salvage(messages)
         case Errored => r.output == reason + if digest(messages) != "" then "\n\n" + digest(messages) else ""
    }

    /** `turnLoop`; none if something was thrown. */
    method TurnLoop() returns (r: Option<Outcome>, ghost last: Option<Response>)
      requires Orderly() && calls == 0 && turns == 0 && heard == [] && lastText == ""
      modifies this
      ensures calls <= 3 * (maxTurns + 1) && turns <= maxTurns && lastText == LastWords(heard)
      ensures SentOrderly()
      ensures r.Some? ==> Earned(r.value) && Delivers(r.value, last) && !r.value.status.Errored?
    {
      hide AllAnswered, Unkeyed, Submits, Answers, Investigates;
      last := None;
      for turn := 1 to maxTurns + 1
        invariant Orderly() && calls <= 3 * (turn - 1) && turns <= maxTurns && lastText == LastWords(heard)
      {
        var stop := IsAborted();
        if stop {
          var output := Partial();
          return Some(Outcome(Aborted, output, turn - 1, false)), None;
        }
        var end := TakeTurn(turn);
        if end.Threw? {
          return None, None;
        }
        if end.Finish? {
          return Some(end.outcome), Some(heard[|heard| - 1].response);
        }
      }
      var output;
      output, last := FinalizeAfterCap();
      return Some(Outcome(MaxTurns, output, maxTurns, false)), last;
    }

    /** `run`: the turn loop, with throws turned into an aborted or an error result. */
    method Run() returns (r: Outcome, ghost last: Option<Response>)
      requires Orderly() && calls == 0 && turns == 0 && heard == [] && lastText == ""
      modifies this
      ensures calls <= 3 * (maxTurns + 1)
      // every main request goes out with all earlier calls answered, unless a result call without
      // an id was steered; which requests those are is exactly what `dangling` records
      ensures SentOrderly()
      ensures (forall h <- heard :: !Unkeyed(h.response)) ==> forall q <- sent :: AllAnswered(q.messages)
      ensures Earned(r) && Delivers(r, last)
      // the output is empty exactly if what it is says nothing
      ensures r.output == "" <==>
        || (r.status == Done && Answers(last.value, ""))
        || (r.status == MaxTurns && last.Some? && Submits(last.value.calls) && Answers(last.value, ""))
        || (r.status == Errored && reason == "" && digest(messages) == "")
    {
      hide AllAnswered, Unkeyed, Submits, Investigates;
      var looped;
      looped, last := TurnLoop();
      if looped.Some? {
        r := looped.value;
      } else {
        last := None;
        var stop := IsAborted();
        if stop {
          var output := Partial();
          r := Outcome(Aborted, output, turns, false);
        } else {
          var scraps := digest(messages);
          r := Outcome(Errored, if |scraps| > 0 then reason + "\n\n" + scraps else reason, turns, false);
        }
      }
      EmptyExactly(r, last);
    }

    lemma EmptyExactly(r: Outcome, last: Option<Response>)
      requires Delivers(r, last)
      ensures r.output == "" <==>
        || (r.status == Done && Answers(last.value, ""))
        || (r.status == MaxTurns && last.Some? && Submits(last.value.calls) && Answers(last.value, ""))
        || (r.status == Errored && reason == "" && digest(messages) == "")
    {
      hide Says;
      if last.Some? && (r.status == Done || Submits(last.value.calls)) {
        forall other | Answers(last.value, other) ensures Answers(last.value, "") <==> other == "" {
          AnswerIsOne(last.value, other, "");
        }
      }
    }

    /** `salvageOrFallback`. */
    function Salvage(messages: seq<Msg>): (output: string)
      ensures output != "" && (digest(messages) != "" ==> output == digest(messages))
      ensures digest(messages) == "" ==> output == "(no salvageable output: the agent produced no prose or tool results)"
    {
      var scraps := digest(messages);
      if |scraps| > 0 then scraps else "(no salvageable output: the agent produced no prose or tool results)"
    }

    /** The model's own prose, or else a digest; never empty. */
    method Partial() returns (output: string)
      ensures output == if lastText != "" then lastText else Salvage(messages)
      ensures output != ""
    {
      output := if |lastText| > 0 then lastText else Salvage(messages);
    }
  }

  /** The last response with any prose. */
  ghost function LastWords(heard: seq<Heard>): string {
    if heard == [] then ""
    else
      var last := heard[|heard| - 1].response.content;
      if last != "" then last else LastWords(heard[..|heard| - 1])
  }

  /** It hands in a result. */
  ghost predicate Submits(calls: seq<Call>) {
    exists c <- calls :: c.name == "agent_result"
  }

  ghost predicate FirstSubmission(calls: seq<Call>, k: nat) {
    k < |calls| && calls[k].name == "agent_result" && forall i :: 0 <= i < k ==> calls[i].name != "agent_result"
  }

  /** What a response comes to: what the first result handed in says, or its content if there is none. */
  ghost predicate Answers(res: Response, output: string) {
    if Submits(res.calls) then exists k: nat :: FirstSubmission(res.calls, k) && Says(res.calls[k].args, output)
    else output == res.content
  }

  lemma {:induction false} FirstResult(calls: seq<Call>) returns (k: nat)
    ensures ResultCalls(calls) == [] ==> !Submits(calls)
    ensures ResultCalls(calls) != [] ==> Submits(calls) && FirstSubmission(calls, k) && calls[k] == ResultCalls(calls)[0]
  {
    k := 0;
    if calls != [] && !IsResult(calls[0]) {
      k := FirstResult(calls[1..]);
      assert forall c <- calls :: c == calls[0] || c in calls[1..];
      k := k + 1;
    }
  }

  lemma ResponseAnswers(res: Response)
    ensures ResultCalls(res.calls) != [] <==> Submits(res.calls)
    ensures Answers(res, if ResultCalls(res.calls) != [] then Payload(ResultCalls(res.calls)[0].args) else res.content)
  {
    hide Says;
    var k := FirstResult(res.calls);
    if ResultCalls(res.calls) != [] {
      PayloadSays(res.calls[k].args, Payload(res.calls[k].args));
    }
  }

  /** A response comes to one thing only. */
  lemma AnswerIsOne(res: Response, a: string, b: string)
    requires Answers(res, a)
    ensures Answers(res, b) <==> a == b
  {
    if Submits(res.calls) {
      var k: nat :| FirstSubmission(res.calls, k) && Says(res.calls[k].args, a);
      PayloadSays(res.calls[k].args, a);
      PayloadSays(res.calls[k].args, b);
    }
  }

  /** And to nothing at all exactly if the first result handed in says nothing. */
  lemma AnswersNothing(res: Response)
    requires Submits(res.calls)
    ensures ResultCalls(res.calls) != []
    ensures Answers(res, "") <==> SaysNothing(ResultCalls(res.calls)[0].args)
  {
    hide Payload, SaysNothing, Answers;
    ResponseAnswers(res);
    AnswerIsOne(res, Payload(ResultCalls(res.calls)[0].args), "");
    EmptyPayload(ResultCalls(res.calls)[0].args);
  }

  lemma AllResults(calls: seq<Call>)
    requires ResultCalls(calls) == calls
    ensures forall c <- calls :: IsResult(c)
  {
    OnlyResults(calls);
    assert forall c <- calls :: c in ResultCalls(calls);
  }

  lemma {:induction false} OnlyResults(calls: seq<Call>)
    ensures forall c <- ResultCalls(calls) :: IsResult(c)
  {
    if calls != [] { OnlyResults(calls[1..]); }
  }

  lemma StartAnswered(system: string, task: string)
    ensures AllAnswered([System(system), User(task)])
  {
    assert AllAnswered([]);
    assert [] + [System(system)] == [System(system)];
    assert [System(system)] + [User(task)] == [System(system), User(task)];
    SpokenAnswered([], System(system));
    SpokenAnswered([System(system)], User(task));
  }

  lemma SummaryAnswered(system: Msg, summary: Msg)
    requires summary.User?
    ensures AllAnswered([summary])
    ensures system.System? ==> AllAnswered([system, summary])
  {
    assert AllAnswered([]);
    assert [] + [summary] == [summary];
    SpokenAnswered([], summary);
    if system.System? { StartAnswered(system.text, summary.text); }
  }
}
