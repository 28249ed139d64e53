// Which message lists a provider accepts.
module ToolAnswers {
  import opened Results
  import opened Digits
  import opened ResultPayload

  // Every tool call of an assistant message must be answered, under the id it has on the wire
  // (packages/core/src/inference/wire.ts), before anything else is said.

  const AGENT_RESULT := "agent_result"

  /** `args` is the arguments as `resultPayload` sees them. */
  datatype Call = Call(id: Option<string>, name: string, args: Args)

  datatype Msg =
    | System(text: string)
    | User(text: string)
    | Assistant(content: string, calls: seq<Call>)
    | ToolMsg(id: string)

  /** `tc.id ?? \`call_${i}\`` */
  function WireKey(call: Call, i: nat): string {
    if call.id.Some? then call.id.value else "call_" + Decimal(i)
  }

  function WireKeysFrom(calls: seq<Call>, from: nat): seq<string> {
    if calls == [] then [] else [WireKey(calls[0], from)] + WireKeysFrom(calls[1..], from + 1)
  }

  function WireKeys(calls: seq<Call>): seq<string> {
    WireKeysFrom(calls, 0)
  }

  /** `call.id ?? AGENT_RESULT_TOOL.function.name`, the key a steer answers under. */
  function SteerKeys(calls: seq<Call>): seq<string> {
    if calls == [] then [] else [calls[0].id.GetOr(AGENT_RESULT)] + SteerKeys(calls[1..])
  }

  function ToolMsgs(keys: seq<string>): seq<Msg> {
    if keys == [] then [] else [ToolMsg(keys[0])] + ToolMsgs(keys[1..])
  }

  /** The wire ids still owed an answer; none if something was said out of turn. */
  ghost function Pending(messages: seq<Msg>): Option<multiset<string>> {
    if messages == [] then Some(multiset{})
    else
      var before, last := Pending(messages[..|messages| - 1]), messages[|messages| - 1];
      if before.None? then None
      else
        match last
        case ToolMsg(id) => if id in before.value then Some(before.value - multiset{id}) else None
        case Assistant(_, calls) => if before.value == multiset{} then Some(multiset(WireKeys(calls))) else None
        case _ => if before.value == multiset{} then before else None
  }

  ghost predicate AllAnswered(messages: seq<Msg>) {
    Pending(messages) == Some(multiset{})
  }

  lemma PendingAppend(messages: seq<Msg>, m: Msg)
    ensures (messages + [m])[..|messages|] == messages && (messages + [m])[|messages|] == m
  {}

  lemma OneFewer(p: multiset<string>, keys: seq<string>)
    requires keys != []
    ensures p == multiset(keys) <==> keys[0] in p && p - multiset{keys[0]} == multiset(keys[1..])
  {
    assert keys == [keys[0]] + keys[1..];
    if keys[0] in p { assert p == p - multiset{keys[0]} + multiset{keys[0]}; }
  }

  lemma PendingTool(messages: seq<Msg>, id: string)
    ensures Pending(messages + [ToolMsg(id)]) ==
      var p := Pending(messages);
      if p.Some? && id in p.value then Some(p.value - multiset{id}) else None
  {
    PendingAppend(messages, ToolMsg(id));
  }

  /** Tool messages settle what is pending exactly when they carry exactly the pending ids. */
  lemma {:induction false} ToolsSettle(messages: seq<Msg>, keys: seq<string>)
    ensures AllAnswered(messages + ToolMsgs(keys)) <==> Pending(messages) == Some(multiset(keys))
    decreases |keys|
  {
    hide Pending;
    if keys == [] {
      assert messages + [] == messages;
    } else {
      var m := ToolMsg(keys[0]);
      PendingTool(messages, keys[0]);
      ToolsSettle(messages + [m], keys[1..]);
      assert messages + ToolMsgs(keys) == messages + [m] + ToolMsgs(keys[1..]);
      var p := Pending(messages);
      if p.Some? { OneFewer(p.value, keys); }
    }
  }

  /** A user or system message is fine exactly where nothing is pending, and leaves nothing so. */
  lemma SpokenAnswered(messages: seq<Msg>, m: Msg)
    requires m.User? || m.System?
    ensures AllAnswered(messages + [m]) <==> AllAnswered(messages)
  {
    PendingAppend(messages, m);
  }

  /** A turn of calls and answers keeps the list in order iff the answers match the calls. */
  lemma TurnAnswered(messages: seq<Msg>, content: string, calls: seq<Call>, keys: seq<string>)
    ensures AllAnswered(messages + [Assistant(content, calls)] + ToolMsgs(keys))
       <==> AllAnswered(messages) && multiset(keys) == multiset(WireKeys(calls))
  {
    PendingAppend(messages, Assistant(content, calls));
    ToolsSettle(messages + [Assistant(content, calls)], keys);
  }

  function Unnamed(calls: seq<Call>): nat {
    if calls == [] then 0 else (if calls[0].id.None? then 1 else 0) + Unnamed(calls[1..])
  }

  lemma {:induction false} CountResultKeys(calls: seq<Call>, from: nat)
    ensures multiset(SteerKeys(calls))[AGENT_RESULT] == multiset(WireKeysFrom(calls, from))[AGENT_RESULT] + Unnamed(calls)
  {
    if calls != [] {
      CountResultKeys(calls[1..], from + 1);
      var k := "call_" + Decimal(from);
      assert k[0] == 'c' && AGENT_RESULT[0] == 'a';
      assert multiset(SteerKeys(calls)) == multiset{SteerKeys(calls)[0]} + multiset(SteerKeys(calls[1..]));
      assert multiset(WireKeysFrom(calls, from))
          == multiset{WireKey(calls[0], from)} + multiset(WireKeysFrom(calls[1..], from + 1));
    }
  }

  lemma {:induction false} SameKeysIfNamed(calls: seq<Call>, from: nat)
    requires forall c <- calls :: c.id.Some?
    ensures SteerKeys(calls) == WireKeysFrom(calls, from) && Unnamed(calls) == 0
  {
    if calls != [] { SameKeysIfNamed(calls[1..], from + 1); }
  }

  lemma {:induction false} UnnamedMeans(calls: seq<Call>)
    ensures Unnamed(calls) == 0 <==> forall c <- calls :: c.id.Some?
  {
    if calls != [] {
      UnnamedMeans(calls[1..]);
      assert calls == [calls[0]] + calls[1..];
    }
  }

  /** Steering answers every call under its wire id exactly when every call came with an id. */
  lemma SteerMatchesWire(calls: seq<Call>)
    ensures multiset(SteerKeys(calls)) == multiset(WireKeys(calls)) <==> forall c <- calls :: c.id.Some?
  {
    UnnamedMeans(calls);
    CountResultKeys(calls, 0);
    if forall c <- calls :: c.id.Some? { SameKeysIfNamed(calls, 0); }
  }

  /** So a steered turn leaves the list in order exactly when it was so and every call had an id. */
  lemma SteeredTurnExact(messages: seq<Msg>, content: string, calls: seq<Call>)
    ensures AllAnswered(messages + [Assistant(content, calls)] + ToolMsgs(SteerKeys(calls)))
       <==> AllAnswered(messages) && forall c <- calls :: c.id.Some?
  {
    TurnAnswered(messages, content, calls, SteerKeys(calls));
    SteerMatchesWire(calls);
  }
}
