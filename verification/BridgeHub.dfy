// packages/core/src/chrome-bridge/bridge-connection.ts
module BridgeHub {
  import opened Results

  // The hub owns at most one authenticated socket, the pending table and the serialized request
  // queue. The class is proved against a step function, and the invariants for every sequence of
  // events.

  type Sock = nat

  /** One call of `request`, and what it asks for. */
  datatype Job = Job(call: nat, what: string)

  /** What the extension's handler returned. */
  datatype Reply = Reply(ok: bool, body: string)

  datatype Outcome = Answered(reply: Reply) | TimedOut | Disconnected

  datatype ExtensionFrame = Hello(token: string, protocol: nat) | Res(id: nat, reply: Reply) | Ping

  datatype ServerFrame = Welcome | Req(id: nat, what: string) | Pong

  const PROTOCOL_VERSION: nat := 2

  datatype CloseCode = Replaced | BadToken | ProtocolMismatch | OtherCode

  /** Calls the hub makes on its surroundings. */
  datatype Effect =
    | Send(sock: Sock, frame: ServerFrame)
    | Close(sock: Sock, code: CloseCode)
    | Resolve(call: nat, outcome: Outcome)

  datatype Event =
    | Open(sock: Sock)
    | HelloTimeout(sock: Sock)
    | Message(sock: Sock, frame: ExtensionFrame)
    | Closed(sock: Sock)
    | Request(job: Job)
    | NextJob                     // the queue's `then` callback: the previous request has settled
    | RequestTimeout(id: nat)

  /** `running` is the request whose promise the queue is waiting on. */
  datatype Hub = Hub(
    token: string,
    active: Option<Sock>,
    helloTimers: set<Sock>,
    pending: map<nat, nat>,       // request id to call
    nextId: nat,
    outdated: bool,
    waiting: seq<Job>,
    running: Option<nat>)

  function Initial(token: string): Hub {
    Hub(token, None, {}, map[], 1, false, [], None)
  }

  // ---- the step function --------------------------------------------------------------------

  /** `entry.resolve(…)`: the promise settles, so the queue may go on. */
  function Settled(h: Hub, call: nat): Hub {
    if h.running == Some(call) then h.(running := None) else h
  }

  /** `rejectAll`. */
  ghost function RejectAll(h: Hub): (Hub, seq<Effect>)
    decreases |h.pending|
  {
    if h.pending == map[] then (h, [])
    else
      var id :| id in h.pending;
      var call := h.pending[id];
      var (h', effects) := RejectAll(Settled(h.(pending := h.pending - {id}), call));
      (h', [Resolve(call, Disconnected)] + effects)
  }

  ghost function OnHello(h0: Hub, sock: Sock, token: string, protocol: nat): (Hub, seq<Effect>) {
    var h := h0.(helloTimers := h0.helloTimers - {sock});
    if token != h.token then (h, [Close(sock, BadToken)])
    else if protocol != PROTOCOL_VERSION then (h.(outdated := true), [Close(sock, ProtocolMismatch)])
    else
      var h1 := h.(outdated := false, active := Some(sock));
      if h.active.Some? && h.active.value != sock then
        var (h2, rejected) := RejectAll(h1);
        (h2, rejected + [Close(h.active.value, Replaced), Send(sock, Welcome)])
      else (h1, [Send(sock, Welcome)])
  }

  ghost function OnFrame(h: Hub, sock: Sock, frame: ExtensionFrame): (Hub, seq<Effect>) {
    if frame.Hello? then OnHello(h, sock, frame.token, frame.protocol)
    else if h.active != Some(sock) then (h, [])
    else if frame.Ping? then (h, [Send(sock, Pong)])
    else if frame.id !in h.pending then (h, [])
    else
      var call := h.pending[frame.id];
      (Settled(h.(pending := h.pending - {frame.id}), call), [Resolve(call, Answered(frame.reply))])
  }

  ghost function OnClosed(h0: Hub, sock: Sock): (Hub, seq<Effect>) {
    var h := h0.(helloTimers := h0.helloTimers - {sock});
    if h.active == Some(sock) then RejectAll(h.(active := None)) else (h, [])
  }

  ghost function Launch(h: Hub): (Hub, seq<Effect>) {
    if h.running.Some? || h.waiting == [] then (h, [])
    else
      var job := h.waiting[0];
      var h' := h.(waiting := h.waiting[1..]);
      if h.active.None? then (h', [Resolve(job.call, Disconnected)])
      else
        (h'.(pending := h.pending[h.nextId := job.call], nextId := h.nextId + 1, running := Some(job.call)),
         [Send(h.active.value, Req(h.nextId, job.what))])
  }

  ghost function Step(h: Hub, e: Event): (Hub, seq<Effect>) {
    match e
    case Open(sock) => (h.(helloTimers := h.helloTimers + {sock}), [])
    case HelloTimeout(sock) =>
      if sock in h.helloTimers then (h.(helloTimers := h.helloTimers - {sock}), [Close(sock, BadToken)]) else (h, [])
    case Message(sock, frame) => OnFrame(h, sock, frame)
    case Closed(sock) => OnClosed(h, sock)
    case Request(job) => (h.(waiting := h.waiting + [job]), [])
    case NextJob => Launch(h)
    case RequestTimeout(id) =>
      if id in h.pending then
        (Settled(h.(pending := h.pending - {id}), h.pending[id]), [Resolve(h.pending[id], TimedOut)])
      else (h, [])
  }

  // ---- what every step keeps ------------------------------------------------------------------

  ghost predicate Only(pending: map<nat, nat>, call: nat, bound: nat, id: nat) {
    id < bound && pending == map[id := call]
  }

  /** At most one request is pending, it is the running one, and only while a socket is active. */
  ghost predicate Serial(h: Hub) {
    && (h.running.None? ==> h.pending == map[])
    && (h.running.Some? ==> exists id :: Only(h.pending, h.running.value, h.nextId, id))
    && (h.active.None? ==> h.pending == map[])
  }

  /** With at most one entry, rejecting all is rejecting the running one. */
  lemma RejectAllOnce(h: Hub)
    requires h.running.None? ==> h.pending == map[]
    requires h.running.Some? ==> exists id :: Only(h.pending, h.running.value, h.nextId, id)
    ensures RejectAll(h) ==
      (h.(pending := map[], running := None), if h.running.None? then [] else [Resolve(h.running.value, Disconnected)])
  {
    if h.running.Some? {
      var id :| Only(h.pending, h.running.value, h.nextId, id);
      var h' := h.(pending := map[], running := None);
      assert id in h.pending && forall k :: k in h.pending ==> k == id;
      assert h.pending - {id} == map[];
      assert Settled(h.(pending := map[]), h.running.value) == h';
      assert RejectAll(h') == (h', []);
      var one := [Resolve(h.running.value, Disconnected)];
      assert one + [] == one;
      assert RejectAll(h) == (h', one + []);
    }
  }

  /** A run of the hub: its state, the calls made so far in order, how they settled, in order,
      and the socket and request each id was sent with. */
  datatype Run = Run(
    hub: Hub,
    issued: seq<nat>,
    outcomes: seq<(nat, Outcome)>,
    sentOn: map<nat, Sock>,
    asked: map<nat, Job>)

  function Begin(token: string): Run {
    Run(Initial(token), [], [], map[], map[])
  }

  function Outcomes(effects: seq<Effect>): seq<(nat, Outcome)> {
    if effects == [] then []
    else if effects[0].Resolve? then [(effects[0].call, effects[0].outcome)] + Outcomes(effects[1..])
    else Outcomes(effects[1..])
  }

  ghost function Advance(r: Run, e: Event): Run {
    var (h', effects) := Step(r.hub, e);
    var sends := e.NextJob? && h'.nextId > r.hub.nextId;
    Run(h',
        if e.Request? then r.issued + [e.job.call] else r.issued,
        r.outcomes + Outcomes(effects),
        if sends then r.sentOn[r.hub.nextId := r.hub.active.value] else r.sentOn,
        if sends then r.asked[r.hub.nextId := r.hub.waiting[0]] else r.asked)
  }

  ghost function After(r: Run, events: seq<Event>): Run
    decreases |events|
  {
    if events == [] then r else Advance(After(r, events[..|events| - 1]), events[|events| - 1])
  }

  function CallsOf(jobs: seq<Job>): seq<nat> {
    seq(|jobs|, i requires 0 <= i < |jobs| => jobs[i].call)
  }

  function SettledCalls(outcomes: seq<(nat, Outcome)>): seq<nat> {
    seq(|outcomes|, i requires 0 <= i < |outcomes| => outcomes[i].0)
  }

  function RunningCalls(h: Hub): seq<nat> {
    if h.running.Some? then [h.running.value] else []
  }

  /** The hub's invariant over a run. The calls made are the settled ones, then the running one,
      then the waiting ones, in that order: none is lost, none settles twice, and they settle in
      the order they were made. A pending entry was sent on the socket that is active now. */
  ghost predicate Invariant(r: Run) {
    && Serial(r.hub)
    && r.issued == SettledCalls(r.outcomes) + RunningCalls(r.hub) + CallsOf(r.hub.waiting)
    && (forall id :: id in r.hub.pending ==> id in r.sentOn && r.hub.active == Some(r.sentOn[id]))
    && (forall id :: id in r.hub.pending ==> id in r.asked && r.asked[id].call == r.hub.pending[id])
    && r.sentOn.Keys == r.asked.Keys
    && (forall id :: id in r.asked ==> id < r.hub.nextId)
  }

  lemma OneOutcome(call: nat, outcome: Outcome, rest: seq<Effect>)
    requires forall x <- rest :: !x.Resolve?
    ensures Outcomes([Resolve(call, outcome)] + rest) == [(call, outcome)]
    ensures Outcomes(rest) == []
  {
    NoOutcome(rest);
    assert ([Resolve(call, outcome)] + rest)[1..] == rest;
  }

  lemma {:induction false} NoOutcome(effects: seq<Effect>)
    requires forall x <- effects :: !x.Resolve?
    ensures Outcomes(effects) == []
  {
    if effects != [] { NoOutcome(effects[1..]); }
  }

  /** The running request is left alone, and so is the socket it went out on. */
  ghost predicate Untouched(h: Hub, h': Hub, effects: seq<Effect>) {
    && h'.running == h.running && h'.pending == h.pending && Outcomes(effects) == []
    && (h.pending != map[] ==> h'.active == h.active)
  }

  /** The running request, and no other, settles. */
  ghost predicate Settles(h: Hub, h': Hub, effects: seq<Effect>, outcome: Outcome) {
    && h.running.Some? && h'.running == None && h'.pending == map[]
    && Outcomes(effects) == [(h.running.value, outcome)]
  }

  /** Every event but a new request and the queue's turn does one or the other. */
  lemma StepShape(h: Hub, e: Event)
    requires Serial(h) && !e.Request? && !e.NextJob?
    ensures var (h', effects) := Step(h, e);
      && h'.waiting == h.waiting && h'.nextId == h.nextId && Serial(h')
      && (Untouched(h, h', effects) || exists o :: Settles(h, h', effects, o))
  {
    if h.running.Some? { var id :| Only(h.pending, h.running.value, h.nextId, id); }
    var (h', effects) := Step(h, e);
    match e {
      case Message(sock, Hello(token, protocol)) => HelloShape(h, sock, token, protocol);
      case Message(sock, Ping) => NoOutcome([Send(sock, Pong)]);
      case Message(sock, Res(id, reply)) =>
        if h.active == Some(sock) && id in h.pending {
          assert h.pending - {id} == map[];
          OneOutcome(h.pending[id], Answered(reply), []);
          assert Settles(h, h', effects, Answered(reply));
        }
      case Closed(sock) =>
        if h.active == Some(sock) {
          RejectAllOnce(h.(helloTimers := h.helloTimers - {sock}, active := None));
          if h.running.Some? {
            OneOutcome(h.running.value, Disconnected, []);
            assert Settles(h, h', effects, Disconnected);
          }
        }
      case RequestTimeout(id) =>
        if id in h.pending {
          assert h.pending - {id} == map[];
          OneOutcome(h.pending[id], TimedOut, []);
          assert Settles(h, h', effects, TimedOut);
        }
      case HelloTimeout(sock) => NoOutcome([Close(sock, BadToken)]);
      case Open(_) =>
    }
  }

  lemma HelloShape(h: Hub, sock: Sock, token: string, protocol: nat)
    requires Serial(h)
    ensures var (h', effects) := OnHello(h, sock, token, protocol);
      && h'.waiting == h.waiting && h'.nextId == h.nextId && Serial(h')
      && (Untouched(h, h', effects) || exists o :: Settles(h, h', effects, o))
  {
    var (h', effects) := OnHello(h, sock, token, protocol);
    if h.running.Some? { var id :| Only(h.pending, h.running.value, h.nextId, id); }
    NoOutcome([Close(sock, BadToken)]);
    NoOutcome([Close(sock, ProtocolMismatch)]);
    NoOutcome([Send(sock, Welcome)]);
    if token == h.token && protocol == PROTOCOL_VERSION && h.active.Some? && h.active.value != sock {
      RejectAllOnce(h.(helloTimers := h.helloTimers - {sock}, outdated := false, active := Some(sock)));
      var tail := [Close(h.active.value, Replaced), Send(sock, Welcome)];
      NoOutcome(tail);
      if h.running.Some? {
        OneOutcome(h.running.value, Disconnected, tail);
        assert Settles(h, h', effects, Disconnected);
      } else {
        assert [] + tail == tail;
      }
    }
  }

  /** The invariant holds of every run, whatever the sockets and timers do. */
  lemma {:induction false} InvariantAlways(token: string, events: seq<Event>)
    ensures Invariant(After(Begin(token), events))
    decreases |events|
  {
    if events != [] {
      InvariantAlways(token, events[..|events| - 1]);
      InvariantStep(After(Begin(token), events[..|events| - 1]), events[|events| - 1]);
    } else {
      assert SettledCalls([]) + RunningCalls(Initial(token)) + CallsOf([]) == [];
    }
  }

  lemma InvariantStep(r: Run, e: Event)
    requires Invariant(r)
    ensures Invariant(Advance(r, e))
  {
    if e.Request? {
      NoOutcome([]);
      assert CallsOf(r.hub.waiting + [e.job]) == CallsOf(r.hub.waiting) + [e.job.call];
      assert r.outcomes + [] == r.outcomes;
    } else if e.NextJob? {
      LaunchKeeps(r);
    } else {
      StepShape(r.hub, e);
      var (h', effects) := Step(r.hub, e);
      if Untouched(r.hub, h', effects) {
        assert r.outcomes + [] == r.outcomes;
      } else {
        var o :| Settles(r.hub, h', effects, o);
        assert SettledCalls(r.outcomes + [(r.hub.running.value, o)]) == SettledCalls(r.outcomes) + [r.hub.running.value];
      }
    }
  }

  lemma LaunchKeeps(r: Run)
    requires Invariant(r)
    ensures Invariant(Advance(r, NextJob))
  {
    var h := r.hub;
    var (h', effects) := Launch(h);
    if h.running.Some? || h.waiting == [] {
      NoOutcome([]);
      assert r.outcomes + [] == r.outcomes;
    } else {
      var job := h.waiting[0];
      assert CallsOf(h.waiting) == [job.call] + CallsOf(h.waiting[1..]);
      if h.active.None? {
        OneOutcome(job.call, Disconnected, []);
        assert effects == [Resolve(job.call, Disconnected)] + [];
        assert SettledCalls(r.outcomes + [(job.call, Disconnected)]) == SettledCalls(r.outcomes) + [job.call];
      } else {
        NoOutcome(effects);
        assert r.outcomes + [] == r.outcomes;
        assert h'.pending == map[h.nextId := job.call];
        assert Only(h'.pending, job.call, h'.nextId, h.nextId);
      }
    }
  }

  /** Spelled out for callers: if no call is made twice, none settles twice, and those that have
      settled are the first ones made, in order. */
  lemma SettleOnceInOrder(token: string, events: seq<Event>)
    ensures var r := After(Begin(token), events);
      && SettledCalls(r.outcomes) <= r.issued
      && |r.hub.pending| <= 1
      && (r.hub.active.None? ==> r.hub.pending == map[])
      && ((forall i, j :: 0 <= i < j < |r.issued| ==> r.issued[i] != r.issued[j]) ==>
           forall i, j :: 0 <= i < j < |r.outcomes| ==> r.outcomes[i].0 != r.outcomes[j].0)
  {
    InvariantAlways(token, events);
    var r := After(Begin(token), events);
    var s := SettledCalls(r.outcomes);
    assert s <= r.issued;
    if r.hub.running.Some? {
      var id :| Only(r.hub.pending, r.hub.running.value, r.hub.nextId, id);
      assert |r.hub.pending| == 1;
    }
    if forall i, j :: 0 <= i < j < |r.issued| ==> r.issued[i] != r.issued[j] {
      forall i, j | 0 <= i < j < |r.outcomes| ensures r.outcomes[i].0 != r.outcomes[j].0 {
        assert s[i] == r.issued[i] && s[j] == r.issued[j];
      }
    }
  }

  // ---- the class --------------------------------------------------------------------------------

  class SocketHub {
    const token: string
    var active: Option<Sock>
    var helloTimers: set<Sock>
    var pending: map<nat, nat>
    var nextId: nat
    var outdated: bool
    var waiting: seq<Job>         // the promise chain: requests not yet sent
    var running: Option<nat>      // and the one it waits on
    var log: seq<Effect>          // calls made on sockets and resolvers, in order

    ghost function State(): Hub
      reads this
    {
      Hub(token, active, helloTimers, pending, nextId, outdated, waiting, running)
    }

    /** The method did exactly what the step function says, and keeps the invariant. */
    twostate predicate Did(e: Event)
      reads this
    {
      && State() == Step(old(State()), e).0
      && log == old(log) + Step(old(State()), e).1
      && Serial(State())
    }

    constructor (token: string)
      ensures State() == Initial(token) && log == [] && Serial(State())
    {
      this.token := token;
      active, helloTimers, pending, nextId, outdated := None, {}, map[], 1, false;
      waiting, running, log := [], None, [];
    }

    method OnOpen(sock: Sock)
      requires Serial(State())
      modifies this
      ensures Did(Open(sock))
    {
      helloTimers := helloTimers + {sock};
      assert old(log) + [] == old(log);
    }

    /** The hello timer's callback; a cleared timer does not fire. */
    method OnHelloTimeout(sock: Sock)
      requires Serial(State()) && sock in helloTimers
      modifies this
      ensures Did(HelloTimeout(sock))
    {
      helloTimers := helloTimers - {sock};
      log := log + [Close(sock, BadToken)];
    }

    method OnMessage(sock: Sock, frame: ExtensionFrame)
      requires Serial(State())
      modifies this
      ensures Did(Message(sock, frame))
    {
      StepShape(State(), Message(sock, frame));
      assert log + [] == log;
      if frame.Hello? {
        OnHelloFrame(sock, frame.token, frame.protocol);
        return;
      }
      if active != Some(sock) {
        return;
      }
      if frame.Ping? {
        log := log + [Send(sock, Pong)];
        return;
      }
      if frame.id !in pending {
        return;
      }
      var call := pending[frame.id];
      pending := pending - {frame.id};
      ResolveCall(call, Answered(frame.reply));
    }

    method OnClose(sock: Sock)
      requires Serial(State())
      modifies this
      ensures Did(Closed(sock))
    {
      StepShape(State(), Closed(sock));
      assert log + [] == log;
      helloTimers := helloTimers - {sock};
      if active == Some(sock) {
        active := None;
        if running.Some? {
          ghost var id :| Only(old(pending), old(running).value, old(nextId), id);
          assert Only(pending, running.value, nextId, id);
        }
        RejectPending();
      }
    }

    method RequestJob(job: Job)
      requires Serial(State())
      modifies this
      ensures Did(Request(job))
    {
      waiting := waiting + [job];
      assert log + [] == log;
    }

    /** The queue's turn: `send` for the first waiting request. */
    method RunNext()
      requires Serial(State()) && running.None? && waiting != []
      modifies this
      ensures Did(NextJob)
    {
      var job := waiting[0];
      waiting := waiting[1..];
      if active.None? {
        ResolveCall(job.call, Disconnected);
        return;
      }
      var id := nextId;
      nextId := nextId + 1;
      pending := pending[id := job.call];
      running := Some(job.call);
      log := log + [Send(active.value, Req(id, job.what))];
      assert pending == map[id := job.call];
      assert Only(pending, job.call, nextId, id);
    }

    method OnRequestTimeout(id: nat)
      requires Serial(State()) && id in pending
      modifies this
      ensures Did(RequestTimeout(id))
    {
      StepShape(State(), RequestTimeout(id));
      var call := pending[id];
      pending := pending - {id};
      ResolveCall(call, TimedOut);
    }

    method ResolveCall(call: nat, outcome: Outcome)
      modifies `running, `log
      ensures State() == Settled(old(State()), call)
      ensures log == old(log) + [Resolve(call, outcome)]
    {
      log := log + [Resolve(call, outcome)];
      if running == Some(call) { running := None; }
    }

    method RejectPending()
      requires running.None? ==> pending == map[]
      requires running.Some? ==> exists id :: Only(pending, running.value, nextId, id)
      modifies `pending, `running, `log
      ensures State() == RejectAll(old(State())).0 && log == old(log) + RejectAll(old(State())).1
    {
      ghost var h := State();
      RejectAllOnce(h);
      assert log + [] == log;
      while pending != map[]
        invariant (pending == h.pending && running == h.running && log == old(log))
          || (pending == map[] && State() == RejectAll(h).0 && log == old(log) + RejectAll(h).1)
        decreases |pending|
      {
        var id :| id in pending;
        var call := pending[id];
        ghost var key :| Only(pending, running.value, nextId, key);
        assert id == key && pending - {id} == map[];
        pending := pending - {id};
        ResolveCall(call, Disconnected);
      }
    }

    method OnHelloFrame(sock: Sock, helloToken: string, protocol: nat)
      requires Serial(State())
      modifies this
      ensures State() == OnHello(old(State()), sock, helloToken, protocol).0
      ensures log == old(log) + OnHello(old(State()), sock, helloToken, protocol).1
    {
      helloTimers := helloTimers - {sock};
      if helloToken != token {
        log := log + [Close(sock, BadToken)];
        return;
      }
      if protocol != PROTOCOL_VERSION {
        outdated := true;
        log := log + [Close(sock, ProtocolMismatch)];
        return;
      }
      outdated := false;
      var previous := active;
      active := Some(sock);
      if previous.Some? && previous.value != sock {
        if running.Some? { ghost var id :| Only(pending, running.value, nextId, id); }
        RejectPending();
        log := log + [Close(previous.value, Replaced)];
      }
      log := log + [Send(sock, Welcome)];
    }
  }
}
