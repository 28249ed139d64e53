// What becomes of a request to the Chrome bridge.
module BridgeFate {
  import opened Results
  import opened BridgeHub

  // ---- who is connected -------------------------------------------------------------------------

  /** The right token, and protocol version 2. */
  predicate Pairs(token: string, e: Event) {
    e.Message? && e.frame == Hello(token, 2)
  }

  /** The socket said the right hello at event `k`; it has not closed since, and no socket has paired. */
  ghost predicate PairedAt(token: string, events: seq<Event>, k: nat, sock: Sock) {
    && k < |events| && Pairs(token, events[k]) && events[k].sock == sock
    && forall j :: k < j < |events| ==> events[j] != Closed(sock) && !Pairs(token, events[j])
  }

  ghost predicate Connected(token: string, events: seq<Event>, sock: Sock) {
    exists k: nat :: PairedAt(token, events, k, sock)
  }

  lemma ActiveStep(r: Run, e: Event)
    requires Invariant(r)
    ensures var h := Advance(r, e).hub;
      && h.token == r.hub.token
      && h.active == if Pairs(r.hub.token, e) then Some(e.sock)
                     else if e.Closed? && r.hub.active == Some(e.sock) then None
                     else r.hub.active
  {
    var h := r.hub;
    if h.running.Some? { var id :| Only(h.pending, h.running.value, h.nextId, id); }
    match e {
      case Message(sock, Hello(token, protocol)) =>
        RejectAllOnce(h.(helloTimers := h.helloTimers - {sock}, outdated := false, active := Some(sock)));
      case Closed(sock) =>
        if h.active == Some(sock) { RejectAllOnce(h.(helloTimers := h.helloTimers - {sock}, active := None)); }
      case _ =>
    }
  }

  /** The active socket, for every sequence of events: the last that paired, if it has not closed. */
  lemma {:induction false} ActiveExactly(token: string, events: seq<Event>)
    ensures var h := After(Begin(token), events).hub;
      h.token == token && forall sock: Sock :: h.active == Some(sock) <==> Connected(token, events, sock)
    decreases |events|
  {
    hide Step;
    if events != [] {
      var init, e := events[..|events| - 1], events[|events| - 1];
      ActiveExactly(token, init);
      InvariantAlways(token, init);
      ActiveStep(After(Begin(token), init), e);
      forall sock: Sock
        ensures Connected(token, events, sock) <==>
          if Pairs(token, e) then sock == e.sock else Connected(token, init, sock) && e != Closed(sock)
      {
        ConnectedStep(token, init, e, sock);
        assert init + [e] == events;
      }
    }
  }

  lemma ConnectedStep(token: string, init: seq<Event>, e: Event, sock: Sock)
    ensures Connected(token, init + [e], sock) <==>
      if Pairs(token, e) then sock == e.sock else Connected(token, init, sock) && e != Closed(sock)
  {
    var events := init + [e];
    if Connected(token, events, sock) {
      var k: nat :| PairedAt(token, events, k, sock);
      if k < |init| {
        assert forall j :: k < j < |init| ==> init[j] == events[j];
        assert PairedAt(token, init, k, sock);
        assert events[|init|] == e;
      }
    }
    if Pairs(token, e) && sock == e.sock { assert PairedAt(token, events, |init|, sock); }
    if !Pairs(token, e) && Connected(token, init, sock) && e != Closed(sock) {
      var k: nat :| PairedAt(token, init, k, sock);
      assert PairedAt(token, events, k, sock);
    }
  }

  // ---- what settles a request ----------------------------------------------------------------------

  /** What an event means for request `id` that went out on `sock`: its answer, the end of its time, or
      the end of its socket, which closes or is replaced. */
  function Verdict(token: string, sock: Sock, id: nat, e: Event): Option<Outcome> {
    match e
    case Message(from, Res(of, reply)) => if from == sock && of == id then Some(Answered(reply)) else None
    case RequestTimeout(of) => if of == id then Some(TimedOut) else None
    case Closed(gone) => if gone == sock then Some(Disconnected) else None
    case Message(other, Hello(_, _)) => if Pairs(token, e) && other != sock then Some(Disconnected) else None
    case _ => None
  }

  /** Event `j` is the first that decides, and it decides this. */
  ghost predicate DecidedAt(token: string, sock: Sock, id: nat, events: seq<Event>, j: nat, o: Outcome) {
    && j < |events| && Verdict(token, sock, id, events[j]) == Some(o)
    && forall i :: 0 <= i < j ==> Verdict(token, sock, id, events[i]) == None
  }

  ghost predicate Decided(token: string, sock: Sock, id: nat, events: seq<Event>, o: Outcome) {
    exists j: nat :: DecidedAt(token, sock, id, events, j, o)
  }

  ghost predicate Undecided(token: string, sock: Sock, id: nat, events: seq<Event>) {
    forall i :: 0 <= i < |events| ==> Verdict(token, sock, id, events[i]) == None
  }

  /** Request `id` is on its way on `sock`. */
  ghost predicate Outstanding(r: Run, sock: Sock, id: nat, call: nat) {
    r.hub.pending == map[id := call] && r.hub.running == Some(call) && r.hub.active == Some(sock)
  }

  lemma VerdictStep(r: Run, e: Event, sock: Sock, id: nat, call: nat)
    requires Invariant(r) && Outstanding(r, sock, id, call)
    ensures var r', v := Advance(r, e), Verdict(r.hub.token, sock, id, e);
      if v.None? then r'.outcomes == r.outcomes && Outstanding(r', sock, id, call)
      else r'.outcomes == r.outcomes + [(call, v.value)]
  {
    var h := r.hub;
    var only :| Only(h.pending, h.running.value, h.nextId, only);
    assert only in h.pending && only == id;
    ActiveStep(r, e);
    NoOutcome([]);
    assert r.outcomes + [] == r.outcomes;
    match e {
      case Message(from, Hello(token, protocol)) => HelloVerdict(r, from, token, protocol, sock, id, call);
      case Message(from, Res(of, reply)) =>
        OneOutcome(call, Answered(reply), []);
        if from == sock && of == id { assert Step(h, e).1 == [Resolve(call, Answered(reply))] + []; }
      case Message(from, Ping) => NoOutcome([Send(from, Pong)]);
      case Closed(gone) =>
        if gone == sock {
          RejectAllOnce(h.(helloTimers := h.helloTimers - {gone}, active := None));
          OneOutcome(call, Disconnected, []);
        }
      case RequestTimeout(of) =>
        OneOutcome(call, TimedOut, []);
        if of == id { assert Step(h, e).1 == [Resolve(call, TimedOut)] + []; }
      case HelloTimeout(from) => NoOutcome([Close(from, BadToken)]);
      case _ =>
    }
  }

  lemma HelloVerdict(r: Run, from: Sock, token: string, protocol: nat, sock: Sock, id: nat, call: nat)
    requires Invariant(r) && Outstanding(r, sock, id, call)
    ensures var e := Message(from, Hello(token, protocol));
      var r', v := Advance(r, e), Verdict(r.hub.token, sock, id, e);
      if v.None? then r'.outcomes == r.outcomes && Outstanding(r', sock, id, call)
      else r'.outcomes == r.outcomes + [(call, v.value)]
  {
    var h := r.hub;
    var only :| Only(h.pending, h.running.value, h.nextId, only);
    assert only in h.pending && only == id;
    NoOutcome([Close(from, BadToken)]);
    NoOutcome([Close(from, ProtocolMismatch)]);
    NoOutcome([Send(from, Welcome)]);
    assert r.outcomes + [] == r.outcomes;
    if token == h.token && protocol == 2 && from != sock {
      RejectAllOnce(h.(helloTimers := h.helloTimers - {from}, outdated := false, active := Some(from)));
      OneOutcome(call, Disconnected, [Close(sock, Replaced), Send(from, Welcome)]);
    }
  }

  /** Outcomes are only ever added. */
  lemma {:induction false} OutcomesGrow(r: Run, events: seq<Event>)
    ensures r.outcomes <= After(r, events).outcomes
    decreases |events|
  {
    hide Step;
    if events != [] { OutcomesGrow(r, events[..|events| - 1]); }
  }

  lemma {:induction false} AfterKeepsInvariant(r: Run, events: seq<Event>)
    requires Invariant(r)
    ensures Invariant(After(r, events)) && After(r, events).hub.token == r.hub.token
    decreases |events|
  {
    hide Step;
    if events != [] {
      AfterKeepsInvariant(r, events[..|events| - 1]);
      InvariantStep(After(r, events[..|events| - 1]), events[|events| - 1]);
      ActiveStep(After(r, events[..|events| - 1]), events[|events| - 1]);
    }
  }

  lemma {:induction false} FirstVerdict(r: Run, events: seq<Event>, sock: Sock, id: nat, call: nat) returns (j: nat)
    requires Invariant(r) && Outstanding(r, sock, id, call)
    ensures var r', token := After(r, events), r.hub.token;
      if Undecided(token, sock, id, events) then r'.outcomes == r.outcomes && Outstanding(r', sock, id, call)
      else
        && j < |events| && Verdict(token, sock, id, events[j]).Some?
        && DecidedAt(token, sock, id, events, j, Verdict(token, sock, id, events[j]).value)
        && r.outcomes + [(call, Verdict(token, sock, id, events[j]).value)] <= r'.outcomes
    decreases |events|
  {
    hide Step, Verdict, Invariant;
    j := 0;
    if events != [] {
      var n := |events| - 1;
      var init, e := events[..n], events[n];
      assert forall i :: 0 <= i < n ==> init[i] == events[i];
      AfterKeepsInvariant(r, init);
      j := FirstVerdict(r, init, sock, id, call);
      if Undecided(r.hub.token, sock, id, init) {
        VerdictStep(After(r, init), e, sock, id, call);
        j := n;
      } else {
        assert Verdict(r.hub.token, sock, id, events[j]).Some?;
      }
    }
  }

  // ---- whole runs -----------------------------------------------------------------------------------

  /** The calls of `request`, in order. */
  function Requests(events: seq<Event>): seq<Job> {
    if events == [] then []
    else
      var last := events[|events| - 1];
      Requests(events[..|events| - 1]) + if last.Request? then [last.job] else []
  }

  lemma QueueStep(r: Run, e: Event)
    requires Invariant(r)
    ensures var r', added := Advance(r, e), if e.Request? then [e.job] else [];
      && r'.issued == r.issued + CallsOf(added)
      && (r'.hub.waiting == r.hub.waiting + added || (r.hub.waiting != [] && e == NextJob && r'.hub.waiting == r.hub.waiting[1..]))
  {
    if !e.Request? && !e.NextJob? { StepShape(r.hub, e); }
    assert CallsOf([]) == [];
  }

  lemma {:induction false} RequestsQueue(token: string, events: seq<Event>)
    ensures var r := After(Begin(token), events);
      && r.issued == CallsOf(Requests(events))
      && |r.hub.waiting| <= |Requests(events)|
      && r.hub.waiting == Requests(events)[|Requests(events)| - |r.hub.waiting|..]
    decreases |events|
  {
    hide Advance, Invariant;
    if events != [] {
      var init, e := events[..|events| - 1], events[|events| - 1];
      RequestsQueue(token, init);
      InvariantAlways(token, init);
      QueueStep(After(Begin(token), init), e);
    } else {
      assert CallsOf([]) == [];
    }
  }

  /** A turn of the queue that has a request to send: the `n`-th, all before it having settled. */
  ghost predicate Turn(token: string, events: seq<Event>, k: nat, n: nat) {
    && k < |events| && events[k] == NextJob
    && var r := After(Begin(token), events[..k]);
       r.hub.running.None? && r.hub.waiting != [] && |r.outcomes| == n
  }

  lemma TurnIsNext(token: string, events: seq<Event>, k: nat, n: nat)
    requires Turn(token, events, k, n)
    ensures n < |Requests(events[..k])| && After(Begin(token), events[..k]).hub.waiting[0] == Requests(events[..k])[n]
  {
    var r := After(Begin(token), events[..k]);
    RequestsQueue(token, events[..k]);
    InvariantAlways(token, events[..k]);
    assert |r.issued| == n + |r.hub.waiting|;
  }

  lemma {:induction false} AfterSplits(r: Run, a: seq<Event>, b: seq<Event>)
    ensures After(r, a + b) == After(After(r, a), b)
    decreases |b|
  {
    hide Advance;
    if b == [] {
      assert a + b == a;
    } else {
      var n := |b| - 1;
      assert (a + b)[..|a + b| - 1] == a + b[..n];
      AfterSplits(r, a, b[..n]);
    }
  }

  /** For every run, and the turn of its `n`-th request: without a connected socket the call comes to
      Disconnected at once. Else the request goes out on that socket, under an id of its own and as
      it was asked, and the call comes to what the first event after it decides; until one does, it
      has no outcome. */
  lemma RequestFate(token: string, events: seq<Event>, k: nat, n: nat)
    requires Turn(token, events, k, n)
    ensures n < |Requests(events[..k])|
    ensures var outcomes, job := After(Begin(token), events).outcomes, Requests(events[..k])[n];
      var h := After(Begin(token), events[..k]).hub;
      if h.active.None? then
        && (forall sock :: !Connected(token, events[..k], sock))
        && Step(h, NextJob).1 == [Resolve(job.call, Disconnected)]
        && |outcomes| > n && outcomes[n] == (job.call, Disconnected)
      else
        var sock, id, rest := h.active.value, h.nextId, events[k + 1..];
        && Connected(token, events[..k], sock)
        && Step(h, NextJob).1 == [Send(sock, Req(id, job.what))]
        && (|outcomes| == n <==> Undecided(token, sock, id, rest))
        && forall o :: (|outcomes| > n && outcomes[n] == (job.call, o)) <==> Decided(token, sock, id, rest, o)
  {
    var r := After(Begin(token), events[..k]);
    var rest, next := events[k + 1..], Advance(r, NextJob);
    TurnIsNext(token, events, k, n);
    ActiveExactly(token, events[..k]);
    InvariantAlways(token, events[..k]);
    InvariantStep(r, NextJob);
    TurnSplits(token, events, k);
    TurnStep(r);
    hide Step, After, Invariant, Verdict, Advance;
    var job := r.hub.waiting[0];
    if r.hub.active.None? {
      OutcomesGrow(next, rest);
    } else {
      var sock, id := r.hub.active.value, r.hub.nextId;
      var j := FirstVerdict(next, rest, sock, id, job.call);
      if !Undecided(token, sock, id, rest) {
        OneDecision(token, sock, id, rest, j, Verdict(token, sock, id, rest[j]).value);
      } else {
        assert forall o :: !Decided(token, sock, id, rest, o);
      }
    }
  }

  lemma TurnStep(r: Run)
    requires Invariant(r) && r.hub.running.None? && r.hub.waiting != []
    ensures var h, job, next := r.hub, r.hub.waiting[0], Advance(r, NextJob);
      && next.hub.token == h.token
      && if h.active.None? then
           Step(h, NextJob).1 == [Resolve(job.call, Disconnected)] && next.outcomes == r.outcomes + [(job.call, Disconnected)]
         else
           && Step(h, NextJob).1 == [Send(h.active.value, Req(h.nextId, job.what))]
           && next.outcomes == r.outcomes && Outstanding(next, h.active.value, h.nextId, job.call)
  {
    var h, job := r.hub, r.hub.waiting[0];
    if h.active.None? {
      OneOutcome(job.call, Disconnected, []);
      assert Launch(h).1 == [Resolve(job.call, Disconnected)] + [];
    } else {
      NoOutcome([Send(h.active.value, Req(h.nextId, job.what))]);
      assert r.outcomes + [] == r.outcomes && h.pending == map[];
    }
  }

  lemma OneDecision(token: string, sock: Sock, id: nat, events: seq<Event>, j: nat, v: Outcome)
    requires DecidedAt(token, sock, id, events, j, v)
    ensures forall o :: Decided(token, sock, id, events, o) <==> o == v
  {
    hide Verdict;
    forall o, i: nat | DecidedAt(token, sock, id, events, i, o) ensures o == v {
      NotEarlier(token, sock, id, events, i, o, j, v);
      NotEarlier(token, sock, id, events, j, v, i, o);
    }
  }

  lemma NotEarlier(token: string, sock: Sock, id: nat, events: seq<Event>, i: nat, o: Outcome, j: nat, v: Outcome)
    requires DecidedAt(token, sock, id, events, i, o) && DecidedAt(token, sock, id, events, j, v)
    ensures i >= j
  {
    hide Verdict;
  }

  lemma TurnSplits(token: string, events: seq<Event>, k: nat)
    requires k < |events|
    ensures After(Begin(token), events) == After(Advance(After(Begin(token), events[..k]), events[k]), events[k + 1..])
  {
    hide Advance;
    var upTo := events[..k + 1];
    assert upTo[..|upTo| - 1] == events[..k];
    assert upTo + events[k + 1..] == events;
    AfterSplits(Begin(token), upTo, events[k + 1..]);
  }

  /** And no call has an outcome without having had its turn. */
  lemma {:induction false} OutcomeHadTurn(token: string, events: seq<Event>, n: nat) returns (k: nat)
    requires n < |After(Begin(token), events).outcomes|
    ensures Turn(token, events, k, n)
    decreases |events|
  {
    var init, e := events[..|events| - 1], events[|events| - 1];
    var r := After(Begin(token), init);
    if n < |r.outcomes| {
      k := OutcomeHadTurn(token, init, n);
      assert init[..k] == events[..k];
    } else {
      k := OutcomeIsOwn(token, init, e, n);
      assert init + [e] == events;
    }
  }

  /** While a request runs, all calls before it have outcomes; so its own is the next. */
  lemma {:induction false} RunningHadTurn(token: string, events: seq<Event>) returns (k: nat)
    requires After(Begin(token), events).hub.running.Some?
    ensures Turn(token, events, k, |After(Begin(token), events).outcomes|)
    decreases |events|
  {
    var init, e := events[..|events| - 1], events[|events| - 1];
    var r := After(Begin(token), init);
    InvariantAlways(token, init);
    if r.hub.running.Some? {
      k := RunningHadTurn(token, init);
      assert init[..k] == events[..k];
      RunningStays(r, e);
    } else {
      k := |init|;
      assert events[..k] == init;
      StartsAtTurn(r, e);
    }
  }

  lemma RunningStays(r: Run, e: Event)
    requires Invariant(r) && r.hub.running.Some? && Advance(r, e).hub.running.Some?
    ensures Advance(r, e).outcomes == r.outcomes
  {
    NoOutcome([]);
    assert r.outcomes + [] == r.outcomes;
    if !e.Request? && !e.NextJob? { StepShape(r.hub, e); }
  }

  lemma StartsAtTurn(r: Run, e: Event)
    requires Invariant(r) && r.hub.running.None? && Advance(r, e).hub.running.Some?
    ensures e == NextJob && r.hub.waiting != [] && Advance(r, e).outcomes == r.outcomes
  {
    NoOutcome([]);
    assert r.outcomes + [] == r.outcomes;
    if !e.Request? && !e.NextJob? {
      StepShape(r.hub, e);
    } else if e.NextJob? && r.hub.waiting != [] && r.hub.active.Some? {
      NoOutcome(Launch(r.hub).1);
    }
  }

  lemma OutcomeIsOwn(token: string, init: seq<Event>, e: Event, n: nat) returns (k: nat)
    requires |After(Begin(token), init).outcomes| <= n < |After(Begin(token), init + [e]).outcomes|
    ensures Turn(token, init + [e], k, n)
  {
    var events := init + [e];
    var r := After(Begin(token), init);
    assert events[..|events| - 1] == init && events[|events| - 1] == e;
    InvariantAlways(token, init);
    NoOutcome([]);
    assert r.outcomes + [] == r.outcomes;
    if e.NextJob? {
      k := |init|;
      assert events[..k] == init;
      TurnSettlesOne(r);
    } else {
      if !e.Request? { StepShape(r.hub, e); }
      k := RunningHadTurn(token, init);
      assert events[..k] == init[..k] && events[k] == init[k];
    }
  }

  lemma TurnSettlesOne(r: Run)
    requires Invariant(r) && |Advance(r, NextJob).outcomes| > |r.outcomes|
    ensures r.hub.running.None? && r.hub.waiting != [] && |Advance(r, NextJob).outcomes| == |r.outcomes| + 1
  {
    NoOutcome([]);
    if r.hub.running.None? && r.hub.waiting != [] {
      if r.hub.active.None? {
        OneOutcome(r.hub.waiting[0].call, Disconnected, []);
        assert Launch(r.hub).1 == [Resolve(r.hub.waiting[0].call, Disconnected)] + [];
      } else {
        NoOutcome(Launch(r.hub).1);
      }
    }
  }

  // ---- sockets and timers ---------------------------------------------------------------------------

  predicate Greets(token: string, e: Event) {
    e.Message? && e.frame.Hello? && e.frame.token == token
  }

  /** Why the hub closes a socket, and with which code. */
  lemma WhyClosed(h: Hub, e: Event, sock: Sock, code: CloseCode)
    requires Serial(h)
    ensures Close(sock, code) in Step(h, e).1 <==>
      || (code == BadToken && e == HelloTimeout(sock) && sock in h.helloTimers)
      || (code == BadToken && e.Message? && e.sock == sock && e.frame.Hello? && e.frame.token != h.token)
      || (code == ProtocolMismatch && Greets(h.token, e) && !Pairs(h.token, e) && e.sock == sock)
      || (code == Replaced && Pairs(h.token, e) && e.sock != sock && h.active == Some(sock))
  {
    EffectsAre(h, e);
  }

  /** What it sends, and when: requests only at the queue's turn, the next one waiting, under a new id. */
  lemma WhySent(h: Hub, e: Event, sock: Sock, frame: ServerFrame)
    requires Serial(h)
    ensures Send(sock, frame) in Step(h, e).1 <==>
      || (frame == Welcome && Pairs(h.token, e) && e.sock == sock)
      || (frame == Pong && e == Message(sock, Ping) && h.active == Some(sock))
      || (e == NextJob && h.running.None? && h.waiting != [] && h.active == Some(sock) && frame == Req(h.nextId, h.waiting[0].what))
  {
    EffectsAre(h, e);
  }

  function Lost(h: Hub): seq<Effect> {
    if h.running.Some? then [Resolve(h.running.value, Disconnected)] else []
  }

  lemma EffectsAre(h: Hub, e: Event)
    requires Serial(h)
    ensures e.Closed? ==> Step(h, e).1 == (if h.active == Some(e.sock) then Lost(h) else [])
    ensures Pairs(h.token, e) ==>
      Step(h, e).1 == (if h.active.Some? && h.active.value != e.sock then Lost(h) + [Close(h.active.value, Replaced), Send(e.sock, Welcome)]
                       else [Send(e.sock, Welcome)])
  {
    if e.Closed? {
      RejectAllOnce(h.(helloTimers := h.helloTimers - {e.sock}, active := None));
    } else if Pairs(h.token, e) {
      RejectAllOnce(h.(helloTimers := h.helloTimers - {e.sock}, outdated := false, active := Some(e.sock)));
    }
  }

  lemma FlagsStep(h: Hub, e: Event)
    requires Serial(h)
    ensures var h' := Step(h, e).0;
      && h'.outdated == (if Greets(h.token, e) then !Pairs(h.token, e) else h.outdated)
      && forall sock :: sock in h'.helloTimers <==> e == Open(sock) || (sock in h.helloTimers && !Disarms(sock, e))
  {
    if e.Closed? {
      RejectAllOnce(h.(helloTimers := h.helloTimers - {e.sock}, active := None));
    } else if Pairs(h.token, e) {
      RejectAllOnce(h.(helloTimers := h.helloTimers - {e.sock}, outdated := false, active := Some(e.sock)));
    }
  }

  /** The timer fires, or is cleared by a hello or by the end of the socket. */
  predicate Disarms(sock: Sock, e: Event) {
    e == HelloTimeout(sock) || e == Closed(sock) || (e.Message? && e.sock == sock && e.frame.Hello?)
  }

  ghost predicate ArmedAt(events: seq<Event>, k: nat, sock: Sock) {
    k < |events| && events[k] == Open(sock) && forall j :: k < j < |events| ==> !Disarms(sock, events[j])
  }

  ghost predicate MismatchedAt(token: string, events: seq<Event>, k: nat) {
    && k < |events| && Greets(token, events[k]) && !Pairs(token, events[k])
    && forall j :: k < j < |events| ==> !Greets(token, events[j])
  }

  /** For every sequence of events: the hub is outdated if the last hello with its token spoke another
      version, and a socket is on the clock if it has opened and neither said hello, closed nor run
      out of time since. */
  lemma {:induction false} FlagsExactly(token: string, events: seq<Event>, sock: Sock)
    ensures var h := After(Begin(token), events).hub;
      && (h.outdated <==> exists k: nat :: MismatchedAt(token, events, k))
      && (sock in h.helloTimers <==> exists k: nat :: ArmedAt(events, k, sock))
    decreases |events|
  {
    hide Step;
    if events != [] {
      var init, e := events[..|events| - 1], events[|events| - 1];
      FlagsExactly(token, init, sock);
      ActiveExactly(token, init);
      InvariantAlways(token, init);
      FlagsStep(After(Begin(token), init).hub, e);
      MismatchedStep(token, init, e);
      ArmedStep(init, e, sock);
      assert init + [e] == events;
    }
  }

  lemma MismatchedStep(token: string, init: seq<Event>, e: Event)
    ensures (exists k: nat :: MismatchedAt(token, init + [e], k)) <==>
      if Greets(token, e) then !Pairs(token, e) else exists k: nat :: MismatchedAt(token, init, k)
  {
    var events := init + [e];
    if k: nat :| MismatchedAt(token, events, k) {
      assert events[|init|] == e;
      if k < |init| {
        assert forall j :: k < j < |init| ==> init[j] == events[j];
        assert MismatchedAt(token, init, k);
      }
    }
    if Greets(token, e) && !Pairs(token, e) { assert MismatchedAt(token, events, |init|); }
    if !Greets(token, e) {
      if k: nat :| MismatchedAt(token, init, k) { assert MismatchedAt(token, events, k); }
    }
  }

  lemma ArmedStep(init: seq<Event>, e: Event, sock: Sock)
    ensures (exists k: nat :: ArmedAt(init + [e], k, sock)) <==>
      e == Open(sock) || (!Disarms(sock, e) && exists k: nat :: ArmedAt(init, k, sock))
  {
    var events := init + [e];
    if k: nat :| ArmedAt(events, k, sock) {
      assert events[|init|] == e;
      if k < |init| {
        assert forall j :: k < j < |init| ==> init[j] == events[j];
        assert ArmedAt(init, k, sock);
      }
    }
    if e == Open(sock) { assert ArmedAt(events, |init|, sock); }
    if !Disarms(sock, e) {
      if k: nat :| ArmedAt(init, k, sock) { assert ArmedAt(events, k, sock); }
    }
  }
}
