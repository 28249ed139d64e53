// Both ends of the Chrome bridge, over a network.
module BridgeSystem {
  import opened Results
  import opened BridgeHub
  import opened ExtConnection

  // One FIFO channel per socket and direction joins the two ends. Sockets close, get replaced or
  // lose their frames at any time, handlers answer late, and strangers who do not know the token
  // may connect and say what they like.

  datatype Link = Link(toExt: seq<ServerFrame>, toHub: seq<ExtensionFrame>)

  /** A handler call in progress: the extension's `answer` for one request frame. */
  datatype Task = Task(sock: Sock, id: nat, what: string)

  /** Evidence that the handler, called for request `id` with `what`, returned `reply`. */
  datatype Return = Return(id: nat, what: string, reply: Reply)

  datatype Net = Net(
    run: Run,
    conn: Conn,
    links: map<Sock, Link>,
    strangers: set<Sock>,
    tasks: set<Task>,
    invoked: seq<nat>,
    replies: set<Return>)

  datatype Move =
    | HubEvent(event: Event)
    | DeliverToHub(sock: Sock)
    | ExtInput(input: Input)
    | DeliverToExt(sock: Sock)
    | Finish(task: Task, reply: Reply)
    | Lose(sock: Sock)
    | StrangerJoins(sock: Sock)
    | StrangerSends(sock: Sock, frame: ExtensionFrame)

  function Start(token: string): Net {
    Net(Begin(token), Idle, map[], {}, {}, [], {})
  }

  // ---- frames on the wire ------------------------------------------------------------------

  function ToExt(links: map<Sock, Link>, sock: Sock, frame: ServerFrame): map<Sock, Link> {
    if sock in links then links[sock := links[sock].(toExt := links[sock].toExt + [frame])] else links
  }

  function ToHub(links: map<Sock, Link>, sock: Sock, frame: ExtensionFrame): map<Sock, Link> {
    if sock in links then links[sock := links[sock].(toHub := links[sock].toHub + [frame])] else links
  }

  function SendAll(links: map<Sock, Link>, effects: seq<Effect>): map<Sock, Link> {
    if effects == [] then links
    else if effects[0].Send? then SendAll(ToExt(links, effects[0].sock, effects[0].frame), effects[1..])
    else SendAll(links, effects[1..])
  }

  /** A new socket gets a link; a frame sent on a socket that has none is lost. */
  function ActAll(links: map<Sock, Link>, acts: seq<Act>): map<Sock, Link>
    decreases |acts|
  {
    if acts == [] then links
    else
      var a := acts[0];
      ActAll(if a.CreateSocket? then links[a.sock := Link([], [])]
             else if a.SendFrame? then ToHub(links, a.sock, a.frame)
             else links, acts[1..])
  }

  function Made(i: Input): Option<Sock> {
    match i
    case Configure(_, made) => Some(made)
    case Ensure(made) => Some(made)
    case RetryFires(made) => Some(made)
    case _ => None
  }

  // ---- one move -----------------------------------------------------------------------------

  predicate Enabled(n: Net, m: Move) {
    match m
    case HubEvent(e) => !e.Message?
    case DeliverToHub(sock) => sock in n.links && n.links[sock].toHub != []
    case ExtInput(i) => !i.FromHub? && (Made(i).Some? ==> Made(i).value !in n.links && Made(i).value !in n.strangers)
    case DeliverToExt(sock) => sock in n.links && sock !in n.strangers && n.links[sock].toExt != []
    case Finish(task, _) => task in n.tasks
    case Lose(sock) => sock in n.links
    case StrangerJoins(sock) => sock !in n.links && sock !in n.strangers
    case StrangerSends(sock, frame) =>
      sock in n.strangers && !(frame.Hello? && frame.token == n.run.hub.token)
  }

  ghost function HubMove(n: Net, e: Event): Net {
    n.(run := Advance(n.run, e), links := SendAll(n.links, Step(n.run.hub, e).1))
  }

  ghost function Moved(n: Net, m: Move): Net {
    if !Enabled(n, m) then n
    else
      match m
      case HubEvent(e) => HubMove(n, e)
      case DeliverToHub(sock) =>
        var link := n.links[sock];
        HubMove(n.(links := n.links[sock := link.(toHub := link.toHub[1..])]), Message(sock, link.toHub[0]))
      case ExtInput(i) =>
        var (conn, acts) := React(n.conn, i);
        n.(conn := conn, links := ActAll(n.links, acts))
      case DeliverToExt(sock) =>
        var link := n.links[sock];
        var frame := link.toExt[0];
        var n' := n.(conn := React(n.conn, FromHub(sock, frame)).0,
                     links := n.links[sock := link.(toExt := link.toExt[1..])]);
        if frame.Req? && n.conn.socket == Some(sock)
        then n'.(tasks := n.tasks + {Task(sock, frame.id, frame.what)}, invoked := n.invoked + [frame.id])
        else n'
      case Finish(task, reply) =>
        n.(tasks := n.tasks - {task}, replies := n.replies + {Return(task.id, task.what, reply)},
           links := ToHub(n.links, task.sock, Res(task.id, reply)))
      case Lose(sock) => n.(links := n.links[sock := Link([], [])])
      case StrangerJoins(sock) => n.(strangers := n.strangers + {sock}, links := n.links[sock := Link([], [])])
      case StrangerSends(sock, frame) => n.(links := ToHub(n.links, sock, frame))
  }

  ghost function Play(token: string, moves: seq<Move>): Net
    decreases |moves|
  {
    if moves == [] then Start(token) else Moved(Play(token, moves[..|moves| - 1]), moves[|moves| - 1])
  }

  // ---- the invariant --------------------------------------------------------------------------

  ghost predicate Asked(r: Run, sock: Sock, id: nat, what: string) {
    id in r.asked && r.asked[id].what == what && id in r.sentOn && r.sentOn[id] == sock
  }

  /** Request frames on the way to the extension were asked on this socket, are pairwise
      distinct, and have not been handled yet. */
  ghost predicate GoodToExt(r: Run, invoked: seq<nat>, sock: Sock, frames: seq<ServerFrame>) {
    && (forall i :: 0 <= i < |frames| && frames[i].Req? ==>
          Asked(r, sock, frames[i].id, frames[i].what) && frames[i].id !in invoked)
    && (forall i, j :: 0 <= i < j < |frames| && frames[i].Req? && frames[j].Req? ==> frames[i].id != frames[j].id)
  }

  ghost predicate GoodToHub(n: Net, sock: Sock, frame: ExtensionFrame) {
    if sock in n.strangers then !(frame.Hello? && frame.token == n.run.hub.token)
    else frame.Res? ==> Returned(n.run, n.replies, frame.id, frame.reply)
  }

  ghost predicate Returned(r: Run, replies: set<Return>, id: nat, reply: Reply) {
    id in r.asked && Return(id, r.asked[id].what, reply) in replies
  }

  /** A successful outcome carries what the handler returned for that very call. */
  ghost predicate Backed(r: Run, replies: set<Return>, o: (nat, Outcome)) {
    o.1.Answered? ==> exists id :: id in r.asked && r.asked[id].call == o.0 && Returned(r, replies, id, o.1.reply)
  }

  ghost predicate AllBacked(r: Run, replies: set<Return>) {
    forall i :: 0 <= i < |r.outcomes| ==> Backed(r, replies, r.outcomes[i])
  }

  ghost predicate Distinct(ids: seq<nat>) {
    forall i, j :: 0 <= i < j < |ids| ==> ids[i] != ids[j]
  }

  ghost predicate GoodLinks(n: Net) {
    && (forall sock :: sock in n.links ==> GoodToExt(n.run, n.invoked, sock, n.links[sock].toExt))
    && (forall sock, i :: sock in n.links && 0 <= i < |n.links[sock].toHub| ==> GoodToHub(n, sock, n.links[sock].toHub[i]))
  }

  /** The extension's own sockets are linked and are no strangers'. */
  ghost predicate OwnSockets(n: Net) {
    && Sound(n.conn)
    && (n.conn.socket.Some? ==> n.conn.socket.value in n.conn.hellos)
    && (forall sock :: sock in n.conn.hellos ==> sock in n.links && sock !in n.strangers)
    && n.strangers <= n.links.Keys
    && (n.run.hub.active.Some? ==> n.run.hub.active.value in n.links && n.run.hub.active.value !in n.strangers)
  }

  ghost predicate GoodTasks(n: Net) {
    && (forall t :: t in n.tasks ==>
          t.id in n.run.asked && n.run.asked[t.id].what == t.what && t.sock in n.links && t.sock !in n.strangers)
    && (forall id :: id in n.invoked ==> id in n.run.asked)
    && (forall r <- n.replies :: r.id in n.run.asked)
    && Distinct(n.invoked)
  }

  ghost predicate Consistent(n: Net) {
    Invariant(n.run) && OwnSockets(n) && GoodLinks(n) && GoodTasks(n) && AllBacked(n.run, n.replies)
  }

  // ---- what the hub's moves keep --------------------------------------------------------------

  /** What has been asked stays asked. */
  ghost predicate Grows(r: Run, r': Run) {
    && (forall id :: id in r.asked ==> id in r'.asked && r'.asked[id] == r.asked[id])
    && (forall id :: id in r.sentOn ==> id in r'.sentOn && r'.sentOn[id] == r.sentOn[id])
    && r'.hub.token == r.hub.token
  }

  lemma {:induction false} RejectKeepsToken(h: Hub)
    ensures RejectAll(h).0.token == h.token && RejectAll(h).0.active == h.active
    ensures forall x <- RejectAll(h).1 :: x.Resolve?
    decreases |h.pending|
  {
    if h.pending != map[] {
      var id :| id in h.pending && RejectAll(h) ==
        (RejectAll(Settled(h.(pending := h.pending - {id}), h.pending[id])).0,
         [Resolve(h.pending[id], Disconnected)] + RejectAll(Settled(h.(pending := h.pending - {id}), h.pending[id])).1);
      RejectKeepsToken(Settled(h.(pending := h.pending - {id}), h.pending[id]));
    }
  }

  /** Frames a step sends, and who can become active: only a socket that said the token. */
  lemma StepSends(h: Hub, e: Event)
    ensures Step(h, e).0.token == h.token
    ensures !e.NextJob? ==> forall x <- Step(h, e).1 :: x.Send? ==> !x.frame.Req?
    ensures Step(h, e).0.active == h.active || Step(h, e).0.active == None
      || (e.Message? && e.frame.Hello? && e.frame.token == h.token && Step(h, e).0.active == Some(e.sock))
  {
    match e {
      case Message(sock, Hello(token, protocol)) =>
        RejectKeepsToken(h.(helloTimers := h.helloTimers - {sock}, outdated := false, active := Some(sock)));
      case Closed(sock) =>
        RejectKeepsToken(h.(helloTimers := h.helloTimers - {sock}, active := None));
      case _ =>
    }
  }

  lemma AdvanceGrows(r: Run, e: Event)
    requires Invariant(r)
    ensures Grows(r, Advance(r, e))
  {
    hide Step;
    StepSends(r.hub, e);
  }

  lemma {:induction false} SendAllKeeps(links: map<Sock, Link>, effects: seq<Effect>)
    ensures SendAll(links, effects).Keys == links.Keys
    ensures forall sock :: sock in links ==> SendAll(links, effects)[sock].toHub == links[sock].toHub
  {
    if effects != [] {
      if effects[0].Send? {
        SendAllKeeps(ToExt(links, effects[0].sock, effects[0].frame), effects[1..]);
      } else {
        SendAllKeeps(links, effects[1..]);
      }
    }
  }

  lemma FrameAppended(r: Run, invoked: seq<nat>, sock: Sock, frames: seq<ServerFrame>, frame: ServerFrame)
    requires GoodToExt(r, invoked, sock, frames)
    requires frame.Req? ==> Asked(r, sock, frame.id, frame.what) && frame.id !in invoked
    requires frame.Req? ==> forall i :: 0 <= i < |frames| && frames[i].Req? ==> frames[i].id != frame.id
    ensures GoodToExt(r, invoked, sock, frames + [frame])
  {}

  ghost predicate AllToExt(r: Run, invoked: seq<nat>, links: map<Sock, Link>) {
    forall sock :: sock in links ==> GoodToExt(r, invoked, sock, links[sock].toExt)
  }

  /** Welcomes and pongs do not disturb the requests on the wire. */
  lemma {:induction false} SendAllGood(r: Run, invoked: seq<nat>, links: map<Sock, Link>, effects: seq<Effect>)
    requires AllToExt(r, invoked, links)
    requires forall x <- effects :: x.Send? ==> !x.frame.Req?
    ensures AllToExt(r, invoked, SendAll(links, effects))
  {
    if effects != [] {
      var x := effects[0];
      assert x in effects;
      if x.Send? {
        if x.sock in links { FrameAppended(r, invoked, x.sock, links[x.sock].toExt, x.frame); }
        SendAllGood(r, invoked, ToExt(links, x.sock, x.frame), effects[1..]);
      } else {
        SendAllGood(r, invoked, links, effects[1..]);
      }
    }
  }

  lemma GrowKeepsWire(r: Run, r': Run, invoked: seq<nat>, links: map<Sock, Link>)
    requires Grows(r, r') && AllToExt(r, invoked, links)
    ensures AllToExt(r', invoked, links)
  {}

  /** The one request frame of `NextJob`: its id is new. */
  lemma LaunchGood(r: Run, invoked: seq<nat>, links: map<Sock, Link>)
    requires Invariant(r) && AllToExt(r, invoked, links) && forall id :: id in invoked ==> id in r.asked
    ensures AllToExt(Advance(r, NextJob), invoked, SendAll(links, Step(r.hub, NextJob).1))
  {
    var r' := Advance(r, NextJob);
    AdvanceGrows(r, NextJob);
    GrowKeepsWire(r, r', invoked, links);
    var effects := Step(r.hub, NextJob).1;
    if effects != [] {
      assert effects == [effects[0]] && effects[1..] == [];
      var x := effects[0];
      if x.Send? && x.sock in links {
        assert x.frame.id !in r.asked;
        assert Asked(r', x.sock, x.frame.id, x.frame.what);
        forall i | 0 <= i < |links[x.sock].toExt| && links[x.sock].toExt[i].Req?
          ensures links[x.sock].toExt[i].id != x.frame.id
        {
          assert Asked(r, x.sock, links[x.sock].toExt[i].id, links[x.sock].toExt[i].what);
        }
        FrameAppended(r', invoked, x.sock, links[x.sock].toExt, x.frame);
      }
      assert SendAll(links, effects) == if x.Send? then ToExt(links, x.sock, x.frame) else links;
    }
  }

  lemma OldBacked(r: Run, r': Run, replies: set<Return>, o: (nat, Outcome))
    requires Grows(r, r') && Backed(r, replies, o)
    ensures Backed(r', replies, o)
  {
    if o.1.Answered? {
      var id :| id in r.asked && r.asked[id].call == o.0 && Returned(r, replies, id, o.1.reply);
      assert id in r'.asked && Returned(r', replies, id, o.1.reply);
    }
  }

  /** A step that settles a request with an answer was handed that answer on the active socket. */
  lemma AnswerComesFromFrame(h: Hub, e: Event)
    requires Serial(h)
    ensures forall o <- Outcomes(Step(h, e).1) :: o.1.Answered? ==>
      && e.Message? && e.frame.Res? && h.active == Some(e.sock) && e.frame.id in h.pending
      && o == (h.pending[e.frame.id], Answered(e.frame.reply))
  {
    if h.running.Some? { var id :| Only(h.pending, h.running.value, h.nextId, id); }
    match e {
      case Message(sock, Hello(token, protocol)) =>
        var h1 := h.(helloTimers := h.helloTimers - {sock}, outdated := false, active := Some(sock));
        RejectAllOnce(h1);
        HelloShape(h, sock, token, protocol);
        HelloOutcomes(h, sock, token, protocol);
      case Message(sock, Res(id, reply)) =>
        if h.active == Some(sock) && id in h.pending { OneOutcome(h.pending[id], Answered(reply), []); }
      case Message(sock, Ping) => NoOutcome([Send(sock, Pong)]);
      case Closed(sock) =>
        if h.active == Some(sock) {
          RejectAllOnce(h.(helloTimers := h.helloTimers - {sock}, active := None));
          if h.running.Some? { OneOutcome(h.running.value, Disconnected, []); }
        }
      case RequestTimeout(id) => if id in h.pending { OneOutcome(h.pending[id], TimedOut, []); }
      case HelloTimeout(sock) => NoOutcome([Close(sock, BadToken)]);
      case NextJob =>
        var effects := Launch(h).1;
        if effects != [] {
          if effects[0].Resolve? {
            OneOutcome(effects[0].call, effects[0].outcome, []);
          } else {
            NoOutcome(effects);
          }
        }
      case _ =>
    }
  }

  lemma HelloOutcomes(h: Hub, sock: Sock, token: string, protocol: nat)
    requires Serial(h)
    ensures forall o <- Outcomes(OnHello(h, sock, token, protocol).1) :: o.1 == Disconnected
  {
    if h.running.Some? { var id :| Only(h.pending, h.running.value, h.nextId, id); }
    NoOutcome([Close(sock, BadToken)]);
    NoOutcome([Close(sock, ProtocolMismatch)]);
    NoOutcome([Send(sock, Welcome)]);
    if token == h.token && protocol == PROTOCOL_VERSION && h.active.Some? && h.active.value != sock {
      RejectAllOnce(h.(helloTimers := h.helloTimers - {sock}, outdated := false, active := Some(sock)));
      var tail := [Close(h.active.value, Replaced), Send(sock, Welcome)];
      NoOutcome(tail);
      if h.running.Some? { OneOutcome(h.running.value, Disconnected, tail); } else { assert [] + tail == tail; }
    }
  }

  lemma OutcomesBacked(n: Net, e: Event)
    requires Consistent(n) && (e.Message? ==> GoodToHub(n, e.sock, e.frame))
    ensures AllBacked(Advance(n.run, e), n.replies)
  {
    hide Step;
    var r, r' := n.run, Advance(n.run, e);
    var extra := Outcomes(Step(r.hub, e).1);
    AdvanceGrows(r, e);
    AnswerComesFromFrame(r.hub, e);
    assert r'.outcomes == r.outcomes + extra;
    forall i | 0 <= i < |r'.outcomes|
      ensures Backed(r', n.replies, r'.outcomes[i])
    {
      if i < |r.outcomes| {
        OldBacked(r, r', n.replies, r.outcomes[i]);
      } else {
        var o := extra[i - |r.outcomes|];
        assert o in extra;
        if o.1.Answered? {
          var id := e.frame.id;
          assert Returned(r, n.replies, id, o.1.reply);
          assert id in r'.asked && r'.asked[id].call == o.0 && Returned(r', n.replies, id, o.1.reply);
        }
      }
    }
  }

  lemma HubMoveKeeps(n: Net, e: Event)
    requires Consistent(n) && (e.Message? ==> e.sock in n.links && GoodToHub(n, e.sock, e.frame))
    ensures Consistent(HubMove(n, e))
  {
    hide Step;
    var n' := HubMove(n, e);
    InvariantStep(n.run, e);
    AdvanceGrows(n.run, e);
    StepSends(n.run.hub, e);
    OutcomesBacked(n, e);
    SendAllKeeps(n.links, Step(n.run.hub, e).1);
    if e.NextJob? {
      LaunchGood(n.run, n.invoked, n.links);
    } else {
      GrowKeepsWire(n.run, n'.run, n.invoked, n.links);
      SendAllGood(n'.run, n.invoked, n.links, Step(n.run.hub, e).1);
    }
    forall sock, i | sock in n'.links && 0 <= i < |n'.links[sock].toHub|
      ensures GoodToHub(n', sock, n'.links[sock].toHub[i])
    {
      assert GoodToHub(n, sock, n.links[sock].toHub[i]);
    }
  }

  // ---- what the extension's moves keep ----------------------------------------------------------

  ghost predicate AllToHub(n: Net, links: map<Sock, Link>) {
    forall sock, i :: sock in links && 0 <= i < |links[sock].toHub| ==> GoodToHub(n, sock, links[sock].toHub[i])
  }

  /** The connection itself only ever says hello and ping, on sockets of its own. */
  lemma {:induction false} ActAllGood(n: Net, links: map<Sock, Link>, acts: seq<Act>)
    requires AllToHub(n, links) && AllToExt(n.run, n.invoked, links)
    requires forall a <- acts :: a.SendFrame? ==> !a.frame.Res? && a.sock !in n.strangers
    ensures AllToHub(n, ActAll(links, acts)) && AllToExt(n.run, n.invoked, ActAll(links, acts))
    ensures links.Keys <= ActAll(links, acts).Keys
    ensures forall a <- acts :: a.CreateSocket? ==> a.sock in ActAll(links, acts)
    decreases |acts|
  {
    if acts != [] {
      var a := acts[0];
      assert a in acts;
      var links' := if a.CreateSocket? then links[a.sock := Link([], [])]
        else if a.SendFrame? then ToHub(links, a.sock, a.frame) else links;
      if a.CreateSocket? { assert GoodToExt(n.run, n.invoked, a.sock, []); }
      ActAllGood(n, links', acts[1..]);
    }
  }

  lemma ReactShape(c: Conn, i: Input)
    requires Sound(c) && !i.FromHub?
    ensures var (c', acts) := React(c, i);
      && Sound(c')
      && (forall a <- acts :: a.SendFrame? ==> !a.frame.Res? && (a.sock in c.hellos || c.socket == Some(a.sock)))
      && (forall a <- acts :: a.CreateSocket? ==> Made(i) == Some(a.sock))
      && (c'.hellos == c.hellos
          || (Made(i).Some? && c'.hellos.Keys == c.hellos.Keys + {Made(i).value} && c'.socket == Made(i)
              && CreateSocket(Made(i).value) in acts))
      && (c'.socket == c.socket || c'.socket == None || (c'.socket == Made(i) && Made(i).value in c'.hellos))
  {
    SoundStep(c, i);
    if i.Configure? {
      var dropped := c.(config := Some(i.config), halted := false, attempt := 0, retryTimer := None, pingTimer := None, socket := None);
      var close := if c.socket.Some? then [CloseSocket(c.socket.value)] else [];
      assert React(c, i).1 == close + EnsureStep(dropped, i.made).1;
      if |i.config.token| > 0 { assert EnsureStep(dropped, i.made).1[0] == CreateSocket(i.made); }
    } else if Made(i).Some? && React(c, i).0.hellos != c.hellos {
      assert React(c, i).1[0] == CreateSocket(Made(i).value);
    }
  }

  lemma ExtMoveKeeps(n: Net, i: Input)
    requires Consistent(n) && Enabled(n, ExtInput(i))
    ensures Consistent(Moved(n, ExtInput(i)))
  {
    hide React;
    var (conn, acts) := React(n.conn, i);
    var n' := Moved(n, ExtInput(i));
    ReactShape(n.conn, i);
    ActAllGood(n, n.links, acts);
    forall sock, k | sock in n'.links && 0 <= k < |n'.links[sock].toHub|
      ensures GoodToHub(n', sock, n'.links[sock].toHub[k])
    {
      assert GoodToHub(n, sock, n'.links[sock].toHub[k]);
    }
    forall sock | sock in conn.hellos
      ensures sock in n'.links && sock !in n.strangers
    {
      if sock !in n.conn.hellos { assert CreateSocket(sock) in acts; }
    }
  }

  lemma DeliverToHubKeeps(n: Net, sock: Sock)
    requires Consistent(n) && Enabled(n, DeliverToHub(sock))
    ensures Consistent(Moved(n, DeliverToHub(sock)))
  {
    var link := n.links[sock];
    var n1 := n.(links := n.links[sock := link.(toHub := link.toHub[1..])]);
    assert GoodToHub(n, sock, link.toHub[0]);
    forall s, i | s in n1.links && 0 <= i < |n1.links[s].toHub|
      ensures GoodToHub(n1, s, n1.links[s].toHub[i])
    {
      assert GoodToHub(n, s, n.links[s].toHub[if s == sock then i + 1 else i]);
    }
    assert Consistent(n1);
    HubMoveKeeps(n1, Message(sock, link.toHub[0]));
  }

  lemma FrameTaken(r: Run, invoked: seq<nat>, sock: Sock, frames: seq<ServerFrame>)
    requires frames != [] && GoodToExt(r, invoked, sock, frames)
    ensures GoodToExt(r, invoked, sock, frames[1..])
    ensures frames[0].Req? ==> GoodToExt(r, invoked + [frames[0].id], sock, frames[1..])
  {
    forall i | 0 <= i < |frames[1..]| ensures frames[1..][i] == frames[i + 1] {}
  }

  lemma MessageShape(c: Conn, sock: Sock, frame: ServerFrame)
    requires Sound(c)
    ensures var c' := React(c, FromHub(sock, frame)).0; Sound(c') && c'.hellos == c.hellos && c'.socket == c.socket
  {
    SoundStep(c, FromHub(sock, frame));
  }

  /** No other link carries a request with the same id. */
  lemma IdsDiffer(n: Net, sock: Sock, frame: ServerFrame, s: Sock)
    requires Consistent(n) && s in n.links && s != sock && frame.Req? && Asked(n.run, sock, frame.id, frame.what)
    ensures forall i :: 0 <= i < |n.links[s].toExt| && n.links[s].toExt[i].Req? ==> n.links[s].toExt[i].id != frame.id
  {
    forall i | 0 <= i < |n.links[s].toExt| && n.links[s].toExt[i].Req?
      ensures n.links[s].toExt[i].id != frame.id
    {
      assert Asked(n.run, s, n.links[s].toExt[i].id, n.links[s].toExt[i].what);
    }
  }

  lemma DeliveredLinks(n: Net, sock: Sock)
    requires Consistent(n) && Enabled(n, DeliverToExt(sock))
    ensures GoodLinks(Moved(n, DeliverToExt(sock)))
  {
    hide React;
    var link := n.links[sock];
    var frame := link.toExt[0];
    var n' := Moved(n, DeliverToExt(sock));
    assert GoodToExt(n.run, n.invoked, sock, link.toExt);
    FrameTaken(n.run, n.invoked, sock, link.toExt);
    forall s | s in n'.links
      ensures GoodToExt(n'.run, n'.invoked, s, n'.links[s].toExt)
    {
      if s != sock && frame.Req? { IdsDiffer(n, sock, frame, s); }
    }
    forall s, i | s in n'.links && 0 <= i < |n'.links[s].toHub|
      ensures GoodToHub(n', s, n'.links[s].toHub[i])
    {
      assert GoodToHub(n, s, n.links[s].toHub[i]);
    }
  }

  /** The handler is called for a request frame at most once. */
  lemma DeliverToExtKeeps(n: Net, sock: Sock)
    requires Consistent(n) && Enabled(n, DeliverToExt(sock))
    ensures Consistent(Moved(n, DeliverToExt(sock)))
  {
    var link := n.links[sock];
    var frame := link.toExt[0];
    assert GoodToExt(n.run, n.invoked, sock, link.toExt);
    if frame.Req? { assert Asked(n.run, sock, frame.id, frame.what) && frame.id !in n.invoked; }
    MessageShape(n.conn, sock, frame);
    DeliveredLinks(n, sock);
    hide React, GoodLinks, Invariant, Sound, Backed, GoodToExt, GoodToHub;
  }

  lemma FinishKeeps(n: Net, task: Task, reply: Reply)
    requires Consistent(n) && task in n.tasks
    ensures Consistent(Moved(n, Finish(task, reply)))
  {
    var n' := Moved(n, Finish(task, reply));
    forall s, i | s in n'.links && 0 <= i < |n'.links[s].toHub|
      ensures GoodToHub(n', s, n'.links[s].toHub[i])
    {
      if i < |n.links[s].toHub| {
        assert n'.links[s].toHub[i] == n.links[s].toHub[i];
        assert GoodToHub(n, s, n.links[s].toHub[i]);
      } else {
        assert n'.links[s].toHub[i] == Res(task.id, reply);
      }
    }
    forall k | 0 <= k < |n.run.outcomes|
      ensures Backed(n.run, n'.replies, n.run.outcomes[k])
    {
      var o := n.run.outcomes[k];
      assert Backed(n.run, n.replies, o);
      if o.1.Answered? {
        var id :| id in n.run.asked && n.run.asked[id].call == o.0 && Returned(n.run, n.replies, id, o.1.reply);
        assert Returned(n.run, n'.replies, id, o.1.reply);
      }
    }
  }

  lemma WireKeeps(n: Net, m: Move)
    requires Consistent(n) && Enabled(n, m) && (m.Lose? || m.StrangerJoins? || m.StrangerSends?)
    ensures Consistent(Moved(n, m))
  {
    var n' := Moved(n, m);
    forall s | s in n'.links
      ensures GoodToExt(n'.run, n'.invoked, s, n'.links[s].toExt)
    {}
    forall s, i | s in n'.links && 0 <= i < |n'.links[s].toHub|
      ensures GoodToHub(n', s, n'.links[s].toHub[i])
    {
      if s in n.links && i < |n.links[s].toHub| { assert GoodToHub(n, s, n.links[s].toHub[i]); }
    }
  }

  lemma MoveKeeps(n: Net, m: Move)
    requires Consistent(n)
    ensures Consistent(Moved(n, m))
  {
    hide Consistent;
    if Enabled(n, m) {
      match m
      case HubEvent(e) => HubMoveKeeps(n, e);
      case DeliverToHub(sock) => DeliverToHubKeeps(n, sock);
      case ExtInput(i) => ExtMoveKeeps(n, i);
      case DeliverToExt(sock) => DeliverToExtKeeps(n, sock);
      case Finish(task, reply) => FinishKeeps(n, task, reply);
      case _ => WireKeeps(n, m);
    }
  }

  lemma {:induction false} AlwaysConsistent(token: string, moves: seq<Move>)
    ensures Consistent(Play(token, moves))
    decreases |moves|
  {
    if moves != [] {
      AlwaysConsistent(token, moves[..|moves| - 1]);
      MoveKeeps(Play(token, moves[..|moves| - 1]), moves[|moves| - 1]);
    } else {
      InvariantAlways(token, []);
      assert After(Begin(token), []) == Begin(token);
    }
  }

  /** The handler, called for `call`'s own request, returned `reply`. */
  ghost predicate HandlerReturned(n: Net, call: nat, reply: Reply) {
    exists id :: (id in n.run.asked && n.run.asked[id].call == call && Return(id, n.run.asked[id].what, reply) in n.replies)
  }

  /** End to end, in every run of hub, extension, network and strangers: a request that succeeds
      was given, under some id, to the extension's handler with its own `what`, and carries what
      that handler returned; the handler was called at most once per id; requests settle at most
      once and in order; at most one is pending, and it went out on the socket active now. */
  lemma EndToEnd(token: string, moves: seq<Move>)
    ensures var n := Play(token, moves);
      && (forall o <- n.run.outcomes :: o.1.Answered? ==> HandlerReturned(n, o.0, o.1.reply))
      && Distinct(n.invoked)
      && SettledCalls(n.run.outcomes) <= n.run.issued
      && (forall id :: id in n.run.hub.pending ==> id in n.run.sentOn && n.run.hub.active == Some(n.run.sentOn[id]))
      && |n.run.hub.pending| <= 1
  {
    AlwaysConsistent(token, moves);
    var n := Play(token, moves);
    forall o | o in n.run.outcomes && o.1.Answered?
      ensures HandlerReturned(n, o.0, o.1.reply)
    {
      var i :| 0 <= i < |n.run.outcomes| && n.run.outcomes[i] == o;
      assert Backed(n.run, n.replies, n.run.outcomes[i]);
      var id :| id in n.run.asked && n.run.asked[id].call == o.0 && Returned(n.run, n.replies, id, o.1.reply);
    }
    var h := n.run.hub;
    if h.running.Some? {
      var id :| Only(h.pending, h.running.value, h.nextId, id);
      assert |h.pending| == 1;
    }
  }
}
