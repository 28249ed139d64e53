// What the handler returns is what the call gets.
module BridgeDelivery {
  import opened Results
  import opened BridgeHub
  import opened BridgeFate
  import opened ExtConnection
  import opened BridgeSystem

  // ---- the hub's part in a run of the whole ---------------------------------------------------------

  /** What the hub sees of the moves. */
  ghost function EventsOf(token: string, moves: seq<Move>): seq<Event>
    decreases |moves|
  {
    if moves == [] then []
    else
      var init, m := moves[..|moves| - 1], moves[|moves| - 1];
      EventsOf(token, init) + EventOf(Play(token, init), m)
  }

  ghost function EventOf(n: Net, m: Move): seq<Event> {
    if !Enabled(n, m) then []
    else
      match m
      case HubEvent(e) => [e]
      case DeliverToHub(sock) => [Message(sock, n.links[sock].toHub[0])]
      case _ => []
  }

  /** The hub in the whole is the hub by itself, on those events. */
  lemma {:induction false} HubRuns(token: string, moves: seq<Move>)
    ensures Play(token, moves).run == After(Begin(token), EventsOf(token, moves))
    decreases |moves|
  {
    hide Step;
    if moves != [] {
      var init, m := moves[..|moves| - 1], moves[|moves| - 1];
      var n, events := Play(token, init), EventsOf(token, init);
      HubRuns(token, init);
      OneMove(n, m);
      var one := EventOf(n, m);
      if one == [] {
        assert events + one == events;
      } else {
        assert (events + one)[..|events + one| - 1] == events;
      }
    }
  }

  lemma OneMove(n: Net, m: Move)
    ensures var one := EventOf(n, m);
      |one| <= 1 && Moved(n, m).run == if one == [] then n.run else Advance(n.run, one[0])
  {
    hide Step, React;
  }

  /** So in every run of hub, extension, network and strangers a request comes to what the first event
      after it decides: its answer, its time running out, or the end of its socket. */
  lemma FateInTheWhole(token: string, moves: seq<Move>, k: nat, n: nat)
    requires Turn(token, EventsOf(token, moves), k, n)
    ensures var events, outcomes := EventsOf(token, moves), Play(token, moves).run.outcomes;
      n < |Requests(events[..k])|
      && var h, job := After(Begin(token), events[..k]).hub, Requests(events[..k])[n];
         if h.active.None? then |outcomes| > n && outcomes[n] == (job.call, Disconnected)
         else forall o ::
           (|outcomes| > n && outcomes[n] == (job.call, o)) <==> Decided(token, h.active.value, h.nextId, events[k + 1..], o)
  {
    HubRuns(token, moves);
    RequestFate(token, EventsOf(token, moves), k, n);
  }

  // ---- one request, undisturbed ------------------------------------------------------------------------

  /** `times` frames of the socket reach the hub. */
  ghost function HubHears(n: Net, sock: Sock, times: nat): Net
    decreases times
  {
    if times == 0 then n else HubHears(Moved(n, DeliverToHub(sock)), sock, times - 1)
  }

  /** `times` frames of the socket reach the extension. */
  ghost function ExtHears(n: Net, sock: Sock, times: nat): Net
    decreases times
  {
    if times == 0 then n else ExtHears(Moved(n, DeliverToExt(sock)), sock, times - 1)
  }

  ghost predicate OnItsWay(n: Net, sock: Sock, id: nat, call: nat) {
    Consistent(n) && Outstanding(n.run, sock, id, call) && sock in n.links && sock !in n.strangers
  }

  predicate Answers(frame: ExtensionFrame, id: nat) {
    frame.Res? && frame.id == id
  }

  /** Hearing something else, the hub keeps waiting. */
  lemma HearsOther(n: Net, sock: Sock, id: nat, call: nat)
    requires OnItsWay(n, sock, id, call) && n.links[sock].toHub != [] && !Answers(n.links[sock].toHub[0], id)
    ensures var n' := Moved(n, DeliverToHub(sock));
      && OnItsWay(n', sock, id, call) && n'.run.outcomes == n.run.outcomes
      && n'.links[sock].toHub == n.links[sock].toHub[1..]
  {
    hide Step, Consistent;
    var frame := n.links[sock].toHub[0];
    MoveKeeps(n, DeliverToHub(sock));
    ConsistentRun(n);
    VerdictStep(n.run, Message(sock, frame), sock, id, call);
    HeardFrame(n, sock);
  }

  lemma ConsistentRun(n: Net)
    requires Consistent(n)
    ensures Invariant(n.run)
  {}

  lemma HeardFrame(n: Net, sock: Sock)
    requires Enabled(n, DeliverToHub(sock))
    ensures var n' := Moved(n, DeliverToHub(sock));
      && n'.run == Advance(n.run, Message(sock, n.links[sock].toHub[0]))
      && sock in n'.links && n'.links[sock].toHub == n.links[sock].toHub[1..] && n'.strangers == n.strangers
      && n'.replies == n.replies && n'.conn == n.conn
  {
    hide Step;
    var link := n.links[sock];
    var n1 := n.(links := n.links[sock := link.(toHub := link.toHub[1..])]);
    SendAllKeeps(n1.links, Step(n.run.hub, Message(sock, link.toHub[0])).1);
  }

  /** The first answer that it hears on the socket is what the call gets. */
  lemma {:induction false} AnswerArrives(n: Net, sock: Sock, id: nat, call: nat, reply: Reply, at: nat)
    requires OnItsWay(n, sock, id, call)
    requires at < |n.links[sock].toHub| && n.links[sock].toHub[at] == Res(id, reply)
    requires forall i :: 0 <= i < at ==> !Answers(n.links[sock].toHub[i], id)
    ensures HubHears(n, sock, at + 1).run.outcomes == n.run.outcomes + [(call, Answered(reply))]
    decreases at
  {
    hide Step, Moved, Consistent;
    if at == 0 {
      ConsistentRun(n);
      VerdictStep(n.run, Message(sock, Res(id, reply)), sock, id, call);
      HeardFrame(n, sock);
      assert HubHears(n, sock, 1) == HubHears(Moved(n, DeliverToHub(sock)), sock, 0);
    } else {
      HearsOther(n, sock, id, call);
      AnswerArrives(Moved(n, DeliverToHub(sock)), sock, id, call, reply, at - 1);
    }
  }

  /** No frame answers a request that no handler has finished. */
  lemma NotAnsweredYet(n: Net, sock: Sock, id: nat)
    requires Consistent(n) && sock in n.links && sock !in n.strangers
    requires id in n.run.asked && forall r <- n.replies :: r.id != id
    ensures forall i :: 0 <= i < |n.links[sock].toHub| ==> !Answers(n.links[sock].toHub[i], id)
  {
    forall i | 0 <= i < |n.links[sock].toHub| ensures !Answers(n.links[sock].toHub[i], id) {
      assert GoodToHub(n, sock, n.links[sock].toHub[i]);
    }
  }

  /** The handler returns, and its frame and all before it reach the hub in time: the call gets the reply. */
  lemma ReplyArrives(n: Net, task: Task, call: nat, reply: Reply)
    requires OnItsWay(n, task.sock, task.id, call) && task in n.tasks && forall r <- n.replies :: r.id != task.id
    ensures var n1 := Moved(n, Finish(task, reply));
      HubHears(n1, task.sock, |n.links[task.sock].toHub| + 1).run.outcomes == n.run.outcomes + [(call, Answered(reply))]
  {
    var n1 := Moved(n, Finish(task, reply));
    MoveKeeps(n, Finish(task, reply));
    NotAnsweredYet(n, task.sock, task.id);
    hide Consistent, Step;
    var at := |n.links[task.sock].toHub|;
    assert n1.links[task.sock].toHub == n.links[task.sock].toHub + [Res(task.id, reply)];
    AnswerArrives(n1, task.sock, task.id, call, reply, at);
  }

  lemma ExtHeard(n: Net, sock: Sock)
    requires Consistent(n) && Enabled(n, DeliverToExt(sock))
    ensures var n', frame := Moved(n, DeliverToExt(sock)), n.links[sock].toExt[0];
      && n'.run == n.run && n'.replies == n.replies && n'.strangers == n.strangers && n'.conn.socket == n.conn.socket
      && sock in n'.links && n'.links[sock].toExt == n.links[sock].toExt[1..]
      && n.tasks <= n'.tasks
      && (frame.Req? && n.conn.socket == Some(sock) ==> Task(sock, frame.id, frame.what) in n'.tasks)
  {
    hide React;
    MessageShape(n.conn, sock, n.links[sock].toExt[0]);
  }

  /** The request and all frames before it reach the extension while it is on that socket: its handler
      is called with it. */
  lemma {:induction false} RequestArrives(n: Net, sock: Sock, id: nat, call: nat, what: string, at: nat)
    requires OnItsWay(n, sock, id, call) && n.conn.socket == Some(sock)
    requires at < |n.links[sock].toExt| && n.links[sock].toExt[at] == Req(id, what)
    ensures var n' := ExtHears(n, sock, at + 1);
      OnItsWay(n', sock, id, call) && Task(sock, id, what) in n'.tasks && n'.replies == n.replies && n'.run == n.run
    decreases at
  {
    hide Moved, Consistent;
    MoveKeeps(n, DeliverToExt(sock));
    ExtHeard(n, sock);
    var n' := Moved(n, DeliverToExt(sock));
    if at == 0 {
      assert ExtHears(n, sock, 1) == ExtHears(n', sock, 0);
    } else {
      RequestArrives(n', sock, id, call, what, at - 1);
    }
  }

  /** A request that has its turn while both ends are on one socket, and whose frames get through: what
      the handler returned for its very `what` is what the call gets. */
  lemma RoundTrip(n: Net, sock: Sock, reply: Reply)
    requires Consistent(n) && n.run.hub.running.None? && n.run.hub.waiting != []
    requires n.run.hub.active == Some(sock) && n.conn.socket == Some(sock)
    ensures sock in n.links
    ensures var job, id := n.run.hub.waiting[0], n.run.hub.nextId;
      var n1 := Moved(n, HubEvent(NextJob));
      var n2 := ExtHears(n1, sock, |n.links[sock].toExt| + 1);
      && Task(sock, id, job.what) in n2.tasks && sock in n2.links
      && var n3 := Moved(n2, Finish(Task(sock, id, job.what), reply));
         HubHears(n3, sock, |n2.links[sock].toHub| + 1).run.outcomes == n.run.outcomes + [(job.call, Answered(reply))]
  {
    var job, id := n.run.hub.waiting[0], n.run.hub.nextId;
    var n1 := Moved(n, HubEvent(NextJob));
    Launched(n, sock);
    var at := |n.links[sock].toExt|;
    RequestArrives(n1, sock, id, job.call, job.what, at);
    var n2 := ExtHears(n1, sock, at + 1);
    ReplyArrives(n2, Task(sock, id, job.what), job.call, reply);
  }

  lemma Launched(n: Net, sock: Sock)
    requires Consistent(n) && n.run.hub.running.None? && n.run.hub.waiting != [] && n.run.hub.active == Some(sock)
    ensures sock in n.links
    ensures var job, id := n.run.hub.waiting[0], n.run.hub.nextId;
      var n1 := Moved(n, HubEvent(NextJob));
      && OnItsWay(n1, sock, id, job.call) && n1.run.outcomes == n.run.outcomes && n1.conn == n.conn
      && n1.links[sock].toExt == n.links[sock].toExt + [Req(id, job.what)]
      && forall r <- n1.replies :: r.id != id
  {
    var job, id := n.run.hub.waiting[0], n.run.hub.nextId;
    MoveKeeps(n, HubEvent(NextJob));
    TurnStep(n.run);
    var effects := Step(n.run.hub, NextJob).1;
    assert effects == [Send(sock, Req(id, job.what))] && effects[1..] == [];
    assert SendAll(n.links, effects) == ToExt(n.links, sock, Req(id, job.what));
  }
}
