// packages/chrome-extension/src/connection.ts
module ExtConnection {
  import opened Results
  import opened BridgeHub

  // The extension's end of the bridge, reconnecting with backoff. Timers and sockets are the
  // environment; each callback is an event.

  const MAX_BACKOFF_MS: nat := 30_000

  datatype Config = Config(token: string, port: nat)

  datatype Status = Connecting | Connected | WaitingToRetry | BadTokenStatus | NoToken | Outdated

  /** `hellos` is what each socket's `onopen` closure captured: the token to say hello with. */
  datatype Conn = Conn(
    socket: Option<Sock>,
    config: Option<Config>,
    attempt: nat,
    retryTimer: Option<nat>,      // its delay
    pingTimer: Option<Sock>,      // the socket it captured
    halted: bool,
    hellos: map<Sock, string>)

  datatype Act =
    | CreateSocket(sock: Sock)
    | SendFrame(sock: Sock, frame: ExtensionFrame)
    | CloseSocket(sock: Sock)
    | Handle(sock: Sock, id: nat, what: string)
    | SetStatus(status: Status)

  /** `made` is the socket that `createSocket` would return. */
  datatype Input =
    | Configure(config: Config, made: Sock)
    | Ensure(made: Sock)
    | Opened(sock: Sock)
    | FromHub(sock: Sock, frame: ServerFrame)
    | SocketClosed(sock: Sock, code: CloseCode)
    | RetryFires(made: Sock)
    | PingFires

  const Idle: Conn := Conn(None, None, 0, None, None, false, map[])

  function PowerOfTwo(n: nat): nat {
    if n == 0 then 1 else 2 * PowerOfTwo(n - 1)
  }

  /** One second, doubled with each attempt, and half a minute at most. */
  function BackoffMs(attempt: nat): nat {
    var raw := 1000 * PowerOfTwo(attempt);
    if raw < MAX_BACKOFF_MS then raw else MAX_BACKOFF_MS
  }

  // ---- the step function ---------------------------------------------------------------------

  function EnsureStep(c: Conn, made: Sock): (Conn, seq<Act>) {
    if c.socket.Some? || c.halted || c.retryTimer.Some? then (c, [])
    else if c.config.None? || |c.config.value.token| == 0 then (c, [SetStatus(NoToken)])
    else
      (c.(socket := Some(made), hellos := c.hellos[made := c.config.value.token]),
       [CreateSocket(made), SetStatus(Connecting)])
  }

  function ConfigureStep(c: Conn, config: Config, made: Sock): (Conn, seq<Act>) {
    var dropped := c.(config := Some(config), halted := false, attempt := 0, retryTimer := None, pingTimer := None, socket := None);
    var (c', acts) := EnsureStep(dropped, made);
    (c', (if c.socket.Some? then [CloseSocket(c.socket.value)] else []) + acts)
  }

  function MessageStep(c: Conn, sock: Sock, frame: ServerFrame): (Conn, seq<Act>) {
    if c.socket != Some(sock) then (c, [])
    else
      match frame
      case Welcome => (c.(attempt := 0, pingTimer := Some(sock)), [SetStatus(Connected)])
      case Req(id, what) => (c, [Handle(sock, id, what)])
      case Pong => (c, [])
  }

  function CloseStep(c: Conn, sock: Sock, code: CloseCode): (Conn, seq<Act>) {
    if c.socket != Some(sock) then (c, [])
    else
      var c' := c.(socket := None, pingTimer := None);
      match code
      case BadToken => (c'.(halted := true), [SetStatus(BadTokenStatus)])
      case Replaced => (c', [SetStatus(WaitingToRetry)])
      case _ =>
        (c'.(attempt := c.attempt + 1, retryTimer := Some(BackoffMs(c.attempt))),
         [SetStatus(if code.ProtocolMismatch? then Outdated else WaitingToRetry)])
  }

  function React(c: Conn, i: Input): (Conn, seq<Act>) {
    match i
    case Configure(config, made) => ConfigureStep(c, config, made)
    case Ensure(made) => EnsureStep(c, made)
    case Opened(sock) =>
      if sock in c.hellos then (c, [SendFrame(sock, Hello(c.hellos[sock], PROTOCOL_VERSION))]) else (c, [])
    case FromHub(sock, frame) => MessageStep(c, sock, frame)
    case SocketClosed(sock, code) => CloseStep(c, sock, code)
    case RetryFires(made) => if c.retryTimer.Some? then EnsureStep(c.(retryTimer := None), made) else (c, [])
    case PingFires =>
      if c.pingTimer.None? then (c, [])
      else if c.socket == c.pingTimer then (c, [SendFrame(c.pingTimer.value, Ping)])
      else (c.(pingTimer := None), [])
  }

  // ---- over all sequences of events ------------------------------------------------------------

  /** Never a live socket and an armed retry; a ping timer belongs to the live socket; halted
      means neither socket nor timer. */
  ghost predicate Sound(c: Conn) {
    && !(c.socket.Some? && c.retryTimer.Some?)
    && (c.pingTimer.Some? ==> c.socket == c.pingTimer)
    && (c.halted ==> c.socket.None? && c.retryTimer.None? && c.pingTimer.None?)
  }

  /** The connection and the retry delays armed since the last welcome or reconfiguration. */
  datatype Life = Life(conn: Conn, delays: seq<nat>)

  predicate Resets(c: Conn, i: Input) {
    i.Configure? || (i.FromHub? && i.frame.Welcome? && c.socket == Some(i.sock))
  }

  function Live(l: Life, i: Input): Life {
    var c' := React(l.conn, i).0;
    Life(c',
      if Resets(l.conn, i) then []
      else if c'.attempt > l.conn.attempt then l.delays + [c'.retryTimer.GetOr(0)]
      else l.delays)
  }

  function Lifetime(inputs: seq<Input>): Life
    decreases |inputs|
  {
    if inputs == [] then Life(Idle, []) else Live(Lifetime(inputs[..|inputs| - 1]), inputs[|inputs| - 1])
  }

  /** The n-th delay since the reset is the n-th backoff. */
  ghost predicate BacksOff(l: Life) {
    |l.delays| == l.conn.attempt && forall n :: 0 <= n < |l.delays| ==> l.delays[n] == BackoffMs(n)
  }

  lemma {:induction false} BackoffGrows(m: nat, n: nat)
    requires m <= n
    ensures 1000 <= BackoffMs(m) <= BackoffMs(n) <= 30_000
    decreases n
  {
    PowerGrows(m, n);
  }

  lemma {:induction false} PowerGrows(m: nat, n: nat)
    requires m <= n
    ensures 1 <= PowerOfTwo(m) <= PowerOfTwo(n)
    decreases n
  {
    if m < n { PowerGrows(m, n - 1); } else if m > 0 { PowerGrows(m - 1, m - 1); }
  }

  lemma SoundStep(c: Conn, i: Input)
    requires Sound(c)
    ensures Sound(React(c, i).0)
    // only a reconfiguration lifts a halt, and until then no socket is opened
    ensures c.halted && !i.Configure? ==>
      React(c, i).0.halted && forall a <- React(c, i).1 :: !a.CreateSocket?
    // an idle connection with a token gets a socket, or is already waiting to retry
    ensures i.Ensure? && !c.halted && c.config.Some? && |c.config.value.token| > 0 ==>
      var c' := React(c, i).0; c'.socket.Some? || c'.retryTimer.Some?
  {}

  lemma {:induction false} AlwaysSound(inputs: seq<Input>)
    ensures Sound(Lifetime(inputs).conn) && BacksOff(Lifetime(inputs))
    decreases |inputs|
  {
    if inputs != [] {
      AlwaysSound(inputs[..|inputs| - 1]);
      SoundStep(Lifetime(inputs[..|inputs| - 1]).conn, inputs[|inputs| - 1]);
      assert BacksOff(Live(Lifetime(inputs[..|inputs| - 1]), inputs[|inputs| - 1]));
    }
  }

  /** Between resets the delays never shrink, and all lie in 1000..30000 ms. */
  lemma DelaysGrow(inputs: seq<Input>, m: nat, n: nat)
    requires m <= n < |Lifetime(inputs).delays|
    ensures 1000 <= Lifetime(inputs).delays[m] <= Lifetime(inputs).delays[n] <= 30_000
  {
    AlwaysSound(inputs);
    BackoffGrows(m, n);
  }

  // ---- the class ---------------------------------------------------------------------------------

  class Connection {
    var socket: Option<Sock>
    var config: Option<Config>
    var attempt: nat
    var retryTimer: Option<nat>
    var pingTimer: Option<Sock>
    var halted: bool
    ghost var hellos: map<Sock, string>
    var log: seq<Act>

    ghost function State(): Conn
      reads this
    {
      Conn(socket, config, attempt, retryTimer, pingTimer, halted, hellos)
    }

    twostate predicate Did(i: Input)
      reads this
    {
      && State() == React(old(State()), i).0
      && log == old(log) + React(old(State()), i).1
      && Sound(State())
    }

    constructor ()
      ensures State() == Idle && log == [] && Sound(State())
    {
      socket, config, attempt, retryTimer, pingTimer, halted := None, None, 0, None, None, false;
      hellos, log := map[], [];
    }

    method ConfigureWith(newConfig: Config, made: Sock)
      requires Sound(State())
      modifies this
      ensures Did(Configure(newConfig, made))
    {
      ghost var before := State();
      config := Some(newConfig);
      halted := false;
      attempt := 0;
      Drop();
      ghost var dropped := log;
      EnsureOpen(made);
      assert log == old(log) + ((if before.socket.Some? then [CloseSocket(before.socket.value)] else []) + log[|dropped|..]);
    }

    method EnsureOpen(made: Sock)
      requires Sound(State())
      modifies this
      ensures Did(Ensure(made))
    {
      assert log + [] == log;
      if socket.Some? || halted || retryTimer.Some? {
        return;
      }
      if config.None? || |config.value.token| == 0 {
        log := log + [SetStatus(NoToken)];
        return;
      }
      socket := Some(made);
      hellos := hellos[made := config.value.token];
      log := log + [CreateSocket(made), SetStatus(Connecting)];
    }

    method OnMessage(sock: Sock, frame: ServerFrame)
      requires Sound(State())
      modifies this
      ensures Did(FromHub(sock, frame))
    {
      assert log + [] == log;
      if socket != Some(sock) {
        return;
      }
      match frame
      case Welcome =>
        attempt := 0;
        log := log + [SetStatus(Connected)];
        StartPing(sock);
      case Req(id, what) =>
        log := log + [Handle(sock, id, what)];
      case Pong =>
    }

    method StartPing(sock: Sock)
      modifies `pingTimer
      ensures pingTimer == Some(sock)
    {
      StopPing();
      pingTimer := Some(sock);
    }

    method StopPing()
      modifies `pingTimer
      ensures pingTimer == None
    {
      if pingTimer.Some? { pingTimer := None; }
    }

    /** The ping timer's callback. */
    method OnPing()
      requires Sound(State()) && pingTimer.Some?
      modifies this
      ensures Did(PingFires)
    {
      var sock := pingTimer.value;
      pingTimer := None;
      if socket == Some(sock) {
        log := log + [SendFrame(sock, Ping)];
        StartPing(sock);
      }
    }

    method OnClose(sock: Sock, code: CloseCode)
      requires Sound(State())
      modifies this
      ensures Did(SocketClosed(sock, code))
    {
      assert log + [] == log;
      if socket != Some(sock) {
        return;
      }
      socket := None;
      StopPing();
      if code.BadToken? {
        halted := true;
        log := log + [SetStatus(BadTokenStatus)];
        return;
      }
      log := log + [SetStatus(if code.ProtocolMismatch? then Outdated else WaitingToRetry)];
      if code.Replaced? {
        return;
      }
      var delay := BackoffMs(attempt);
      attempt := attempt + 1;
      retryTimer := Some(delay);
    }

    /** The retry timer's callback. */
    method OnRetry(made: Sock)
      requires Sound(State()) && retryTimer.Some?
      modifies this
      ensures Did(RetryFires(made))
    {
      retryTimer := None;
      EnsureOpen(made);
    }

    method Drop()
      requires pingTimer.Some? ==> socket == pingTimer
      modifies `socket, `retryTimer, `pingTimer, `log
      ensures socket == None && retryTimer == None && pingTimer == None
      ensures log == old(log) + if old(socket).Some? then [CloseSocket(old(socket).value)] else []
    {
      if retryTimer.Some? { retryTimer := None; }
      StopPing();
      var sock := socket;
      socket := None;
      assert log + [] == log;
      if sock.Some? { log := log + [CloseSocket(sock.value)]; }
    }
  }
}
