// What the extension's connection is, from what has happened to it.
module ExtFate {
  import opened Results
  import opened BridgeHub
  import opened ExtConnection

  // ---- what an event means to a connection -------------------------------------------------------

  predicate HasToken(c: Conn) {
    c.config.Some? && c.config.value.token != ""
  }

  /** A new socket is made: on a configuration with a token, and on a keep-alive or a due retry while
      there is neither socket, retry nor halt. */
  predicate Opens(c: Conn, i: Input) {
    match i
    case Configure(config, _) => config.token != ""
    case Ensure(_) => HasToken(c) && c.socket.None? && !c.halted && c.retryTimer.None?
    case RetryFires(_) => HasToken(c) && c.socket.None? && !c.halted && c.retryTimer.Some?
    case _ => false
  }

  /** The live socket closes. */
  predicate Loses(c: Conn, i: Input) {
    i.SocketClosed? && c.socket == Some(i.sock)
  }

  predicate HaltsAt(c: Conn, i: Input) {
    Loses(c, i) && i.code == BadToken
  }

  /** It closes for any reason but a bad token or a newer connection. */
  predicate RetriesAt(c: Conn, i: Input) {
    Loses(c, i) && i.code != BadToken && i.code != Replaced
  }

  predicate Welcomes(c: Conn, i: Input) {
    i.FromHub? && i.frame == Welcome && c.socket == Some(i.sock)
  }

  predicate Reconfigures(c: Conn, i: Input) { i.Configure? }

  predicate EndsSocket(c: Conn, i: Input) { Loses(c, i) || i.Configure? }

  predicate EndsRetry(c: Conn, i: Input) { i.RetryFires? || i.Configure? }

  /** One event: what it leaves of each part of the connection. */
  lemma PartsStep(c: Conn, i: Input)
    requires Sound(c)
    ensures var c' := React(c, i).0;
      && c'.halted == (HaltsAt(c, i) || (c.halted && !Reconfigures(c, i)))
      && c'.retryTimer.Some? == (RetriesAt(c, i) || (c.retryTimer.Some? && !EndsRetry(c, i)))
      && c'.socket.Some? == (Opens(c, i) || (c.socket.Some? && !EndsSocket(c, i)))
      && c'.pingTimer.Some? == (Welcomes(c, i) || (c.pingTimer.Some? && !EndsSocket(c, i)))
      && c'.config == (if i.Configure? then Some(i.config) else c.config)
      && c'.attempt == (if Resets(c, i) then 0 else if RetriesAt(c, i) then c.attempt + 1 else c.attempt)
      && (Opens(c, i) ==> c'.socket == Some(i.made) && c'.config.Some? && c'.hellos == c.hellos[i.made := c'.config.value.token])
      && (!Opens(c, i) ==> c'.hellos == c.hellos && (c'.socket.Some? ==> c'.socket == c.socket))
      && (RetriesAt(c, i) ==> c'.retryTimer == Some(BackoffMs(c.attempt)))
      && (!RetriesAt(c, i) && c'.retryTimer.Some? ==> c'.retryTimer == c.retryTimer)
  {}

  // ---- over all sequences of events -----------------------------------------------------------------

  ghost function At(inputs: seq<Input>, k: nat): Conn
    requires k <= |inputs|
  {
    Lifetime(inputs[..k]).conn
  }

  ghost predicate SinceAt(inputs: seq<Input>, starts: (Conn, Input) -> bool, ends: (Conn, Input) -> bool, k: nat) {
    && k < |inputs| && starts(At(inputs, k), inputs[k])
    && forall j :: k < j < |inputs| ==> !ends(At(inputs, j), inputs[j])
  }

  /** Some event started it, and none since has ended it. */
  ghost predicate Since(inputs: seq<Input>, starts: (Conn, Input) -> bool, ends: (Conn, Input) -> bool) {
    exists k: nat :: SinceAt(inputs, starts, ends, k)
  }

  lemma SinceStep(init: seq<Input>, i: Input, starts: (Conn, Input) -> bool, ends: (Conn, Input) -> bool)
    ensures var c := Lifetime(init).conn;
      Since(init + [i], starts, ends) <==> starts(c, i) || (Since(init, starts, ends) && !ends(c, i))
  {
    var inputs, n := init + [i], |init|;
    assert inputs[..n] == init && inputs[n] == i;
    forall k: nat | k < n ensures At(inputs, k) == At(init, k) && inputs[k] == init[k] {
      assert inputs[..k] == init[..k];
    }
    if k: nat :| SinceAt(inputs, starts, ends, k) {
      if k < n {
        assert forall j :: k < j < n ==> !ends(At(init, j), init[j]);
        assert SinceAt(init, starts, ends, k);
      }
    }
    if starts(Lifetime(init).conn, i) { assert SinceAt(inputs, starts, ends, n); }
    if !ends(Lifetime(init).conn, i) {
      if k: nat :| SinceAt(init, starts, ends, k) { assert SinceAt(inputs, starts, ends, k); }
    }
  }

  /** For every sequence of events: the connection is halted since its socket closed for a bad token
      and until it is configured anew; it waits for a retry since its socket closed otherwise, unless
      replaced, and until the retry or a configuration; it has a socket since one was made and until
      that closes or is dropped; it pings since the welcome on that socket. */
  lemma {:induction false} PartsExactly(inputs: seq<Input>)
    ensures var c := Lifetime(inputs).conn;
      && (c.halted <==> Since(inputs, HaltsAt, Reconfigures))
      && (c.retryTimer.Some? <==> Since(inputs, RetriesAt, EndsRetry))
      && (c.socket.Some? <==> Since(inputs, Opens, EndsSocket))
      && (c.pingTimer.Some? <==> Since(inputs, Welcomes, EndsSocket))
    decreases |inputs|
  {
    hide React, HaltsAt, RetriesAt, Opens, Welcomes, Reconfigures, EndsRetry, EndsSocket, Since;
    if inputs == [] {
      NothingYet();
    } else {
      var init, i := inputs[..|inputs| - 1], inputs[|inputs| - 1];
      PartsExactly(init);
      AlwaysSound(init);
      PartsStep(Lifetime(init).conn, i);
      SinceStep(init, i, HaltsAt, Reconfigures);
      SinceStep(init, i, RetriesAt, EndsRetry);
      SinceStep(init, i, Opens, EndsSocket);
      SinceStep(init, i, Welcomes, EndsSocket);
      assert init + [i] == inputs;
    }
  }

  lemma NothingYet()
    ensures forall starts: (Conn, Input) -> bool, ends: (Conn, Input) -> bool :: !Since([], starts, ends)
  {}

  /** A lost connection is never forgotten: with a token, and unless halted or replaced, there is always
      a socket or a retry on the way. */
  lemma {:induction false} NeverStuck(inputs: seq<Input>)
    ensures var c := Lifetime(inputs).conn;
      HasToken(c) && !c.halted && c.socket.None? && c.retryTimer.None? ==>
        Since(inputs, (c, i) => Loses(c, i) && i.code == Replaced, (c, i) => Opens(c, i))
    decreases |inputs|
  {
    hide React, Since;
    if inputs != [] {
      var init, i := inputs[..|inputs| - 1], inputs[|inputs| - 1];
      NeverStuck(init);
      AlwaysSound(init);
      PartsStep(Lifetime(init).conn, i);
      SinceStep(init, i, (c, i) => Loses(c, i) && i.code == Replaced, (c, i) => Opens(c, i));
      assert init + [i] == inputs;
    }
  }

  /** Each wait is twice the one before, from one second up to half a minute. */
  lemma BackoffDoubles(n: nat)
    ensures BackoffMs(0) == 1_000
    ensures BackoffMs(n + 1) == (if 2 * BackoffMs(n) < 30_000 then 2 * BackoffMs(n) else 30_000)
  {
    assert PowerOfTwo(n + 1) == 2 * PowerOfTwo(n);
  }

  // ---- what it does ------------------------------------------------------------------------------------

  /** Frames go out as the hello of an opened socket, with the token it was made for, and as pings on the
      live socket; requests are handled if they come in on it. */
  lemma WhyActs(c: Conn, i: Input, sock: Sock)
    requires Sound(c)
    ensures var acts := React(c, i).1;
      && (forall frame :: SendFrame(sock, frame) in acts <==>
            || (i == Opened(sock) && sock in c.hellos && frame == Hello(c.hellos[sock], 2))
            || (i == PingFires && c.pingTimer == Some(sock) && frame == Ping))
      && (forall id, what :: Handle(sock, id, what) in acts <==> i == FromHub(sock, Req(id, what)) && c.socket == Some(sock))
      && (CreateSocket(sock) in acts <==> Opens(c, i) && i.made == sock)
      && (CloseSocket(sock) in acts <==> i.Configure? && c.socket == Some(sock))
  {}

  /** And what it shows. */
  lemma WhyStatus(c: Conn, i: Input, status: Status)
    requires Sound(c)
    ensures SetStatus(status) in React(c, i).1 <==>
      || (status == Connecting && Opens(c, i))
      || (status == ExtConnection.Connected && Welcomes(c, i))
      || (status == BadTokenStatus && HaltsAt(c, i))
      || (status == Outdated && Loses(c, i) && i.code == ProtocolMismatch)
      || (status == WaitingToRetry && Loses(c, i) && i.code != BadToken && i.code != ProtocolMismatch)
      || (status == NoToken && i.Configure? && i.config.token == "")
      || (status == NoToken && (i.Ensure? || (i.RetryFires? && c.retryTimer.Some?)) && !HasToken(c)
          && c.socket.None? && !c.halted && (i.RetryFires? || c.retryTimer.None?))
  {}
}
