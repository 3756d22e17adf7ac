/** The upstream relay: the service holding the connection to the chat
    feed. Its state is two flags, the last-activity stamp, the message
    counter and whether a reconnect timer is pending. Library signals, the
    timer firing and the health-check tick are inputs; whether building a
    client throws is an input too. Each step returns the events it emits,
    in order. */
module Relay {
  import opened Wrappers
  import opened ChatTypes

  datatype Relay = Relay(
    connected: bool,
    connecting: bool,
    lastActivity: Option<int>,
    messageCount: nat,
    reconnectPending: bool)

  /** The events the relay emits: link status, reconnect notice, and a chat
      payload passed on untouched. */
  datatype RelayEvent = StatusChanged(connected: bool) | Reconnecting | ChatReceived(data: ChatMessage)

  datatype Step = Step(relay: Relay, events: seq<RelayEvent>)

  /** The client's own connection state as the health check reads it;
      `ReportedOther` covers every other state and a missing client. */
  datatype Reported = ReportedConnected | ReportedConnecting | ReportedOther

  /** The channel subscribed to when none is configured. */
  const DefaultChannel: string := "sschat_c2a6e2feefc3c81a79a80b557bddb84f"

  const Initial: Relay := Relay(false, false, None, 0, false)

  /** The two flags are never both set. */
  predicate Exclusive(r: Relay)
  {
    !(r.connected && r.connecting)
  }

  /** `scheduleReconnect()`: single-flight. With a timer pending nothing
      happens; otherwise one reconnect notice is emitted and a timer armed. */
  function ScheduleReconnect(r: Relay): (s: Step)
    ensures r.reconnectPending ==> s == Step(r, [])
    ensures !r.reconnectPending ==> s.relay == r.(reconnectPending := true) && s.events == [Reconnecting]
    ensures s.relay.reconnectPending
  {
    if r.reconnectPending then Step(r, [])
    else Step(r.(reconnectPending := true), [Reconnecting])
  }

  /** `connect()`. A no-op while connecting or connected. Otherwise the
      relay is connecting; if building the client throws (`ok` false) the
      connecting flag is cleared and a reconnect is scheduled, without any
      status event. */
  function Connect(r: Relay, ok: bool): (s: Step)
    ensures r.connecting || r.connected ==> s == Step(r, [])
    ensures !r.connecting && !r.connected && ok ==>
      s == Step(r.(connecting := true), [])
    ensures !r.connecting && !r.connected && !ok ==>
      && !s.relay.connected && !s.relay.connecting && s.relay.reconnectPending
      && s.events == (if r.reconnectPending then [] else [Reconnecting])
    ensures s.relay.lastActivity == r.lastActivity && s.relay.messageCount == r.messageCount
    ensures Exclusive(r) ==> Exclusive(s.relay)
  {
    if r.connecting || r.connected then Step(r, [])
    else
      var connecting := r.(connecting := true);
      if ok then Step(connecting, [])
      else ScheduleReconnect(connecting.(connecting := false))
  }

  /** The library's `connected` signal: connected, not connecting, activity
      stamped, and a status(true) event every time. */
  function OnConnected(r: Relay, now: int): (s: Step)
    ensures s.relay.connected && !s.relay.connecting
    ensures s.relay.lastActivity == Some(now)
    ensures s.events == [StatusChanged(true)]
    ensures s.relay.messageCount == r.messageCount && s.relay.reconnectPending == r.reconnectPending
  {
    Step(r.(connected := true, connecting := false, lastActivity := Some(now)), [StatusChanged(true)])
  }

  /** The library's `disconnected` and `error` signals (same handler body):
      both flags cleared, status(false) only if the relay was connected,
      then a reconnect scheduled. */
  function OnDisconnected(r: Relay): (s: Step)
    ensures !s.relay.connected && !s.relay.connecting && s.relay.reconnectPending
    ensures s.events == (if r.connected then [StatusChanged(false)] else [])
                        + (if r.reconnectPending then [] else [Reconnecting])
    ensures s.relay.lastActivity == r.lastActivity && s.relay.messageCount == r.messageCount
  {
    var cleared := r.(connected := false, connecting := false);
    var notice := if r.connected then [StatusChanged(false)] else [];
    var scheduled := ScheduleReconnect(cleared);
    Step(scheduled.relay, notice + scheduled.events)
  }

  /** A `chat-message` on the channel: one more message, activity stamped,
      and the raw payload passed on. */
  function OnChatMessage(r: Relay, data: ChatMessage, now: int): (s: Step)
    ensures s.relay.messageCount == r.messageCount + 1
    ensures s.relay.lastActivity == Some(now)
    ensures s.events == [ChatReceived(data)]
    ensures s.relay.connected == r.connected && s.relay.connecting == r.connecting
    ensures s.relay.reconnectPending == r.reconnectPending
  {
    Step(r.(messageCount := r.messageCount + 1, lastActivity := Some(now)), [ChatReceived(data)])
  }

  /** The reconnect timer fires: the timer is cleared first, then
      `connect()` runs, which does nothing if the relay is already connecting
      or connected by then. */
  function OnReconnectTimer(r: Relay, ok: bool): (s: Step)
    ensures r.connected || r.connecting ==> s == Step(r.(reconnectPending := false), [])
    ensures !r.connected && !r.connecting && ok ==> !s.relay.reconnectPending && s.relay.connecting
    ensures s.events == (if !r.connected && !r.connecting && !ok then [Reconnecting] else [])
  {
    Connect(r.(reconnectPending := false), ok)
  }

  /** `disconnect()`: the pending timer is cancelled and both flags are
      cleared; nothing is emitted. */
  function Disconnect(r: Relay): (d: Relay)
    ensures !d.connected && !d.connecting && !d.reconnectPending
    ensures d.lastActivity == r.lastActivity && d.messageCount == r.messageCount
  {
    r.(connected := false, connecting := false, reconnectPending := false)
  }

  /** The reconciliation half of the health check: a client reporting
      `connected` to a relay that does not believe it makes the relay
      connected; a client reporting neither `connected` nor `connecting` to
      a relay that believes it is connected clears both flags; otherwise the
      belief stands. */
  function Reconcile(r: Relay, reported: Reported): (b: Relay)
    ensures reported == ReportedConnected && !r.connected ==> b == r.(connected := true, connecting := false)
    ensures reported == ReportedOther && r.connected ==> b == r.(connected := false, connecting := false)
    ensures reported == ReportedConnecting ==> b == r
    ensures reported == ReportedConnected && r.connected ==> b == r
    ensures reported == ReportedOther && !r.connected ==> b == r
  {
    if reported == ReportedConnected && !r.connected then r.(connected := true, connecting := false)
    else if reported != ReportedConnected && reported != ReportedConnecting then
      (if r.connected then r.(connected := false, connecting := false) else r)
    else r
  }

  /** One health-check tick: reconcile, then call `connect()` exactly when
      the reconciled relay is neither connected nor connecting. */
  function HealthCheck(r: Relay, reported: Reported, ok: bool): (s: Step)
    ensures var b := Reconcile(r, reported);
      && (!b.connected && !b.connecting ==> s == Connect(b, ok))
      && (b.connected || b.connecting ==> s == Step(b, []))
    ensures s.relay.messageCount == r.messageCount && s.relay.lastActivity == r.lastActivity
  {
    var b := Reconcile(r, reported);
    if !b.connected && !b.connecting then Connect(b, ok) else Step(b, [])
  }

  /** `forceReconnect()`: refused, with no change, while connected or
      connecting; otherwise `connect()` runs and the call reports true. */
  function ForceReconnect(r: Relay, ok: bool): (res: (Step, bool))
    ensures !res.1 <==> r.connected || r.connecting
    ensures !res.1 ==> res.0 == Step(r, [])
    ensures res.1 ==> res.0 == Connect(r, ok) && (ok ==> res.0.relay.connecting)
  {
    if r.connected || r.connecting then (Step(r, []), false)
    else (Connect(r, ok), true)
  }

  /** `getStatus()` at time `now`. */
  datatype Status = Status(
    connected: bool,
    connecting: bool,
    lastActivity: Option<int>,
    timeSinceLastActivity: Option<int>,
    messageCount: nat,
    channel: string)

  /** The reported channel is the configured one, or `DefaultChannel`
      when none is configured. */
  function GetStatus(r: Relay, now: int, configured: Option<string>): (st: Status)
    ensures st.timeSinceLastActivity.Some? <==> r.lastActivity.Some?
    ensures r.lastActivity.Some? ==> st.timeSinceLastActivity.value + r.lastActivity.value == now
    ensures st.connected == r.connected && st.connecting == r.connecting
    ensures st.messageCount == r.messageCount
    ensures st.lastActivity == r.lastActivity
    ensures configured.Some? ==> st.channel == configured.value
    ensures configured.None? ==> st.channel == DefaultChannel
  {
    var since := match r.lastActivity case Some(t) => Some(now - t) case None => None;
    Status(r.connected, r.connecting, r.lastActivity, since, r.messageCount, configured.GetOr(DefaultChannel))
  }

  /** The inputs the relay reacts to. */
  datatype Signal =
    | CallConnect(ok: bool)
    | LibConnected(now: int)
    | LibDisconnected
    | LibError
    | Chat(data: ChatMessage, now: int)
    | TimerFired(ok: bool)
    | HealthTick(reported: Reported, ok: bool)
    | Force(ok: bool)
    | CallDisconnect

  /** One input. A timer that is not pending was cleared and cannot fire. */
  function Next(r: Relay, sig: Signal): (s: Step)
    ensures Exclusive(r) ==> Exclusive(s.relay)
    ensures s.relay.messageCount == r.messageCount + (if sig.Chat? then 1 else 0)
  {
    match sig
    case CallConnect(ok) => Connect(r, ok)
    case LibConnected(now) => OnConnected(r, now)
    case LibDisconnected => OnDisconnected(r)
    case LibError => OnDisconnected(r)
    case Chat(data, now) => OnChatMessage(r, data, now)
    case TimerFired(ok) => if r.reconnectPending then OnReconnectTimer(r, ok) else Step(r, [])
    case HealthTick(reported, ok) => HealthCheck(r, reported, ok)
    case Force(ok) => ForceReconnect(r, ok).0
    case CallDisconnect => Step(Disconnect(r), [])
  }

  /** A run of inputs, with all the events emitted along the way. */
  function Run(r: Relay, sigs: seq<Signal>): Step
    decreases |sigs|
  {
    if |sigs| == 0 then Step(r, [])
    else
      var first := Next(r, sigs[0]);
      var rest := Run(first.relay, sigs[1..]);
      Step(rest.relay, first.events + rest.events)
  }

  function CountChats(sigs: seq<Signal>): nat
    decreases |sigs|
  {
    if |sigs| == 0 then 0 else (if sigs[0].Chat? then 1 else 0) + CountChats(sigs[1..])
  }

  /** Along any run from a relay whose flags are exclusive the flags stay
      exclusive, and the message counter grows by exactly the number of
      chat messages, so it never decreases. */
  lemma {:induction false} RunInvariant(r: Relay, sigs: seq<Signal>)
    requires Exclusive(r)
    ensures Exclusive(Run(r, sigs).relay)
    ensures Run(r, sigs).relay.messageCount == r.messageCount + CountChats(sigs)
    decreases |sigs|
  {
    if |sigs| > 0 {
      RunInvariant(Next(r, sigs[0]).relay, sigs[1..]);
    }
  }

  /** Every relay reachable from start-up has exclusive flags. */
  lemma ReachableExclusive(sigs: seq<Signal>)
    ensures Exclusive(Run(Initial, sigs).relay)
    ensures Run(Initial, sigs).relay.messageCount == CountChats(sigs)
  {
    RunInvariant(Initial, sigs);
  }

  /** Two disconnect signals in a row emit one reconnect notice and leave
      one timer pending. */
  lemma SingleFlightReconnect(r: Relay)
    requires !r.reconnectPending
    ensures var s := Run(r, [LibDisconnected, LibDisconnected]);
      s.relay.reconnectPending
      && s.events == (if r.connected then [StatusChanged(false)] else []) + [Reconnecting]
  {
    var first := Next(r, LibDisconnected);
    var second := Next(first.relay, LibDisconnected);
    assert second.events == [];
    assert Run(first.relay, [LibDisconnected]) == Step(second.relay, second.events + []);
    assert [LibDisconnected, LibDisconnected][1..] == [LibDisconnected];
  }

  /** A pending reconnect timer does not mean the relay is down: after a
      disconnect, a health check can reconnect while the timer is pending,
      the library can report connected, and the timer's `connect()` then
      does nothing but clear the timer. */
  lemma PendingTimerWhileConnected(now: int)
    ensures var sigs := [CallConnect(true), LibConnected(now), LibDisconnected,
                         HealthTick(ReportedOther, true), LibConnected(now)];
      var s := Run(Initial, sigs);
      && s.relay.connected && s.relay.reconnectPending
      && Next(s.relay, TimerFired(true)) == Step(s.relay.(reconnectPending := false), [])
  {
    var sigs := [CallConnect(true), LibConnected(now), LibDisconnected,
                 HealthTick(ReportedOther, true), LibConnected(now)];
    var r1 := Next(Initial, sigs[0]).relay;
    var r2 := Next(r1, sigs[1]).relay;
    var r3 := Next(r2, sigs[2]).relay;
    var r4 := Next(r3, sigs[3]).relay;
    var r5 := Next(r4, sigs[4]).relay;
    assert r3.reconnectPending && !r3.connected && !r3.connecting;
    assert r4.connecting && r4.reconnectPending;
    assert r5.connected && r5.reconnectPending;
    assert sigs[1..][1..][1..][1..][1..] == [];
    assert Run(r5, []).relay == r5;
    assert Run(r4, sigs[4..]).relay == r5;
    assert Run(r3, sigs[3..]).relay == r5;
    assert Run(r2, sigs[2..]).relay == r5;
    assert Run(r1, sigs[1..]).relay == r5;
  }
}
