/** The terminal gateway: which peers are admitted, how each session's
    queue leaves one byte per transmission tick, and how relay events reach
    every session. Timers are explicit: the pending transmission ticks and
    the pending welcome deliveries are part of the state, and a timer
    firing is an input. */
module Gateway {
  import opened Wrappers
  import opened JsString
  import opened Sessions
  import Relay
  import Messages
  import PetsciiService
  import PetsciiCodes

  /** An idle session gets the status line at most every two minutes. */
  const StatusMessageIntervalMs: nat := 2 * 60 * 1000
  /** The version string the welcome screen is built with. */
  const WelcomeVersion: string := "0001"
  /** The welcome screen every admitted peer is sent. */
  const Welcome: string := Messages.WelcomeMessage(WelcomeVersion)
  const DefaultAllowedIps: string := "127.0.0.1"
  /** The prefix of an IPv4 address mapped into IPv6. */
  const MappedPrefix: string := "::ffff:"

  // ---------------------------------------------------------------------
  // Admission

  /** `extractIp`: the IPv4 address inside an IPv4-mapped IPv6 address;
      any other address as it is. */
  function ExtractIp(remoteAddress: string): (ip: string)
    ensures StartsWith(remoteAddress, MappedPrefix) ==> MappedPrefix + ip == remoteAddress
    ensures !StartsWith(remoteAddress, MappedPrefix) ==> ip == remoteAddress
  {
    if StartsWith(remoteAddress, MappedPrefix) then remoteAddress[|MappedPrefix|..] else remoteAddress
  }

  /** Unwrapping undoes the mapping of any address. */
  lemma ExtractIpOfMapped(ip: string)
    ensures ExtractIp(MappedPrefix + ip) == ip
  {
    assert StartsWith(MappedPrefix + ip, MappedPrefix);
  }

  /** An address is left as it is exactly when it is not mapped. */
  lemma ExtractIpIdentity(remoteAddress: string)
    ensures ExtractIp(remoteAddress) == remoteAddress <==> !StartsWith(remoteAddress, MappedPrefix)
  {
    if StartsWith(remoteAddress, MappedPrefix) {
      assert |ExtractIp(remoteAddress)| < |remoteAddress|;
    }
  }

  /** Only one prefix is removed: a doubly mapped address keeps the inner
      prefix, so unwrapping is not idempotent. */
  lemma ExtractIpUnwrapsOnce(ip: string)
    ensures ExtractIp(MappedPrefix + MappedPrefix + ip) == MappedPrefix + ip
    ensures ExtractIp(ExtractIp(MappedPrefix + MappedPrefix + ip)) == ip
  {
    assert MappedPrefix + MappedPrefix + ip == MappedPrefix + (MappedPrefix + ip);
    ExtractIpOfMapped(MappedPrefix + ip);
    ExtractIpOfMapped(ip);
  }

  /** Every piece trimmed. */
  function TrimEach(pieces: seq<string>): (r: seq<string>)
    ensures |r| == |pieces|
    ensures forall i :: 0 <= i < |r| ==> r[i] == Trim(pieces[i])
  {
    seq(|pieces|, i requires 0 <= i < |pieces| => Trim(pieces[i]))
  }

  lemma TrimEachNoop(xs: seq<string>)
    requires forall i :: 0 <= i < |xs| ==> Trim(xs[i]) == xs[i]
    ensures TrimEach(xs) == xs
  {
  }

  /** The allow-list read at start-up: the configured string (by default
      `127.0.0.1`) split on `,`, each piece trimmed. Blank pieces stay. */
  function ParseAllowList(config: Option<string>): (list: seq<string>)
    ensures |list| >= 1
    ensures forall i :: 0 <= i < |list| ==> ',' !in list[i] && Trim(list[i]) == list[i]
  {
    var text := config.GetOr(DefaultAllowedIps);
    var pieces := Split(text, ',');
    var list := TrimEach(pieces);
    assert forall i :: 0 <= i < |list| ==> ',' !in list[i] && Trim(list[i]) == list[i] by {
      forall i | 0 <= i < |list| ensures ',' !in list[i] && Trim(list[i]) == list[i] {
        TrimWithin(pieces[i], ',');
        TrimIdempotent(pieces[i]);
      }
    }
    list
  }

  /** A configured string is split on `,` and every piece trimmed. */
  lemma ParsedPieces(config: string)
    ensures ParseAllowList(Some(config)) == TrimEach(Split(config, ','))
  {
  }

  /** One entry more than the configuration has commas. */
  lemma AllowListLength(config: Option<string>)
    ensures |ParseAllowList(config)| == multiset(config.GetOr(DefaultAllowedIps))[','] + 1
  {
    SplitCount(config.GetOr(DefaultAllowedIps), ',');
  }

  /** Without configuration only the loopback address is admitted. */
  lemma DefaultAllowList()
    ensures ParseAllowList(None) == [DefaultAllowedIps]
  {
    DefaultIsPlainEntry();
    SingleEntry(DefaultAllowedIps);
  }

  /** A configuration of one trimmed, comma-free entry admits exactly it. */
  lemma SingleEntry(e: string)
    requires ',' !in e && Trim(e) == e
    ensures ParseAllowList(Some(e)) == [e]
  {
    var l := ParseAllowList(Some(e));
    assert l == TrimEach(Split(e, ',')) by { ParsedPieces(e); }
    SplitNoSeparator(e, ',');
    TrimEachNoop([e]);
  }

  /** The loopback default is a single trimmed, comma-free entry. */
  lemma DefaultIsPlainEntry()
    ensures ',' !in DefaultAllowedIps && Trim(DefaultAllowedIps) == DefaultAllowedIps
  {
    DefaultHasNoComma();
    TrimNoop(DefaultAllowedIps);
  }

  /** "127.0.0.1" holds no comma. */
  lemma DefaultHasNoComma()
    ensures ',' !in DefaultAllowedIps
  {
    var d := DefaultAllowedIps;
    assert d == ['1', '2', '7', '.', '0', '.', '0', '.', '1'];
  }

  /** Writing comma-free entries joined by `,` into the configuration
      yields those entries with their surrounding whitespace trimmed, and
      so exactly the entries when they were trimmed already. */
  lemma AllowListRoundTrip(xs: seq<string>)
    requires |xs| >= 1
    requires forall i :: 0 <= i < |xs| ==> ',' !in xs[i]
    ensures ParseAllowList(Some(JoinWith(xs, ","))) == TrimEach(xs)
    ensures (forall i :: 0 <= i < |xs| ==> Trim(xs[i]) == xs[i]) ==> ParseAllowList(Some(JoinWith(xs, ","))) == xs
  {
    assert "," == [','];
    JoinSplit(xs, ',');
    if forall i :: 0 <= i < |xs| ==> Trim(xs[i]) == xs[i] {
      TrimEachNoop(xs);
    }
  }

  /** `isIpAllowed`: exact string membership. */
  function IsIpAllowed(allowList: seq<string>, ip: string): (b: bool)
    ensures b <==> exists i :: 0 <= i < |allowList| && allowList[i] == ip
  {
    ip in allowList
  }

  /** Against the configuration itself: an address is admitted exactly
      when some `,`-separated piece of the configured string, trimmed,
      equals it. */
  lemma AdmittedByConfig(config: string, ip: string)
    ensures IsIpAllowed(ParseAllowList(Some(config)), ip)
            <==> exists p :: p in Split(config, ',') && Trim(p) == ip
  {
    ParsedPieces(config);
    TrimmedPiecesAdmit(Split(config, ','), ip);
  }

  lemma TrimmedPiecesAdmit(pieces: seq<string>, ip: string)
    ensures ip in TrimEach(pieces) <==> exists p :: p in pieces && Trim(p) == ip
  {
    var list := TrimEach(pieces);
    if ip in list {
      var i :| 0 <= i < |list| && list[i] == ip;
      assert pieces[i] in pieces && Trim(pieces[i]) == ip;
    }
    if exists p :: p in pieces && Trim(p) == ip {
      var p :| p in pieces && Trim(p) == ip;
      var i :| 0 <= i < |pieces| && pieces[i] == p;
      assert list[i] == ip;
    }
  }

  /** A trailing comma after an entry (the loopback default, say) adds
      the blank entry, which admits a peer whose address Node no longer
      reports. */
  lemma TrailingCommaAdmitsAddressless(entry: string, id: nat, port: Option<nat>)
    requires ',' !in entry
    requires |entry| > 0 ==> !IsWhitespace(entry[0]) && !IsWhitespace(entry[|entry| - 1])
    ensures IsIpAllowed(ParseAllowList(Some(entry + ",")), ExtractIp(RawIp(Socket(id, None, port))))
  {
    TrailingCommaEntries(entry);
    assert ExtractIp(RawIp(Socket(id, None, port))) == "";
  }

  /** A trailing comma after one entry that has no comma and no surrounding
      whitespace parses to that entry and a blank one. */
  lemma TrailingCommaEntries(entry: string)
    requires ',' !in entry
    requires |entry| > 0 ==> !IsWhitespace(entry[0]) && !IsWhitespace(entry[|entry| - 1])
    ensures ParseAllowList(Some(entry + ",")) == [entry, ""]
  {
    var l := ParseAllowList(Some(entry + ","));
    assert l == [Trim(entry), Trim("")] by {
      AllowListOfPair(entry, "");
      assert entry + "," + "" == entry + ",";
    }
    TrimNoop(entry);
    TrimNoop("");
  }

  /** Two comma-free pieces around one comma give their two trimmed
      forms. */
  lemma AllowListOfPair(a: string, b: string)
    requires ',' !in a && ',' !in b
    ensures ParseAllowList(Some(a + "," + b)) == [Trim(a), Trim(b)]
  {
    var xs := [a, b];
    var l := ParseAllowList(Some(a + "," + b));
    assert l == TrimEach(xs) by {
      JoinPair(a, b, ",");
      AllowListRoundTrip(xs);
    }
    TrimEachPair(a, b);
  }

  lemma TrimEachPair(a: string, b: string)
    ensures TrimEach([a, b]) == [Trim(a), Trim(b)]
  {
  }

  lemma JoinPair(a: string, b: string, sep: string)
    ensures JoinWith([a, b], sep) == a + sep + b
  {
    var xs := [a, b];
    assert xs[1..] == [b];
  }

  // ---------------------------------------------------------------------
  // The transmission tick

  /** `Buffer.from([code])`: the byte written is the low eight bits. */
  function ToByte(code: nat): (b: nat)
    ensures b < 256
    ensures code < 256 ==> b == code
    ensures exists q: nat :: code == 256 * q + b
  {
    assert code == 256 * (code / 256) + code % 256;
    code % 256
  }

  function Bytes(codes: seq<nat>): (bs: seq<nat>)
    ensures |bs| == |codes|
    ensures forall i :: 0 <= i < |codes| ==> bs[i] == ToByte(codes[i])
  {
    seq(|codes|, i requires 0 <= i < |codes| => ToByte(codes[i]))
  }

  /** The bytes of a prefix: the first code unit's byte, then the rest's. */
  lemma BytesFirst(b: seq<nat>, n: nat)
    requires 0 < n <= |b|
    ensures Bytes(b[..n]) == [ToByte(b[0])] + Bytes(b[1..][..n - 1])
  {
    var l := Bytes(b[..n]);
    var r := [ToByte(b[0])] + Bytes(b[1..][..n - 1]);
    forall i | 0 <= i < n ensures l[i] == r[i] {
      if i > 0 {
        assert b[1..][..n - 1][i - 1] == b[i];
      }
    }
  }

  /** A message whose code units all fit in a byte reaches the socket
      unchanged. */
  lemma BytesOfLatin1(m: string)
    requires Latin1(m)
    ensures Bytes(CodeUnits(m)) == CodeUnits(m)
  {
  }

  /** One byte handed to a socket. */
  datatype Write = Write(socket: Socket, byte: nat)

  /** What one tick did: the registry after it, the byte it wrote if any,
      and whether it scheduled the next tick. */
  datatype TickOutcome = TickOutcome(registry: Registry, written: Option<Write>, reschedule: bool)

  /** The session now holds `loop`'s pending tick. */
  function Rearm(reg: Registry, address: string, loop: nat): (r: Registry)
    requires Valid(reg) && address in reg.sessions
    ensures Valid(r) && r.order == reg.order && r.sessions.Keys == reg.sessions.Keys
    ensures OnlyChanged(reg, r, address)
  {
    reg.(sessions := reg.sessions[address := reg.sessions[address].(timer := Some(loop))])
  }

  /** A registry that changed only the session under `address` reads the
      same under every other address. */
  lemma FrameOf(before: Registry, after: Registry, address: string)
    requires OnlyChanged(before, after, address)
    ensures forall a :: a != address ==> Get(after, a) == Get(before, a)
  {
  }

  /** `transmit()` of the loop `loop` started for `address`. The session is
      re-read by address. A queued code unit is taken off the front and its
      low byte written to the session's socket; if the write throws the
      session is removed and the loop ends. With an empty queue the status
      line is queued, and its time stamped, when more than the interval has
      passed since the last one. Every tick that finds the session and does
      not fail schedules the next one. */
  function Tick(reg: Registry, address: string, loop: nat, now: int, writeOk: bool, ephemeral: string): (o: TickOutcome)
    requires Valid(reg)
    ensures Valid(o.registry)
    ensures forall a :: a != address ==> Get(o.registry, a) == Get(reg, a)
    ensures address !in reg.sessions ==> o == TickOutcome(reg, None, false)
    ensures o.reschedule <==> address in reg.sessions && (|reg.sessions[address].buffer| == 0 || writeOk)
    ensures o.reschedule ==>
      && o.registry.order == reg.order && address in o.registry.sessions
      && o.registry.sessions[address].timer == Some(loop)
    ensures o.written.Some? <==> address in reg.sessions && |reg.sessions[address].buffer| > 0 && writeOk
    ensures o.written.Some? ==>
      var s := reg.sessions[address];
      && o.written.value == Write(s.socket, ToByte(s.buffer[0]))
      && [s.buffer[0]] + o.registry.sessions[address].buffer == s.buffer
      && o.registry.sessions[address].lastStatusMessage == s.lastStatusMessage
    ensures address in reg.sessions && |reg.sessions[address].buffer| > 0 && !writeOk ==>
      o.registry == Remove(reg, address)
    ensures address in reg.sessions && |reg.sessions[address].buffer| == 0 ==>
      var s := reg.sessions[address];
      var t := o.registry.sessions[address];
      && (now - s.lastStatusMessage > StatusMessageIntervalMs ==>
            t.buffer == CodeUnits(ephemeral) && t.lastStatusMessage == now)
      && (now - s.lastStatusMessage <= StatusMessageIntervalMs ==>
            t.buffer == [] && t.lastStatusMessage == s.lastStatusMessage)
    ensures address in reg.sessions && o.reschedule ==>
      var s := reg.sessions[address];
      var t := o.registry.sessions[address];
      t.socket == s.socket && t.openTime == s.openTime && t.ip == s.ip
  {
    match Get(reg, address)
    case None => TickOutcome(reg, None, false)
    case Some(s) =>
      if |s.buffer| > 0 then
        if writeOk then
          var next := Shift(reg, address, loop);
          assert [s.buffer[0]] + s.buffer[1..] == s.buffer;
          FrameOf(reg, next, address);
          TickOutcome(next, Some(Write(s.socket, ToByte(s.buffer[0]))), true)
        else
          TickOutcome(Remove(reg, address), None, false)
      else if now - s.lastStatusMessage > StatusMessageIntervalMs then
        var stamped := reg.(sessions := reg.sessions[address := s.(lastStatusMessage := now)]);
        var next := Rearm(AddToBuffer(stamped, address, ephemeral), address, loop);
        FrameOf(reg, stamped, address);
        FrameOf(AddToBuffer(stamped, address, ephemeral), next, address);
        TickOutcome(next, None, true)
      else
        var next := Rearm(reg, address, loop);
        FrameOf(reg, next, address);
        TickOutcome(next, None, true)
  }

  /** The write branch of a tick: the head code unit leaves the queue of
      the session under `address`, which is re-armed with `loop`. */
  function Shift(reg: Registry, address: string, loop: nat): (r: Registry)
    requires Valid(reg) && address in reg.sessions && |reg.sessions[address].buffer| > 0
    ensures Valid(r) && OnlyChanged(reg, r, address)
    ensures r.sessions[address].buffer == reg.sessions[address].buffer[1..]
  {
    var s := reg.sessions[address];
    Rearm(reg.(sessions := reg.sessions[address := s.(buffer := s.buffer[1..])]), address, loop)
  }

  /** `n` successful ticks of one loop and the bytes they wrote. Each is
      the write branch of `Tick` (see `DrainStep`), which does not depend
      on the time or the status line. */
  function Drain(reg: Registry, address: string, loop: nat, n: nat): (r: (Registry, seq<nat>))
    requires Valid(reg) && address in reg.sessions && n <= |reg.sessions[address].buffer|
    ensures Valid(r.0)
    decreases n
  {
    if n == 0 then (reg, [])
    else
      var rest := Drain(Shift(reg, address, loop), address, loop, n - 1);
      (rest.0, [ToByte(reg.sessions[address].buffer[0])] + rest.1)
  }

  /** The queue is first in, first out: `n` ticks write the low bytes of the
      first `n` queued code units in order and leave the rest queued in
      order. */
  lemma {:induction false} DrainFifo(reg: Registry, address: string, loop: nat, n: nat)
    requires Valid(reg) && address in reg.sessions && n <= |reg.sessions[address].buffer|
    ensures var r := Drain(reg, address, loop, n);
      && r.1 == Bytes(reg.sessions[address].buffer[..n])
      && address in r.0.sessions
      && r.0.sessions[address].buffer == reg.sessions[address].buffer[n..]
    decreases n
  {
    if n > 0 {
      var b := reg.sessions[address].buffer;
      DrainFifo(Shift(reg, address, loop), address, loop, n - 1);
      BytesFirst(b, n);
      assert b[1..][n - 1..] == b[n..];
    }
  }

  /** Draining one session leaves the filing order and every other
      session as they were. */
  lemma {:induction false} DrainKeepsOthers(reg: Registry, address: string, loop: nat, n: nat)
    requires Valid(reg) && address in reg.sessions && n <= |reg.sessions[address].buffer|
    ensures OnlyChanged(reg, Drain(reg, address, loop, n).0, address)
    decreases n
  {
    if n > 0 {
      var next := Shift(reg, address, loop);
      DrainKeepsOthers(next, address, loop, n - 1);
      OthersKeptTwice(reg, next, Drain(next, address, loop, n - 1).0, address);
    }
  }

  /** `after` still files a session under `address`, keeps the filing
      order of `before`, and holds every other session of `before` as it
      was. */
  predicate OnlyChanged(before: Registry, after: Registry, address: string)
  {
    && address in after.sessions && after.order == before.order
    && after.sessions == before.sessions[address := after.sessions[address]]
  }

  /** Two steps that each change only the session under `address` change
      only that session together. */
  lemma OthersKeptTwice(reg: Registry, next: Registry, last: Registry, address: string)
    requires OnlyChanged(reg, next, address) && OnlyChanged(next, last, address)
    ensures OnlyChanged(reg, last, address)
  {
    UpdateTwice(reg.sessions, address, next.sessions[address], last.sessions[address]);
  }

  /** A second update of the same key overrides the first. */
  lemma UpdateTwice<K, V>(m: map<K, V>, k: K, v: V, w: V)
    ensures m[k := v][k := w] == m[k := w]
  {
  }

  /** A successful tick on a non-empty queue, at any time and with any
      status line, writes the head's low byte, shifts exactly one code unit
      off the queue, changes no other session and reschedules: it is the
      step `Drain` repeats. */
  lemma DrainStep(reg: Registry, address: string, loop: nat, now: int, ephemeral: string)
    requires Valid(reg) && address in reg.sessions && |reg.sessions[address].buffer| > 0
    ensures var s := reg.sessions[address];
      Tick(reg, address, loop, now, true, ephemeral)
        == TickOutcome(Shift(reg, address, loop), Some(Write(s.socket, ToByte(s.buffer[0]))), true)
    ensures var next := Tick(reg, address, loop, now, true, ephemeral).registry;
      && OnlyChanged(reg, next, address)
      && next.sessions[address].buffer == reg.sessions[address].buffer[1..]
  {
  }

  /** A message queued on an empty session reaches the socket byte for
      byte when every code unit fits in a byte. */
  lemma DeliveredVerbatim(reg: Registry, address: string, loop: nat, m: string)
    requires Valid(reg) && address in reg.sessions && reg.sessions[address].buffer == []
    requires Latin1(m)
    ensures var r := Drain(AddToBuffer(reg, address, m), address, loop, |m|);
      r.1 == CodeUnits(m) && address in r.0.sessions && r.0.sessions[address].buffer == []
  {
    var queued := AddToBuffer(reg, address, m);
    assert queued.sessions[address].buffer == CodeUnits(m);
    DrainFifo(queued, address, loop, |m|);
    assert CodeUnits(m)[..|m|] == CodeUnits(m);
    BytesOfLatin1(m);
  }

  /** Within the interval after a status line no tick queues another: the
      stamp stays and the queue does not grow. */
  lemma {:induction false} NoticeSpacing(reg: Registry, address: string, loop: nat, now: int, writeOk: bool, ephemeral: string)
    requires Valid(reg) && address in reg.sessions
    requires now - reg.sessions[address].lastStatusMessage <= StatusMessageIntervalMs
    ensures var o := Tick(reg, address, loop, now, writeOk, ephemeral);
      address in o.registry.sessions ==>
        && o.registry.sessions[address].lastStatusMessage == reg.sessions[address].lastStatusMessage
        && |o.registry.sessions[address].buffer| <= |reg.sessions[address].buffer|
  {
    var o := Tick(reg, address, loop, now, writeOk, ephemeral);
    var s := reg.sessions[address];
    if |s.buffer| > 0 && address in o.registry.sessions {
      assert writeOk;
      assert |o.registry.sessions[address].buffer| + 1 == |s.buffer|;
    }
  }

  /** An idle session whose last status line is older than the interval
      gets one now, and the next tick within the interval queues nothing
      more. */
  lemma IdleNoticeOnce(reg: Registry, address: string, loop: nat, now: int, later: int, ephemeral: string, ephemeral2: string, writeOk: bool)
    requires Valid(reg) && address in reg.sessions && reg.sessions[address].buffer == []
    requires now - reg.sessions[address].lastStatusMessage > StatusMessageIntervalMs
    requires now <= later <= now + StatusMessageIntervalMs
    ensures var first := Tick(reg, address, loop, now, true, ephemeral);
      && first.registry.sessions[address].buffer == CodeUnits(ephemeral)
      && first.registry.sessions[address].lastStatusMessage == now
      && var second := Tick(first.registry, address, loop, later, writeOk, ephemeral2);
         address in second.registry.sessions ==>
           && second.registry.sessions[address].lastStatusMessage == now
           && |second.registry.sessions[address].buffer| <= |ephemeral|
  {
    var first := Tick(reg, address, loop, now, true, ephemeral);
    NoticeSpacing(first.registry, address, loop, later, writeOk, ephemeral2);
  }

  // ---------------------------------------------------------------------
  // The event bridge

  /** The text the gateway broadcasts for a relay event: the formatted
      chat line, the link status line, or the reconnect notice. */
  function Notice(ev: Relay.RelayEvent): (m: string)
    ensures ev.ChatReceived? ==>
      (m == "" <==> PetsciiService.Words(Messages.ExtractText(ev.data)) == "")
    ensures ev.StatusChanged? ==> m == Messages.PusherStatusMessage(ev.connected)
    ensures ev.Reconnecting? ==> m == Messages.ReconnectingMessage()
    ensures !ev.ChatReceived? ==> m != "" && Latin1(m)
  {
    match ev
    case ChatReceived(data) => Messages.FormatForC64(Messages.ParseMessage(data))
    case StatusChanged(connected) => Messages.PusherStatusMessage(connected)
    case Reconnecting => Messages.ReconnectingMessage()
  }

  /** The three handlers: a chat line is broadcast only when it is not
      empty; status and reconnect notices always are. Every session gets
      the event's notice after what it already holds. */
  function Bridge(reg: Registry, ev: Relay.RelayEvent): (r: Registry)
    requires Valid(reg)
    ensures Valid(r) && r.order == reg.order && r.sessions.Keys == reg.sessions.Keys
    ensures forall a :: a in reg.sessions ==> r.sessions[a] == Enqueue(reg.sessions[a], CodeUnits(Notice(ev)))
    ensures ev.ChatReceived? && Notice(ev) == "" ==> r == reg
  {
    var m := Notice(ev);
    if ev.ChatReceived? && m == "" then
      assert forall a :: a in reg.sessions ==> Enqueue(reg.sessions[a], []) == reg.sessions[a] by {
        forall a | a in reg.sessions ensures Enqueue(reg.sessions[a], []) == reg.sessions[a] {
          EnqueueNothing(reg.sessions[a]);
        }
      }
      reg
    else BroadcastToAll(reg, m)
  }

  /** The notices of a run of events, in order. */
  function Notices(evs: seq<Relay.RelayEvent>): string
    decreases |evs|
  {
    if |evs| == 0 then "" else Notice(evs[0]) + Notices(evs[1..])
  }

  lemma EnqueueNothing(s: Session)
    ensures Enqueue(s, []) == s
  {
    assert s.buffer + [] == s.buffer;
  }

  lemma EnqueueTwice(s: Session, x: string, y: string)
    ensures Enqueue(Enqueue(s, CodeUnits(x)), CodeUnits(y)) == Enqueue(s, CodeUnits(x + y))
  {
    CodeUnitsAppend(x, y);
    assert s.buffer + CodeUnits(x) + CodeUnits(y) == s.buffer + (CodeUnits(x) + CodeUnits(y));
  }

  /** Every event of a run, bridged in order: each session gets all their
      notices, in order, after what it already holds. */
  function BridgeAll(reg: Registry, evs: seq<Relay.RelayEvent>): (r: Registry)
    requires Valid(reg)
    ensures Valid(r) && r.order == reg.order && r.sessions.Keys == reg.sessions.Keys
    ensures forall a :: a in reg.sessions ==> r.sessions[a] == Enqueue(reg.sessions[a], CodeUnits(Notices(evs)))
    decreases |evs|
  {
    if |evs| == 0 then
      assert forall a :: a in reg.sessions ==> Enqueue(reg.sessions[a], []) == reg.sessions[a] by {
        forall a | a in reg.sessions ensures Enqueue(reg.sessions[a], []) == reg.sessions[a] {
          EnqueueNothing(reg.sessions[a]);
        }
      }
      reg
    else
      var mid := Bridge(reg, evs[0]);
      var r := BridgeAll(mid, evs[1..]);
      assert forall a :: a in reg.sessions ==> r.sessions[a] == Enqueue(reg.sessions[a], CodeUnits(Notices(evs))) by {
        forall a | a in reg.sessions ensures r.sessions[a] == Enqueue(reg.sessions[a], CodeUnits(Notices(evs))) {
          EnqueueTwice(reg.sessions[a], Notice(evs[0]), Notices(evs[1..]));
        }
      }
      r
  }

  // ---------------------------------------------------------------------
  // The gateway as a whole

  /** The gateway's state: the allow-list, the registry, the relay, the
      pending transmission ticks (loop id to the address its closure
      re-reads), the next loop id, and the pending welcome deliveries. */
  datatype System = System(
    allowList: seq<string>,
    registry: Registry,
    relay: Relay.Relay,
    loops: map<nat, string>,
    nextLoop: nat,
    welcomes: multiset<string>)

  /** The session filed under `a`, if any, holds the tick of a pending
      loop that re-reads `a`, so something is still transmitting to it. */
  ghost predicate Armed(sys: System, a: string)
  {
    a in sys.registry.sessions ==>
      var t := sys.registry.sessions[a].timer;
      t.Some? && t.value in sys.loops && sys.loops[t.value] == a
  }

  ghost predicate Inv(sys: System)
  {
    && Valid(sys.registry)
    && Relay.Exclusive(sys.relay)
    && (forall k :: k in sys.loops ==> k < sys.nextLoop)
    && (forall a :: Armed(sys, a))
  }

  /** What a tick of the allocated, no longer pending `loop` for `address`
      needs: every other session armed, and the session under `address`
      holding no pending tick of another address. */
  ghost predicate ReadyToTick(sys: System, address: string, loop: nat)
  {
    && Valid(sys.registry)
    && Relay.Exclusive(sys.relay)
    && (forall k :: k in sys.loops ==> k < sys.nextLoop)
    && loop < sys.nextLoop && loop !in sys.loops
    && (forall a :: a != address ==> Armed(sys, a))
    && (address in sys.registry.sessions && sys.registry.sessions[address].timer.Some?
        && sys.registry.sessions[address].timer.value in sys.loops ==>
          sys.loops[sys.registry.sessions[address].timer.value] == address)
  }

  /** Start-up: the allow-list from configuration, no sessions, and the
      relay before its own first `connect()` (an upstream input). */
  function Init(config: Option<string>): (sys: System)
    ensures Inv(sys)
    ensures sys.allowList == ParseAllowList(config) && sys.registry.sessions == map[]
  {
    System(ParseAllowList(config), Empty, Relay.Initial, map[], 0, multiset{})
  }

  /** The inputs: a peer connects (with whether the relay client builds,
      whether the first write succeeds, and the status line at hand); a
      welcome timer fires; a transmission tick fires; a connection's close
      or error handler runs (it removes by the address it captured); a relay
      input; the administrative disconnect of every client. */
  datatype Input =
    | Incoming(socket: Socket, now: int, connectOk: bool, writeOk: bool, ephemeral: string)
    | WelcomeDue(address: string)
    | TickDue(loop: nat, now: int, writeOk: bool, ephemeral: string)
    | SocketClosed(address: string)
    | RelayInput(signal: Relay.Signal)
    | DisconnectAllRequested

  datatype Outcome = Outcome(system: System, written: seq<Write>)

  /** `remove(address)` with its `clearTimeout`: the pending tick the
      removed session last held is cancelled. */
  function CancelTimer(loops: map<nat, string>, session: Option<Session>): (r: map<nat, string>)
    ensures r.Keys <= loops.Keys
    ensures session.Some? && session.value.timer.Some? ==> r == loops - {session.value.timer.value}
    ensures session.None? || session.value.timer.None? ==> r == loops
  {
    match session
    case Some(s) => (match s.timer case Some(k) => loops - {k} case None => loops)
    case None => loops
  }

  /** A tick of `loop` for `address`, whose timer has just fired: it is
      re-armed when the tick reschedules; a failed write removes the
      session and cancels the tick that session held. */
  function RunTick(sys: System, address: string, loop: nat, now: int, writeOk: bool, ephemeral: string): (o: Outcome)
    requires ReadyToTick(sys, address, loop)
    ensures Inv(o.system)
    ensures var t := Tick(sys.registry, address, loop, now, writeOk, ephemeral);
      && o.system.registry == t.registry
      && o.written == (if t.written.Some? then [t.written.value] else [])
      && (t.reschedule ==> o.system.loops == sys.loops[loop := address])
      && (!t.reschedule ==> o.system.loops == CancelTimer(sys.loops, Get(sys.registry, address)))
    ensures o.system.relay == sys.relay && o.system.nextLoop == sys.nextLoop
    ensures o.system.welcomes == sys.welcomes && o.system.allowList == sys.allowList
  {
    var t := Tick(sys.registry, address, loop, now, writeOk, ephemeral);
    var loops := if t.reschedule then sys.loops[loop := address] else CancelTimer(sys.loops, Get(sys.registry, address));
    TickedInv(sys, address, loop, t.registry, t.reschedule);
    Outcome(sys.(registry := t.registry, loops := loops), if t.written.Some? then [t.written.value] else [])
  }

  /** The invariant after a tick that leaves `reg` behind. */
  lemma TickedInv(sys: System, address: string, loop: nat, reg: Registry, reschedule: bool)
    requires ReadyToTick(sys, address, loop)
    requires Valid(reg)
    requires forall a :: a != address ==> Get(reg, a) == Get(sys.registry, a)
    requires reschedule ==> address in reg.sessions && reg.sessions[address].timer == Some(loop)
    requires !reschedule ==> address !in reg.sessions
    ensures Inv(sys.(registry := reg, loops := if reschedule then sys.loops[loop := address]
                                               else CancelTimer(sys.loops, Get(sys.registry, address))))
  {
    TickKeepsArmed(sys, address, loop, reg, reschedule);
  }

  /** After a tick every session is armed again: the ticked one by the
      rescheduled loop, every other one by the tick it already held, which
      neither the new loop nor a cancelled tick of `address` can be. */
  lemma TickKeepsArmed(sys: System, address: string, loop: nat, reg: Registry, reschedule: bool)
    requires loop !in sys.loops
    requires forall a :: a != address ==> Armed(sys, a)
    requires address in sys.registry.sessions && sys.registry.sessions[address].timer.Some?
             && sys.registry.sessions[address].timer.value in sys.loops ==>
               sys.loops[sys.registry.sessions[address].timer.value] == address
    requires forall a :: a != address ==> Get(reg, a) == Get(sys.registry, a)
    requires reschedule ==> address in reg.sessions && reg.sessions[address].timer == Some(loop)
    requires !reschedule ==> address !in reg.sessions
    ensures var loops := if reschedule then sys.loops[loop := address]
                         else CancelTimer(sys.loops, Get(sys.registry, address));
      forall a :: Armed(sys.(registry := reg, loops := loops), a)
  {
    var loops := if reschedule then sys.loops[loop := address] else CancelTimer(sys.loops, Get(sys.registry, address));
    var next := sys.(registry := reg, loops := loops);
    forall a ensures Armed(next, a) {
      if a != address {
        assert Get(reg, a) == Get(sys.registry, a);
        assert Armed(sys, a);
        if a in sys.registry.sessions && !reschedule
           && address in sys.registry.sessions && sys.registry.sessions[address].timer.Some? {
          assert sys.registry.sessions[a].timer != sys.registry.sessions[address].timer;
        }
      }
    }
  }

  /** Queuing output changes no timer and no pending loop, so it keeps
      every session armed. */
  lemma QueuingKeepsArmed(sys: System, next: System)
    requires forall a :: Armed(sys, a)
    requires next.loops == sys.loops
    requires next.registry.sessions.Keys == sys.registry.sessions.Keys
    requires forall a :: a in next.registry.sessions ==>
      next.registry.sessions[a].timer == sys.registry.sessions[a].timer
    ensures forall a :: Armed(next, a)
  {
    forall a ensures Armed(next, a) {
      assert Armed(sys, a);
    }
  }

  lemma BridgedKeepsArmed(sys: System, evs: seq<Relay.RelayEvent>, next: System)
    requires forall a :: Armed(sys, a)
    requires Valid(sys.registry)
    requires next.registry == BridgeAll(sys.registry, evs) && next.loops == sys.loops
    ensures forall a :: Armed(next, a)
  {
    var bridged := next.registry;
    forall a | a in bridged.sessions ensures bridged.sessions[a].timer == sys.registry.sessions[a].timer {
    }
    QueuingKeepsArmed(sys, next);
  }

  lemma WelcomeKeepsArmed(sys: System, address: string, next: System)
    requires forall a :: Armed(sys, a)
    requires Valid(sys.registry)
    requires next.registry == AddToBuffer(sys.registry, address, Welcome) && next.loops == sys.loops
    ensures forall a :: Armed(next, a)
  {
    var queued := next.registry;
    forall a | a in queued.sessions ensures queued.sessions[a].timer == sys.registry.sessions[a].timer {
      if a != address {
        assert Get(queued, a) == Get(sys.registry, a);
      }
    }
    QueuingKeepsArmed(sys, next);
  }

  /** A freshly filed session holds no tick yet, and the loop about to run
      for it is allocated but not pending. */
  lemma AdmittedReady(sys: System, next: System, address: string)
    requires Inv(sys)
    requires Valid(next.registry) && Relay.Exclusive(next.relay)
    requires next.loops == sys.loops && next.nextLoop == sys.nextLoop + 1
    requires next.registry.sessions.Keys == sys.registry.sessions.Keys + {address}
    requires next.registry.sessions[address].timer == None
    requires forall a :: a in sys.registry.sessions && a != address ==>
      next.registry.sessions[a].timer == sys.registry.sessions[a].timer
    ensures ReadyToTick(next, address, sys.nextLoop)
  {
    forall a | a != address ensures Armed(next, a) {
      assert Armed(sys, a);
    }
  }

  /** Removing a session and cancelling the tick it held keeps every other
      session armed: its tick re-reads another address, so it is not the
      cancelled one. */
  lemma CloseKeepsArmed(sys: System, address: string, reg: Registry)
    requires forall a :: Armed(sys, a)
    requires address !in reg.sessions
    requires forall a :: a != address ==> Get(reg, a) == Get(sys.registry, a)
    ensures forall a :: Armed(sys.(registry := reg, loops := CancelTimer(sys.loops, Get(sys.registry, address))), a)
  {
    var next := sys.(registry := reg, loops := CancelTimer(sys.loops, Get(sys.registry, address)));
    assert Armed(sys, address);
    forall a | a in reg.sessions ensures Armed(next, a) {
      assert Armed(sys, a);
      assert Get(reg, a) == Get(sys.registry, a);
    }
  }

  /** A pending loop taken off the timers can tick: the session it
      re-reads holds either that loop or another one pending on its own
      address. */
  lemma FiredReady(sys: System, loop: nat)
    requires Inv(sys) && loop in sys.loops
    ensures ReadyToTick(sys.(loops := sys.loops - {loop}), sys.loops[loop], loop)
  {
    var next := sys.(loops := sys.loops - {loop});
    var address := sys.loops[loop];
    forall a | a != address ensures Armed(next, a) {
      assert Armed(sys, a);
    }
    assert Armed(sys, address);
  }

  /** `handleConnection`. A peer whose unwrapped address is not on the
      allow-list changes nothing. Otherwise its session is added, the relay
      is asked to connect if it is neither connected nor connecting (what
      that emits is bridged at once), the welcome is scheduled, and the
      first tick runs straight away as a new loop. */
  function HandleConnection(sys: System, socket: Socket, now: int, connectOk: bool, writeOk: bool, ephemeral: string): (o: Outcome)
    requires Inv(sys)
    ensures Inv(o.system)
    ensures !IsIpAllowed(sys.allowList, ExtractIp(RawIp(socket))) ==> o == Outcome(sys, [])
    ensures IsIpAllowed(sys.allowList, ExtractIp(RawIp(socket))) ==>
      && o.system.nextLoop == sys.nextLoop + 1
      && o.system.welcomes == sys.welcomes + multiset{AddressOf(socket)}
      && o.system.relay == (if sys.relay.connected || sys.relay.connecting then sys.relay
                            else Relay.Connect(sys.relay, connectOk).relay)
      && (sys.relay.connected || sys.relay.connecting ==>
            && o.written == []
            && o.system.loops == sys.loops[sys.nextLoop := AddressOf(socket)]
            && Get(o.system.registry, AddressOf(socket)) ==
                 Some(Session(socket, AddressOf(socket), RawIp(socket), now, [], Some(sys.nextLoop), now))
            && forall a :: a != AddressOf(socket) ==> Get(o.system.registry, a) == Get(sys.registry, a))
  {
    if !IsIpAllowed(sys.allowList, ExtractIp(RawIp(socket))) then Outcome(sys, [])
    else RunTick(Admit(sys, socket, now, connectOk), AddressOf(socket), sys.nextLoop, now, writeOk, ephemeral)
  }

  /** An admitted socket before its first tick: the session is filed, the
      relay is asked to connect unless it is connected or connecting, what
      that emits is bridged, the welcome is scheduled and the new loop
      number is taken. */
  function Admit(sys: System, socket: Socket, now: int, connectOk: bool): (next: System)
    requires Inv(sys)
    ensures ReadyToTick(next, AddressOf(socket), sys.nextLoop)
    ensures next.loops == sys.loops && next.nextLoop == sys.nextLoop + 1
    ensures next.welcomes == sys.welcomes + multiset{AddressOf(socket)} && next.allowList == sys.allowList
    ensures next.relay == (if sys.relay.connected || sys.relay.connecting then sys.relay
                           else Relay.Connect(sys.relay, connectOk).relay)
    ensures sys.relay.connected || sys.relay.connecting ==>
      && Get(next.registry, AddressOf(socket)) == Some(Session(socket, AddressOf(socket), RawIp(socket), now, [], None, now))
      && forall a :: a != AddressOf(socket) ==> Get(next.registry, a) == Get(sys.registry, a)
  {
    var address := AddressOf(socket);
    var added := Add(sys.registry, socket, now).0;
    var step := if !sys.relay.connected && !sys.relay.connecting then Relay.Connect(sys.relay, connectOk)
                else Relay.Step(sys.relay, []);
    var bridged := BridgeAll(added, step.events);
    var next := sys.(registry := bridged, relay := step.relay, nextLoop := sys.nextLoop + 1,
                     welcomes := sys.welcomes + multiset{address});
    assert forall a :: a in sys.registry.sessions && a != address ==>
      bridged.sessions[a].timer == sys.registry.sessions[a].timer by {
      forall a | a in sys.registry.sessions && a != address
        ensures bridged.sessions[a].timer == sys.registry.sessions[a].timer
      {
        assert Get(added, a) == Get(sys.registry, a);
      }
    }
    AdmittedReady(sys, next, address);
    next
  }

  /** The relay reacts to an input and whatever it emits is bridged. */
  function Upstream(sys: System, signal: Relay.Signal): (o: Outcome)
    requires Inv(sys)
    ensures Inv(o.system) && o.written == []
    ensures var step := Relay.Next(sys.relay, signal);
      o.system == sys.(registry := BridgeAll(sys.registry, step.events), relay := step.relay)
  {
    var step := Relay.Next(sys.relay, signal);
    var next := sys.(registry := BridgeAll(sys.registry, step.events), relay := step.relay);
    BridgedKeepsArmed(sys, step.events, next);
    Outcome(next, [])
  }

  /** The 500 ms welcome timer for `address` fires: the welcome screen is
      queued for whatever session is filed under that address by then. */
  function DeliverWelcome(sys: System, address: string): (o: Outcome)
    requires Inv(sys)
    ensures Inv(o.system) && o.written == []
    ensures address in sys.welcomes ==>
      && o.system.registry == AddToBuffer(sys.registry, address, Welcome)
      && o.system.welcomes == sys.welcomes - multiset{address}
      && o.system.loops == sys.loops && o.system.relay == sys.relay && o.system.allowList == sys.allowList
    ensures address !in sys.welcomes ==> o.system == sys
  {
    if address in sys.welcomes then
      var next := sys.(registry := AddToBuffer(sys.registry, address, Welcome),
                       welcomes := sys.welcomes - multiset{address});
      WelcomeKeepsArmed(sys, address, next);
      Outcome(next, [])
    else Outcome(sys, [])
  }

  /** A transmission timer fires; a cancelled one does not. */
  function FireTick(sys: System, loop: nat, now: int, writeOk: bool, ephemeral: string): (o: Outcome)
    requires Inv(sys)
    ensures Inv(o.system) && o.system.allowList == sys.allowList && |o.written| <= 1
    ensures loop in sys.loops ==>
      && ReadyToTick(sys.(loops := sys.loops - {loop}), sys.loops[loop], loop)
      && o == RunTick(sys.(loops := sys.loops - {loop}), sys.loops[loop], loop, now, writeOk, ephemeral)
    ensures loop !in sys.loops ==> o == Outcome(sys, [])
  {
    if loop in sys.loops then
      FiredReady(sys, loop);
      RunTick(sys.(loops := sys.loops - {loop}), sys.loops[loop], loop, now, writeOk, ephemeral)
    else Outcome(sys, [])
  }

  /** A connection's close or error handler: `remove` by the address the
      handler captured, cancelling the tick the session filed there held. */
  function Close(sys: System, address: string): (o: Outcome)
    requires Inv(sys)
    ensures Inv(o.system) && o.written == []
    ensures o.system == sys.(registry := Remove(sys.registry, address),
                             loops := CancelTimer(sys.loops, Get(sys.registry, address)))
  {
    CloseKeepsArmed(sys, address, Remove(sys.registry, address));
    Outcome(sys.(registry := Remove(sys.registry, address),
                 loops := CancelTimer(sys.loops, Get(sys.registry, address))), [])
  }

  /** `disconnectAllClients`: every session goes and every tick a session
      held is cancelled. Pending welcomes and the ticks of loops that no
      session holds survive; the timers they belong to are not cleared. */
  function DisconnectAllClients(sys: System): (o: Outcome)
    requires Inv(sys)
    ensures Inv(o.system) && o.written == []
    ensures o.system.registry.sessions == map[] && o.system.relay == sys.relay
    ensures forall a :: a in sys.registry.sessions && sys.registry.sessions[a].timer.Some? ==>
      sys.registry.sessions[a].timer.value !in o.system.loops
    ensures o.system.welcomes == sys.welcomes && o.system.nextLoop == sys.nextLoop
    ensures o.system.allowList == sys.allowList
    ensures forall l :: l in o.system.loops ==> l in sys.loops && o.system.loops[l] == sys.loops[l]
    ensures forall l :: l in sys.loops && HeldByNone(sys.registry, l) ==>
      l in o.system.loops && o.system.loops[l] == sys.loops[l]
  {
    var timers := set a | a in sys.registry.sessions && sys.registry.sessions[a].timer.Some?
                    :: sys.registry.sessions[a].timer.value;
    Outcome(sys.(registry := DisconnectAll(sys.registry).0, loops := sys.loops - timers), [])
  }

  /** No session in `reg` holds the tick of loop `l`. */
  predicate HeldByNone(reg: Registry, l: nat)
  {
    forall a :: a in reg.sessions ==> reg.sessions[a].timer != Some(l)
  }

  /** One input. */
  function Step(sys: System, input: Input): (o: Outcome)
    requires Inv(sys)
    ensures Inv(o.system)
    ensures o.system.allowList == sys.allowList
    ensures input.TickDue? ==> |o.written| <= 1
    ensures !input.TickDue? && !input.Incoming? ==> o.written == []
  {
    match input
    case Incoming(socket, now, connectOk, writeOk, ephemeral) =>
      HandleConnection(sys, socket, now, connectOk, writeOk, ephemeral)
    case WelcomeDue(address) => DeliverWelcome(sys, address)
    case TickDue(loop, now, writeOk, ephemeral) => FireTick(sys, loop, now, writeOk, ephemeral)
    case SocketClosed(address) => Close(sys, address)
    case RelayInput(signal) => Upstream(sys, signal)
    case DisconnectAllRequested => DisconnectAllClients(sys)
  }

  /** A run of inputs and every byte written along the way. */
  function Run(sys: System, inputs: seq<Input>): (o: Outcome)
    requires Inv(sys)
    ensures Inv(o.system)
    ensures o.system.allowList == sys.allowList
    decreases |inputs|
  {
    if |inputs| == 0 then Outcome(sys, [])
    else
      var first := Step(sys, inputs[0]);
      var rest := Run(first.system, inputs[1..]);
      Outcome(rest.system, first.written + rest.written)
  }

  // ---------------------------------------------------------------------
  // Scenarios

  /** Admission while the relay is idle and building its client throws:
      the reconnect notice is queued for every session, the new one
      included, and the first tick writes its first byte, a carriage
      return, to the new peer at once. */
  lemma AdmissionWhileRelayDown(sys: System, socket: Socket, now: int, ephemeral: string)
    requires Inv(sys)
    requires IsIpAllowed(sys.allowList, ExtractIp(RawIp(socket)))
    requires !sys.relay.connected && !sys.relay.connecting && !sys.relay.reconnectPending
    ensures var o := HandleConnection(sys, socket, now, false, true, ephemeral);
      var address := AddressOf(socket);
      && o.written == [Write(socket, 13)]
      && o.system.relay.reconnectPending && !o.system.relay.connecting
      && address in o.system.registry.sessions
      && o.system.registry.sessions[address].buffer == CodeUnits(Messages.ReconnectingMessage())[1..]
      && forall a :: a in sys.registry.sessions && a != address ==>
           o.system.registry.sessions[a] == Enqueue(sys.registry.sessions[a], CodeUnits(Messages.ReconnectingMessage()))
  {
    var address := AddressOf(socket);
    var m := Messages.ReconnectingMessage();
    var bridged := AdmittedWhileDown(sys, socket, now, true, ephemeral);
    var same := ReconnectingBridged(sys.registry, socket, now);
    assert CodeUnits(m)[0] == 13;
    QueuedNoticeFirstTick(bridged, address, sys.nextLoop, now, ephemeral, m);
  }

  /** A failed connect while the relay is idle: the relay emits only the
      reconnecting event, so the admitted peer's first tick runs on the
      registry that notice leaves behind. */
  lemma AdmittedWhileDown(sys: System, socket: Socket, now: int, writeOk: bool, e: string)
      returns (bridged: Registry)
    requires Inv(sys)
    requires IsIpAllowed(sys.allowList, ExtractIp(RawIp(socket)))
    requires !sys.relay.connected && !sys.relay.connecting && !sys.relay.reconnectPending
    ensures Valid(bridged)
    ensures bridged == BridgeAll(Add(sys.registry, socket, now).0, [Relay.Reconnecting])
    ensures var o := HandleConnection(sys, socket, now, false, writeOk, e);
      && o.system.relay.reconnectPending && !o.system.relay.connecting
      && var t := Tick(bridged, AddressOf(socket), sys.nextLoop, now, writeOk, e);
         o.system.registry == t.registry && o.written == (if t.written.Some? then [t.written.value] else [])
  {
    var step := Relay.Connect(sys.relay, false);
    assert step.events == [Relay.Reconnecting];
    bridged := BridgeAll(Add(sys.registry, socket, now).0, step.events);
  }

  /** The registry the reconnecting notice leaves behind once a peer has
      been filed: every session, the new one included, has the notice
      queued after what it already held. */
  lemma ReconnectingBridged(reg: Registry, socket: Socket, now: int) returns (bridged: Registry)
    requires Valid(reg)
    ensures bridged == BridgeAll(Add(reg, socket, now).0, [Relay.Reconnecting])
    ensures Valid(bridged) && bridged.sessions.Keys == reg.sessions.Keys + {AddressOf(socket)}
    ensures bridged.sessions[AddressOf(socket)].socket == socket
    ensures bridged.sessions[AddressOf(socket)].buffer == CodeUnits(Messages.ReconnectingMessage())
    ensures forall a :: a in reg.sessions && a != AddressOf(socket) ==>
      bridged.sessions[a] == Enqueue(reg.sessions[a], CodeUnits(Messages.ReconnectingMessage()))
  {
    var address := AddressOf(socket);
    var m := Messages.ReconnectingMessage();
    var added := Add(reg, socket, now).0;
    assert Notices([Relay.Reconnecting]) == m + "";
    assert m + "" == m;
    var n := CodeUnits(m);
    assert CodeUnits(Notices([Relay.Reconnecting])) == n;
    bridged := BridgeAll(added, [Relay.Reconnecting]);
    assert bridged.sessions[address] == Enqueue(added.sessions[address], n);
    forall a | a in reg.sessions && a != address
      ensures bridged.sessions[a] == Enqueue(reg.sessions[a], n)
    {
      assert Get(added, a) == Get(reg, a);
    }
  }

  /** The first tick on a session whose queue holds exactly a notice
      writes the notice's first byte and keeps the rest queued. */
  lemma QueuedNoticeFirstTick(reg: Registry, address: string, loop: nat, now: int, e: string, m: string)
    requires Valid(reg) && address in reg.sessions
    requires reg.sessions[address].buffer == CodeUnits(m) && |m| > 0 && m[0] as int < 256
    ensures var t := Tick(reg, address, loop, now, true, e);
      && t.written == Some(Write(reg.sessions[address].socket, m[0] as int))
      && address in t.registry.sessions
      && t.registry.sessions[address].buffer == CodeUnits(m)[1..]
      && forall a :: a in reg.sessions && a != address ==> t.registry.sessions[a] == reg.sessions[a]
  {
    var t := Tick(reg, address, loop, now, true, e);
    assert CodeUnits(m)[0] == m[0] as int;
  }

  /** Admission while the relay is connected or connecting: the session
      is filed with an empty queue and holds the new loop's tick, the
      welcome is due, and nothing is written yet. */
  lemma AdmitWhileRelayUp(sys: System, socket: Socket, now: int, e: string) returns (next: System)
    requires Inv(sys) && (sys.relay.connected || sys.relay.connecting)
    requires IsIpAllowed(sys.allowList, ExtractIp(RawIp(socket)))
    ensures next == HandleConnection(sys, socket, now, true, true, e).system
    ensures HandleConnection(sys, socket, now, true, true, e).written == []
    ensures Inv(next) && next.relay == sys.relay && next.nextLoop == sys.nextLoop + 1
    ensures next.loops == sys.loops[sys.nextLoop := AddressOf(socket)]
    ensures next.welcomes == sys.welcomes + multiset{AddressOf(socket)}
    ensures Get(next.registry, AddressOf(socket))
      == Some(Session(socket, AddressOf(socket), RawIp(socket), now, [], Some(sys.nextLoop), now))
  {
    next := HandleConnection(sys, socket, now, true, true, e).system;
  }

  /** Two peers that render to the same address: the second replaces the
      first's session in place, both transmission loops stay pending on
      that address, the session holds the second loop's tick, and two
      welcomes are due for it. */
  lemma ReAddSharesAddress(sys: System, a: Socket, b: Socket, now1: int, now2: int, e1: string, e2: string)
      returns (s2: System)
    requires Inv(sys) && sys.relay.connected
    requires AddressOf(a) == AddressOf(b)
    requires IsIpAllowed(sys.allowList, ExtractIp(RawIp(a)))
    requires IsIpAllowed(sys.allowList, ExtractIp(RawIp(b)))
    ensures s2 == HandleConnection(HandleConnection(sys, a, now1, true, true, e1).system, b, now2, true, true, e2).system
    ensures Inv(s2) && s2.relay == sys.relay && s2.nextLoop == sys.nextLoop + 2
    ensures var x := AddressOf(a);
      && s2.loops == sys.loops[sys.nextLoop := x][sys.nextLoop + 1 := x]
      && s2.welcomes[x] == sys.welcomes[x] + 2
      && Get(s2.registry, x) == Some(Session(b, x, RawIp(b), now2, [], Some(sys.nextLoop + 1), now2))
  {
    var s1 := AdmitWhileRelayUp(sys, a, now1, e1);
    s2 := AdmitWhileRelayUp(s1, b, now2, e2);
  }

  /** A close handler removes whatever session is filed under the address
      it captured, here another peer's, and cancels only the tick that
      session last held: a second loop pending on the same address stays
      pending. */
  lemma StaleCloseRemovesNewSession(sys: System, x: string, stale: nat, current: nat)
    requires Inv(sys) && x in sys.registry.sessions
    requires sys.registry.sessions[x].timer == Some(current)
    requires stale in sys.loops && sys.loops[stale] == x && stale != current
    ensures var o := Close(sys, x).system;
      && Get(o.registry, x) == None
      && current !in o.loops
      && stale in o.loops && o.loops[stale] == x
  {
  }

  /** A loop re-reads its session by address, so any loop pending on an
      address drains whatever session is filed there: its tick takes that
      session's first code unit and writes it to that session's socket. */
  lemma AnyLoopDrainsFiledSession(sys: System, loop: nat, now: int, e: string)
    requires Inv(sys) && loop in sys.loops
    requires sys.loops[loop] in sys.registry.sessions
    requires |sys.registry.sessions[sys.loops[loop]].buffer| > 0
    ensures var s := sys.registry.sessions[sys.loops[loop]];
      var o := FireTick(sys, loop, now, true, e);
      && o.written == [Write(s.socket, ToByte(s.buffer[0]))]
      && o.system.loops == sys.loops
  {
    var x := sys.loops[loop];
    var t := Tick(sys.registry, x, loop, now, true, e);
    assert t.reschedule;
    assert sys.loops - {loop} + map[loop := x] == sys.loops;
  }

  /** Every filed session is served: the tick it holds is pending, and
      firing it writes the session's first queued code unit to its
      socket. */
  lemma FiledSessionIsServed(sys: System, a: string, now: int, e: string)
    requires Inv(sys) && a in sys.registry.sessions && |sys.registry.sessions[a].buffer| > 0
    ensures var s := sys.registry.sessions[a];
      && s.timer.Some? && s.timer.value in sys.loops
      && FireTick(sys, s.timer.value, now, true, e).written == [Write(s.socket, ToByte(s.buffer[0]))]
  {
    assert Armed(sys, a);
    AnyLoopDrainsFiledSession(sys, sys.registry.sessions[a].timer.value, now, e);
  }

  /** Every welcome due for an address is delivered to the session filed
      there when it fires, so two welcomes due for one address put the
      welcome screen on that session's queue twice. */
  lemma TwoWelcomesQueueTwice(sys: System, x: string) returns (next: System)
    requires Inv(sys) && sys.welcomes[x] >= 2
    requires x in sys.registry.sessions && sys.registry.sessions[x].buffer == []
    ensures next == DeliverWelcome(DeliverWelcome(sys, x).system, x).system
    ensures Inv(next) && next.loops == sys.loops && x in next.registry.sessions
    ensures next.registry.sessions[x].socket == sys.registry.sessions[x].socket
    ensures var w := CodeUnits(Welcome);
      next.registry.sessions[x].buffer == w + w
  {
    var s3 := DeliverWelcome(sys, x).system;
    assert x in s3.welcomes;
    next := DeliverWelcome(s3, x).system;
  }

  /** The welcome screen starts with the clear-screen code, 147. */
  lemma FirstWelcomeByte()
    ensures CodeUnits(Welcome)[0] == 147
  {
    assert Welcome[..5][0] == PetsciiCodes.Char(PetsciiCodes.Clear);
  }
}
