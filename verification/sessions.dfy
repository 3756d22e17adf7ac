/** The registry of open terminal sessions: a JavaScript `Map` from
    `remoteAddress:remotePort` to a session record. A `Map` iterates in
    first-insertion order and `set` on an existing key keeps that key's
    place, so the registry is an insertion-ordered key list plus a map. */
module Sessions {
  import opened Wrappers
  import opened JsString

  /** A connected socket as the registry sees it: an identity (the socket
      object) and its peer address and port, either of which Node reports
      as `undefined` once the socket is gone. */
  datatype Socket = Socket(id: nat, remoteAddress: Option<string>, remotePort: Option<nat>)

  /** One terminal session. `buffer` holds the UTF-16 code units still to
      be transmitted, oldest first; `timer` names the transmission loop
      that last scheduled its next tick on this session, the one timeout
      a removal can cancel; times are milliseconds. */
  datatype Session = Session(
    socket: Socket,
    address: string,
    ip: string,
    openTime: int,
    buffer: seq<nat>,
    timer: Option<nat>,
    lastStatusMessage: int)

  datatype Registry = Registry(order: seq<string>, sessions: map<string, Session>)

  /** A possibly absent string rendered into a template: absent renders as
      the word `undefined`. */
  function Render(s: Option<string>): string
  {
    s.GetOr("undefined")
  }

  /** The registry key of a socket: its remote address, a colon, and its
      remote port, each rendered as a template would. */
  function AddressOf(socket: Socket): string
  {
    Render(socket.remoteAddress) + ":"
    + (match socket.remotePort case Some(p) => NatToString(p) case None => "undefined")
  }

  /** The raw peer address, not unwrapped; empty when absent. */
  function RawIp(socket: Socket): string
  {
    socket.remoteAddress.GetOr("")
  }

  predicate Distinct(xs: seq<string>)
  {
    forall i, j :: 0 <= i < j < |xs| ==> xs[i] != xs[j]
  }

  /** The representation invariant: each key listed once, the list and the
      map hold the same keys, and each session is filed under its own
      address. */
  ghost predicate Valid(reg: Registry)
  {
    && Distinct(reg.order)
    && (forall a :: a in reg.order <==> a in reg.sessions)
    && (forall a :: a in reg.sessions ==> reg.sessions[a].address == a)
  }

  const Empty: Registry := Registry([], map[])

  lemma EmptyValid()
    ensures Valid(Empty)
  {
  }

  /** `get(address)`. */
  function Get(reg: Registry, address: string): Option<Session>
  {
    if address in reg.sessions then Some(reg.sessions[address]) else None
  }

  /** `add(socket)`: a fresh session with an empty buffer, no pending tick
      and both timestamps at `now`, filed under the socket's address. An
      existing session under that address is replaced in place; its pending
      tick is not cancelled. */
  function Add(reg: Registry, socket: Socket, now: int): (r: (Registry, Session))
    requires Valid(reg)
    ensures Valid(r.0)
    ensures r.1.socket == socket && r.1.address == AddressOf(socket) && r.1.ip == RawIp(socket)
    ensures r.1.buffer == [] && r.1.timer == None
    ensures r.1.openTime == now && r.1.lastStatusMessage == now
    ensures Get(r.0, AddressOf(socket)) == Some(r.1)
    ensures forall a :: a != AddressOf(socket) ==> Get(r.0, a) == Get(reg, a)
    ensures AddressOf(socket) in reg.sessions ==> r.0.order == reg.order
    ensures AddressOf(socket) !in reg.sessions ==> r.0.order == reg.order + [AddressOf(socket)]
    ensures r.0.sessions.Keys == reg.sessions.Keys + {AddressOf(socket)}
  {
    var address := AddressOf(socket);
    var session := Session(socket, address, RawIp(socket), now, [], None, now);
    var order := if address in reg.sessions then reg.order else reg.order + [address];
    (Registry(order, reg.sessions[address := session]), session)
  }

  /** `xs` without any occurrence of `a`; `WithoutAt` states that the rest
      keep their order. */
  function Without(xs: seq<string>, a: string): (r: seq<string>)
    ensures forall x :: x in r <==> x in xs && x != a
    ensures Distinct(xs) ==> Distinct(r)
    ensures a !in xs ==> r == xs
    decreases |xs|
  {
    if |xs| == 0 then []
    else
      var rest := Without(xs[1..], a);
      var r := (if xs[0] == a then [] else [xs[0]]) + rest;
      assert Distinct(xs) ==> Distinct(r) by {
        if Distinct(xs) {
          assert Distinct(xs[1..]);
          assert xs[0] !in xs[1..];
          if xs[0] != a {
            forall i, j | 0 <= i < j < |r| ensures r[i] != r[j] {
              if i == 0 {
                assert r[j] == rest[j - 1];
                assert rest[j - 1] in rest;
              } else {
                assert r[i] == rest[i - 1] && r[j] == rest[j - 1];
              }
            }
          }
        }
      }
      r
  }

  /** `remove(address)`: only that key goes, everything else stays as it
      was; an absent address changes nothing. */
  function Remove(reg: Registry, address: string): (r: Registry)
    requires Valid(reg)
    ensures Valid(r)
    ensures Get(r, address) == None
    ensures forall a :: a != address ==> Get(r, a) == Get(reg, a)
    ensures address !in reg.sessions ==> r == reg
    ensures |r.sessions| == |reg.sessions| - (if address in reg.sessions then 1 else 0)
    ensures address in reg.sessions ==> CutOut(reg.order, address, r.order)
  {
    var r := Registry(Without(reg.order, address), reg.sessions - {address});
    RemoveValid(reg, address);
    RemoveShrinks(reg, address);
    RemovedPosition(reg, address);
    r
  }

  /** `ys` is `xs` with the entry `a` at some position cut out: the
      entries before it and those after it, each in their order. */
  predicate CutOut(xs: seq<string>, a: string, ys: seq<string>)
  {
    exists k :: 0 <= k < |xs| && xs[k] == a && ys == xs[..k] + xs[k + 1..]
  }

  /** A present key is cut out of the iteration order at its position. */
  lemma RemovedPosition(reg: Registry, address: string)
    requires Valid(reg)
    ensures address in reg.sessions ==> CutOut(reg.order, address, Without(reg.order, address))
  {
    if address in reg.sessions {
      var k :| 0 <= k < |reg.order| && reg.order[k] == address;
      WithoutAt(reg.order, address, k);
    }
  }

  /** In a list without repeats, dropping the key at position `k` leaves
      the entries before it and the entries after it, both in order. */
  lemma {:induction false} WithoutAt(xs: seq<string>, a: string, k: nat)
    requires Distinct(xs) && k < |xs| && xs[k] == a
    ensures Without(xs, a) == xs[..k] + xs[k + 1..]
    decreases k
  {
    DistinctTail(xs);
    if k > 0 {
      assert xs[k] == xs[1..][k - 1];
      WithoutAt(xs[1..], a, k - 1);
      ConsSplice(xs, k);
    }
  }

  /** The tail of a list without repeats has none, and lacks the head. */
  lemma DistinctTail(xs: seq<string>)
    requires Distinct(xs) && |xs| > 0
    ensures Distinct(xs[1..]) && xs[0] !in xs[1..]
  {
  }

  /** Putting the head back in front of a tail with one entry cut out. */
  lemma ConsSplice(xs: seq<string>, k: nat)
    requires 0 < k < |xs|
    ensures [xs[0]] + (xs[1..][..k - 1] + xs[1..][k..]) == xs[..k] + xs[k + 1..]
  {
    assert xs[1..][..k - 1] == xs[1..k] && xs[1..][k..] == xs[k + 1..];
    assert [xs[0]] + xs[1..k] == xs[..k];
  }

  /** Dropping a key from both the list and the map keeps the registry well formed. */
  lemma RemoveValid(reg: Registry, address: string)
    requires Valid(reg)
    ensures Valid(Registry(Without(reg.order, address), reg.sessions - {address}))
  {
  }

  /** Removing a key shrinks the map by one exactly when the key was there. */
  lemma RemoveShrinks(reg: Registry, address: string)
    ensures address !in reg.sessions ==> reg.sessions - {address} == reg.sessions
    ensures |reg.sessions - {address}| == |reg.sessions| - (if address in reg.sessions then 1 else 0)
  {
  }

  /** The same session with `codes` appended to its buffer. */
  function Enqueue(s: Session, codes: seq<nat>): Session
  {
    s.(buffer := s.buffer + codes)
  }

  /** `addToBuffer(address, message)`: the message's code units, in order,
      after whatever that session already holds; no other session changes,
      and an absent address changes nothing. */
  function AddToBuffer(reg: Registry, address: string, message: string): (r: Registry)
    requires Valid(reg)
    ensures Valid(r) && r.order == reg.order && r.sessions.Keys == reg.sessions.Keys
    ensures address in reg.sessions ==>
      var before := reg.sessions[address];
      var after := r.sessions[address];
      && after.buffer == before.buffer + CodeUnits(message)
      && after.(buffer := before.buffer) == before
    ensures forall a :: a != address ==> Get(r, a) == Get(reg, a)
    ensures address !in reg.sessions ==> r == reg
  {
    if address in reg.sessions then
      reg.(sessions := reg.sessions[address := Enqueue(reg.sessions[address], CodeUnits(message))])
    else reg
  }

  /** `broadcastToAll(message)`: every session registered at the call gets
      the message's code units after its existing content; the key set and
      the order stay as they are and nothing else in a session changes. */
  function BroadcastToAll(reg: Registry, message: string): (r: Registry)
    requires Valid(reg)
    ensures Valid(r) && r.order == reg.order && r.sessions.Keys == reg.sessions.Keys
    ensures forall a :: a in reg.sessions ==>
      && |r.sessions[a].buffer| == |reg.sessions[a].buffer| + |message|
      && r.sessions[a].buffer[..|reg.sessions[a].buffer|] == reg.sessions[a].buffer
      && r.sessions[a].buffer[|reg.sessions[a].buffer|..] == CodeUnits(message)
      && r.sessions[a].(buffer := reg.sessions[a].buffer) == reg.sessions[a]
  {
    var codes := CodeUnits(message);
    Registry(reg.order, map a | a in reg.sessions :: Enqueue(reg.sessions[a], codes))
  }

  /** `addToBuffer` for each address of `addrs` in turn. */
  function AddToEach(reg: Registry, addrs: seq<string>, message: string): (r: Registry)
    requires Valid(reg)
    ensures Valid(r)
    decreases |addrs|
  {
    if |addrs| == 0 then reg
    else AddToEach(AddToBuffer(reg, addrs[0], message), addrs[1..], message)
  }

  /** Appending to each listed session once, the listed ones get the
      message and the others are untouched. */
  lemma {:induction false} AddToEachEffect(reg: Registry, addrs: seq<string>, message: string)
    requires Valid(reg) && Distinct(addrs)
    ensures var r := AddToEach(reg, addrs, message);
      && r.order == reg.order && r.sessions.Keys == reg.sessions.Keys
      && (forall a :: a in reg.sessions && a in addrs ==> r.sessions[a] == Enqueue(reg.sessions[a], CodeUnits(message)))
      && (forall a :: a in reg.sessions && a !in addrs ==> r.sessions[a] == reg.sessions[a])
    decreases |addrs|
  {
    if |addrs| > 0 {
      var next := AddToBuffer(reg, addrs[0], message);
      assert Distinct(addrs[1..]);
      AddToEachEffect(next, addrs[1..], message);
      forall a | a in reg.sessions && a in addrs
        ensures AddToEach(reg, addrs, message).sessions[a] == Enqueue(reg.sessions[a], CodeUnits(message))
      {
        if a != addrs[0] {
          assert a in addrs[1..];
        } else {
          assert a !in addrs[1..];
        }
      }
    }
  }

  /** Broadcasting is the same as appending the message to each registered
      session one after another, in registration order. */
  lemma BroadcastIsAddToEach(reg: Registry, message: string)
    requires Valid(reg)
    ensures BroadcastToAll(reg, message) == AddToEach(reg, reg.order, message)
  {
    AddToEachEffect(reg, reg.order, message);
    var b := BroadcastToAll(reg, message);
    var e := AddToEach(reg, reg.order, message);
    assert b.sessions == e.sessions;
  }

  /** A list without repeats has as many entries as the set of its entries. */
  lemma {:induction false} DistinctCard(xs: seq<string>)
    requires Distinct(xs)
    ensures |set x | x in xs| == |xs|
    decreases |xs|
  {
    if |xs| > 0 {
      assert Distinct(xs[1..]);
      DistinctCard(xs[1..]);
      assert (set x | x in xs) == (set x | x in xs[1..]) + {xs[0]};
      assert xs[0] !in xs[1..];
    }
  }

  lemma OrderCountsSessions(reg: Registry)
    requires Valid(reg)
    ensures |reg.order| == |reg.sessions|
  {
    DistinctCard(reg.order);
    assert (set x | x in reg.order) == reg.sessions.Keys;
  }

  /** `count()`: the number of keys, which is also the length of the
      registration order. */
  function Count(reg: Registry): (n: nat)
    requires Valid(reg)
    ensures n == |reg.order|
    ensures n == |reg.sessions.Keys|
  {
    OrderCountsSessions(reg);
    |reg.sessions|
  }

  /** `disconnectAll()`: the number of sessions held before the call, and
      an empty registry. */
  function DisconnectAll(reg: Registry): (r: (Registry, nat))
    requires Valid(reg)
    ensures Valid(r.0) && r.0.sessions == map[] && r.0.order == []
    ensures r.1 == |reg.order| && r.1 == |reg.sessions|
  {
    (Empty, Count(reg))
  }

  /** One `toJSON` entry. */
  datatype ClientInfo = ClientInfo(address: string, openTime: int)

  /** `toJSON()`: one entry per session, in first-registration order
      (each key once, every key present), with its address and open time. */
  function ToJson(reg: Registry): (r: seq<ClientInfo>)
    requires Valid(reg)
    ensures |r| == Count(reg)
    ensures forall i :: 0 <= i < |r| ==>
      && r[i].address == reg.order[i]
      && r[i].address in reg.sessions
      && r[i].openTime == reg.sessions[r[i].address].openTime
  {
    seq(|reg.order|, i requires 0 <= i < |reg.order| =>
      ClientInfo(reg.sessions[reg.order[i]].address, reg.sessions[reg.order[i]].openTime))
  }
}
