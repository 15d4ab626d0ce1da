/**
 * The peer node: a registry from peer name to connection, the two halves of the
 * introduction handshake, the per-connection receive sessions, and the outgoing
 * operations (chat, presence broadcast, listing, shutdown).
 *
 * Sockets are identified by a number; what a socket yields is a script of reads,
 * and what the node sends or prints is appended to a ghost event log. Every
 * method runs as one uninterrupted step: the lock that serialises registry access
 * makes each guarded block atomic, and interleavings are not modelled.
 */
module Network {
  import opened Wrappers
  import opened Assoc
  import opened Json
  import opened Framing
  import opened Messages
  import opened Handshake

  /** A socket; sockets compare by identity (`sock == conn`). */
  type ConnId = nat

  /**
   * The peer registry: `self.connections`, name -> socket, in insertion order. Names are
   * keyed as Python compares them, so `True` and `1` are one entry.
   */
  type Registry = Entries<Key, ConnId>

  /** What the node does that can be observed: a message written to a socket, or an output handed on. */
  datatype Event = Sent(conn: ConnId, message: Value) | Delivered(output: Output)

  /** The same message sent once to every registered socket, in registry order. */
  function SentToEach(r: Registry, m: Value): (evs: seq<Event>)
    ensures |evs| == |r|
    ensures forall i :: 0 <= i < |r| ==> evs[i] == Sent(r[i].1, m)
  {
    seq(|r|, i requires 0 <= i < |r| => Sent(r[i].1, m))
  }

  /** Outputs handed on, in the order they were produced. */
  function DeliveredEach(outs: seq<Output>): (evs: seq<Event>)
    ensures |evs| == |outs|
    ensures forall i :: 0 <= i < |outs| ==> evs[i] == Delivered(outs[i])
  {
    seq(|outs|, i requires 0 <= i < |outs| => Delivered(outs[i]))
  }

  /** Every socket the registry holds. */
  function Sockets(r: Registry): set<ConnId> {
    set i | 0 <= i < |r| :: r[i].1
  }

  /** The position of the first entry whose socket is `conn`, or `|r|` when there is none. */
  function FirstSlot(r: Registry, conn: ConnId): (k: nat)
    ensures k <= |r|
    ensures k < |r| ==> r[k].1 == conn
    ensures forall j :: 0 <= j < k ==> r[j].1 != conn
  {
    if r == [] then 0 else if r[0].1 == conn then 0 else 1 + FirstSlot(r[1..], conn)
  }

  /**
   * The registry after a responder session on `conn` ends: the first name mapped to
   * `conn` is found and, if that name is truthy, it is deleted. A falsy name ("", 0,
   * False, None) is found but left in place. Every name that is one key has the same
   * truthiness, so the key decides it.
   */
  function AfterSessionEnd(r: Registry, conn: ConnId): Registry {
    var k := FirstSlot(r, conn);
    if k < |r| && KeyTruthy(r[k].0) then Remove(r, r[k].0) else r
  }

  /** The end of a responder session cuts out at most one entry, the first one holding its socket. */
  lemma SessionEndCutsFirst(r: Registry, conn: ConnId)
    requires UniqueKeys(r)
    ensures var k := FirstSlot(r, conn);
      AfterSessionEnd(r, conn) == if k < |r| && KeyTruthy(r[k].0) then r[..k] + r[k + 1..] else r
    ensures UniqueKeys(AfterSessionEnd(r, conn))
  {
    var k := FirstSlot(r, conn);
    if k < |r| && KeyTruthy(r[k].0) {
      RemoveAt(r, r[k].0, k);
      CutUnique(r, k);
    }
  }

  /** A session that has not registered its socket leaves the registry alone. */
  lemma SessionEndUnregistered(r: Registry, conn: ConnId)
    requires conn !in Sockets(r)
    ensures AfterSessionEnd(r, conn) == r
  {
  }

  /**
   * A responder session registers its peer on a fresh socket and, when it ends, removes
   * what it registered: with a truthy name the registry ends up as if the name had been
   * deleted from the registry before the session (an older entry under the same name was
   * overwritten and is gone too); with a falsy name the entry stays behind, still mapped
   * to the closed socket.
   */
  lemma ResponderSessionEnd(e: Registry, peer: Key, conn: ConnId)
    requires UniqueKeys(e) && conn !in Sockets(e)
    ensures AfterSessionEnd(Put(e, peer, conn), conn) ==
            if KeyTruthy(peer) then Remove(e, peer) else Put(e, peer, conn)
  {
    if peer in Keys(e) {
      var j :| 0 <= j < |e| && Keys(e)[j] == peer;
      assert forall i :: 0 <= i < j ==> e[i].0 != peer by {
        forall i | 0 <= i < j ensures e[i].0 != peer { assert Keys(e)[i] == e[i].0; }
      }
      SessionEndReplaced(e, peer, conn, j);
    } else {
      SessionEndAppended(e, peer, conn);
    }
  }

  /** The case of `ResponderSessionEnd` where the name was registered before, at position `j`. */
  lemma SessionEndReplaced(e: Registry, peer: Key, conn: ConnId, j: nat)
    requires conn !in Sockets(e)
    requires j < |e| && e[j].0 == peer && forall i :: 0 <= i < j ==> e[i].0 != peer
    ensures AfterSessionEnd(Put(e, peer, conn), conn) ==
            if KeyTruthy(peer) then Remove(e, peer) else Put(e, peer, conn)
  {
    PutAt(e, peer, conn, j);
    var r := e[j := (peer, conn)];
    forall i | 0 <= i < j ensures r[i].1 != conn {
      Unheld(e, conn, i);
    }
    SlotAt(r, conn, j);
    if KeyTruthy(peer) {
      RemoveAt(r, peer, j);
      RemoveAt(e, peer, j);
      assert r[..j] == e[..j] && r[j + 1..] == e[j + 1..];
    }
  }

  /** The case of `ResponderSessionEnd` where the name is new and is appended. */
  lemma SessionEndAppended(e: Registry, peer: Key, conn: ConnId)
    requires conn !in Sockets(e) && peer !in Keys(e)
    ensures AfterSessionEnd(Put(e, peer, conn), conn) ==
            if KeyTruthy(peer) then Remove(e, peer) else Put(e, peer, conn)
  {
    PutNew(e, peer, conn);
    var r := e + [(peer, conn)];
    forall i | 0 <= i < |e| ensures r[i].1 != conn {
      Unheld(e, conn, i);
    }
    SlotAt(r, conn, |e|);
    if KeyTruthy(peer) {
      RemoveLast(e, peer, conn);
      RemoveMissing(e, peer);
    }
  }

  lemma Unheld(e: Registry, conn: ConnId, i: nat)
    requires conn !in Sockets(e) && i < |e|
    ensures e[i].1 != conn
  {
    assert e[i].1 in Sockets(e);
  }

  lemma SlotAt(r: Registry, conn: ConnId, j: nat)
    requires j < |r| && r[j].1 == conn && forall i :: 0 <= i < j ==> r[i].1 != conn
    ensures FirstSlot(r, conn) == j
  {
  }

  /**
   * An initiator session registers its peer and, when it ends, deletes the peer's name:
   * the registry ends up as if the name had been deleted before the session.
   */
  lemma InitiatorSessionEnd(e: Registry, peer: Key, conn: ConnId)
    requires UniqueKeys(e)
    ensures Remove(Put(e, peer, conn), peer) == Remove(e, peer)
  {
    if peer in Keys(e) {
      var j :| 0 <= j < |e| && Keys(e)[j] == peer;
      forall i | 0 <= i < j ensures e[i].0 != peer { assert Keys(e)[i] == e[i].0; }
      RemoveReplaced(e, peer, conn, j);
    } else {
      PutNew(e, peer, conn);
      RemoveLast(e, peer, conn);
      RemoveMissing(e, peer);
    }
  }

  lemma RemoveReplaced(e: Registry, peer: Key, conn: ConnId, j: nat)
    requires j < |e| && e[j].0 == peer
    requires forall i :: 0 <= i < j ==> e[i].0 != peer
    ensures Remove(Put(e, peer, conn), peer) == Remove(e, peer)
  {
    PutAt(e, peer, conn, j);
    var r := e[j := (peer, conn)];
    RemoveAt(r, peer, j);
    RemoveAt(e, peer, j);
    assert r[..j] == e[..j] && r[j + 1..] == e[j + 1..];
  }

  /**
   * The initiator's cleanup deletes the name whichever socket it maps to: an entry that a
   * later handshake re-registered on another socket is deleted too, and only that entry.
   */
  lemma ListenTeardownIgnoresOwner(e: Registry, peer: Key, other: ConnId)
    requires UniqueKeys(e) && Lookup(e, peer) == Some(other)
    ensures peer !in Keys(Remove(e, peer)) && UniqueKeys(Remove(e, peer))
    ensures forall k :: k != peer ==> Lookup(Remove(e, peer), k) == Lookup(e, k)
  {
    RemoveCutsOne(e, peer);
    forall k | k != peer ensures Lookup(Remove(e, peer), k) == Lookup(e, k) {
      RemoveOther(e, peer, k);
    }
  }

  /**
   * Two successful handshakes under one name leave that name listed once, in the position
   * the first gave it, mapped to the later socket.
   */
  lemma SecondHandshakeReplaces(e: Registry, peer: Key, first: ConnId, second: ConnId)
    requires UniqueKeys(e)
    ensures var r := Put(Put(e, peer, first), peer, second);
      && UniqueKeys(r)
      && Keys(r) == Keys(Put(e, peer, first))
      && Lookup(r, peer) == Some(second)
  {
    var once := Put(e, peer, first);
    PutUnique(e, peer, first);
    PutUnique(once, peer, second);
    assert peer in Keys(once) by { assert Lookup(once, peer).Some?; }
    PutKeys(once, peer, second);
  }

  /** Names Python finds equal share one entry: a peer introduced as `true` replaces one introduced as `1`. */
  lemma TrueAndOneShareAnEntry(first: ConnId, second: ConnId)
    ensures Put(Put([], PyKey(Num(1)), first), PyKey(Bool(true)), second) == [(IntKey(1), second)]
  {
  }

  /** How the responder side of a handshake ends. */
  datatype Responded = Established(peer: Value, buffer: seq<byte>, next: nat) | Dropped

  /** How the initiator side of a handshake ends. */
  datatype Dialed = Joined(peer: Value, buffer: seq<byte>, next: nat) | NotJoined

  /**
   * The peer the responder replies to: the name in the stream's first line, when that
   * line is an introduction and the admission callback (if any) accepts it.
   */
  function Welcome(decode: seq<byte> -> Option<Value>, admission: Admission, stream: seq<byte>,
                   addr: Address): Option<Value>
  {
    var intro := FirstIntroduction(decode, stream);
    if intro.Introduced? && Admits(admission, intro.peer, addr) then Some(intro.peer) else None
  }

  /**
   * Whether the initiator closes its socket after a failed handshake. It does so only when
   * the peer closed before sending anything, or sent a first line that is not an
   * introduction; a read error, a partial line (whose unpacking fails), a first line that
   * is truthy but not a dict, or an unhashable name escape to the outer handler, which
   * leaves the socket open.
   */
  predicate InitiatorCloses(decode: seq<byte> -> Option<Value>, chunks: seq<Read>) {
    var stream := Received(chunks);
    (stream == [] && !EndsInFailure(chunks))
    || (Newline in stream && FirstIntroduction(decode, stream) == NotIntroduced)
  }

  /** The key the scan in the responder's cleanup finds: the first entry holding the socket. */
  method FindName(r: Registry, conn: ConnId) returns (found: Option<Key>)
    ensures var k := FirstSlot(r, conn);
      found == if k < |r| then Some(r[k].0) else None
  {
    found := None;
    var i := 0;
    while i < |r|
      invariant i <= |r|
      invariant forall j :: 0 <= j < i ==> r[j].1 != conn
    {
      if r[i].1 == conn {
        found := Some(r[i].0);
        return;
      }
      i := i + 1;
    }
  }

  /**
   * `names` gives, for every key of the registry, the name object the dict holds for it:
   * a hashable value that is that key.
   */
  ghost predicate Named(r: Registry, names: map<Key, Value>) {
    forall k :: k in Keys(r) ==> k in names && Hashable(names[k]) && PyKey(names[k]) == k
  }

  /**
   * The name objects after `name` is assigned: a dict keeps the key object it already holds
   * when an equal name is assigned again, and holds `name` itself for a new key.
   */
  function NamesAfter(names: map<Key, Value>, r: Registry, name: Value): map<Key, Value>
    requires Hashable(name)
  {
    if PyKey(name) in Keys(r) then names else names[PyKey(name) := name]
  }

  /** `list(self.connections.keys())`: the name object of each entry, in registry order. */
  function PeerNames(r: Registry, names: map<Key, Value>): (ns: seq<Value>)
    requires Named(r, names)
    ensures |ns| == |r|
    ensures forall i :: 0 <= i < |r| ==> ns[i] == names[r[i].0] && PyKey(ns[i]) == r[i].0
  {
    assert forall i :: 0 <= i < |r| ==> r[i].0 in Keys(r) by {
      forall i | 0 <= i < |r| ensures r[i].0 in Keys(r) { assert Keys(r)[i] == r[i].0; }
    }
    seq(|r|, i requires 0 <= i < |r| && r[i].0 in names => names[r[i].0])
  }

  /** Assignment keeps every key named. */
  lemma NamedAfterPut(r: Registry, names: map<Key, Value>, name: Value, conn: ConnId)
    requires Named(r, names) && Hashable(name)
    ensures Named(Put(r, PyKey(name), conn), NamesAfter(names, r, name))
  {
    PutKeys(r, PyKey(name), conn);
  }

  /** Deletion keeps every remaining key named. */
  lemma NamedAfterRemove(r: Registry, names: map<Key, Value>, key: Key)
    requires Named(r, names)
    ensures Named(Remove(r, key), names)
  {
    forall k | k in Keys(Remove(r, key)) ensures k in Keys(r) {
      RemoveKeysShrink(r, key, k);
    }
  }

  class PeerNetwork {
    const username: string
    const host: string
    const port: int
    /** `decode_message`: bytes to a JSON value, or None when they do not parse. */
    const decode: seq<byte> -> Option<Value>

    var connections: Registry
    /** The name object the dict holds for each key of `connections`. */
    var nameOf: map<Key, Value>
    var running: bool
    /** Whether a listening socket exists and has not been closed. */
    var serverOpen: bool
    /** `connection_request_callback`, when one is set. */
    var admission: Admission

    /** Everything sent and handed on, in order. */
    ghost var log: seq<Event>
    /** Sockets the node has closed. */
    ghost var closed: set<ConnId>

    /** The registry is a dictionary: keys are distinct, and each stands for a hashable name. */
    ghost predicate Valid()
      reads this
    {
      UniqueKeys(connections) && Named(connections, nameOf)
    }

    constructor (username: string, host: string, port: int, decode: seq<byte> -> Option<Value>)
      ensures Valid()
      ensures this.username == username && this.host == host && this.port == port
      ensures this.decode == decode
      ensures connections == [] && running && !serverOpen && admission.None?
      ensures log == [] && closed == {}
    {
      this.username := username;
      this.host := host;
      this.port := port;
      this.decode := decode;
      connections := [];
      nameOf := map[];
      running := true;
      serverOpen := false;
      admission := None;
      log := [];
      closed := {};
    }

    /** Opening the listening socket; binding and accepting are not modelled. */
    method StartServer()
      modifies this`serverOpen
      ensures serverOpen
    {
      serverOpen := true;
    }

    /** `self.connections[name] = conn` under the lock. */
    method Register(name: Value, conn: ConnId)
      requires Valid() && Hashable(name)
      modifies this`connections, this`nameOf
      ensures Valid()
      ensures connections == Put(old(connections), PyKey(name), conn)
      ensures nameOf == NamesAfter(old(nameOf), old(connections), name)
    {
      var key := PyKey(name);
      PutUnique(connections, key, conn);
      NamedAfterPut(connections, nameOf, name, conn);
      if key !in Keys(connections) {
        nameOf := nameOf[key := name];
      }
      connections := Put(connections, key, conn);
    }

    /** The responder's cleanup: find the first name mapped to `conn`, delete it if truthy. */
    method ForgetSocket(conn: ConnId)
      requires Valid()
      modifies this`connections
      ensures Valid()
      ensures connections == AfterSessionEnd(old(connections), conn)
    {
      var found := FindName(connections, conn);
      if found.Some? && KeyTruthy(found.value) {
        RemoveUnique(connections, nameOf, found.value);
        connections := Remove(connections, found.value);
      }
    }

    /** The initiator's cleanup: delete the peer's name if it is registered, whatever its socket. */
    method ForgetName(name: Value)
      requires Valid() && Hashable(name)
      modifies this`connections
      ensures Valid()
      ensures connections == Remove(old(connections), PyKey(name))
    {
      var key := PyKey(name);
      if key in Keys(connections) {
        RemoveUnique(connections, nameOf, key);
      } else {
        RemoveMissing(connections, key);
      }
      connections := Remove(connections, key);
    }

    /** Removal keeps the registry a dictionary, for the removal of any key. */
    static lemma RemoveUnique(r: Registry, names: map<Key, Value>, key: Key)
      requires UniqueKeys(r) && Named(r, names)
      ensures UniqueKeys(Remove(r, key)) && Named(Remove(r, key), names)
    {
      if key in Keys(r) {
        RemoveCutsOne(r, key);
      } else {
        RemoveMissing(r, key);
      }
      NamedAfterRemove(r, names, key);
    }

    /**
     * The responder's side of the handshake on accepted socket `conn`: read until a line is
     * complete, decode it, and if it is an introduction the admission callback accepts,
     * reply with our own introduction (`replyOk` says whether that write succeeds) and
     * register the peer. Every other outcome closes the socket and runs the cleanup scan.
     */
    method RespondToIntroduction(conn: ConnId, addr: Address, chunks: seq<Read>, replyOk: bool)
      returns (h: Responded)
      requires Valid() && conn !in Sockets(connections)
      modifies this`connections, this`nameOf, this`log, this`closed
      ensures Valid()
      ensures Newline !in Received(chunks) ==>
        h.Dropped? && connections == old(connections) && log == old(log) && conn in closed
      ensures var w := Welcome(decode, admission, Received(chunks), addr);
        h.Established? <==> w.Some? && replyOk && Hashable(w.value)
      ensures h.Established? ==>
        && Welcome(decode, admission, Received(chunks), addr) == Some(h.peer) && Hashable(h.peer)
        && 0 < h.next <= |chunks| && Newline in Received(chunks)
        && SplitFirst(Received(chunks)).1 == h.buffer + Received(chunks[h.next..])
      ensures log == old(log) +
        if Welcome(decode, admission, Received(chunks), addr).Some? then [Sent(conn, IntroduceRecord(username))] else []
      ensures connections == if h.Established? then Put(old(connections), PyKey(h.peer), conn) else old(connections)
      ensures nameOf == if h.Established? then NamesAfter(old(nameOf), old(connections), h.peer) else old(nameOf)
      ensures closed == if h.Established? then old(closed) else old(closed) + {conn}
    {
      var a, intro := AwaitFirstLine(chunks);
      var w := if intro.Introduced? && Admits(admission, intro.peer, addr) then Some(intro.peer) else None;
      assert w == Welcome(decode, admission, Received(chunks), addr);
      var registered := Answer(conn, w, replyOk);
      h := if registered then Established(w.value, SplitFirst(a.buffer).1, a.next) else Dropped;
    }

    /**
     * The responder's answer to the peer `w` it welcomes, if any: an admitted peer gets our
     * introduction and is registered if the reply was sent and its name can be a dictionary
     * key; otherwise the socket is closed and the cleanup scan finds nothing.
     */
    method Answer(conn: ConnId, w: Option<Value>, replyOk: bool) returns (registered: bool)
      requires Valid() && conn !in Sockets(connections)
      modifies this`connections, this`nameOf, this`log, this`closed
      ensures Valid()
      ensures registered <==> w.Some? && replyOk && Hashable(w.value)
      ensures log == old(log) + if w.Some? then [Sent(conn, IntroduceRecord(username))] else []
      ensures connections == if registered then Put(old(connections), PyKey(w.value), conn) else old(connections)
      ensures nameOf == if registered then NamesAfter(old(nameOf), old(connections), w.value) else old(nameOf)
      ensures closed == if registered then old(closed) else old(closed) + {conn}
    {
      registered := false;
      if w.Some? {
        registered := Admit(conn, w.value, replyOk);
      }
      if !registered {
        Refuse(conn);
      }
    }

    /** Closing a socket that was never registered, and the cleanup scan, which finds nothing. */
    method Refuse(conn: ConnId)
      requires Valid() && conn !in Sockets(connections)
      modifies this`connections, this`closed
      ensures Valid()
      ensures connections == old(connections) && closed == old(closed) + {conn}
    {
      closed := closed + {conn};
      SessionEndUnregistered(connections, conn);
      ForgetSocket(conn);
    }

    /**
     * The responder's reply to an admitted peer: our introduction goes out, then the peer is
     * registered if the reply was sent and its name can be a dictionary key.
     */
    method Admit(conn: ConnId, peer: Value, replyOk: bool) returns (registered: bool)
      requires Valid()
      modifies this`connections, this`nameOf, this`log
      ensures Valid()
      ensures registered <==> replyOk && Hashable(peer)
      ensures log == old(log) + [Sent(conn, IntroduceRecord(username))]
      ensures connections == if registered then Put(old(connections), PyKey(peer), conn) else old(connections)
      ensures nameOf == if registered then NamesAfter(old(nameOf), old(connections), peer) else old(nameOf)
    {
      log := log + [Sent(conn, IntroduceRecord(username))];
      registered := replyOk && Hashable(peer);
      if registered {
        Register(peer, conn);
      }
    }

    /**
     * The wait for the first complete frame that both handshake sides perform, and what
     * that frame says about the other side.
     */
    method AwaitFirstLine(chunks: seq<Read>) returns (a: Await, intro: Intro)
      ensures a.Framed? <==> Newline in Received(chunks)
      ensures a.Framed? ==>
        && 0 < a.next <= |chunks| && Newline in a.buffer
        && SplitFirst(Received(chunks)).1 == SplitFirst(a.buffer).1 + Received(chunks[a.next..])
      ensures a.Closed? <==> Newline !in Received(chunks) && !EndsInFailure(chunks)
      ensures a.Closed? ==> a.partial == Received(chunks)
      ensures intro == FirstIntroduction(decode, Received(chunks))
    {
      a := ReadUntilDelimiter(chunks);
      if !a.Framed? {
        return a, NotIntroduced;
      }
      SplitAppend(a.buffer, Received(chunks[a.next..]));
      intro := Introduction(decode(SplitFirst(a.buffer).0));
    }

    /**
     * The responder's session after the handshake: frame and dispatch what `conn` delivers
     * until it closes, fails or a frame raises, then close it and run the cleanup scan.
     */
    method ServeResponder(conn: ConnId, buffer: seq<byte>, chunks: seq<Read>)
      requires Valid()
      modifies this`connections, this`log, this`closed
      ensures Valid()
      ensures log == old(log) + DeliveredEach(
        if running && Received(chunks) != [] then Deliveries(decode, Frames(buffer + Received(chunks))) else [])
      ensures connections == AfterSessionEnd(old(connections), conn)
      ensures closed == old(closed) + {conn}
    {
      var outs := ReadFrames(decode, running, buffer, chunks);
      log := log + DeliveredEach(outs);
      closed := closed + {conn};
      ForgetSocket(conn);
    }

    /**
     * One accepted connection from first byte to cleanup: the handshake, then the session on
     * the bytes that follow the introduction line. The session's bytes are the stream after
     * the first line, so every frame after the introduction is handed on in order.
     */
    method HandleConnection(conn: ConnId, addr: Address, chunks: seq<Read>, replyOk: bool)
      returns (h: Responded)
      requires Valid() && conn !in Sockets(connections)
      modifies this`connections, this`nameOf, this`log, this`closed
      ensures Valid()
      ensures closed == old(closed) + {conn}
      ensures var w := Welcome(decode, admission, Received(chunks), addr);
        h.Established? <==> w.Some? && replyOk && Hashable(w.value)
      ensures h.Established? ==>
        && Hashable(h.peer) && Newline in Received(chunks) && h.next <= |chunks|
        && connections == AfterSessionEnd(Put(old(connections), PyKey(h.peer), conn), conn)
        && nameOf == NamesAfter(old(nameOf), old(connections), h.peer)
        && log == old(log) + [Sent(conn, IntroduceRecord(username))] + DeliveredEach(
             if running && Received(chunks[h.next..]) != []
             then Deliveries(decode, Frames(SplitFirst(Received(chunks)).1)) else [])
      ensures h.Dropped? ==>
        && connections == old(connections) && nameOf == old(nameOf)
        && log == old(log) +
             if Welcome(decode, admission, Received(chunks), addr).Some? then [Sent(conn, IntroduceRecord(username))] else []
    {
      h := RespondToIntroduction(conn, addr, chunks, replyOk);
      if h.Established? {
        ServeResponder(conn, h.buffer, chunks[h.next..]);
      }
    }

    /**
     * The initiator's side of the handshake, on a fresh socket `conn` (`reachable` says
     * whether `connect` succeeds): send our introduction, read until a line is complete,
     * and register the peer the reply introduces. The bytes after the reply's first line
     * are handed on to the session: the corrected behaviour described under Findings.
     */
    method ConnectToPeer(conn: ConnId, reachable: bool, chunks: seq<Read>) returns (d: Dialed)
      requires Valid()
      modifies this`connections, this`nameOf, this`log, this`closed
      ensures Valid()
      ensures var intro := FirstIntroduction(decode, Received(chunks));
        d.Joined? <==> reachable && intro.Introduced? && Hashable(intro.peer)
      ensures d.Joined? ==>
        && d.peer == FirstIntroduction(decode, Received(chunks)).peer && Hashable(d.peer)
        && 0 < d.next <= |chunks| && Newline in Received(chunks)
        && SplitFirst(Received(chunks)).1 == d.buffer + Received(chunks[d.next..])
      ensures log == old(log) + (if reachable then [Sent(conn, IntroduceRecord(username))] else [])
      ensures connections == (if d.Joined? then Put(old(connections), PyKey(d.peer), conn) else old(connections))
      ensures nameOf == (if d.Joined? then NamesAfter(old(nameOf), old(connections), d.peer) else old(nameOf))
      ensures closed == (if reachable && InitiatorCloses(decode, chunks) then old(closed) + {conn} else old(closed))
    {
      if !reachable {
        return NotJoined;
      }
      log := log + [Sent(conn, IntroduceRecord(username))];
      var a, intro := AwaitFirstLine(chunks);
      match a
      case Broken =>
        assert !InitiatorCloses(decode, chunks);
        return NotJoined;
      case Closed(partial) =>
        assert InitiatorCloses(decode, chunks) <==> partial == [];
        if partial == [] {
          closed := closed + {conn};
        }
        return NotJoined;
      case Framed(buf, next) =>
        assert InitiatorCloses(decode, chunks) <==> intro.NotIntroduced?;
        if intro.NotIntroduced? {
          closed := closed + {conn};
          return NotJoined;
        }
        if intro.IntroRaises? || !Hashable(intro.peer) {
          return NotJoined;
        }
        Register(intro.peer, conn);
        return Joined(intro.peer, SplitFirst(buf).1, next);
    }

    /**
     * `connect_to_peer` together with the listening session it starts, in the corrected form
     * described under Findings: after a successful handshake every frame that follows the
     * reply's introduction line is handed on.
     */
    method ConnectAndListen(conn: ConnId, reachable: bool, chunks: seq<Read>) returns (d: Dialed)
      requires Valid()
      modifies this`connections, this`nameOf, this`log, this`closed
      ensures Valid()
      ensures var intro := FirstIntroduction(decode, Received(chunks));
        d.Joined? <==> reachable && intro.Introduced? && Hashable(intro.peer)
      ensures d.Joined? ==>
        && Hashable(d.peer) && Newline in Received(chunks) && d.next <= |chunks|
        && connections == Remove(Put(old(connections), PyKey(d.peer), conn), PyKey(d.peer))
        && nameOf == NamesAfter(old(nameOf), old(connections), d.peer)
        && closed == old(closed) + {conn}
        && log == old(log) + [Sent(conn, IntroduceRecord(username))] + DeliveredEach(
             if running && Received(chunks[d.next..]) != []
             then Deliveries(decode, Frames(SplitFirst(Received(chunks)).1)) else [])
      ensures d.NotJoined? ==>
        && connections == old(connections) && nameOf == old(nameOf)
        && log == old(log) + (if reachable then [Sent(conn, IntroduceRecord(username))] else [])
        && closed == (if reachable && InitiatorCloses(decode, chunks) then old(closed) + {conn} else old(closed))
    {
      d := ConnectToPeer(conn, reachable, chunks);
      if d.Joined? {
        assert !InitiatorCloses(decode, chunks);
        ListenToPeer(conn, d.peer, d.buffer, chunks[d.next..]);
      }
    }

    /**
     * The initiator's session: frame and dispatch what `conn` delivers, then close it and
     * delete the peer's name if it is still registered, whichever socket it now maps to.
     */
    method ListenToPeer(conn: ConnId, peer: Value, buffer: seq<byte>, chunks: seq<Read>)
      requires Valid() && Hashable(peer)
      modifies this`connections, this`log, this`closed
      ensures Valid()
      ensures log == old(log) + DeliveredEach(
        if running && Received(chunks) != [] then Deliveries(decode, Frames(buffer + Received(chunks))) else [])
      ensures connections == Remove(old(connections), PyKey(peer))
      ensures closed == old(closed) + {conn}
    {
      var outs := ReadFrames(decode, running, buffer, chunks);
      log := log + DeliveredEach(outs);
      closed := closed + {conn};
      ForgetName(peer);
    }

    /**
     * Send a chat message to the socket registered under `recipient`; nothing is sent when
     * the name is not registered. With `verbatim` the content is sent as it is, otherwise it
     * is wrapped in a record from this node, with `extra` merged over it.
     */
    method SendChatMessage(recipient: Value, content: Value, kind: Value := Str("chat"),
                           extra: Entries<string, Value> := [], verbatim: bool := false)
      requires Hashable(recipient)
      modifies this`log
      ensures log == old(log) +
        match Lookup(connections, PyKey(recipient))
        case None => []
        case Some(c) =>
          [Sent(c, if verbatim then content else ChatRecord(kind, username, recipient, content, extra))]
    {
      var found := Lookup(connections, PyKey(recipient));
      if found.None? {
        return;
      }
      var message := if verbatim then content else ChatRecord(kind, username, recipient, content, extra);
      log := log + [Sent(found.value, message)];
    }

    /** The registered names, in registration order, each as the dict holds it. */
    method ListPeers() returns (names: seq<Value>)
      requires Valid()
      ensures |names| == |connections|
      ensures forall i :: 0 <= i < |connections| ==>
        names[i] == nameOf[connections[i].0] && PyKey(names[i]) == connections[i].0
    {
      names := PeerNames(connections, nameOf);
    }

    /** Send our presence record to every registered socket, in registry order. */
    method BroadcastPresence(status: string)
      modifies this`log
      ensures log == old(log) + SentToEach(connections, PresenceRecord(username, status))
    {
      var m := PresenceRecord(username, status);
      var i := 0;
      while i < |connections|
        invariant i <= |connections|
        invariant log == old(log) + SentToEach(connections[..i], m)
      {
        assert SentToEach(connections[..i + 1], m) == SentToEach(connections[..i], m) + [Sent(connections[i].1, m)];
        log := log + [Sent(connections[i].1, m)];
        i := i + 1;
      }
      assert connections[..i] == connections;
    }

    /**
     * Stop the node: clear `running`, tell every peer we are offline, close every
     * registered socket, empty the registry and close the listening socket if there is one.
     */
    method Shutdown()
      requires Valid()
      modifies this`running, this`log, this`closed, this`connections, this`serverOpen
      ensures Valid() && !running && !serverOpen && connections == []
      ensures log == old(log) + SentToEach(old(connections), PresenceRecord(username, "offline"))
      ensures closed == old(closed) + Sockets(old(connections))
    {
      running := false;
      BroadcastPresence("offline");
      var i := 0;
      while i < |connections|
        invariant i <= |connections|
        invariant closed == old(closed) + Sockets(connections[..i])
        invariant connections == old(connections) && !running
        invariant log == old(log) + SentToEach(old(connections), PresenceRecord(username, "offline"))
      {
        assert Sockets(connections[..i + 1]) == Sockets(connections[..i]) + {connections[i].1} by {
          var p := connections[..i + 1];
          assert forall j :: 0 <= j < i ==> p[j] == connections[..i][j];
        }
        closed := closed + {connections[i].1};
        i := i + 1;
      }
      assert connections[..i] == connections;
      connections := [];
      serverOpen := false;
    }
  }
}
