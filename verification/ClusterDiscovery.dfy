/** The peer table, listener registry and message envelope of vislib's
    ClusterDiscoveryService, as a single-threaded object: the sender and
    receiver threads, the sockets and the critical section are outside the
    model; one aging step, one table update and one message preparation are
    sequential operations on the object. */
module ClusterDiscovery {
  import opened Wrappers

  /** Largest user payload in bytes. */
  const MAX_USER_DATA: nat := 256
  /** sizeof(struct sockaddr_in). */
  const SOCKADDR_IN_SIZE: nat := 16
  /** Longest cluster name, trailing zero included: the sender body
      (address + name) fills exactly the MAX_USER_DATA bytes of the union. */
  const MAX_NAME_LEN: nat := MAX_USER_DATA - SOCKADDR_IN_SIZE

  // Declared by the class, defined in ClusterDiscoveryService.cpp, which is not
  // part of this model: their values are left unspecified.
  const DEFAULT_PORT: nat
  const MAGIC_NUMBER: nat
  const MSG_TYPE_IAMHERE: nat
  const MSG_TYPE_SAYONARA: nat
  const MSG_TYPE_USER: nat

  /** An IPv4 socket address: the IP address and the port. */
  datatype SocketAddress = SocketAddress(ip: nat, port: nat)

  /** A registered ClusterDiscoveryListener, by object identity. */
  type Listener = nat

  datatype NodeLostReason = LostImplicitly | LostExplicitly

  /** A callback on a listener: OnNodeFound, OnNodeLost or OnUserMessage.
      Every address passed to a listener is a peer's response address. */
  datatype Event =
    | NodeFound(addr: SocketAddress)
    | NodeLost(addr: SocketAddress, reason: NodeLostReason)
    | UserMessage(sender: SocketAddress, msgType: nat, body: seq<Byte>)

  /** One event delivered to one listener. */
  datatype Delivery = Delivery(listener: Listener, event: Event)

  /** A known peer: its response ("call back") address, which identifies it,
      the address of its discovery service, and the number of requests it may
      still leave unanswered. */
  datatype PeerNode = PeerNode(address: SocketAddress, discoveryAddr: SocketAddress, cntResponseChances: nat)

  /** The union inside a Message: a sender body (I-am-here and sayonara
      messages), a response address, or user data. */
  datatype MessageBody =
    | SenderBody(sockAddr: SocketAddress, name: seq<char>)
    | ResponseAddr(responseAddr: SocketAddress)
    | UserData(userData: seq<Byte>)

  /** The fixed-size datagram of the discovery service. */
  datatype Message = Message(magicNumber: nat, msgType: nat, body: MessageBody)

  /** IllegalParamException and OutOfRangeException. */
  datatype Error = IllegalParam | OutOfRange

  /** Bytes each alternative of the message union occupies on the wire. */
  function UnionMemberSize(b: MessageBody): (n: nat)
    ensures n <= MAX_USER_DATA
    ensures b.SenderBody? || b.UserData? <==> n == MAX_USER_DATA
  {
    match b
    case SenderBody(_, _) => SOCKADDR_IN_SIZE + MAX_NAME_LEN
    case ResponseAddr(_) => SOCKADDR_IN_SIZE
    case UserData(_) => MAX_USER_DATA
  }

  // ---------------------------------------------------------------------
  // Specification of the peer table

  /** PeerNode::operator== compares only the response address. */
  predicate SamePeer(a: PeerNode, b: PeerNode) {
    a.address == b.address
  }

  /** No two entries share a response address. */
  ghost predicate Distinct(peers: seq<PeerNode>) {
    forall i, j :: 0 <= i < j < |peers| ==> peers[i].address != peers[j].address
  }

  /** Some entry has response address `addr`. */
  ghost predicate Known(peers: seq<PeerNode>, addr: SocketAddress) {
    exists i :: 0 <= i < |peers| && peers[i].address == addr
  }

  /** Every counter lies in [0, max]. */
  ghost predicate Bounded(peers: seq<PeerNode>, max: nat) {
    forall i :: 0 <= i < |peers| ==> peers[i].cntResponseChances <= max
  }

  /** The table after addPeerNode(node): a known node gets its counter reset
      to `max`; an unknown one is appended with counter `max`. */
  ghost function Upserted(peers: seq<PeerNode>, node: PeerNode, max: nat): seq<PeerNode> {
    if Known(peers, node.address) then
      seq(|peers|, i requires 0 <= i < |peers| =>
        if peers[i].address == node.address then peers[i].(cntResponseChances := max) else peers[i])
    else
      peers + [node.(cntResponseChances := max)]
  }

  /** The entries one aging step removes: those whose counter is zero. */
  function Expired(peers: seq<PeerNode>): seq<PeerNode> {
    if peers == [] then []
    else
      var last := peers[|peers| - 1];
      Expired(peers[..|peers| - 1]) + (if last.cntResponseChances == 0 then [last] else [])
  }

  /** The table after one aging step: a zero counter is checked first and the
      entry dropped; otherwise the counter is decremented. */
  function Aged(peers: seq<PeerNode>): seq<PeerNode> {
    if peers == [] then []
    else
      var last := peers[|peers| - 1];
      Aged(peers[..|peers| - 1])
        + (if last.cntResponseChances == 0 then [] else [last.(cntResponseChances := last.cntResponseChances - 1)])
  }

  /** The table without the entries whose response address is `addr`. */
  function Removed(peers: seq<PeerNode>, addr: SocketAddress): seq<PeerNode> {
    if peers == [] then []
    else
      var last := peers[|peers| - 1];
      Removed(peers[..|peers| - 1], addr) + (if last.address == addr then [] else [last])
  }

  /** One event delivered to every registered listener, in registration order. */
  function Notify(listeners: seq<Listener>, e: Event): seq<Delivery> {
    seq(|listeners|, i requires 0 <= i < |listeners| => Delivery(listeners[i], e))
  }

  /** A lost event for each of `nodes`, in table order. */
  function NotifyLost(listeners: seq<Listener>, nodes: seq<PeerNode>, reason: NodeLostReason): seq<Delivery> {
    if nodes == [] then []
    else
      NotifyLost(listeners, nodes[..|nodes| - 1], reason)
        + Notify(listeners, NodeLost(nodes[|nodes| - 1].address, reason))
  }

  /** The listener list without `listener`. */
  function Without(listeners: seq<Listener>, listener: Listener): seq<Listener> {
    if listeners == [] then []
    else
      var last := listeners[|listeners| - 1];
      Without(listeners[..|listeners| - 1], listener) + (if last == listener then [] else [last])
  }

  // ---------------------------------------------------------------------
  // Properties of the specification

  /** Re-adding a known node keeps the table size, keeps every address, and
      resets that node's counter only; the table stays valid. */
  lemma {:induction false} UpsertKnownPeer(peers: seq<PeerNode>, node: PeerNode, max: nat)
    requires Distinct(peers) && Bounded(peers, max) && Known(peers, node.address)
    ensures var r := Upserted(peers, node, max);
      && |r| == |peers|
      && Distinct(r) && Bounded(r, max)
      && (forall i :: 0 <= i < |r| ==> r[i].address == peers[i].address && r[i].discoveryAddr == peers[i].discoveryAddr)
      && (forall i :: 0 <= i < |r| && r[i].address == node.address ==> r[i].cntResponseChances == max)
      && (forall i :: 0 <= i < |r| && r[i].address != node.address ==> r[i] == peers[i])
  {
  }

  /** Adding an unknown node appends it, with counter `max`, and keeps the
      table valid. */
  lemma {:induction false} UpsertUnknownPeer(peers: seq<PeerNode>, node: PeerNode, max: nat)
    requires Distinct(peers) && Bounded(peers, max) && !Known(peers, node.address)
    ensures var r := Upserted(peers, node, max);
      && |r| == |peers| + 1
      && r[..|peers|] == peers
      && r[|peers|] == node.(cntResponseChances := max)
      && Distinct(r) && Bounded(r, max)
  {
  }

  /** One entry more at the end of the table: aging treats it on its own. */
  lemma {:induction false} AgingSnoc(peers: seq<PeerNode>, node: PeerNode)
    ensures Aged(peers + [node]) == Aged(peers)
      + (if node.cntResponseChances == 0 then [] else [node.(cntResponseChances := node.cntResponseChances - 1)])
    ensures Expired(peers + [node]) == Expired(peers) + (if node.cntResponseChances == 0 then [node] else [])
  {
    assert (peers + [node])[..|peers|] == peers;
  }

  /** One lost node more: its event follows the others. */
  lemma {:induction false} NotifyLostSnoc(listeners: seq<Listener>, nodes: seq<PeerNode>, node: PeerNode, reason: NodeLostReason)
    ensures NotifyLost(listeners, nodes + [node], reason)
      == NotifyLost(listeners, nodes, reason) + Notify(listeners, NodeLost(node.address, reason))
  {
    assert (nodes + [node])[..|nodes|] == nodes;
  }

  /** One more entry of the table aged: the loop step of prepareRequest. */
  lemma {:induction false} AgingStep(listeners: seq<Listener>, peers: seq<PeerNode>, i: nat)
    requires i < |peers|
    ensures var node := peers[i];
      && Aged(peers[..i + 1]) == Aged(peers[..i])
        + (if node.cntResponseChances == 0 then [] else [node.(cntResponseChances := node.cntResponseChances - 1)])
      && NotifyLost(listeners, Expired(peers[..i + 1]), LostImplicitly) == NotifyLost(listeners, Expired(peers[..i]), LostImplicitly)
        + (if node.cntResponseChances == 0 then Notify(listeners, NodeLost(node.address, LostImplicitly)) else [])
  {
    var node := peers[i];
    assert peers[..i + 1] == peers[..i] + [node];
    AgingSnoc(peers[..i], node);
    if node.cntResponseChances == 0 {
      assert Expired(peers[..i + 1]) == Expired(peers[..i]) + [node];
      NotifyLostSnoc(listeners, Expired(peers[..i]), node, LostImplicitly);
    } else {
      assert Expired(peers[..i + 1]) == Expired(peers[..i]);
      var lost := NotifyLost(listeners, Expired(peers[..i]), LostImplicitly);
      assert lost + [] == lost;
    }
  }

  /** Adding a node to the empty table, and adding it again. */
  lemma {:induction false} UpsertSingle(node: PeerNode, max: nat)
    ensures var entry := node.(cntResponseChances := max);
      && Upserted([], node, max) == [entry]
      && Known([entry], node.address)
      && Upserted([entry], node, max) == [entry]
  {
    var entry := node.(cntResponseChances := max);
    assert [entry][0].address == node.address;
  }

  /** Aging a one-entry table. */
  lemma {:induction false} AgingSingle(p: PeerNode, listeners: seq<Listener>)
    ensures Aged([p]) == if p.cntResponseChances == 0 then [] else [p.(cntResponseChances := p.cntResponseChances - 1)]
    ensures NotifyLost(listeners, Expired([p]), LostImplicitly)
      == if p.cntResponseChances == 0 then Notify(listeners, NodeLost(p.address, LostImplicitly)) else []
  {
    assert [p][..0] == [];
    if p.cntResponseChances == 0 {
      assert Expired([p]) == [p];
      assert [p][..0] == [];
    }
  }

  /** Aging splits the table: every entry either expires (counter zero) or
      survives, and the expired entries are exactly those with counter zero. */
  lemma {:induction false} AgingPartition(peers: seq<PeerNode>)
    ensures |Aged(peers)| + |Expired(peers)| == |peers|
    ensures forall p :: p in Expired(peers) <==> p in peers && p.cntResponseChances == 0
  {
    if peers != [] {
      AgingPartition(peers[..|peers| - 1]);
      assert peers == peers[..|peers| - 1] + [peers[|peers| - 1]];
    }
  }

  /** The survivors of aging are exactly the entries with a non-zero counter,
      each decremented by one. */
  lemma {:induction false} AgedEntries(peers: seq<PeerNode>)
    ensures forall q :: q in peers && q.cntResponseChances > 0 ==> q.(cntResponseChances := q.cntResponseChances - 1) in Aged(peers)
    ensures forall p :: p in Aged(peers) ==> p.(cntResponseChances := p.cntResponseChances + 1) in peers
  {
    if peers != [] {
      var init := peers[..|peers| - 1];
      AgedEntries(init);
      assert peers == init + [peers[|peers| - 1]];
    }
  }

  /** Where a surviving entry of the aged table comes from. */
  lemma {:induction false} AgedOrigin(peers: seq<PeerNode>, m: nat) returns (j: nat)
    requires m < |Aged(peers)|
    ensures j < |peers| && peers[j] == Aged(peers)[m].(cntResponseChances := Aged(peers)[m].cntResponseChances + 1)
  {
    var init, last := peers[..|peers| - 1], peers[|peers| - 1];
    if m < |Aged(init)| {
      j := AgedOrigin(init, m);
    } else {
      j := |peers| - 1;
    }
  }

  /** Where an entry with a positive counter lands in the aged table. */
  lemma {:induction false} AgedTarget(peers: seq<PeerNode>, k: nat) returns (m: nat)
    requires k < |peers| && peers[k].cntResponseChances > 0
    ensures m < |Aged(peers)| && Aged(peers)[m] == peers[k].(cntResponseChances := peers[k].cntResponseChances - 1)
  {
    var init := peers[..|peers| - 1];
    if k < |peers| - 1 {
      m := AgedTarget(init, k);
    } else {
      m := |Aged(init)|;
    }
  }

  /** Where an entry with counter zero lands in the expired list. */
  lemma {:induction false} ExpiredTarget(peers: seq<PeerNode>, k: nat) returns (m: nat)
    requires k < |peers| && peers[k].cntResponseChances == 0
    ensures m < |Expired(peers)| && Expired(peers)[m] == peers[k]
  {
    var init := peers[..|peers| - 1];
    if k < |peers| - 1 {
      m := ExpiredTarget(init, k);
    } else {
      m := |Expired(init)|;
    }
  }

  /** Aging keeps response addresses unique and counters within bounds, and
      keeps the surviving entries in table order. */
  lemma {:induction false} AgingKeepsTableValid(peers: seq<PeerNode>, max: nat)
    requires Distinct(peers) && Bounded(peers, max)
    ensures Distinct(Aged(peers)) && Bounded(Aged(peers), max)
  {
    if peers != [] {
      var init := peers[..|peers| - 1];
      var last := peers[|peers| - 1];
      assert Distinct(init) && Bounded(init, max);
      AgingKeepsTableValid(init, max);
      var a := Aged(init);
      if last.cntResponseChances != 0 {
        var x := last.(cntResponseChances := last.cntResponseChances - 1);
        forall i | 0 <= i < |a| ensures a[i].address != x.address {
          var k := AgedOrigin(init, i);
          assert peers[k].address != peers[|peers| - 1].address;
        }
        var r := a + [x];
        assert Aged(peers) == r;
        forall i, j | 0 <= i < j < |r| ensures r[i].address != r[j].address {
          assert r[i] == a[i];
        }
      } else {
        assert Aged(peers) == a;
      }
    }
  }

  /** Every entry for `addr` in `t` has counter `c`. */
  ghost predicate CounterIs(t: seq<PeerNode>, addr: SocketAddress, c: nat) {
    forall i :: 0 <= i < |t| && t[i].address == addr ==> t[i].cntResponseChances == c
  }

  /** A node whose counter is c > 0 survives aging with counter c - 1. */
  lemma {:induction false} AgingDecrements(t: seq<PeerNode>, addr: SocketAddress, c: nat)
    requires c > 0 && Known(t, addr) && CounterIs(t, addr, c)
    ensures Known(Aged(t), addr) && CounterIs(Aged(t), addr, c - 1)
  {
    var a := Aged(t);
    var k :| 0 <= k < |t| && t[k].address == addr;
    var m := AgedTarget(t, k);
    assert a[m].address == addr;
    forall i | 0 <= i < |a| && a[i].address == addr
      ensures a[i].cntResponseChances == c - 1
    {
      var j := AgedOrigin(t, i);
      assert t[j].address == addr;
    }
  }

  /** A node whose counter is c > 0 is not reported lost by aging. */
  lemma {:induction false} AgingSpares(t: seq<PeerNode>, addr: SocketAddress, c: nat)
    requires c > 0 && CounterIs(t, addr, c)
    ensures !Known(Expired(t), addr)
  {
    AgingPartition(t);
    forall e | 0 <= e < |Expired(t)| ensures Expired(t)[e].address != addr {
      assert Expired(t)[e] in Expired(t);
    }
  }

  /** A node whose counter is zero is reported lost by aging and removed. */
  lemma {:induction false} AgingEvicts(t: seq<PeerNode>, addr: SocketAddress)
    requires Known(t, addr) && CounterIs(t, addr, 0)
    ensures Known(Expired(t), addr) && !Known(Aged(t), addr)
  {
    var a := Aged(t);
    var k :| 0 <= k < |t| && t[k].address == addr;
    var e := ExpiredTarget(t, k);
    assert Expired(t)[e].address == addr;
    forall i | 0 <= i < |a| ensures a[i].address != addr {
      var j := AgedOrigin(t, i);
      assert t[j].cntResponseChances > 0;
    }
  }

  /** With one response chance, a node that is added and then never refreshed
      survives the first aging step (its counter goes 1 -> 0), is removed by
      the second, and only the second reports it lost. */
  lemma {:induction false} SilentPeerLifetime(peers: seq<PeerNode>, node: PeerNode)
    requires Distinct(peers) && Bounded(peers, 1)
    ensures var t1 := Upserted(peers, node, 1);
      var t2 := Aged(t1);
      && Known(t1, node.address) && !Known(Expired(t1), node.address)
      && Known(t2, node.address) && Known(Expired(t2), node.address)
      && !Known(Aged(t2), node.address)
  {
    var t1 := Upserted(peers, node, 1);
    if Known(peers, node.address) {
      UpsertKnownPeer(peers, node, 1);
    } else {
      UpsertUnknownPeer(peers, node, 1);
      assert t1[|peers|].address == node.address;
    }
    assert CounterIs(t1, node.address, 1);
    AgingDecrements(t1, node.address, 1);
    AgingSpares(t1, node.address, 1);
    AgingEvicts(Aged(t1), node.address);
  }

  /** Removing a node whose response address occurs once, at index k, drops
      exactly that entry and keeps the others in order. */
  lemma {:induction false} RemovedSingle(peers: seq<PeerNode>, addr: SocketAddress, k: nat)
    requires k < |peers| && peers[k].address == addr
    requires forall i :: 0 <= i < |peers| && i != k ==> peers[i].address != addr
    ensures Removed(peers, addr) == peers[..k] + peers[k + 1..]
  {
    var init := peers[..|peers| - 1];
    if k == |peers| - 1 {
      RemovedAbsent(init, addr);
      assert peers[k + 1..] == [];
    } else {
      RemovedSingle(init, addr, k);
      assert peers[..k] + peers[k + 1..] == init[..k] + init[k + 1..] + [peers[|peers| - 1]];
    }
  }

  /** Removing an address that does not occur leaves the table unchanged. */
  lemma {:induction false} RemovedAbsent(peers: seq<PeerNode>, addr: SocketAddress)
    requires forall i :: 0 <= i < |peers| ==> peers[i].address != addr
    ensures Removed(peers, addr) == peers
  {
    if peers != [] {
      RemovedAbsent(peers[..|peers| - 1], addr);
    }
  }

  /** Removing a listener removes every registration of it and keeps the
      other listeners in order; removing an unregistered one is a no-op. */
  lemma {:induction false} WithoutListener(listeners: seq<Listener>, listener: Listener)
    ensures listener !in Without(listeners, listener)
    ensures forall l :: l != listener ==> (l in Without(listeners, listener) <==> l in listeners)
    ensures listener !in listeners ==> Without(listeners, listener) == listeners
  {
    if listeners != [] {
      var init := listeners[..|listeners| - 1];
      WithoutListener(init, listener);
      assert listeners == init + [listeners[|listeners| - 1]];
    }
  }

  // ---------------------------------------------------------------------
  // The service object

  /** The loop of prepareRequest over the table: a peer whose counter is zero
      is dropped and reported lost implicitly to every listener, any other
      peer is kept with its counter decremented. */
  method AgePeers(peers: seq<PeerNode>, listeners: seq<Listener>) returns (kept: seq<PeerNode>, lost: seq<Delivery>)
    ensures kept == Aged(peers)
    ensures lost == NotifyLost(listeners, Expired(peers), LostImplicitly)
  {
    kept, lost := [], [];
    var i := 0;
    while i < |peers|
      invariant 0 <= i <= |peers|
      invariant kept == Aged(peers[..i])
      invariant lost == NotifyLost(listeners, Expired(peers[..i]), LostImplicitly)
    {
      var node := peers[i];
      AgingStep(listeners, peers, i);
      if node.cntResponseChances == 0 {
        lost := lost + Notify(listeners, NodeLost(node.address, LostImplicitly));
      } else {
        kept := kept + [node.(cntResponseChances := node.cntResponseChances - 1)];
      }
      i := i + 1;
    }
    assert peers[..i] == peers;
  }

  class DiscoveryService {
    /** The name of the cluster to form. */
    const name: seq<char>
    /** The address sent to other nodes in responses. */
    const responseAddr: SocketAddress
    /** The broadcast IP address requests are sent to. */
    const bcastAddr: nat
    /** The port the receiver binds to. */
    const bindPort: nat
    /** Milliseconds between two discovery requests. */
    const requestInterval: nat
    /** Requests a peer may leave unanswered before it is dropped. */
    const cntResponseChances: nat

    /** The known peer nodes. */
    var peerNodes: seq<PeerNode>
    /** The registered listeners. */
    var listeners: seq<Listener>
    /** Every callback made so far, in order. */
    var events: seq<Delivery>

    /** The table invariant: response addresses are unique and every counter
        lies in [0, cntResponseChances]. */
    ghost predicate Valid()
      reads this
    {
      Distinct(peerNodes) && Bounded(peerNodes, cntResponseChances)
    }

    constructor (name: seq<char>, responseAddr: SocketAddress, bcastAddr: nat,
                 bindPort: nat := DEFAULT_PORT, requestInterval: nat := 10 * 1000,
                 cntResponseChances: nat := 1)
      requires |name| < MAX_NAME_LEN
      ensures Valid()
      ensures this.name == name && this.responseAddr == responseAddr && this.bcastAddr == bcastAddr
      ensures this.bindPort == bindPort && this.requestInterval == requestInterval
      ensures this.cntResponseChances == cntResponseChances
      ensures peerNodes == [] && listeners == [] && events == []
    {
      this.name := name;
      this.responseAddr := responseAddr;
      this.bcastAddr := bcastAddr;
      this.bindPort := bindPort;
      this.requestInterval := requestInterval;
      this.cntResponseChances := cntResponseChances;
      peerNodes := [];
      listeners := [];
      events := [];
    }

    /** The number of known peer nodes. */
    function CountPeers(): nat
      reads this
    {
      |peerNodes|
    }

    /** operator[]: the response address of the idx-th peer, or OutOfRange. */
    function PeerAt(idx: int): (r: Result<SocketAddress, Error>)
      reads this
      ensures r.Success? <==> 0 <= idx < CountPeers()
      ensures r.Success? ==> r.value == peerNodes[idx].address
      ensures r.Failure? ==> r.error == OutOfRange
    {
      if 0 <= idx < |peerNodes| then Success(peerNodes[idx].address) else Failure(OutOfRange)
    }

    method AddListener(listener: Listener)
      modifies this`listeners
      ensures listeners == old(listeners) + [listener]
    {
      listeners := listeners + [listener];
    }

    /** Unregisters `listener`; nothing happens if it is not registered. */
    method RemoveListener(listener: Listener)
      modifies this`listeners
      ensures listeners == Without(old(listeners), listener)
    {
      var kept: seq<Listener> := [];
      var i := 0;
      while i < |listeners|
        invariant 0 <= i <= |listeners|
        invariant kept == Without(listeners[..i], listener)
      {
        assert listeners[..i + 1][..i] == listeners[..i];
        if listeners[i] != listener {
          kept := kept + [listeners[i]];
        }
        i := i + 1;
      }
      assert listeners[..i] == listeners;
      listeners := kept;
    }

    /** The index of the first peer whose discovery service runs on IP
        address `ip` (the port is not compared), or -1. */
    method PeerFromDiscoveryAddr(ip: nat) returns (idx: int)
      ensures -1 <= idx < |peerNodes|
      ensures idx == -1 <==> forall i :: 0 <= i < |peerNodes| ==> peerNodes[i].discoveryAddr.ip != ip
      ensures idx >= 0 ==> peerNodes[idx].discoveryAddr.ip == ip
      ensures idx >= 0 ==> forall i :: 0 <= i < idx ==> peerNodes[i].discoveryAddr.ip != ip
    {
      var i := 0;
      while i < |peerNodes|
        invariant 0 <= i <= |peerNodes|
        invariant forall j :: 0 <= j < i ==> peerNodes[j].discoveryAddr.ip != ip
      {
        if peerNodes[i].discoveryAddr.ip == ip {
          return i;
        }
        i := i + 1;
      }
      return -1;
    }

    /** The index of the peer whose response address is `addr` (IP address
        and port), or -1. */
    method PeerFromResponseAddr(addr: SocketAddress) returns (idx: int)
      ensures -1 <= idx < |peerNodes|
      ensures idx == -1 <==> !Known(peerNodes, addr)
      ensures idx >= 0 ==> peerNodes[idx].address == addr
      ensures idx >= 0 ==> forall i :: 0 <= i < idx ==> peerNodes[i].address != addr
    {
      var i := 0;
      while i < |peerNodes|
        invariant 0 <= i <= |peerNodes|
        invariant forall j :: 0 <= j < i ==> peerNodes[j].address != addr
      {
        if peerNodes[i].address == addr {
          return i;
        }
        i := i + 1;
      }
      return -1;
    }

    /** addPeerNode: refreshes a known node (same response address) or adds
        an unknown one and reports it found. */
    method AddPeerNode(node: PeerNode)
      requires Valid()
      modifies this`peerNodes, this`events
      ensures Valid()
      ensures peerNodes == Upserted(old(peerNodes), node, cntResponseChances)
      ensures events == old(events)
        + (if Known(old(peerNodes), node.address) then [] else Notify(listeners, NodeFound(node.address)))
    {
      ghost var peers := peerNodes;
      var idx := PeerFromResponseAddr(node.address);
      if idx >= 0 {
        peerNodes := peerNodes[idx := peerNodes[idx].(cntResponseChances := cntResponseChances)];
        forall i | 0 <= i < |peers|
          ensures peerNodes[i] == Upserted(peers, node, cntResponseChances)[i]
        {
          if i != idx {
            assert peers[i].address != peers[idx].address;
          }
        }
        UpsertKnownPeer(peers, node, cntResponseChances);
      } else {
        peerNodes := peerNodes + [node.(cntResponseChances := cntResponseChances)];
        events := events + Notify(listeners, NodeFound(node.address));
        UpsertUnknownPeer(peers, node, cntResponseChances);
      }
    }

    /** prepareRequest: drops every peer whose counter is zero, reporting it
        lost implicitly, and decrements the counter of every other peer. */
    method PrepareRequest()
      requires Valid()
      modifies this`peerNodes, this`events
      ensures Valid()
      ensures peerNodes == Aged(old(peerNodes))
      ensures events == old(events) + NotifyLost(listeners, Expired(old(peerNodes)), LostImplicitly)
    {
      var kept, lost := AgePeers(peerNodes, listeners);
      events := events + lost;
      AgingKeepsTableValid(peerNodes, cntResponseChances);
      peerNodes := kept;
    }

    /** removePeerNode: drops the node with the same response address and
        reports it lost explicitly; the other entries keep their order. */
    method RemovePeerNode(node: PeerNode)
      requires Valid()
      modifies this`peerNodes, this`events
      ensures Valid()
      ensures peerNodes == Removed(old(peerNodes), node.address)
      ensures events == old(events)
        + (if Known(old(peerNodes), node.address) then Notify(listeners, NodeLost(node.address, LostExplicitly)) else [])
    {
      ghost var peers := peerNodes;
      var idx := PeerFromResponseAddr(node.address);
      if idx >= 0 {
        forall i | 0 <= i < |peers| && i != idx ensures peers[i].address != node.address {
          assert peers[i].address != peers[idx].address;
        }
        RemovedSingle(peers, node.address, idx);
        peerNodes := peerNodes[..idx] + peerNodes[idx + 1..];
        events := events + Notify(listeners, NodeLost(node.address, LostExplicitly));
        assert forall i :: 0 <= i < |peerNodes| ==> peerNodes[i] == (if i < idx then peers[i] else peers[i + 1]);
      } else {
        RemovedAbsent(peers, node.address);
      }
    }

    /** fireUserMessage: looks the sender up by the IP address of its
        discovery service (the port is ignored) and, if found, delivers the
        message with the sender's response address; otherwise fires nothing. */
    method FireUserMessage(sender: SocketAddress, msgType: nat, msgBody: seq<Byte>)
      modifies this`events
      ensures (forall i :: 0 <= i < |peerNodes| ==> peerNodes[i].discoveryAddr.ip != sender.ip) ==> events == old(events)
      ensures forall i ::
        && 0 <= i < |peerNodes| && peerNodes[i].discoveryAddr.ip == sender.ip
        && (forall j :: 0 <= j < i ==> peerNodes[j].discoveryAddr.ip != sender.ip)
        ==> events == old(events) + Notify(listeners, UserMessage(peerNodes[i].address, msgType, msgBody))
    {
      var idx := PeerFromDiscoveryAddr(sender.ip);
      if idx >= 0 {
        assert peerNodes[idx].discoveryAddr.ip == sender.ip;
        events := events + Notify(listeners, UserMessage(peerNodes[idx].address, msgType, msgBody));
      }
    }

    /** prepareUserMessage: validates the input and builds the datagram; the
        body is copied into the user data and the rest of it is zeroed. */
    method PrepareUserMessage(msgType: nat, msgBody: Option<seq<Byte>>, msgSize: nat)
      returns (r: Result<Message, Error>)
      requires msgBody.Some? && msgSize <= MAX_USER_DATA ==> msgSize <= |msgBody.value|
      ensures r.Failure? <==> msgType < MSG_TYPE_USER || msgBody.None? || msgSize > MAX_USER_DATA
      ensures r.Failure? ==> r.error == IllegalParam
      ensures r.Success? ==>
        && r.value.magicNumber == MAGIC_NUMBER && r.value.msgType == msgType
        && r.value.body.UserData?
        && |r.value.body.userData| == MAX_USER_DATA
        && r.value.body.userData[..msgSize] == msgBody.value[..msgSize]
        && forall k :: msgSize <= k < MAX_USER_DATA ==> r.value.body.userData[k] == 0
    {
      if msgType < MSG_TYPE_USER || msgBody.None? || msgSize > MAX_USER_DATA {
        return Failure(IllegalParam);
      }
      var body := msgBody.value;
      var userData := new Byte[MAX_USER_DATA];
      var i := 0;
      while i < msgSize
        invariant 0 <= i <= msgSize
        invariant forall k :: 0 <= k < i ==> userData[k] == body[k]
      {
        userData[i] := body[i];
        i := i + 1;
      }
      while i < MAX_USER_DATA
        invariant msgSize <= i <= MAX_USER_DATA
        invariant forall k :: 0 <= k < msgSize ==> userData[k] == body[k]
        invariant forall k :: msgSize <= k < i ==> userData[k] == 0
      {
        userData[i] := 0;
        i := i + 1;
      }
      r := Success(Message(MAGIC_NUMBER, msgType, UserData(userData[..])));
    }
  }

  /** The table scenario of the discovery service with one response chance:
      a node found once, refreshed, then aged out after two silent rounds. */
  method SilentPeerScenario(x: PeerNode) returns (log: seq<Delivery>, remaining: nat)
    ensures remaining == 0
    ensures log == [Delivery(7, NodeFound(x.address)), Delivery(7, NodeLost(x.address, LostImplicitly))]
  {
    var cds := new DiscoveryService("testnet", SocketAddress(1, 12345), 255);
    cds.AddListener(7);
    var fresh1 := x.(cntResponseChances := 1);
    UpsertSingle(x, 1);
    cds.AddPeerNode(x);
    assert cds.peerNodes == [fresh1];
    assert cds.events == [Delivery(7, NodeFound(x.address))];
    UpsertSingle(x, 1);
    cds.AddPeerNode(x);
    AgingSingle(fresh1, [7]);
    cds.PrepareRequest();
    var silent := x.(cntResponseChances := 0);
    AgingSingle(silent, [7]);
    cds.PrepareRequest();
    remaining := cds.CountPeers();
    log := cds.events;
  }
}
