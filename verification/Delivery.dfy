/** A data packet travels hop by hop over settled tables and comes out of the target's receive buffer. */
module Delivery {
  import opened Bytes
  import opened MeshConfig
  import opened RouteTable
  import opened Snapshot
  import opened RxRing
  import opened Node

  type Nodes = map<byte, Node>

  ghost predicate AllOk(nodes: Nodes) {
    forall a :: a in nodes ==> NodeInv(nodes[a]) && nodes[a].address == a
  }

  /** The table has a live trusted entry for a. */
  predicate Trusts(t: Table, a: byte) {
    exists k :: 0 <= k < |t| && t[k].Named(a) && t[k].trusted
  }

  /** Hop count of the live entry for x. */
  function HopsTo(t: Table, x: byte): nat
    requires FirstLive(t, x) < |t|
  {
    t[FirstLive(t, x)].hops
  }

  /** The next hop of n towards target exists, trusts n, and unless it is the target has a route with fewer hops. */
  ghost predicate HopReady(nodes: Nodes, n: byte, target: byte)
    requires n in nodes && FirstLive(nodes[n].table, target) < |nodes[n].table|
  {
    var hop := NextHop(nodes[n].table, target);
    && hop in nodes && hop != n && Trusts(nodes[hop].table, n)
    && (hop != target ==>
          FirstLive(nodes[hop].table, target) < |nodes[hop].table|
          && HopsTo(nodes[hop].table, target) < HopsTo(nodes[n].table, target))
  }

  /** The tables have settled as far as target is concerned. */
  ghost predicate Settled(nodes: Nodes, target: byte) {
    forall n :: n in nodes && n != target && FirstLive(nodes[n].table, target) < |nodes[n].table| ==>
      HopReady(nodes, n, target)
  }

  // ----- One transmission -----

  /** Those who hear a transmission of p: any nodes but the sender, the addressed one among them. */
  ghost predicate Audience(nodes: Nodes, p: Packet, hearers: set<byte>) {
    |p| > 2 && hearers <= nodes.Keys && p[0] !in hearers && p[2] in hearers
  }

  ghost predicate Sendable(p: Packet) {
    4 <= |p| <= PACKET_SIZE && p[0] != 0
  }

  /** Every hearer acts on the packet; a data packet is a packet like any other. */
  ghost function Round(nodes: Nodes, p: Packet, hearers: set<byte>): (r: Nodes)
    requires AllOk(nodes) && Sendable(p) && p[0] !in hearers
    ensures r.Keys == nodes.Keys
  {
    map a | a in nodes :: if a in hearers then Step(nodes[a], Hear(p)).0 else nodes[a]
  }

  ghost function Replies(nodes: Nodes, p: Packet, hearers: set<byte>): set<Packet>
    requires AllOk(nodes) && Sendable(p) && p[0] !in hearers
  {
    set a, q | a in nodes && a in hearers && q in Step(nodes[a], Hear(p)).1 :: q
  }

  /** The packet that a hearer passes on, if any does. */
  ghost function Reply(nodes: Nodes, p: Packet, hearers: set<byte>): (r: Option<Packet>)
    requires AllOk(nodes) && Sendable(p) && p[0] !in hearers
    ensures r.None? <==> Replies(nodes, p, hearers) == {}
    ensures r.Some? ==> r.value in Replies(nodes, p, hearers)
  {
    var replies := Replies(nodes, p, hearers);
    if replies == {} then None else var q :| q in replies; Some(q)
  }

  lemma RoundOk(nodes: Nodes, p: Packet, hearers: set<byte>)
    requires AllOk(nodes) && Sendable(p) && p[0] !in hearers
    ensures AllOk(Round(nodes, p, hearers))
  {
    forall a | a in nodes && a in hearers {
      StepInv(nodes[a], Hear(p));
    }
  }

  /** What a hearer passes on is a packet that the radio can send. */
  lemma ReplySendable(nodes: Nodes, p: Packet, hearers: set<byte>, q: Packet)
    requires AllOk(nodes) && Sendable(p) && p[0] !in hearers && q in Replies(nodes, p, hearers)
    ensures Sendable(q)
  {
  }

  /** The nodes after a relay, how many transmissions it took, and whether it came to an end: everybody addressed has
      heard, and nobody passed the last packet on. */
  datatype Trip = Trip(last: Nodes, used: nat, finished: bool)

  /** Transmissions follow each other while a hearer passes the packet on and there are rounds left. */
  ghost function Relay(nodes: Nodes, p: Packet, rounds: seq<set<byte>>): (r: Trip)
    requires AllOk(nodes) && Sendable(p)
    decreases |rounds|
  {
    if rounds == [] || !Audience(nodes, p, rounds[0]) then Trip(nodes, 0, false)
    else
      RoundOk(nodes, p, rounds[0]);
      var after := Round(nodes, p, rounds[0]);
      var reply := Reply(nodes, p, rounds[0]);
      if reply.None? then Trip(after, 1, true)
      else
        ReplySendable(nodes, p, rounds[0], reply.value);
        var rest := Relay(after, reply.value, rounds[1..]);
        rest.(used := rest.used + 1)
  }

  /** Each transmission that is made within these rounds is heard by whom it is addressed to. */
  ghost predicate AlwaysHeard(nodes: Nodes, p: Packet, rounds: seq<set<byte>>)
    requires AllOk(nodes) && Sendable(p)
    decreases |rounds|
  {
    rounds != [] ==>
      Audience(nodes, p, rounds[0])
      && (RoundOk(nodes, p, rounds[0]);
          var reply := Reply(nodes, p, rounds[0]);
          reply.Some? ==>
            (ReplySendable(nodes, p, rounds[0], reply.value);
             AlwaysHeard(Round(nodes, p, rounds[0]), reply.value, rounds[1..])))
  }

  // ----- Hearing a packet from another node disturbs no settled route -----

  /** Tables t and u agree on the route to x and u trusts whomever t trusts. */
  ghost predicate SameRoute(t: Table, u: Table, x: byte) {
    && |u| == |t| && FirstLive(u, x) == FirstLive(t, x)
    && (FirstLive(t, x) < |t| ==> u[FirstLive(t, x)] == t[FirstLive(t, x)])
    && forall y: byte :: Trusts(t, y) ==> Trusts(u, y)
  }

  ghost predicate RoutesKept(nodes: Nodes, after: Nodes, x: byte) {
    after.Keys == nodes.Keys && forall a :: a in nodes ==> SameRoute(nodes[a].table, after[a].table, x)
  }

  lemma UpdateKeepsRoute(t: Table, self: byte, a: byte, x: byte)
    requires Inv(t, self) && a != x
    ensures SameRoute(t, UpdateWeight(t, a), x)
  {
    var r, k := UpdateWeight(t, a), FirstLive(t, x);
    if k < |t| {
      assert r[k] == t[k];
      assert forall i :: 0 <= i < k ==> !r[i].Named(x);
    } else {
      assert forall i :: 0 <= i < |r| ==> !r[i].Named(x);
    }
    forall y: byte | Trusts(t, y)
      ensures Trusts(r, y)
    {
      UpdateKeepsTrust(t, self, a, y);
    }
  }

  lemma UpdateKeepsTrust(t: Table, self: byte, a: byte, x: byte)
    requires Inv(t, self) && Trusts(t, x)
    ensures Trusts(UpdateWeight(t, a), x)
  {
    var k :| 0 <= k < |t| && t[k].Named(x) && t[k].trusted;
    assert UpdateWeight(t, a)[k].Named(x) && UpdateWeight(t, a)[k].trusted;
  }

  lemma SettledKept(nodes: Nodes, after: Nodes, target: byte)
    requires Settled(nodes, target) && RoutesKept(nodes, after, target)
    ensures Settled(after, target)
  {
    forall n | n in after && n != target && FirstLive(after[n].table, target) < |after[n].table|
      ensures HopReady(after, n, target)
    {
      assert SameRoute(nodes[n].table, after[n].table, target);
      assert HopReady(nodes, n, target);
      var hop := NextHop(nodes[n].table, target);
      assert SameRoute(nodes[hop].table, after[hop].table, target);
    }
  }

  /** A node that already trusts the sender finds it trusted once the packet is in. */
  lemma TrustedSenderPasses(t: Table, self: byte, a: byte)
    requires Inv(t, self) && Trusts(t, a) && a != 0 && a != self
    ensures CheckTrusted(UpdateWeight(t, a), a)
  {
    UpdateKeepsTrust(t, self, a, a);
    CheckTrustedIsLive(t, self, a);
  }

  /** What a data packet does to any node that hears it. */
  lemma HearData(n: Node, from: byte, hop: byte, target: byte, payload: seq<byte>)
    requires NodeInv(n) && from != 0 && from != n.address && |payload| <= MAX_DATA_LENGTH
    ensures var (m, sent) := Step(n, Hear(DataPacket(from, hop, target, payload)));
      var next := NextHop(UpdateWeight(n.table, from), target);
      && m.table == UpdateWeight(n.table, from) && m.key == n.key
      && (hop != n.address ==> m.ring == n.ring && sent == [])
      && (hop == n.address && Trusts(n.table, from) ==>
            && (target == n.address ==> m.ring == n.ring.Save(payload) && sent == [])
            && (target != n.address && next != 0 ==>
                  m.ring == n.ring && sent == [DataPacket(n.address, next, target, payload)]))
  {
    var p := DataPacket(from, hop, target, payload);
    var b := p + n.received[|p|..];
    assert b[4..|p|] == payload;
    if Trusts(n.table, from) {
      TrustedSenderPasses(n.table, n.address, from);
    }
  }

  lemma RoundKeepsRoutes(nodes: Nodes, from: byte, hop: byte, target: byte, payload: seq<byte>, hearers: set<byte>)
    requires AllOk(nodes) && |payload| <= MAX_DATA_LENGTH
    requires from != 0 && from != target && from !in hearers
    ensures RoutesKept(nodes, Round(nodes, DataPacket(from, hop, target, payload), hearers), target)
  {
    var after := Round(nodes, DataPacket(from, hop, target, payload), hearers);
    forall a | a in nodes
      ensures SameRoute(nodes[a].table, after[a].table, target)
    {
      if a in hearers {
        HearData(nodes[a], from, hop, target, payload);
        UpdateKeepsRoute(nodes[a].table, a, from, target);
      }
    }
  }

  /** Only the node addressed by a data packet stores it or passes it on. */
  lemma BystandersIdle(nodes: Nodes, from: byte, hop: byte, target: byte, payload: seq<byte>, hearers: set<byte>)
    requires AllOk(nodes) && |payload| <= MAX_DATA_LENGTH && from != 0 && from !in hearers
    requires hop in nodes && hop in hearers
    ensures var p := DataPacket(from, hop, target, payload);
      && (forall a :: a in nodes && a != hop ==> Round(nodes, p, hearers)[a].ring == nodes[a].ring)
      && (forall a :: a in nodes ==> Round(nodes, p, hearers)[a].key == nodes[a].key)
      && (forall q :: q in Replies(nodes, p, hearers) <==> q in Step(nodes[hop], Hear(p)).1)
  {
    forall a | a in nodes && a in hearers {
      HearData(nodes[a], from, hop, target, payload);
    }
  }

  /** The addressed node, which trusts the sender, stores the payload or passes it to its own next hop. */
  lemma HopActs(n: Node, from: byte, target: byte, payload: seq<byte>)
    requires NodeInv(n) && from != 0 && from != n.address && from != target && |payload| <= MAX_DATA_LENGTH
    requires Trusts(n.table, from)
    requires target != n.address ==> FirstLive(n.table, target) < |n.table|
    ensures var (m, sent) := Step(n, Hear(DataPacket(from, n.address, target, payload)));
      if target == n.address then m.ring == n.ring.Save(payload) && sent == []
      else m.ring == n.ring && sent == [DataPacket(n.address, NextHop(n.table, target), target, payload)]
  {
    HearData(n, from, n.address, target, payload);
    if target != n.address {
      UpdateKeepsRoute(n.table, n.address, from, target);
      NextHopNotZero(n, target);
    }
  }

  /** A transmission to a node that is not yet the target: one reply, towards a next hop that is ready for it. */
  lemma MiddleRound(nodes: Nodes, from: byte, hop: byte, target: byte, payload: seq<byte>, hearers: set<byte>)
    requires AllOk(nodes) && Settled(nodes, target) && |payload| <= MAX_DATA_LENGTH
    requires from != 0 && from != target && from !in hearers && hop in nodes && hop in hearers
    requires Trusts(nodes[hop].table, from)
    requires hop != target && FirstLive(nodes[hop].table, target) < |nodes[hop].table|
    ensures var p := DataPacket(from, hop, target, payload);
      var after := Round(nodes, p, hearers);
      var next := NextHop(nodes[hop].table, target);
      && Replies(nodes, p, hearers) == {DataPacket(hop, next, target, payload)}
      && AllOk(after) && Settled(after, target)
      && next in after && next != hop && Trusts(after[next].table, hop)
      && (next != target ==>
            FirstLive(after[next].table, target) < |after[next].table|
            && HopsTo(after[next].table, target) < HopsTo(nodes[hop].table, target))
      && forall a :: a in nodes ==> after[a].ring == nodes[a].ring && after[a].key == nodes[a].key
  {
    var p := DataPacket(from, hop, target, payload);
    var after := Round(nodes, p, hearers);
    RoundOk(nodes, p, hearers);
    BystandersIdle(nodes, from, hop, target, payload, hearers);
    HopActs(nodes[hop], from, target, payload);
    RoundKeepsRoutes(nodes, from, hop, target, payload, hearers);
    SettledKept(nodes, after, target);
    assert SameRoute(nodes[hop].table, after[hop].table, target) && HopReady(after, hop, target);
    assert Replies(nodes, p, hearers) == {DataPacket(hop, NextHop(nodes[hop].table, target), target, payload)};
  }

  /** The transmission to the target itself. */
  lemma LastRound(nodes: Nodes, from: byte, target: byte, payload: seq<byte>, hearers: set<byte>)
    requires AllOk(nodes) && |payload| <= MAX_DATA_LENGTH
    requires from != 0 && from != target && from !in hearers && target in nodes && target in hearers
    requires Trusts(nodes[target].table, from)
    ensures var p := DataPacket(from, target, target, payload);
      var after := Round(nodes, p, hearers);
      && Replies(nodes, p, hearers) == {}
      && after[target].ring == nodes[target].ring.Save(payload) && after[target].key == nodes[target].key
      && forall a :: a in nodes && a != target ==> after[a].ring == nodes[a].ring
  {
    BystandersIdle(nodes, from, target, target, payload, hearers);
    HopActs(nodes[target], from, target, payload);
  }

  // ----- Delivery -----

  /** The target has stored the payload, and nobody else's receive buffer has changed. */
  ghost predicate Delivered(nodes: Nodes, last: Nodes, target: byte, payload: seq<byte>) {
    && last.Keys == nodes.Keys && target in nodes && nodes[target].ring.Valid()
    && last[target].ring == nodes[target].ring.Save(payload) && last[target].key == nodes[target].key
    && forall a :: a in nodes && a != target ==> last[a].ring == nodes[a].ring
  }

  /** It does not matter from where on, as long as no receive buffer changed before. */
  lemma DeliveredFrom(nodes: Nodes, after: Nodes, last: Nodes, target: byte, payload: seq<byte>)
    requires Delivered(after, last, target, payload) && after.Keys == nodes.Keys
    requires forall a :: a in nodes ==> after[a].ring == nodes[a].ring && after[a].key == nodes[a].key
    ensures Delivered(nodes, last, target, payload)
  {
  }

  /** A transmission that is answered by another one: the rest of the relay starts there. */
  lemma RelayGoesOn(nodes: Nodes, p: Packet, rounds: seq<set<byte>>, q: Packet)
    requires AllOk(nodes) && Sendable(p) && rounds != [] && Audience(nodes, p, rounds[0])
    requires Reply(nodes, p, rounds[0]) == Some(q) && AllOk(Round(nodes, p, rounds[0])) && Sendable(q)
    ensures var rest := Relay(Round(nodes, p, rounds[0]), q, rounds[1..]);
      Relay(nodes, p, rounds) == rest.(used := rest.used + 1)
    ensures AlwaysHeard(nodes, p, rounds) <==> AlwaysHeard(Round(nodes, p, rounds[0]), q, rounds[1..])
  {
  }

  /** The transmission to the target itself is the last one. */
  lemma RelayEnds(nodes: Nodes, from: byte, target: byte, payload: seq<byte>, rounds: seq<set<byte>>)
    requires AllOk(nodes) && |payload| <= MAX_DATA_LENGTH && from != 0 && from != target && target in nodes
    requires Trusts(nodes[target].table, from) && rounds != []
    requires Audience(nodes, DataPacket(from, target, target, payload), rounds[0])
    ensures var p := DataPacket(from, target, target, payload);
      var Trip(last, used, finished) := Relay(nodes, p, rounds);
      finished && used == 1 && Delivered(nodes, last, target, payload) && AlwaysHeard(nodes, p, rounds)
  {
    LastRound(nodes, from, target, payload, rounds[0]);
  }

  /** The packet is on its way: from is about to transmit it to hop, which trusts from and is nearer than limit. */
  ghost predicate OnItsWay(nodes: Nodes, from: byte, hop: byte, target: byte, payload: seq<byte>, limit: nat) {
    && AllOk(nodes) && Settled(nodes, target) && |payload| <= MAX_DATA_LENGTH && 1 <= limit
    && from != 0 && from != target && hop in nodes && hop != from && Trusts(nodes[hop].table, from)
    && (hop != target ==>
          FirstLive(nodes[hop].table, target) < |nodes[hop].table| && HopsTo(nodes[hop].table, target) < limit)
  }

  /** A transmission to another hop that is heard there: the packet goes on from that hop, nearer to the target. */
  lemma RelayStep(nodes: Nodes, from: byte, hop: byte, target: byte, payload: seq<byte>, rounds: seq<set<byte>>,
      limit: nat)
    requires OnItsWay(nodes, from, hop, target, payload, limit) && hop != target
    requires rounds != [] && Audience(nodes, DataPacket(from, hop, target, payload), rounds[0])
    ensures var p, next := DataPacket(from, hop, target, payload), NextHop(nodes[hop].table, target);
      var after, q := Round(nodes, p, rounds[0]), DataPacket(hop, next, target, payload);
      && limit > 1 && OnItsWay(after, hop, next, target, payload, limit - 1)
      && (forall a :: a in nodes ==> after[a].ring == nodes[a].ring && after[a].key == nodes[a].key)
      && (AlwaysHeard(nodes, p, rounds) <==> AlwaysHeard(after, q, rounds[1..]))
      && var rest := Relay(after, q, rounds[1..]); Relay(nodes, p, rounds) == rest.(used := rest.used + 1)
  {
    var p := DataPacket(from, hop, target, payload);
    MiddleRound(nodes, from, hop, target, payload, rounds[0]);
    SlotHops(nodes[hop], target);
    var q := DataPacket(hop, NextHop(nodes[hop].table, target), target, payload);
    ReplyIs(nodes, p, rounds[0], q);
    RelayGoesOn(nodes, p, rounds, q);
  }

  lemma ReplyIs(nodes: Nodes, p: Packet, hearers: set<byte>, q: Packet)
    requires AllOk(nodes) && Sendable(p) && p[0] !in hearers && hearers <= nodes.Keys
    requires Replies(nodes, p, hearers) == {q}
    ensures Reply(nodes, p, hearers) == Some(q)
  {
  }

  /**
   * Over settled tables, if each transmission is heard by whom it is addressed to, the relay comes to an end within
   * limit transmissions: the target has stored the payload, and nobody else's receive buffer has changed. A relay that
   * comes to an end at all, in however few rounds, ends so.
   */
  lemma {:induction false} RelayDelivers(nodes: Nodes, from: byte, hop: byte, target: byte, payload: seq<byte>,
      rounds: seq<set<byte>>, limit: nat)
    requires OnItsWay(nodes, from, hop, target, payload, limit)
    ensures var p := DataPacket(from, hop, target, payload);
      var Trip(last, used, finished) := Relay(nodes, p, rounds);
      && (AlwaysHeard(nodes, p, rounds) && |rounds| >= limit ==> finished)
      && (finished ==> used <= limit && Delivered(nodes, last, target, payload))
    decreases limit
  {
    var p := DataPacket(from, hop, target, payload);
    if rounds != [] && Audience(nodes, p, rounds[0]) {
      if hop == target {
        RelayEnds(nodes, from, target, payload, rounds);
      } else {
        var next := NextHop(nodes[hop].table, target);
        var after, q := Round(nodes, p, rounds[0]), DataPacket(hop, next, target, payload);
        RelayStep(nodes, from, hop, target, payload, rounds, limit);
        RelayDelivers(after, hop, next, target, payload, rounds[1..], limit - 1);
        if Relay(nodes, p, rounds).finished {
          DeliveredFrom(nodes, after, Relay(after, q, rounds[1..]).last, target, payload);
        }
      }
    }
  }

  /** That each transmission is heard is possible: there are rounds for it, however many are asked for. */
  lemma {:induction false} CanBeHeard(nodes: Nodes, from: byte, hop: byte, target: byte, payload: seq<byte>, limit: nat,
      n: nat) returns (rounds: seq<set<byte>>)
    requires OnItsWay(nodes, from, hop, target, payload, limit)
    ensures |rounds| == n && AlwaysHeard(nodes, DataPacket(from, hop, target, payload), rounds)
    decreases n
  {
    var p := DataPacket(from, hop, target, payload);
    if n == 0 {
      rounds := [];
    } else if hop == target {
      rounds := seq(n, _ => {hop});
      RelayEnds(nodes, from, target, payload, rounds);
    } else {
      RelayStep(nodes, from, hop, target, payload, [{hop}], limit);
      var next := NextHop(nodes[hop].table, target);
      var rest := CanBeHeard(Round(nodes, p, {hop}), hop, next, target, payload, limit - 1, n - 1);
      rounds := [{hop}] + rest;
      assert rounds[1..] == rest;
      RelayStep(nodes, from, hop, target, payload, rounds, limit);
    }
  }

  lemma SlotHops(n: Node, x: byte)
    requires NodeInv(n) && FirstLive(n.table, x) < |n.table|
    ensures 1 <= HopsTo(n.table, x)
  {
    assert SlotOk(n.table[FirstLive(n.table, x)], n.address);
  }

  lemma NextHopNotZero(n: Node, x: byte)
    requires NodeInv(n) && FirstLive(n.table, x) < |n.table|
    ensures NextHop(n.table, x) != 0
  {
    assert SlotOk(n.table[FirstLive(n.table, x)], n.address);
  }

  /**
   * End to end. Over settled tables, a message whose every transmission is heard by whom it is addressed to reaches
   * the target in no more transmissions than the sender's hop count says, whoever else overhears them. Reading it at
   * the target, with the same key and nothing pending, gives back the plaintext and leaves nothing behind if and only
   * if it has at most 27 bytes and its ciphertext holds no carriage return.
   */
  lemma EndToEnd(nodes: Nodes, source: byte, target: byte, data: seq<byte>, rounds: seq<set<byte>>)
    requires AllOk(nodes) && Settled(nodes, target) && source in nodes && target in nodes && source != target
    requires FirstLive(nodes[source].table, target) < |nodes[source].table|
    requires nodes[source].key == nodes[target].key
    requires |data| <= MAX_DATA_LENGTH && nodes[target].ring.Queue() == []
    ensures SendData(nodes[source], target, data, true).Some?
    ensures Sendable(SendData(nodes[source], target, data, true).value)
    ensures var p := SendData(nodes[source], target, data, true).value;
      var hops := HopsTo(nodes[source].table, target);
      AlwaysHeard(nodes, p, rounds) && |rounds| >= hops ==>
        var Trip(last, used, finished) := Relay(nodes, p, rounds);
        && finished && used <= hops && target in last && last[target].ring.Valid()
        && var (after, read) := last[target].ring.Read(nodes[target].key);
          read == data && after.Queue() == [] <==> |data| < MAX_DATA_LENGTH && CR !in Encrypt(nodes[source].key, data)
  {
    var key := nodes[source].key;
    var payload := Encrypt(key, data);
    var hop := NextHop(nodes[source].table, target);
    NextHopNotZero(nodes[source], target);
    SlotHops(nodes[source], target);
    var p := DataPacket(source, hop, target, payload);
    assert SendData(nodes[source], target, data, true) == Some(p);
    assert HopReady(nodes, source, target);
    RelayDelivers(nodes, source, hop, target, payload, rounds, HopsTo(nodes[source].table, target));
    ReadsBackIff(key, nodes[target].ring, payload);
    EncryptTwice(key, data);
  }
}
