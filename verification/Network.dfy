/** Any number of nodes on one radio channel: packets may be lost, delayed, repeated and reordered. */
module Network {
  import opened Bytes
  import opened MeshConfig
  import opened RouteTable
  import opened TickRule
  import opened Reassembly
  import opened Snapshot
  import opened Node

  /** The packets in flight, everything ever transmitted, and who has heard whom. */
  datatype Net = Net(nodes: map<byte, Node>, air: set<Packet>, sent: set<Packet>, heard: set<(byte, byte)>)

  /** An event at one node, or a packet that nobody is going to hear any more. */
  datatype Action =
    | Act(at: byte, event: Event)
    | Lose(packet: Packet)
  {
    predicate Hears() {
      Act? && event.Hear?
    }
  }

  ghost predicate CanDo(net: Net, a: Action) {
    match a
    case Act(at, event) => at in net.nodes && Enabled(at, event) && (event.Hear? ==> event.packet in net.air)
    case Lose(p) => p in net.air
  }

  // ----- Walks -----

  /** From a, h links of the heard-from relation lead to x. */
  ghost predicate Walk(heard: set<(byte, byte)>, a: byte, x: byte, h: nat)
    decreases h
  {
    if h == 0 then a == x else exists b: byte :: (a, b) in heard && Walk(heard, b, x, h - 1)
  }

  lemma {:induction false} WalkGrows(heard: set<(byte, byte)>, more: set<(byte, byte)>, a: byte, x: byte, h: nat)
    requires heard <= more && Walk(heard, a, x, h)
    ensures Walk(more, a, x, h)
    decreases h
  {
    if h != 0 {
      var b: byte :| (a, b) in heard && Walk(heard, b, x, h - 1);
      WalkGrows(heard, more, b, x, h - 1);
    }
  }

  /** The entry is backed by a walk of exactly its hops, with its owner, or itself when direct, as first step. */
  ghost predicate EntrySound(heard: set<(byte, byte)>, self: byte, e: Entry) {
    e.inUse ==>
      var first := if e.owner == 0 then e.id else e.owner;
      1 <= e.hops <= MAX_HOPS && (self, first) in heard && Walk(heard, first, e.id, e.hops - 1)
  }

  /** The pair at i is backed by a walk of as many links as it says. */
  ghost predicate PairSound(heard: set<(byte, byte)>, from: byte, m: seq<byte>, i: int) {
    0 <= i < |m| - 1 && 1 <= m[i + 1] <= MAX_HOPS && Walk(heard, from, m[i], m[i + 1])
  }

  ghost predicate MessageSound(heard: set<(byte, byte)>, from: byte, m: seq<byte>) {
    IsMessage(m) && forall i :: 0 <= i < |m| && i % 2 == 0 ==> PairSound(heard, from, m, i)
  }

  // ----- Packets -----

  function Message(p: Packet): seq<byte>
    requires |p| >= 4
  {
    p[3..|p| - 1]
  }

  predicate IsPing(p: Packet) {
    |p| >= 4 && (p[1] == COMMAND_PING || p[1] == COMMAND_PING_END)
  }

  ghost predicate PacketSound(net: Net, p: Packet) {
    && 4 <= |p| <= PACKET_SIZE && p[0] in net.nodes
    && (IsPing(p) ==> p[|p| - 1] == 0 && MessageSound(net.heard, p[0], Message(p)))
  }

  /** Message m was broadcast by a. */
  ghost predicate Broadcast(sent: set<Packet>, a: byte, m: seq<byte>) {
    exists p :: p in sent && IsPing(p) && p[0] == a && Message(p) == m
  }

  /** A slot is empty or partly filled, starting with one whole message its sender broadcast. */
  ghost predicate SlotSound(sent: set<Packet>, s: Sender) {
    s.data == [] || exists m :: Carries(s, m) && Broadcast(sent, s.address, m)
  }

  ghost predicate TableSound(heard: set<(byte, byte)>, self: byte, t: Table) {
    forall i :: 0 <= i < |t| ==> EntrySound(heard, self, t[i])
  }

  ghost predicate SlotsSound(sent: set<Packet>, ss: Senders) {
    forall k :: 0 <= k < |ss| ==> SlotSound(sent, ss[k])
  }

  ghost predicate SnapshotSound(heard: set<(byte, byte)>, self: byte, s: Snapshot) {
    forall k :: 0 <= k < |s.messages| ==> MessageSound(heard, self, s.messages[k])
  }

  ghost predicate NodeSound(net: Net, a: byte, n: Node) {
    && NodeInv(n) && n.address == a
    && TableSound(net.heard, a, n.table)
    && SlotsSound(net.sent, n.senders)
    && SnapshotSound(net.heard, a, n.snapshot)
  }

  ghost predicate NetInv(net: Net) {
    && (forall a :: a in net.nodes ==> NodeSound(net, a, net.nodes[a]))
    && (forall p :: p in net.sent ==> PacketSound(net, p))
    && net.air <= net.sent
  }

  // ----- Steps -----

  function Heard(a: Action): set<(byte, byte)> {
    if a.Hears() && |a.event.packet| > 0 then {(a.at, a.event.packet[0])} else {}
  }

  /** A packet that is heard stays in the air: it may be heard again, by this node or another one. */
  ghost function NetStep(net: Net, a: Action): Net
    requires NetInv(net) && CanDo(net, a)
  {
    match a
    case Act(at, event) =>
      assert NodeSound(net, at, net.nodes[at]);
      var (n, out) := Step(net.nodes[at], event);
      var packets := set p | p in out;
      Net(net.nodes[at := n], net.air + packets, net.sent + packets, net.heard + Heard(a))
    case Lose(p) => net.(air := net.air - {p})
  }

  // ----- Monotonicity: more links heard and more packets sent break nothing -----

  lemma MessageGrows(heard: set<(byte, byte)>, more: set<(byte, byte)>, from: byte, m: seq<byte>)
    requires heard <= more && MessageSound(heard, from, m)
    ensures MessageSound(more, from, m)
  {
    forall i | 0 <= i < |m| && i % 2 == 0
      ensures PairSound(more, from, m, i)
    {
      assert PairSound(heard, from, m, i);
      WalkGrows(heard, more, from, m[i], m[i + 1]);
    }
  }

  lemma TableGrows(heard: set<(byte, byte)>, more: set<(byte, byte)>, self: byte, t: Table)
    requires heard <= more && TableSound(heard, self, t)
    ensures TableSound(more, self, t)
  {
    forall i | 0 <= i < |t|
      ensures EntrySound(more, self, t[i])
    {
      assert EntrySound(heard, self, t[i]);
      if t[i].inUse {
        WalkGrows(heard, more, if t[i].owner == 0 then t[i].id else t[i].owner, t[i].id, t[i].hops - 1);
      }
    }
  }

  lemma SlotGrows(sent: set<Packet>, more: set<Packet>, s: Sender)
    requires sent <= more && SlotSound(sent, s)
    ensures SlotSound(more, s)
  {
    if s.data != [] {
      var m :| Carries(s, m) && Broadcast(sent, s.address, m);
      var p :| p in sent && IsPing(p) && p[0] == s.address && Message(p) == m;
      assert p in more;
      assert Broadcast(more, s.address, m);
    }
  }

  lemma SlotsGrow(sent: set<Packet>, more: set<Packet>, ss: Senders)
    requires sent <= more && SlotsSound(sent, ss)
    ensures SlotsSound(more, ss)
  {
    forall k | 0 <= k < |ss|
      ensures SlotSound(more, ss[k])
    {
      SlotGrows(sent, more, ss[k]);
    }
  }

  lemma SnapshotGrows(heard: set<(byte, byte)>, more: set<(byte, byte)>, self: byte, s: Snapshot)
    requires heard <= more && SnapshotSound(heard, self, s)
    ensures SnapshotSound(more, self, s)
  {
    forall k | 0 <= k < |s.messages|
      ensures MessageSound(more, self, s.messages[k])
    {
      MessageGrows(heard, more, self, s.messages[k]);
    }
  }

  // ----- Soundness of the table operations -----

  lemma UpdateWeightSound(heard: set<(byte, byte)>, self: byte, t: Table, a: byte)
    requires TableSound(heard, self, t) && (self, a) in heard
    ensures TableSound(heard, self, UpdateWeight(t, a))
  {
    var r := UpdateWeight(t, a);
    forall i | 0 <= i < |r|
      ensures EntrySound(heard, self, r[i])
    {
      assert EntrySound(heard, self, t[i]);
      assert Walk(heard, a, a, 0);
    }
  }

  lemma {:induction false} MergeSound(heard: set<(byte, byte)>, self: byte, t: Table, m: seq<byte>, owner: byte, i: nat)
    requires TableSound(heard, self, t) && (self, owner) in heard && owner != 0
    requires MessageSound(heard, owner, m) && i % 2 == 0
    ensures TableSound(heard, self, Merge(t, self, m, owner, i))
    decreases |m| - i
  {
    if i < |m| {
      assert PairSound(heard, owner, m, i);
      if m[i] == self || m[i + 1] >= MAX_HOPS || !HasRoom(t, m[i]) {
        MergeSound(heard, self, t, m, owner, i + 2);
      } else {
        var r := Commit(t, owner, m[i], m[i + 1]);
        forall k | 0 <= k < |r|
          ensures EntrySound(heard, self, r[k])
        {
          assert EntrySound(heard, self, t[k]);
        }
      }
    }
  }

  lemma ProcessDataSound(heard: set<(byte, byte)>, self: byte, t: Table, m: seq<byte>, owner: byte)
    requires TableSound(heard, self, t) && (self, owner) in heard && owner != 0
    requires MessageSound(heard, owner, m)
    ensures TableSound(heard, self, ProcessData(t, self, m, owner))
  {
    var u := DropChildren(t, owner);
    forall k | 0 <= k < |u|
      ensures EntrySound(heard, self, u[k])
    {
      assert EntrySound(heard, self, t[k]);
    }
    MergeSound(heard, self, u, m, owner, 0);
  }

  lemma TickSound(heard: set<(byte, byte)>, self: byte, t: Table)
    requires TableSound(heard, self, t) && Inv(t, self)
    ensures TableSound(heard, self, Tick(t))
  {
    forall i | 0 <= i < |t|
      ensures EntrySound(heard, self, Tick(t)[i])
    {
      TickExact(t, self, i);
      assert EntrySound(heard, self, t[i]);
    }
  }

  /** A snapshot taken from a sound table says only what walks back. */
  lemma FreshSnapshotSound(heard: set<(byte, byte)>, self: byte, t: Table)
    requires TableSound(heard, self, t) && Inv(t, self)
    ensures SnapshotSound(heard, self, Snapshot(Chunks(Pairs(t)), 0))
  {
    var c := Chunks(Pairs(t));
    ChunksAreMessages(t, self);
    forall k | 0 <= k < |c|
      ensures MessageSound(heard, self, c[k])
    {
      forall i | 0 <= i < |c[k]| && i % 2 == 0
        ensures PairSound(heard, self, c[k], i)
      {
        ChunkFromTable(t, k, i);
        var j :| 0 <= j < |t| && Advertises(t[j], c[k][i], c[k][i + 1]);
        assert EntrySound(heard, self, t[j]);
      }
    }
  }

  // ----- Soundness of the reassembly slots -----

  lemma {:induction false} TickSlotsSound(sent: set<Packet>, t: Table, ss: Senders, i: nat)
    requires i <= |t| && SlotsSound(sent, ss)
    ensures SlotsSound(sent, TickSendersFrom(t, ss, i))
    decreases |t| - i
  {
    if i < |t| {
      TickSlotsSound(sent, TickSlot(t, i), if Expires(t[i]) then DropSender(ss, t[i].id) else ss, i + 1);
    }
  }

  /** A received ping, as the fragment the reassembly reads. */
  lemma PingReads(p: Packet, received: seq<byte>)
    requires |received| == PACKET_SIZE && IsPing(p) && |p| <= PACKET_SIZE && p[|p| - 1] == 0 && IsMessage(Message(p))
    ensures var b := p + received[|p|..];
      Reads(b[3..], Message(p)) && |p| - 2 == |Message(p)| + 2
  {
    var b := p + received[|p|..];
    assert b[3..][..|Message(p)|] == Message(p);
  }

  /** The message that the slot of a starts with, once a message m of a has been taken in. */
  lemma FirstCarried(net: Net, ss: Senders, a: byte, m: seq<byte>) returns (first: seq<byte>)
    requires Claim(ss, a).1 < |ss| && SlotsSound(net.sent, ss) && Broadcast(net.sent, a, m)
    requires forall q :: q in net.sent ==> PacketSound(net, q)
    ensures var (claimed, k) := Claim(ss, a); if claimed[k].data == [] then first == m else Carries(claimed[k], first)
    ensures Broadcast(net.sent, a, first) && MessageSound(net.heard, a, first)
  {
    var (claimed, k) := Claim(ss, a);
    assert SlotSound(net.sent, claimed[k]);
    first :| Broadcast(net.sent, a, first)
          && if claimed[k].data == [] then first == m else Carries(claimed[k], first);
    var q :| q in net.sent && IsPing(q) && q[0] == a && Message(q) == first;
    assert PacketSound(net, q);
  }

  /**
   * Hearing a ping. Whatever the slot of a held, a merge has exactly the effect of one whole message that a
   * really broadcast, so soundness of tables and slots is kept.
   */
  lemma SaveSound(net: Net, self: byte, t: Table, ss: Senders, p: Packet, nd: seq<byte>)
    requires p in net.sent && IsPing(p) && p[0] != 0 && (self, p[0]) in net.heard
    requires forall q :: q in net.sent ==> PacketSound(net, q)
    requires Reads(nd, Message(p)) && Open(ss) && SlotsSound(net.sent, ss) && TableSound(net.heard, self, t)
    ensures var (t', ss') := Save(t, ss, self, p[0], nd, |Message(p)| + 2, p[2]);
      && TableSound(net.heard, self, t') && SlotsSound(net.sent, ss')
      && (t' == t || exists m :: Broadcast(net.sent, p[0], m) && IsMessage(m) && t' == ProcessData(t, self, m, p[0]))
  {
    var a, m := p[0], Message(p);
    var (claimed, k) := Claim(ss, a);
    assert Broadcast(net.sent, a, m);
    if k < |ss| {
      var first := FirstCarried(net, ss, a, m);
      SavePing(t, ss, self, a, nd, p[2], m, first);
      ProcessDataSound(net.heard, self, t, first, a);
      var ss' := Save(t, ss, self, a, nd, |m| + 2, p[2]).1;
      forall j | 0 <= j < |ss'|
        ensures SlotSound(net.sent, ss'[j])
      {
        assert SlotSound(net.sent, claimed[j]);
      }
    }
  }

  // ----- Every step keeps the network sound -----

  /** What one step leaves at the node it happens at, in the network that results. */
  lemma OwnNodeSound(net: Net, a: Action)
    requires NetInv(net) && CanDo(net, a) && a.Act?
    ensures NodeSound(NetStep(net, a), a.at, NetStep(net, a).nodes[a.at])
  {
    var n, r := net.nodes[a.at], NetStep(net, a);
    assert NodeSound(net, a.at, n);
    StepInv(n, a.event);
    SlotsGrow(net.sent, r.sent, n.senders);
    TableGrows(net.heard, r.heard, a.at, n.table);
    SnapshotGrows(net.heard, r.heard, a.at, n.snapshot);
    match a.event
    case Timer =>
      TickSound(r.heard, a.at, n.table);
      TickFromInv(n.table, a.at, 0);
      TickSlotsSound(r.sent, n.table, n.senders, 0);
      FreshSnapshotSound(r.heard, a.at, Tick(n.table));
    case Hear(p) => HearSound(net, r.sent, r.heard, a.at, p);
    case Poll =>
    case Fetch =>
    case Transmit(_, _, _) =>
  }

  lemma HearPingSound(net: Net, heard: set<(byte, byte)>, self: byte, n: Node, t: Table, p: Packet)
    requires NetInv(net) && p in net.sent && IsPing(p) && p[0] != 0
    requires net.heard <= heard && (self, p[0]) in heard && TableSound(heard, self, t)
    requires SlotsSound(net.sent, n.senders)
    requires NodeInv(n)
    ensures var nd := (p + n.received[|p|..])[3..];
      var (t', ss') := Save(t, n.senders, self, p[0], nd, |p| - 2, p[2]);
      TableSound(heard, self, t') && SlotsSound(net.sent, ss')
  {
    var mid := net.(heard := heard);
    assert PacketSound(net, p);
    PingReads(p, n.received);
    forall q | q in net.sent
      ensures PacketSound(mid, q)
    {
      assert PacketSound(net, q);
      if IsPing(q) {
        MessageGrows(net.heard, heard, q[0], Message(q));
      }
    }
    SaveSound(mid, self, t, n.senders, p, (p + n.received[|p|..])[3..]);
  }

  lemma HearSound(net: Net, more: set<Packet>, heard: set<(byte, byte)>, self: byte, p: Packet)
    requires NetInv(net) && CanDo(net, Act(self, Hear(p)))
    requires net.sent <= more && net.heard <= heard && (self, p[0]) in heard
    requires NodeSound(net, self, net.nodes[self])
    ensures var m := Step(net.nodes[self], Hear(p)).0;
      && TableSound(heard, self, m.table) && SlotsSound(more, m.senders)
      && m.snapshot == net.nodes[self].snapshot
  {
    var n := net.nodes[self];
    var t := UpdateWeight(n.table, p[0]);
    TableGrows(net.heard, heard, self, n.table);
    UpdateWeightSound(heard, self, n.table, p[0]);
    if IsPing(p) {
      HearPingSound(net, heard, self, n, t, p);
    }
    SlotsGrow(net.sent, more, Step(n, Hear(p)).0.senders);
  }

  /** Packets a node sends are well formed, and its pings say only what walks back. */
  lemma SentSound(net: Net, a: Action, p: Packet)
    requires NetInv(net) && CanDo(net, a) && a.Act? && p in Step(net.nodes[a.at], a.event).1
    ensures PacketSound(NetStep(net, a), p)
  {
    var n, r := net.nodes[a.at], NetStep(net, a);
    assert NodeSound(net, a.at, n);
    OwnNodeSound(net, a);
    if a.event.Timer? {
      var s := Renewed(n.snapshot, Tick(n.table));
      RenewedOk(n.snapshot, Tick(n.table), a.at);
      assert r.nodes[a.at].snapshot.messages == s.messages;
      if s.messages == [] {
        assert Message(p) == [];
      } else {
        assert Message(p) == s.messages[s.current];
        assert MessageSound(r.heard, a.at, s.messages[s.current]);
      }
    }
  }

  lemma OtherNodeSound(net: Net, r: Net, b: byte)
    requires b in net.nodes && NodeSound(net, b, net.nodes[b])
    requires net.heard <= r.heard && net.sent <= r.sent
    ensures NodeSound(r, b, net.nodes[b])
  {
    var n := net.nodes[b];
    TableGrows(net.heard, r.heard, b, n.table);
    SnapshotGrows(net.heard, r.heard, b, n.snapshot);
    SlotsGrow(net.sent, r.sent, n.senders);
  }

  lemma PacketGrows(net: Net, r: Net, p: Packet)
    requires PacketSound(net, p) && net.nodes.Keys <= r.nodes.Keys && net.heard <= r.heard
    ensures PacketSound(r, p)
  {
    if IsPing(p) {
      MessageGrows(net.heard, r.heard, p[0], Message(p));
    }
  }

  lemma NetStepInv(net: Net, a: Action)
    requires NetInv(net) && CanDo(net, a)
    ensures NetInv(NetStep(net, a))
  {
    if a.Act? {
      var r := NetStep(net, a);
      OwnNodeSound(net, a);
      forall b | b in r.nodes && b != a.at
        ensures NodeSound(r, b, r.nodes[b])
      {
        OtherNodeSound(net, r, b);
      }
      forall p | p in r.sent
        ensures PacketSound(r, p)
      {
        if p in net.sent {
          PacketGrows(net, r, p);
        } else {
          SentSound(net, a, p);
        }
      }
    }
  }
}
