/** One mesh node as a value: the whole state of mesh_radio.c and what each entry point does to it. */
module Node {
  import opened Bytes
  import opened MeshConfig
  import opened RouteTable
  import opened Reassembly
  import opened Snapshot
  import opened RxRing

  datatype Option<T> = None | Some(value: T)

  datatype Node = Node(
    address: byte, key: seq<byte>,
    table: Table, senders: Senders, snapshot: Snapshot, ring: Ring,
    received: seq<byte>, newData: bool)

  function Zeros(n: nat): (r: seq<byte>)
    ensures |r| == n && forall i :: 0 <= i < n ==> r[i] == 0
  {
    seq(n, _ => 0)
  }

  /** Everything zero, as at program start, with the address that radioInit sets. */
  function Boot(address: byte, key: seq<byte>): Node {
    Node(address, key, Empty(MAX_SENDERS), Vacant(MAX_SENDERS), Snapshot([], 0),
         Ring(Zeros(RX_BUFFER_DEPTH), 0, 0), Zeros(PACKET_SIZE), false)
  }

  /** The radio delivers four to 32 bytes; senders have non-zero addresses and never the receiver's own. */
  predicate Receivable(self: byte, p: Packet) {
    4 <= |p| <= PACKET_SIZE && p[0] != 0 && p[0] != self
  }

  predicate SnapshotOk(s: Snapshot) {
    && s.current <= |s.messages| <= 4
    && forall k :: 0 <= k < |s.messages| ==> s.messages[k] != [] && IsMessage(s.messages[k])
  }

  ghost predicate NodeInv(n: Node) {
    && n.address != 0 && n.key != []
    && |n.table| == MAX_SENDERS && Inv(n.table, n.address)
    && |n.senders| == MAX_SENDERS && Open(n.senders)
    && SnapshotOk(n.snapshot)
    && n.ring.Valid() && |n.ring.buffer| == RX_BUFFER_DEPTH
    && |n.received| == PACKET_SIZE
  }

  // ----- The timer -----

  /** The reassembly slots after the timer loop: a neighbour whose entry expires loses its slot. */
  function TickSendersFrom(t: Table, ss: Senders, i: nat): (r: Senders)
    requires i <= |t|
    ensures |r| == |ss|
    decreases |t| - i
  {
    if i == |t| then ss
    else TickSendersFrom(TickSlot(t, i), if Expires(t[i]) then DropSender(ss, t[i].id) else ss, i + 1)
  }

  function OnTimer(n: Node): (Node, Packet) {
    var t := Tick(n.table);
    var (snapshot, ping) := NextPing(n.snapshot, t, n.address);
    (n.(table := t, senders := TickSendersFrom(n.table, n.senders, 0), snapshot := snapshot), ping)
  }

  // ----- Sending data -----

  /** The neighbour a packet for target is handed to; 0 when there is no route. */
  function NextHop(t: Table, target: byte): byte {
    var k := FirstLive(t, target);
    if k == |t| then 0 else if t[k].owner == 0 then target else t[k].owner
  }

  function DataPacket(self: byte, hop: byte, target: byte, payload: seq<byte>): (p: Packet)
    ensures |p| == |payload| + 4 && p[0] == self && p[1] == COMMAND_DATA && p[2] == hop && p[3] == target
    ensures p[4..] == payload
  {
    [self, COMMAND_DATA, hop, target] + payload
  }

  function SendData(n: Node, target: byte, data: seq<byte>, encrypt: bool): Option<Packet>
    requires n.key != []
  {
    if |data| > MAX_DATA_LENGTH || NextHop(n.table, target) == 0 then None
    else Some(DataPacket(n.address, NextHop(n.table, target), target, if encrypt then Encrypt(n.key, data) else data))
  }

  // ----- Receiving -----

  function Emitted(p: Option<Packet>): seq<Packet> {
    match p
    case None => []
    case Some(q) => [q]
  }

  /** A packet from a trusted sender, in the receive buffer: length bytes of it are new. */
  function Dispatch(n: Node, length: nat): (r: (Node, seq<Packet>))
    requires |n.received| == PACKET_SIZE && 4 <= length <= PACKET_SIZE
    requires Open(n.senders) && n.ring.Valid() && n.key != []
  {
    var b := n.received;
    if b[1] == COMMAND_PING || b[1] == COMMAND_PING_END then
      var (t, ss) := Save(n.table, n.senders, n.address, b[0], b[3..], length - 2, b[2]);
      (n.(table := t, senders := ss), [])
    else if b[1] == COMMAND_DATA && b[2] == n.address then
      if b[3] != n.address then (n, Emitted(SendData(n, b[3], b[4..length], false)))
      else (n.(ring := n.ring.Save(b[4..length])), [])
    else (n, [])
  }

  /** doRead with the packet the radio holds, if any. */
  function OnRead(n: Node, fifo: Option<Packet>): (r: (Node, seq<Packet>))
    requires |n.received| == PACKET_SIZE && Open(n.senders) && n.ring.Valid() && n.key != []
    requires fifo.Some? ==> 4 <= |fifo.value| <= PACKET_SIZE
  {
    if !n.newData then (n, [])
    else if fifo.None? then (n.(received := Zeros(PACKET_SIZE), newData := false), [])
    else
      var p := fifo.value;
      var m := n.(received := p + n.received[|p|..], table := UpdateWeight(n.table, p[0]));
      if !CheckTrusted(m.table, p[0]) then (m, [])
      else
        var (d, sent) := Dispatch(m, |p|);
        (d.(received := Zeros(PACKET_SIZE), newData := false), sent)
  }

  // ----- Runs of one node -----

  datatype Event =
    | Timer
    | Hear(packet: Packet)
    | Poll
    | Fetch
    | Transmit(target: byte, data: seq<byte>, encrypt: bool)

  predicate Enabled(self: byte, e: Event) {
    e.Hear? ==> Receivable(self, e.packet)
  }

  function Step(n: Node, e: Event): (r: (Node, seq<Packet>))
    requires |n.received| == PACKET_SIZE && Open(n.senders) && n.ring.Valid() && n.key != []
    requires Enabled(n.address, e)
  {
    match e
    case Timer => var (m, ping) := OnTimer(n); (m, [ping])
    case Hear(p) => OnRead(n.(newData := true), Some(p))
    case Poll => OnRead(n, None)
    case Fetch => (n.(ring := n.ring.Read(n.key).0), [])
    case Transmit(target, data, encrypt) => (n, Emitted(SendData(n, target, data, encrypt)))
  }

  // ----- Every step keeps the invariant -----

  lemma BootInv(address: byte, key: seq<byte>)
    requires address != 0 && key != []
    ensures NodeInv(Boot(address, key))
  {
  }

  lemma RenewedOk(s: Snapshot, t: Table, self: byte)
    requires SnapshotOk(s) && Inv(t, self) && |t| == MAX_SENDERS
    ensures SnapshotOk(NextPing(s, t, self).0)
    ensures NextPing(s, t, self).0.messages == Renewed(s, t).messages
    ensures Renewed(s, t).current < |Renewed(s, t).messages| || Renewed(s, t).messages == []
  {
    ChunksShape(Pairs(t));
    ChunksAreMessages(t, self);
  }

  lemma {:induction false} TickSendersOpen(t: Table, ss: Senders, i: nat)
    requires i <= |t| && Open(ss)
    ensures Open(TickSendersFrom(t, ss, i))
    decreases |t| - i
  {
    if i < |t| {
      TickSendersOpen(TickSlot(t, i), if Expires(t[i]) then DropSender(ss, t[i].id) else ss, i + 1);
    }
  }

  lemma OnTimerInv(n: Node)
    requires NodeInv(n)
    ensures NodeInv(OnTimer(n).0)
  {
    TickFromInv(n.table, n.address, 0);
    TickSendersOpen(n.table, n.senders, 0);
    RenewedOk(n.snapshot, Tick(n.table), n.address);
  }

  /** A table is merged, or a fragment of one kept, only for a sender that has a live, direct, trusted entry. */
  lemma HearInv(n: Node, p: Packet)
    requires NodeInv(n) && Receivable(n.address, p)
    ensures NodeInv(OnRead(n.(newData := true), Some(p)).0)
    ensures Step(n, Hear(p)).0.table != UpdateWeight(n.table, p[0]) ==>
      TrustedNeighbour(UpdateWeight(n.table, p[0]), p[0])
    ensures Step(n, Hear(p)).0.senders != n.senders ==> TrustedNeighbour(UpdateWeight(n.table, p[0]), p[0])
  {
    UpdateWeightInv(n.table, n.address, p[0]);
    CheckTrustedIsLive(n.table, n.address, p[0]);
    var m := n.(newData := true, received := p + n.received[|p|..], table := UpdateWeight(n.table, p[0]));
    if CheckTrusted(m.table, p[0]) {
      var b := m.received;
      if b[1] == COMMAND_PING || b[1] == COMMAND_PING_END {
        SaveInv(m.table, m.senders, m.address, p[0], b[3..], |p| - 2, b[2]);
        SaveOpen(m.table, m.senders, m.address, p[0], b[3..], |p| - 2, b[2]);
      }
    }
  }

  lemma StepInv(n: Node, e: Event)
    requires NodeInv(n) && Enabled(n.address, e)
    ensures NodeInv(Step(n, e).0)
    ensures Step(n, e).0.address == n.address && Step(n, e).0.key == n.key
  {
    match e
    case Timer => OnTimerInv(n);
    case Hear(p) => HearInv(n, p);
    case Poll =>
    case Fetch =>
    case Transmit(_, _, _) =>
  }
}
