/** What each entry point of a node does to every part of its state, in the numbers of mesh_radio.c. */
module EntryPoints {
  import opened Bytes
  import opened MeshConfig
  import opened RouteTable
  import opened TickRule
  import opened Reassembly
  import opened Snapshot
  import opened RxRing
  import opened Node
  import opened NodeRuns

  // ----- The timer -----

  /** One of the first n slots holds the neighbour a, which is about to leave the table. */
  predicate Gone(t: Table, n: nat, a: byte)
    requires n <= |t|
  {
    exists j :: 0 <= j < n && t[j].Named(a) && t[j].owner == 0 && t[j].weight <= 1
  }

  /** A reassembly slot once the pass has done n slots of the table. */
  function SlotAfter(t: Table, n: nat, s: Sender): Sender
    requires n <= |t|
  {
    if s.occupied && Gone(t, n, s.address) then Sender(false, s.address, 0, 0, []) else s
  }

  function SlotsAfter(t: Table, n: nat, ss: Senders): (r: Senders)
    requires n <= |t|
    ensures |r| == |ss| && forall k :: 0 <= k < |ss| ==> r[k] == SlotAfter(t, n, ss[k])
  {
    seq(|ss|, k requires 0 <= k < |ss| => SlotAfter(t, n, ss[k]))
  }

  lemma SlotsStep(t: Table, self: byte, ss: Senders, i: nat)
    requires Inv(t, self) && OneEach(ss) && i < |t|
    ensures Expires(AfterAll(t, i)[i]) <==> t[i].inUse && t[i].owner == 0 && t[i].weight <= 1
    ensures AfterAll(t, i)[i].id == t[i].id
    ensures SlotsAfter(t, i + 1, ss) ==
      if Expires(AfterAll(t, i)[i]) then DropSender(SlotsAfter(t, i, ss), t[i].id) else SlotsAfter(t, i, ss)
  {
    assert SlotOk(t[i], self);
    var before, after := SlotsAfter(t, i, ss), SlotsAfter(t, i + 1, ss);
    assert OneEach(before);
    forall k | 0 <= k < |ss|
      ensures after[k] == if Expires(AfterAll(t, i)[i]) then DropSender(before, t[i].id)[k] else before[k]
    {
      DropSenderExact(before, t[i].id, k);
      assert Gone(t, i + 1, ss[k].address) <==>
        Gone(t, i, ss[k].address) || (t[i].Named(ss[k].address) && t[i].owner == 0 && t[i].weight <= 1);
    }
  }

  lemma {:induction false} SlotsFrom(t: Table, self: byte, ss: Senders, i: nat)
    requires Inv(t, self) && OneEach(ss) && i <= |t|
    ensures TickSendersFrom(AfterAll(t, i), SlotsAfter(t, i, ss), i) == SlotsAfter(t, |t|, ss)
    decreases |t| - i
  {
    if i < |t| {
      SlotsStep(t, self, ss, i);
      PassStep(t, self, i);
      SlotsFrom(t, self, ss, i + 1);
    }
  }

  /** The slots at a tick: that of a neighbour that leaves the table is freed and reset, and every other one stays. */
  lemma TickSlotsExact(t: Table, self: byte, ss: Senders, k: nat)
    requires Inv(t, self) && OneEach(ss) && k < |ss|
    ensures TickSendersFrom(t, ss, 0)[k] ==
      if ss[k].occupied
        && exists j :: 0 <= j < |t| && t[j].inUse && t[j].id == ss[k].address && t[j].owner == 0 && t[j].weight <= 1
      then Sender(false, ss[k].address, 0, 0, []) else ss[k]
  {
    assert AfterAll(t, 0) == t && SlotsAfter(t, 0, ss) == ss;
    SlotsFrom(t, self, ss, 0);
    assert forall j :: 0 <= j < |t| ==> (t[j].Named(ss[k].address) <==> t[j].inUse && t[j].id == ss[k].address);
  }

  /** The ping that a snapshot with messages left to send gives rise to. */
  lemma PingExact(s: Snapshot, t: Table, self: byte)
    requires SnapshotOk(s) && s.current < |s.messages|
    ensures var (r, p) := NextPing(s, t, self);
      && r == s.(current := s.current + 1) && p[0] == self && p[|p| - 1] == 0
      && p[1] == (if s.current + 1 == |s.messages| then 0x02 else 0x01)
      && p[2] / 16 == s.current && p[2] % 16 == |s.messages| && p[3..|p| - 1] == s.messages[s.current]
  {
    PingBytes(self, 0, IndexByte(s.current, |s.messages|), s.messages[s.current]);
  }

  /** A tick that finds everything sent first takes a new snapshot; it sends the empty ping if that is empty too. */
  lemma RenewedExact(s: Snapshot, t: Table, self: byte)
    requires s.current >= |s.messages|
    ensures var taken := Snapshot(Chunks(Pairs(t)), 0);
      NextPing(s, t, self) ==
        if taken.messages == [] then (taken, [self, 0x02, 0x01, 0]) else NextPing(taken, t, self)
  {
    assert [self, 0x02, 0x01] + [] + [0] == [self, 0x02, 0x01, 0];
  }

  /** A tick changes the table, the slots and the snapshot, and sends the next ping of the table as it leaves it. */
  lemma TimerExact(n: Node)
    requires NodeInv(n)
    ensures var r := OnTimer(n).0;
      && r == n.(table := Tick(n.table), senders := r.senders, snapshot := r.snapshot)
      && (r.snapshot, OnTimer(n).1) == NextPing(n.snapshot, Tick(n.table), n.address)
      && Step(n, Timer) == (r, [OnTimer(n).1])
  {
  }

  // ----- Sending -----

  /** A data packet goes out exactly if there is a route and it is not too long: to the target itself when it is a
      neighbour, and otherwise to the owner of its entry. */
  lemma SendExact(n: Node, target: byte, data: seq<byte>, encrypt: bool, k: nat)
    requires NodeInv(n) && k < |n.table| && n.table[k].inUse && n.table[k].id == target
    ensures var p, e := SendData(n, target, data, encrypt), n.table[k];
      if |data| > 28 then p == None
      else
        && p.Some? && |p.value| == |data| + 4
        && p.value[..4] == [n.address, 0x03, if e.owner == 0 then target else e.owner, target]
        && p.value[4..] == if encrypt then Encrypt(n.key, data) else data
  {
    FirstLiveIs(n.table, k);
    assert SlotOk(n.table[k], n.address);
  }

  lemma SendNothing(n: Node, target: byte, data: seq<byte>, encrypt: bool)
    requires NodeInv(n) && forall k :: 0 <= k < |n.table| ==> !(n.table[k].inUse && n.table[k].id == target)
    ensures SendData(n, target, data, encrypt) == None
  {
    assert FirstLive(n.table, target) == |n.table|;
  }

  /** Sending changes nothing at the sender, reading nothing but its receive buffer. */
  lemma CallsExact(n: Node, target: byte, data: seq<byte>, encrypt: bool)
    requires NodeInv(n)
    ensures Step(n, Transmit(target, data, encrypt)) ==
      (n, match SendData(n, target, data, encrypt) case None => [] case Some(p) => [p])
    ensures Step(n, Fetch) == (n.(ring := n.ring.Read(n.key).0), [])
  {
  }

  // ----- Receiving -----

  /** Without news nothing is read; news without a packet is forgotten, and the receive buffer cleared. */
  lemma PollExact(n: Node, p: Packet)
    requires NodeInv(n) && 4 <= |p| <= 32
    ensures !n.newData ==> OnRead(n, Some(p)) == (n, []) && Step(n, Poll) == (n, [])
    ensures n.newData ==> Step(n, Poll) == (n.(received := seq(32, _ => 0), newData := false), [])
  {
    assert Zeros(PACKET_SIZE) == seq(32, _ => 0);
  }

  /** A packet from a sender that is no live, direct, trusted neighbour, once its weight is updated, has no other
      effect; it stays in the receive buffer, and the news stays news. */
  lemma HearStranger(n: Node, p: Packet)
    requires NodeInv(n) && Receivable(n.address, p) && !TrustedNeighbour(UpdateWeight(n.table, p[0]), p[0])
    ensures Step(n, Hear(p)) ==
      (n.(table := UpdateWeight(n.table, p[0]), received := p + n.received[|p|..], newData := true), [])
  {
    CheckTrustedIsLive(n.table, n.address, p[0]);
  }

  /** What a packet from a trusted neighbour may do: change the table, the slots and the ring, and send something. */
  lemma HearTrusted(n: Node, p: Packet)
    requires NodeInv(n) && Receivable(n.address, p) && TrustedNeighbour(UpdateWeight(n.table, p[0]), p[0])
    ensures var b, u := p + n.received[|p|..], UpdateWeight(n.table, p[0]);
      var m := n.(table := u, received := b, newData := true);
      var (d, out) := Dispatch(m, |p|);
      Step(n, Hear(p)) == (d.(received := seq(32, _ => 0), newData := false), out)
  {
    CheckTrustedIsLive(n.table, n.address, p[0]);
    assert Zeros(PACKET_SIZE) == seq(32, _ => 0);
  }

  /** A ping of either kind: the bytes behind its header, and the two that follow them, are saved for its sender. */
  lemma HearPing(n: Node, p: Packet)
    requires NodeInv(n) && Receivable(n.address, p) && TrustedNeighbour(UpdateWeight(n.table, p[0]), p[0])
    requires p[1] == 0x01 || p[1] == 0x02
    ensures var (t, ss) :=
        Save(UpdateWeight(n.table, p[0]), n.senders, n.address, p[0], (p + n.received[|p|..])[3..], |p| - 2, p[2]);
      Step(n, Hear(p)) == (n.(table := t, senders := ss, received := seq(32, _ => 0), newData := false), [])
  {
    HearTrusted(n, p);
  }

  /** A data packet for this node goes into the receive buffer, cut to the space there is. */
  lemma DataArrives(n: Node, p: Packet)
    requires NodeInv(n) && Receivable(n.address, p) && TrustedNeighbour(UpdateWeight(n.table, p[0]), p[0])
    requires p[1] == 0x03 && p[2] == n.address && p[3] == n.address
    ensures var (r, out) := Step(n, Hear(p));
      && r == n.(table := UpdateWeight(n.table, p[0]), ring := r.ring, received := seq(32, _ => 0), newData := false)
      && out == [] && r.ring.Valid()
      && r.ring.Queue() == n.ring.Queue() + (p[4..] + [0x0D])[..Min(|p| - 3, n.ring.Free())]
  {
    HearTrusted(n, p);
    assert (p + n.received[|p|..])[4..|p|] == p[4..];
    n.ring.SaveQueue(p[4..]);
  }

  /** A data packet for another node that is handed to this one is passed on as it came, if there is a route. */
  lemma DataPassedOn(n: Node, p: Packet)
    requires NodeInv(n) && Receivable(n.address, p) && TrustedNeighbour(UpdateWeight(n.table, p[0]), p[0])
    requires p[1] == 0x03 && p[2] == n.address && p[3] != n.address
    ensures var m := n.(table := UpdateWeight(n.table, p[0]), received := seq(32, _ => 0), newData := false);
      Step(n, Hear(p)) == (m, match SendData(m, p[3], p[4..], false) case None => [] case Some(q) => [q])
  {
    HearTrusted(n, p);
    assert (p + n.received[|p|..])[4..|p|] == p[4..];
  }

  /** Any other packet only updates the weight of its sender. */
  lemma HearOther(n: Node, p: Packet)
    requires NodeInv(n) && Receivable(n.address, p) && TrustedNeighbour(UpdateWeight(n.table, p[0]), p[0])
    requires p[1] != 0x01 && p[1] != 0x02 && (p[1] != 0x03 || p[2] != n.address)
    ensures Step(n, Hear(p)) ==
      (n.(table := UpdateWeight(n.table, p[0]), received := seq(32, _ => 0), newData := false), [])
  {
    HearTrusted(n, p);
  }

  // ----- Neighbour tables -----

  /** The packet is a ping of either kind, as nodes send them. */
  predicate WellFormedPing(p: Packet) {
    && 4 <= |p| <= 32 && (p[1] == 0x01 || p[1] == 0x02)
    && p[|p| - 1] == 0 && IsMessage(p[3..|p| - 1])
  }

  /** The bytes that follow the header in the receive buffer. */
  lemma PingFragment(n: Node, p: Packet)
    requires NodeInv(n) && WellFormedPing(p)
    ensures Reads((p + n.received[|p|..])[3..], p[3..|p| - 1])
  {
    var nd, m := (p + n.received[|p|..])[3..], p[3..|p| - 1];
    assert nd[..|m|] == m;
  }

  /** A ping from a trusted neighbour whose slot is in its initial state: a full message is merged, and nothing else;
      a shorter one is what the slot carries then. */
  lemma FirstPing(n: Node, p: Packet, k: nat)
    requires NodeInv(n) && Receivable(n.address, p) && WellFormedPing(p)
    requires TrustedNeighbour(UpdateWeight(n.table, p[0]), p[0]) && SlotOf(n.senders, p[0], k)
    requires n.senders[k].occupied ==> n.senders[k].number == 0 && n.senders[k].data == []
    ensures var u, m, r := UpdateWeight(n.table, p[0]), p[3..|p| - 1], Step(n, Hear(p)).0;
      if |m| + 2 >= 28 then
        r.table == ProcessData(u, n.address, m, p[0]) && r.senders == n.senders[k := Sender(true, p[0], 0, 0, [])]
      else
        && r.table == u && Carries(r.senders[k], m)
        && r.senders == n.senders[k := Sender(true, p[0], p[2] / 16, p[2] % 16, r.senders[k].data)]
  {
    var u, m, nd := UpdateWeight(n.table, p[0]), p[3..|p| - 1], (p + n.received[|p|..])[3..];
    HearPing(n, p);
    PingFragment(n, p);
    ClaimIs(n.senders, p[0], k);
    ResetAccepts(u, n.senders, n.address, p[0], nd, p[2], m);
    SaveTakes(u, n.senders, n.address, p[0], nd, |p| - 2, p[2], k);
  }

  /** A ping whose number and total are those of the slot, which carries a message: the bytes are appended, and when
      the slot is full the message it carries is merged, and nothing else. */
  lemma FollowingPing(n: Node, p: Packet, k: nat, first: seq<byte>)
    requires NodeInv(n) && Receivable(n.address, p) && WellFormedPing(p)
    requires TrustedNeighbour(UpdateWeight(n.table, p[0]), p[0]) && SlotOf(n.senders, p[0], k)
    requires n.senders[k].occupied && Carries(n.senders[k], first)
    requires n.senders[k].number == 0 || (n.senders[k].number == p[2] / 16 && n.senders[k].total == p[2] % 16)
    ensures var u, s, r := UpdateWeight(n.table, p[0]), n.senders[k], Step(n, Hear(p)).0;
      if |s.data| + |p| - 2 >= 28 then
        r.table == ProcessData(u, n.address, first, p[0]) && r.senders == n.senders[k := Sender(true, p[0], 0, 0, [])]
      else
        && r.table == u && Carries(r.senders[k], first) && |r.senders[k].data| == |s.data| + |p| - 2
        && r.senders == n.senders[k := Sender(true, p[0], p[2] / 16, p[2] % 16, r.senders[k].data)]
  {
    var u, m, nd := UpdateWeight(n.table, p[0]), p[3..|p| - 1], (p + n.received[|p|..])[3..];
    HearPing(n, p);
    PingFragment(n, p);
    ClaimIs(n.senders, p[0], k);
    SaveTakes(u, n.senders, n.address, p[0], nd, |p| - 2, p[2], k);
    AppendStarts(n.senders[k], nd, m, first);
    var data := n.senders[k].data + nd[..Min(|p| - 2, 28 - |n.senders[k].data|)];
    assert data == Append(n.senders[k], nd, |m| + 2).data;
    if |data| >= 28 {
      MergeStarts(DropChildren(u, p[0]), n.address, data, first, p[0], 0);
    }
  }

  /** A ping whose number or total is not that of the messages accepted so far only updates the sender's weight. */
  lemma OtherPing(n: Node, p: Packet, k: nat)
    requires NodeInv(n) && Receivable(n.address, p) && (p[1] == 0x01 || p[1] == 0x02)
    requires TrustedNeighbour(UpdateWeight(n.table, p[0]), p[0]) && SlotOf(n.senders, p[0], k)
    requires n.senders[k].occupied && n.senders[k].number != 0
    requires n.senders[k].number != p[2] / 16 || n.senders[k].total != p[2] % 16
    ensures Step(n, Hear(p)).0.table == UpdateWeight(n.table, p[0]) && Step(n, Hear(p)).0.senders == n.senders
  {
    HearPing(n, p);
    var u, nd := UpdateWeight(n.table, p[0]), (p + n.received[|p|..])[3..];
    SaveIgnores(u, n.senders, n.address, p[0], nd, |p| - 2, p[2], k);
  }

  // ----- No address ever holds two slots -----

  lemma {:induction false} TickOneEach(t: Table, ss: Senders, i: nat)
    requires i <= |t| && OneEach(ss)
    ensures OneEach(TickSendersFrom(t, ss, i))
    decreases |t| - i
  {
    if i < |t| {
      TickOneEach(TickSlot(t, i), if Expires(t[i]) then DropSender(ss, t[i].id) else ss, i + 1);
    }
  }

  /** That holds at the start, and every entry point keeps it. */
  lemma OneEachKept(n: Node, e: Event)
    requires NodeInv(n) && Enabled(n.address, e) && OneEach(n.senders)
    ensures OneEach(Step(n, e).0.senders)
  {
    match e
    case Timer => TickOneEach(n.table, n.senders, 0);
    case Hear(p) =>
      SaveOneEach(UpdateWeight(n.table, p[0]), n.senders, n.address, p[0], (p + n.received[|p|..])[3..], |p| - 2, p[2]);
    case Poll =>
    case Fetch =>
    case Transmit(_, _, _) =>
  }

  lemma {:induction false} RunOneEach(n: Node, es: seq<Event>)
    requires NodeInv(n) && Legal(n.address, es) && OneEach(n.senders)
    ensures OneEach(Run(n, es).senders)
    decreases |es|
  {
    if es != [] {
      StepInv(n, es[0]);
      OneEachKept(n, es[0]);
      RunOneEach(Step(n, es[0]).0, es[1..]);
    }
  }

  /** So it holds in every state that a node can be in. */
  lemma ReachedOneEach(address: byte, key: seq<byte>, es: seq<Event>)
    requires address != 0 && key != [] && Legal(address, es)
    ensures OneEach(Reached(address, key, es).senders)
  {
    BootInv(address, key);
    RunOneEach(Boot(address, key), es);
  }

  /** A node starts with nothing: no entry, no slot, nothing to send or to read. */
  lemma BootExact(address: byte, key: seq<byte>)
    ensures var n := Boot(address, key);
      && n.address == address && n.key == key && !n.newData && n.received == seq(32, _ => 0)
      && |n.table| == |n.senders| == 50 && n.snapshot.messages == []
      && (forall i :: 0 <= i < 50 ==> n.table[i] == Entry(0, 0, false, false, 0, 0))
      && (forall i :: 0 <= i < 50 ==> n.senders[i] == Sender(false, 0, 0, 0, []))
      && n.ring.Valid() && |n.ring.buffer| == 200 && n.ring.Queue() == [] && OneEach(n.senders)
  {
  }
}
