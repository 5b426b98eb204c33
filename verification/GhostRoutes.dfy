/** A route to a node that has gone silent only ages, however long its copies go on travelling. */
module GhostRoutes {
  import opened Bytes
  import opened MeshConfig
  import opened RouteTable
  import opened TickRule
  import opened Reassembly
  import opened Snapshot
  import opened Node
  import opened Network
  import opened NodeRuns
  import opened NetworkRuns

  predicate PairAge(m: seq<byte>, i: int, x: byte, k: nat) {
    0 <= i < |m| - 1 && m[i] == x ==> m[i + 1] >= k
  }

  /** Every pair for x in these bytes says at least k hops. */
  ghost predicate DataAge(m: seq<byte>, x: byte, k: nat) {
    forall i :: i % 2 == 0 ==> PairAge(m, i, x, k)
  }

  predicate TableAge(t: Table, x: byte, k: nat) {
    forall i :: 0 <= i < |t| && t[i].Named(x) ==> t[i].hops >= k
  }

  ghost predicate SlotsAge(ss: Senders, x: byte, k: nat) {
    forall j :: 0 <= j < |ss| ==> DataAge(ss[j].data, x, k)
  }

  /** Of a snapshot only the messages that are still to be sent matter. */
  ghost predicate SnapshotAge(s: Snapshot, x: byte, k: nat) {
    forall j :: s.current <= j < |s.messages| ==> DataAge(s.messages[j], x, k)
  }

  ghost predicate NodeAge(n: Node, x: byte, k: nat) {
    TableAge(n.table, x, k) && SlotsAge(n.senders, x, k) && SnapshotAge(n.snapshot, x, k)
  }

  /** Every copy of x, in tables, messages still to be sent, reassembly slots and packets in flight, says at
      least k hops. */
  ghost predicate Age(net: Net, x: byte, k: nat) {
    && (forall a :: a in net.nodes ==> NodeAge(net.nodes[a], x, k))
    && (forall p :: p in net.air && IsPing(p) ==> DataAge(Message(p), x, k))
  }

  /** Entries for x in r are entries of t with the same hops, or say more than k. */
  predicate OnlyOlder(t: Table, r: Table, x: byte, k: nat) {
    && |r| == |t|
    && forall i :: 0 <= i < |r| && r[i].Named(x) ==> r[i].hops > k || (t[i].Named(x) && r[i].hops == t[i].hops)
  }

  lemma {:induction false} MergeAge(t: Table, self: byte, m: seq<byte>, owner: byte, i: nat, x: byte, k: nat)
    requires DataAge(m, x, k) && |m| % 2 == 0 && i % 2 == 0
    ensures OnlyOlder(t, Merge(t, self, m, owner, i), x, k)
    decreases |m| - i
  {
    if i < |m| && m[i] != 0 {
      assert PairAge(m, i, x, k);
      if m[i] == self || m[i + 1] >= MAX_HOPS || !HasRoom(t, m[i]) {
        MergeAge(t, self, m, owner, i + 2, x, k);
      }
    }
  }

  lemma DataAgeAppend(a: seq<byte>, b: seq<byte>, x: byte, k: nat)
    requires |a| % 2 == 0 && |b| % 2 == 0 && DataAge(a, x, k) && DataAge(b, x, k)
    ensures DataAge(a + b, x, k)
  {
    forall i | i % 2 == 0
      ensures PairAge(a + b, i, x, k)
    {
      assert PairAge(a, i, x, k) && PairAge(b, i - |a|, x, k);
    }
  }

  /** The bytes a fragment adds to a slot say no more about x than its message does. */
  lemma FragmentAge(nd: seq<byte>, m: seq<byte>, n: nat, x: byte, k: nat)
    requires Reads(nd, m) && n <= |m| + 2 && n <= |nd| && x != 0 && DataAge(m, x, k)
    ensures DataAge(nd[..n], x, k)
  {
    forall i | i % 2 == 0
      ensures PairAge(nd[..n], i, x, k)
    {
      assert PairAge(m, i, x, k);
      assert 0 <= i < |m| ==> nd[i] == m[i] && nd[i + 1] == m[i + 1];
    }
  }

  lemma SaveSlotsAge(net: Net, t: Table, ss: Senders, self: byte, p: Packet, nd: seq<byte>, x: byte, k: nat)
    requires |p| >= 4 && Reads(nd, Message(p)) && Open(ss) && SlotsSound(net.sent, ss)
    requires SlotsAge(ss, x, k) && DataAge(Message(p), x, k) && x != 0
    ensures SlotsAge(Save(t, ss, self, p[0], nd, |Message(p)| + 2, p[2]).1, x, k)
  {
    var m := Message(p);
    var (claimed, c) := Claim(ss, p[0]);
    assert DataAge([], x, k);
    if c < |ss| {
      var s := Headed(claimed[c], p[2]);
      assert SlotSound(net.sent, claimed[c]) && |s.data| % 2 == 0;
      var n := Min(|m| + 2, MAX_DATA_LENGTH - |s.data|);
      FragmentAge(nd, m, n, x, k);
      DataAgeAppend(s.data, nd[..n], x, k);
    }
  }

  lemma FreshSnapshotAge(t: Table, self: byte, x: byte, k: nat)
    requires TableAge(t, x, k) && Inv(t, self)
    ensures SnapshotAge(Snapshot(Chunks(Pairs(t)), 0), x, k)
  {
    var c := Chunks(Pairs(t));
    forall j, i | 0 <= j < |c| && i % 2 == 0
      ensures PairAge(c[j], i, x, k)
    {
      if 0 <= i < |c[j]| {
        ChunkFromTable(t, j, i);
        var e :| 0 <= e < |t| && Advertises(t[e], c[j][i], c[j][i + 1]);
        assert t[e].Named(c[j][i]);
      }
    }
  }

  lemma {:induction false} TickSlotsAge(t: Table, ss: Senders, i: nat, x: byte, k: nat)
    requires i <= |t| && SlotsAge(ss, x, k)
    ensures SlotsAge(TickSendersFrom(t, ss, i), x, k)
    decreases |t| - i
  {
    if i < |t| {
      var ss' := if Expires(t[i]) then DropSender(ss, t[i].id) else ss;
      assert DataAge([], x, k);
      TickSlotsAge(TickSlot(t, i), ss', i + 1, x, k);
    }
  }

  /** The message that a slot starts with says no less than the slot's bytes do. */
  lemma FirstAge(data: seq<byte>, m: seq<byte>, x: byte, k: nat)
    requires Starts(data, m) && |m| % 2 == 0 && DataAge(data, x, k)
    ensures DataAge(m, x, k)
  {
    forall i | i % 2 == 0
      ensures PairAge(m, i, x, k)
    {
      assert PairAge(data, i, x, k);
      assert 0 <= i < |m| ==> data[i] == m[i] && data[i + 1] == m[i + 1];
    }
  }

  /** What is merged is as old as the slot's bytes, or as the message just heard. */
  lemma SaveTableAge(net: Net, self: byte, t: Table, ss: Senders, p: Packet, nd: seq<byte>, x: byte, k: nat)
    requires p in net.sent && IsPing(p) && p[0] != 0
    requires forall q :: q in net.sent ==> PacketSound(net, q)
    requires Reads(nd, Message(p)) && Open(ss) && SlotsSound(net.sent, ss)
    requires SlotsAge(ss, x, k) && DataAge(Message(p), x, k)
    ensures OnlyOlder(t, Save(t, ss, self, p[0], nd, |Message(p)| + 2, p[2]).0, x, k)
  {
    var (claimed, c) := Claim(ss, p[0]);
    assert Broadcast(net.sent, p[0], Message(p));
    if c < |ss| {
      var first := FirstCarried(net, ss, p[0], Message(p));
      SavePing(t, ss, self, p[0], nd, p[2], Message(p), first);
      if claimed[c].data != [] {
        assert claimed[c] == ss[c];
        FirstAge(ss[c].data, first, x, k);
      }
      MergeAge(DropChildren(t, p[0]), self, first, p[0], 0, x, k);
    }
  }

  lemma UpdateAge(t: Table, a: byte, r: Table, x: byte, k: nat)
    requires a != x && OnlyOlder(UpdateWeight(t, a), r, x, k)
    ensures OnlyOlder(t, r, x, k)
  {
  }

  lemma HearTableAge(net: Net, self: byte, p: Packet, x: byte, k: nat)
    requires NetInv(net) && CanDo(net, Act(self, Hear(p))) && Age(net, x, k) && p[0] != x
    ensures OnlyOlder(net.nodes[self].table, Step(net.nodes[self], Hear(p)).0.table, x, k)
  {
    var n := net.nodes[self];
    assert NodeSound(net, self, n) && PacketSound(net, p) && NodeAge(n, x, k);
    var t := UpdateWeight(n.table, p[0]);
    if IsPing(p) {
      PingReads(p, n.received);
      SaveTableAge(net, self, t, n.senders, p, (p + n.received[|p|..])[3..], x, k);
    }
    UpdateAge(n.table, p[0], Step(n, Hear(p)).0.table, x, k);
  }

  lemma HearSlotsAge(net: Net, self: byte, p: Packet, x: byte, k: nat)
    requires NetInv(net) && CanDo(net, Act(self, Hear(p))) && Age(net, x, k) && x != 0
    ensures SlotsAge(Step(net.nodes[self], Hear(p)).0.senders, x, k)
  {
    var n := net.nodes[self];
    assert NodeSound(net, self, n) && PacketSound(net, p) && NodeAge(n, x, k);
    if IsPing(p) {
      PingReads(p, n.received);
      SaveSlotsAge(net, UpdateWeight(n.table, p[0]), n.senders, self, p, (p + n.received[|p|..])[3..], x, k);
    }
  }

  lemma HearAge(net: Net, self: byte, p: Packet, x: byte, k: nat)
    requires NetInv(net) && CanDo(net, Act(self, Hear(p))) && Age(net, x, k) && x != 0 && p[0] != x
    ensures NodeAge(Step(net.nodes[self], Hear(p)).0, x, k)
    ensures OnlyOlder(net.nodes[self].table, Step(net.nodes[self], Hear(p)).0.table, x, k)
  {
    assert NodeSound(net, self, net.nodes[self]) && NodeAge(net.nodes[self], x, k);
    StepSnapshot(net.nodes[self], Hear(p));
    HearTableAge(net, self, p, x, k);
    HearSlotsAge(net, self, p, x, k);
  }

  lemma PingAge(n: Node, x: byte, k: nat)
    requires NodeInv(n) && SnapshotAge(Renewed(n.snapshot, Tick(n.table)), x, k)
    ensures DataAge(Message(OnTimer(n).1), x, k)
  {
    var s := Renewed(n.snapshot, Tick(n.table));
    TickFromInv(n.table, n.address, 0);
    RenewedOk(n.snapshot, Tick(n.table), n.address);
    if s.messages == [] {
      assert Message(OnTimer(n).1) == [];
    } else {
      assert Message(OnTimer(n).1) == s.messages[s.current];
    }
  }

  /** A tick makes no copy of x younger, and changes no hop count. */
  lemma TickAge(net: Net, a: byte, x: byte, k: nat)
    requires NetInv(net) && a in net.nodes && NodeAge(net.nodes[a], x, k)
    ensures var n := net.nodes[a];
      && NodeAge(OnTimer(n).0, x, k) && DataAge(Message(OnTimer(n).1), x, k)
      && OnlyOlder(n.table, OnTimer(n).0.table, x, k)
  {
    var n := net.nodes[a];
    assert NodeSound(net, a, n);
    forall i | 0 <= i < |n.table|
      ensures Tick(n.table)[i].Named(x) ==> n.table[i].Named(x) && Tick(n.table)[i].hops == n.table[i].hops
    {
      TickExact(n.table, a, i);
    }
    TickFromInv(n.table, a, 0);
    FreshSnapshotAge(Tick(n.table), a, x, k);
    TickSlotsAge(n.table, n.senders, 0, x, k);
    PingAge(n, x, k);
  }

  /** Nobody hears x in this step. */
  predicate Unheard(a: Action, x: byte) {
    a.Hears() && a.event.packet != [] ==> a.event.packet[0] != x
  }

  lemma NodeAges(net: Net, at: byte, e: Event, x: byte, k: nat)
    requires NetInv(net) && CanDo(net, Act(at, e)) && Age(net, x, k) && x != 0 && Unheard(Act(at, e), x)
    ensures var n := Step(net.nodes[at], e).0; NodeAge(n, x, k) && OnlyOlder(net.nodes[at].table, n.table, x, k)
  {
    assert NodeSound(net, at, net.nodes[at]) && NodeAge(net.nodes[at], x, k);
    match e
    case Timer => TickAge(net, at, x, k);
    case Hear(p) => HearAge(net, at, p, x, k);
    case Poll =>
    case Fetch =>
    case Transmit(_, _, _) =>
  }

  lemma OnlyTicksPing(n: Node, e: Event)
    requires NodeInv(n) && Enabled(n.address, e) && !e.Timer?
    ensures forall p :: p in Step(n, e).1 ==> !IsPing(p)
  {
  }

  lemma PingsAge(net: Net, at: byte, e: Event, x: byte, k: nat)
    requires NetInv(net) && CanDo(net, Act(at, e)) && Age(net, x, k)
    ensures forall p :: p in Step(net.nodes[at], e).1 && IsPing(p) ==> DataAge(Message(p), x, k)
  {
    var n := net.nodes[at];
    assert NodeSound(net, at, n);
    if e.Timer? {
      assert NodeAge(n, x, k);
      TickAge(net, at, x, k);
      assert Step(n, e).1 == [OnTimer(n).1];
    } else {
      OnlyTicksPing(n, e);
    }
  }

  /** One step in which x is not heard: no copy gets younger, and entries that change are older than the
      youngest copy. */
  lemma StepAges(net: Net, a: Action, x: byte, k: nat)
    requires NetInv(net) && CanDo(net, a) && Age(net, x, k) && x != 0 && Unheard(a, x)
    ensures Age(NetStep(net, a), x, k)
    ensures forall b :: b in net.nodes ==> OnlyOlder(net.nodes[b].table, NetStep(net, a).nodes[b].table, x, k)
  {
    if a.Act? {
      NodeAges(net, a.at, a.event, x, k);
      PingsAge(net, a.at, a.event, x, k);
    }
  }

  predicate Silent(actions: seq<Action>, x: byte) {
    forall i :: 0 <= i < |actions| ==> Unheard(actions[i], x)
  }

  /** While x stays silent, the least hop count recorded for x anywhere never decreases. */
  lemma {:induction false} GhostsOnlyAge(net: Net, actions: seq<Action>, x: byte, k: nat)
    requires NetInv(net) && CanRun(net, actions) && Silent(actions, x) && x != 0 && Age(net, x, k)
    ensures Age(NetRun(net, actions), x, k)
    decreases |actions|
  {
    if actions != [] {
      StepAges(net, actions[0], x, k);
      NetStepInv(net, actions[0]);
      GhostsOnlyAge(NetStep(net, actions[0]), actions[1..], x, k);
    }
  }

  /** Once every copy says 15 hops, nobody gains an entry for a silent x: the entries that are left only disappear. */
  lemma {:induction false} OldGhostsDie(net: Net, actions: seq<Action>, x: byte, a: byte, i: nat)
    requires NetInv(net) && CanRun(net, actions) && Silent(actions, x) && x != 0 && Age(net, x, MAX_HOPS)
    requires a in net.nodes && i < MAX_SENDERS
    ensures NetRun(net, actions).nodes[a].table[i].Named(x) ==> net.nodes[a].table[i].Named(x)
    decreases |actions|
  {
    if actions != [] {
      var r := NetStep(net, actions[0]);
      NetStepInv(net, actions[0]);
      StepAges(net, actions[0], x, MAX_HOPS);
      OldGhostsDie(r, actions[1..], x, a, i);
      assert NodeSound(r, a, r.nodes[a]) && SlotOk(r.nodes[a].table[i], a);
      assert NodeSound(net, a, net.nodes[a]);
    }
  }
}
