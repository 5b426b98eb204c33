/** What holds over every run of the network. */
module NetworkRuns {
  import opened Bytes
  import opened MeshConfig
  import opened RouteTable
  import opened Reassembly
  import opened Snapshot
  import opened Node
  import opened Network

  /** Every node just started, nothing sent yet. */
  function Start(addresses: set<byte>, key: seq<byte>): Net {
    Net(map a | a in addresses :: Boot(a, key), {}, {}, {})
  }

  lemma StartInv(addresses: set<byte>, key: seq<byte>)
    requires 0 !in addresses && key != []
    ensures NetInv(Start(addresses, key))
  {
    forall a | a in addresses {
      BootInv(a, key);
    }
  }

  ghost predicate CanRun(net: Net, actions: seq<Action>)
    requires NetInv(net)
    decreases |actions|
  {
    actions == [] ||
    (CanDo(net, actions[0]) &&
     (NetStepInv(net, actions[0]); CanRun(NetStep(net, actions[0]), actions[1..])))
  }

  ghost function NetRun(net: Net, actions: seq<Action>): (r: Net)
    requires NetInv(net) && CanRun(net, actions)
    ensures NetInv(r) && r.nodes.Keys == net.nodes.Keys && net.heard <= r.heard && net.sent <= r.sent
    decreases |actions|
  {
    if actions == [] then net
    else
      NetStepInv(net, actions[0]);
      NetRun(NetStep(net, actions[0]), actions[1..])
  }

  /** The actions can be taken one after the other and lead from net to r. */
  ghost predicate Runs(net: Net, actions: seq<Action>, r: Net) {
    NetInv(net) && CanRun(net, actions) && r == NetRun(net, actions)
  }

  lemma RunsFirst(net: Net, actions: seq<Action>, r: Net)
    requires NetInv(net) && actions != []
    ensures Runs(net, actions, r) <==> CanDo(net, actions[0]) && Runs(NetStep(net, actions[0]), actions[1..], r)
  {
    if CanDo(net, actions[0]) {
      NetStepInv(net, actions[0]);
    }
  }

  lemma AppendParts<T>(first: seq<T>, second: seq<T>)
    ensures first == [] ==> first + second == second
    ensures first != [] ==> (first + second)[0] == first[0] && (first + second)[1..] == first[1..] + second
  {
  }

  lemma {:induction false} RunsAppend(net: Net, first: seq<Action>, mid: Net, second: seq<Action>, r: Net)
    requires Runs(net, first, mid) && Runs(mid, second, r)
    ensures Runs(net, first + second, r)
    decreases |first|
  {
    AppendParts(first, second);
    if first != [] {
      RunsFirst(net, first, mid);
      RunsAppend(NetStep(net, first[0]), first[1..], mid, second, r);
      RunsFirst(net, first + second, r);
    }
  }

  // ----- Hop counts are walks -----

  /** path leads from a to x over heard-from links. */
  ghost predicate IsPath(heard: set<(byte, byte)>, path: seq<byte>, a: byte, x: byte) {
    && path != [] && path[0] == a && path[|path| - 1] == x
    && forall i :: 0 <= i < |path| - 1 ==> (path[i], path[i + 1]) in heard
  }

  /** A walk of h links is a path of h + 1 addresses. */
  lemma {:induction false} WalkIsPath(heard: set<(byte, byte)>, a: byte, x: byte, h: nat)
    requires Walk(heard, a, x, h)
    ensures exists path :: IsPath(heard, path, a, x) && |path| == h + 1
    decreases h
  {
    if h == 0 {
      assert IsPath(heard, [a], a, x);
    } else {
      var b: byte :| (a, b) in heard && Walk(heard, b, x, h - 1);
      WalkIsPath(heard, b, x, h - 1);
      var rest :| IsPath(heard, rest, b, x) && |rest| == h;
      assert IsPath(heard, [a] + rest, a, x);
    }
  }

  /** A path of h links from a to x whose first step is first. */
  ghost predicate PathVia(heard: set<(byte, byte)>, a: byte, first: byte, x: byte, h: nat) {
    exists path :: IsPath(heard, path, a, x) && |path| == h + 1 && h >= 1 && path[1] == first
  }

  lemma EntryPath(heard: set<(byte, byte)>, self: byte, e: Entry)
    requires EntrySound(heard, self, e) && e.inUse
    ensures PathVia(heard, self, if e.owner == 0 then e.id else e.owner, e.id, e.hops)
  {
    var first := if e.owner == 0 then e.id else e.owner;
    WalkIsPath(heard, first, e.id, e.hops - 1);
    var rest :| IsPath(heard, rest, first, e.id) && |rest| == e.hops as nat;
    assert IsPath(heard, [self] + rest, self, e.id);
  }

  /** The networks that can be reached from a start. */
  ghost predicate Reachable(addresses: set<byte>, key: seq<byte>, net: Net) {
    && 0 !in addresses && key != []
    && (StartInv(addresses, key);
        exists actions :: CanRun(Start(addresses, key), actions) && net == NetRun(Start(addresses, key), actions))
  }

  /**
   * Hop soundness. In every reachable network, however packets were lost, delayed, repeated or reordered, a live
   * entry for x at node n with h hops is backed by a path of exactly h heard-from links from n to x, and its first
   * step is the entry's owner, or x itself for a neighbour.
   */
  lemma HopSoundness(addresses: set<byte>, key: seq<byte>, net: Net, n: byte, i: nat)
    requires Reachable(addresses, key, net) && n in net.nodes
    requires i < |net.nodes[n].table| && net.nodes[n].table[i].inUse
    ensures var e := net.nodes[n].table[i];
      1 <= e.hops <= MAX_HOPS && PathVia(net.heard, n, if e.owner == 0 then e.id else e.owner, e.id, e.hops)
  {
    StartInv(addresses, key);
    assert NetInv(net);
    assert NodeSound(net, n, net.nodes[n]);
    assert EntrySound(net.heard, n, net.nodes[n].table[i]);
    EntryPath(net.heard, n, net.nodes[n].table[i]);
  }

  /** The same for the pairs of every ping ever sent: from its sender, as many links lead to x as the pair says. */
  lemma PingSoundness(addresses: set<byte>, key: seq<byte>, net: Net, p: Packet, i: nat)
    requires Reachable(addresses, key, net) && p in net.sent && IsPing(p)
    requires i % 2 == 0 && i < |Message(p)|
    ensures i + 1 < |Message(p)| && 1 <= Message(p)[i + 1] <= MAX_HOPS
    ensures exists path :: IsPath(net.heard, path, p[0], Message(p)[i]) && |path| == Message(p)[i + 1] + 1
  {
    StartInv(addresses, key);
    assert NetInv(net);
    assert PacketSound(net, p);
    assert PairSound(net.heard, p[0], Message(p), i);
    WalkIsPath(net.heard, p[0], Message(p)[i], Message(p)[i + 1]);
  }

  /** And for the pairs of the snapshot that a node broadcasts from. */
  lemma SnapshotSoundness(addresses: set<byte>, key: seq<byte>, net: Net, n: byte, k: nat, i: nat)
    requires Reachable(addresses, key, net) && n in net.nodes && k < |net.nodes[n].snapshot.messages|
    requires i % 2 == 0 && i < |net.nodes[n].snapshot.messages[k]|
    ensures var m := net.nodes[n].snapshot.messages[k];
      && i + 1 < |m| && 1 <= m[i + 1] <= MAX_HOPS
      && exists path :: IsPath(net.heard, path, n, m[i]) && |path| == m[i + 1] + 1
  {
    StartInv(addresses, key);
    assert NetInv(net) && NodeSound(net, n, net.nodes[n]);
    var m := net.nodes[n].snapshot.messages[k];
    assert MessageSound(net.heard, n, m) && PairSound(net.heard, n, m, i);
    WalkIsPath(net.heard, n, m[i], m[i + 1]);
  }

  /** And for what a reassembly slot has collected: it starts with one whole message of its sender, all of it backed. */
  lemma SlotSoundness(addresses: set<byte>, key: seq<byte>, net: Net, n: byte, k: nat)
    requires Reachable(addresses, key, net) && n in net.nodes
    requires k < |net.nodes[n].senders|
    ensures var s := net.nodes[n].senders[k];
      && |s.data| % 2 == 0 && |s.data| < MAX_DATA_LENGTH
      && (s.data == []
          || exists m ::
               && Starts(s.data, m) && Broadcast(net.sent, s.address, m)
               && MessageSound(net.heard, s.address, m))
  {
    StartInv(addresses, key);
    assert NetInv(net);
    var s := net.nodes[n].senders[k];
    assert NodeSound(net, n, net.nodes[n]) && SlotSound(net.sent, s);
    if s.data != [] {
      var m :| Carries(s, m) && Broadcast(net.sent, s.address, m);
      var p :| p in net.sent && IsPing(p) && p[0] == s.address && Message(p) == m;
      assert PacketSound(net, p);
    }
  }

  /**
   * The ping round trip in the network: hearing a ping changes the receiver's table by the sender's own entry and
   * at most by merging one whole message that this sender broadcast, whatever fragments and stray bytes came in
   * between.
   */
  lemma MergesOneBroadcast(net: Net, self: byte, p: Packet)
    requires NetInv(net) && CanDo(net, Act(self, Hear(p))) && IsPing(p)
    ensures var t, t' := UpdateWeight(net.nodes[self].table, p[0]), NetStep(net, Act(self, Hear(p))).nodes[self].table;
      t' == t || exists m :: Broadcast(net.sent, p[0], m) && IsMessage(m) && t' == ProcessData(t, self, m, p[0])
  {
    var n := net.nodes[self];
    var heard := net.heard + {(self, p[0])};
    var mid := net.(heard := heard);
    assert NodeSound(net, self, n) && PacketSound(net, p);
    forall q | q in net.sent
      ensures PacketSound(mid, q)
    {
      assert PacketSound(net, q);
      if IsPing(q) {
        MessageGrows(net.heard, heard, q[0], Message(q));
      }
    }
    TableGrows(net.heard, heard, self, n.table);
    UpdateWeightSound(heard, self, n.table, p[0]);
    PingReads(p, n.received);
    SaveSound(mid, self, UpdateWeight(n.table, p[0]), n.senders, p, (p + n.received[|p|..])[3..]);
  }

  // ----- Everything a reassembly slot has collected is backed -----

  ghost predicate PairBacked(heard: set<(byte, byte)>, from: byte, d: seq<byte>, i: int) {
    0 <= i < |d| - 1 && d[i] != 0 ==> PairSound(heard, from, d, i)
  }

  /** Every pair with a non-zero id is backed by a walk from the slot's sender. */
  ghost predicate DataBacked(heard: set<(byte, byte)>, from: byte, d: seq<byte>) {
    forall i :: i % 2 == 0 ==> PairBacked(heard, from, d, i)
  }

  ghost predicate SlotsBacked(heard: set<(byte, byte)>, ss: Senders) {
    forall j :: 0 <= j < |ss| ==> DataBacked(heard, ss[j].address, ss[j].data)
  }

  ghost predicate NetBacked(net: Net) {
    forall a :: a in net.nodes ==> SlotsBacked(net.heard, net.nodes[a].senders)
  }

  lemma SlotsBackedGrow(heard: set<(byte, byte)>, more: set<(byte, byte)>, ss: Senders)
    requires heard <= more && SlotsBacked(heard, ss)
    ensures SlotsBacked(more, ss)
  {
    forall j, i | 0 <= j < |ss| && i % 2 == 0
      ensures PairBacked(more, ss[j].address, ss[j].data, i)
    {
      var d := ss[j].data;
      assert PairBacked(heard, ss[j].address, d, i);
      if 0 <= i < |d| - 1 && d[i] != 0 {
        WalkGrows(heard, more, ss[j].address, d[i], d[i + 1]);
      }
    }
  }

  /** The bytes a fragment adds to a slot are backed as its message is. */
  lemma FragmentBacked(heard: set<(byte, byte)>, from: byte, nd: seq<byte>, m: seq<byte>, n: nat)
    requires Reads(nd, m) && n <= |m| + 2 && n <= |nd| && MessageSound(heard, from, m)
    ensures DataBacked(heard, from, nd[..n])
  {
    forall i | i % 2 == 0
      ensures PairBacked(heard, from, nd[..n], i)
    {
      if 0 <= i < |m| {
        assert PairSound(heard, from, m, i);
        assert nd[i] == m[i] && nd[i + 1] == m[i + 1];
      }
    }
  }

  lemma DataBackedAppend(heard: set<(byte, byte)>, from: byte, a: seq<byte>, b: seq<byte>)
    requires |a| % 2 == 0 && DataBacked(heard, from, a) && DataBacked(heard, from, b)
    ensures DataBacked(heard, from, a + b)
  {
    var e := a + b;
    forall i | i % 2 == 0
      ensures PairBacked(heard, from, e, i)
    {
      assert PairBacked(heard, from, a, i) && PairBacked(heard, from, b, i - |a|);
      if 0 <= i < |a| {
        assert e[i] == a[i] && e[i + 1] == a[i + 1];
      } else if |a| <= i < |e| - 1 {
        assert e[i] == b[i - |a|] && e[i + 1] == b[i - |a| + 1];
      }
    }
  }

  lemma SaveBacked(net: Net, t: Table, ss: Senders, self: byte, p: Packet, nd: seq<byte>)
    requires PacketSound(net, p) && IsPing(p) && Reads(nd, Message(p)) && Open(ss) && SlotsSound(net.sent, ss)
    requires SlotsBacked(net.heard, ss)
    ensures SlotsBacked(net.heard, Save(t, ss, self, p[0], nd, |Message(p)| + 2, p[2]).1)
  {
    var m := Message(p);
    var (claimed, c) := Claim(ss, p[0]);
    assert DataBacked(net.heard, p[0], []);
    if c < |ss| {
      var s := Headed(claimed[c], p[2]);
      assert SlotSound(net.sent, claimed[c]) && |s.data| % 2 == 0;
      var n := Min(|m| + 2, MAX_DATA_LENGTH - |s.data|);
      FragmentBacked(net.heard, p[0], nd, m, n);
      DataBackedAppend(net.heard, p[0], s.data, nd[..n]);
    }
  }

  lemma {:induction false} TickSlotsBacked(heard: set<(byte, byte)>, t: Table, ss: Senders, i: nat)
    requires i <= |t| && SlotsBacked(heard, ss)
    ensures SlotsBacked(heard, TickSendersFrom(t, ss, i))
    decreases |t| - i
  {
    if i < |t| {
      var ss' := if Expires(t[i]) then DropSender(ss, t[i].id) else ss;
      assert forall a: byte :: DataBacked(heard, a, []);
      TickSlotsBacked(heard, TickSlot(t, i), ss', i + 1);
    }
  }

  lemma StepSlotsBacked(net: Net, at: byte, e: Event)
    requires NetInv(net) && CanDo(net, Act(at, e)) && NetBacked(net)
    ensures SlotsBacked(net.heard, Step(net.nodes[at], e).0.senders)
  {
    var n := net.nodes[at];
    assert NodeSound(net, at, n);
    match e
    case Timer => TickSlotsBacked(net.heard, n.table, n.senders, 0);
    case Hear(p) =>
      assert PacketSound(net, p);
      if IsPing(p) {
        PingReads(p, n.received);
        SaveBacked(net, UpdateWeight(n.table, p[0]), n.senders, at, p, (p + n.received[|p|..])[3..]);
      }
    case Poll =>
    case Fetch =>
    case Transmit(_, _, _) =>
  }

  lemma StepBacked(net: Net, a: Action)
    requires NetInv(net) && CanDo(net, a) && NetBacked(net)
    ensures NetBacked(NetStep(net, a))
  {
    if a.Act? {
      var r := NetStep(net, a);
      StepSlotsBacked(net, a.at, a.event);
      forall b | b in r.nodes
        ensures SlotsBacked(r.heard, r.nodes[b].senders)
      {
        SlotsBackedGrow(net.heard, r.heard, r.nodes[b].senders);
      }
    }
  }

  lemma {:induction false} RunBacked(net: Net, actions: seq<Action>)
    requires NetInv(net) && CanRun(net, actions) && NetBacked(net)
    ensures NetBacked(NetRun(net, actions))
    decreases |actions|
  {
    if actions != [] {
      StepBacked(net, actions[0]);
      NetStepInv(net, actions[0]);
      RunBacked(NetStep(net, actions[0]), actions[1..]);
    }
  }

  /** Whatever fragments a slot has mixed, every pair in it with a non-zero id is a walk from its sender. */
  lemma SlotPairsSound(addresses: set<byte>, key: seq<byte>, net: Net, n: byte, k: nat, i: nat)
    requires Reachable(addresses, key, net) && n in net.nodes && k < |net.nodes[n].senders|
    requires i % 2 == 0 && i + 1 < |net.nodes[n].senders[k].data| && net.nodes[n].senders[k].data[i] != 0
    ensures var s := net.nodes[n].senders[k];
      1 <= s.data[i + 1] <= MAX_HOPS
      && exists path :: IsPath(net.heard, path, s.address, s.data[i]) && |path| == s.data[i + 1] + 1
  {
    StartInv(addresses, key);
    var actions :| CanRun(Start(addresses, key), actions) && net == NetRun(Start(addresses, key), actions);
    RunBacked(Start(addresses, key), actions);
    var s := net.nodes[n].senders[k];
    assert PairBacked(net.heard, s.address, s.data, i);
    WalkIsPath(net.heard, s.address, s.data[i], s.data[i + 1]);
  }
}
