/** How a ghost counts up: two nodes that have lost a third one tell each other of it, one hop more each time. */
module CountToInfinity {
  import opened Bytes
  import opened MeshConfig
  import opened RouteTable
  import opened TickRule
  import opened Reassembly
  import opened Snapshot
  import opened Node
  import opened Network
  import opened NetworkRuns
  import opened GhostRoutes

  // ----- Runs in which somebody stays silent -----

  ghost predicate SilentRun(net: Net, actions: seq<Action>, r: Net, y: byte) {
    Runs(net, actions, r) && Silent(actions, y)
  }

  /** A run in which nobody hears y leads from net to r. */
  ghost predicate Leads(net: Net, r: Net, y: byte) {
    exists actions :: SilentRun(net, actions, r, y)
  }

  lemma SilentAppend(first: seq<Action>, second: seq<Action>, y: byte)
    requires Silent(first, y) && Silent(second, y)
    ensures Silent(first + second, y)
  {
  }

  lemma SilentRunAppend(net: Net, first: seq<Action>, mid: Net, second: seq<Action>, r: Net, y: byte)
    requires SilentRun(net, first, mid, y) && SilentRun(mid, second, r, y)
    ensures SilentRun(net, first + second, r, y)
  {
    RunsAppend(net, first, mid, second, r);
    SilentAppend(first, second, y);
  }

  lemma LeadsOn(net: Net, mid: Net, r: Net, y: byte)
    requires Leads(net, mid, y) && Leads(mid, r, y)
    ensures Leads(net, r, y)
  {
    var first :| SilentRun(net, first, mid, y);
    var second :| SilentRun(mid, second, r, y);
    SilentRunAppend(net, first, mid, second, r, y);
  }

  lemma LeadsNowhere(net: Net, y: byte)
    requires NetInv(net)
    ensures Leads(net, net, y)
  {
    assert SilentRun(net, [], net, y);
  }

  lemma ReachedByRun(addresses: set<byte>, key: seq<byte>, net: Net) returns (actions: seq<Action>)
    requires Reachable(addresses, key, net)
    ensures Runs(Start(addresses, key), actions, net)
  {
    StartInv(addresses, key);
    actions :| CanRun(Start(addresses, key), actions) && net == NetRun(Start(addresses, key), actions);
  }

  lemma RunReaches(addresses: set<byte>, key: seq<byte>, actions: seq<Action>, net: Net)
    requires 0 !in addresses && key != [] && Runs(Start(addresses, key), actions, net)
    ensures Reachable(addresses, key, net)
  {
  }

  lemma StartReachable(addresses: set<byte>, key: seq<byte>)
    requires 0 !in addresses && key != []
    ensures Reachable(addresses, key, Start(addresses, key))
  {
    StartInv(addresses, key);
    RunReaches(addresses, key, [], Start(addresses, key));
  }

  lemma LeadsReachable(addresses: set<byte>, key: seq<byte>, net: Net, r: Net, y: byte)
    requires Reachable(addresses, key, net) && Leads(net, r, y)
    ensures Reachable(addresses, key, r)
  {
    var first := ReachedByRun(addresses, key, net);
    var second :| SilentRun(net, second, r, y);
    RunsAppend(Start(addresses, key), first, net, second, r);
    RunReaches(addresses, key, first + second, r);
  }

  lemma OneStep(net: Net, a: Action, y: byte) returns (r: Net)
    requires NetInv(net) && CanDo(net, a) && Unheard(a, y)
    ensures r == NetStep(net, a) && NetInv(r) && Leads(net, r, y)
  {
    r := NetStep(net, a);
    NetStepInv(net, a);
    assert Runs(r, [], r);
    RunsFirst(net, [a], r);
    assert SilentRun(net, [a], r, y);
  }

  // ----- Tables with one neighbour and one route -----

  /** No slot from k on is in use. */
  predicate FreeFrom(t: Table, k: nat) {
    forall j :: k <= j < |t| ==> !t[j].inUse
  }

  /** The only entry is the neighbour q. */
  predicate Alone(t: Table, q: byte, weight: int, trusted: bool) {
    t != [] && t[0].Named(q) && t[0].owner == 0 && t[0].weight == weight && t[0].trusted == trusted && FreeFrom(t, 1)
  }

  /** The neighbour q is not trusted, or not even in the table yet. */
  predicate Stranger(t: Table, q: byte, weight: nat) {
    if weight == 0 then t != [] && FreeFrom(t, 0) && !t[0].trusted else Alone(t, q, weight, false)
  }

  /** A trusted neighbour q, and at most one route through it. */
  predicate Host(t: Table, q: byte, weight: int) {
    && |t| == MAX_SENDERS && FreeFrom(t, 2)
    && t[0].Named(q) && t[0].owner == 0 && t[0].trusted && t[0].weight >= weight
    && (t[1].inUse ==> t[1].owner == q)
  }

  /** That route leads to x in hops hops; more than MAX_HOPS hops are none at all. */
  predicate Routed(t: Table, q: byte, weight: int, x: byte, hops: nat) {
    && Host(t, q, weight)
    && if hops <= MAX_HOPS then t[1].Named(x) && t[1].trusted && t[1].hops == hops else !t[1].inUse
  }

  lemma TickAlone(t: Table, self: byte, q: byte, weight: int, trusted: bool)
    requires Inv(t, self) && Alone(t, q, weight, trusted)
    ensures weight > 1 ==> Alone(Tick(t), q, weight - 1, weight - 1 > WEIGHT_THRESHOLD)
    ensures weight == 1 ==> FreeFrom(Tick(t), 0) && !Tick(t)[0].trusted
  {
    assert SlotOk(t[0], self);
    assert AfterAll(t, 0) == t;
    PassFrom(t, self, 0);
    forall j | 0 <= j < |t|
      ensures Tick(t)[j] == After(t, |t|, j)
    {
    }
  }

  lemma TickRouted(t: Table, self: byte, q: byte, weight: int, x: byte, hops: nat)
    requires Inv(t, self) && Routed(t, q, weight, x, hops) && weight > WEIGHT_THRESHOLD + 1 && q != 0
    ensures Routed(Tick(t), q, weight - 1, x, hops)
  {
    forall j | 0 <= j < |t|
      ensures !t[j].inUse ==> !Tick(t)[j].inUse
    {
      TickExact(t, self, j);
    }
    TickExact(t, self, 0);
    TickExact(t, self, 1);
    assert Tick(t)[0].Named(q);
  }

  lemma TickFree(t: Table, self: byte)
    requires Inv(t, self) && FreeFrom(t, 0)
    ensures FreeFrom(Tick(t), 0)
  {
    forall j | 0 <= j < |t|
      ensures !Tick(t)[j].inUse
    {
      TickExact(t, self, j);
    }
  }

  lemma {:induction false} PairsFree(t: Table)
    requires FreeFrom(t, 0)
    ensures Pairs(t) == []
  {
    if t != [] {
      assert FreeFrom(t[1..], 0);
      PairsFree(t[1..]);
    }
  }

  lemma PairsAlone(t: Table, self: byte, q: byte, weight: int, trusted: bool)
    requires Inv(t, self) && Alone(t, q, weight, trusted)
    ensures Pairs(t) == if trusted then [q, 1] else []
  {
    assert SlotOk(t[0], self) && FreeFrom(t[1..], 0);
    PairsFree(t[1..]);
  }

  lemma PairsFaded(t: Table, self: byte, q: byte, weight: nat, trusted: bool)
    requires Inv(t, self) && Alone(t, q, weight, trusted) && weight >= 1
    ensures |Pairs(Tick(t))| <= 2
  {
    TickAlone(t, self, q, weight, trusted);
    TickFromInv(t, self, 0);
    if weight == 1 {
      PairsFree(Tick(t));
    } else {
      PairsAlone(Tick(t), self, q, weight - 1, weight - 1 > WEIGHT_THRESHOLD);
    }
  }

  lemma PairsRouted(t: Table, self: byte, q: byte, weight: int, x: byte, hops: nat)
    requires Inv(t, self) && Routed(t, q, weight, x, hops) && hops <= MAX_HOPS
    ensures Pairs(t) == Route(q, x, hops)
  {
    assert SlotOk(t[0], self) && t[1..][0] == t[1] && t[1..][1..] == t[2..];
    PairsFree(t[2..]);
    assert Pairs(t[1..]) == [x, hops] + Pairs(t[2..]);
    assert Pairs(t) == [q, 1] + Pairs(t[1..]);
  }

  /** What a node whose only route is to x tells its peer, which skips the pair about itself. */
  function Route(peer: byte, x: byte, hops: byte): (m: seq<byte>) {
    [peer, 1, x, hops]
  }

  /** What q says about x in hops hops becomes the only route through q, or none if that is too far. */
  lemma MergesRoute(t: Table, self: byte, q: byte, weight: int, x: byte, hops: byte, m: seq<byte>)
    requires Host(t, q, weight) && q != 0 && self != 0 && x != 0 && x != q && x != self && hops <= MAX_HOPS
    requires m == [x, hops] || m == Route(self, x, hops)
    ensures Routed(ProcessData(t, self, m, q), q, weight, x, hops + 1)
  {
    var u := DropChildren(t, q);
    assert u[0] == t[0] && FreeFrom(u, 1);
    assert FirstLive(u, x) == |u| && FirstFree(u) == 1;
    var i := |m| - 2;
    assert Merge(u, self, m, q, 0) == Merge(u, self, m, q, i);
    assert hops >= MAX_HOPS ==> Merge(u, self, m, q, i) == Merge(u, self, m, q, i + 2) == u;
  }

  // ----- Nodes with one reassembly slot in use -----

  /** Only q has ever had a slot, and nobody has collected fragments that are numbered. */
  predicate OneSlot(ss: Senders, q: byte) {
    && |ss| == MAX_SENDERS && ss[0].number == 0 && (if ss[0].occupied then ss[0].address == q else ss[0].data == [])
    && forall j :: 1 <= j < |ss| ==> !ss[j].occupied && ss[j].data == []
  }

  predicate Idle(ss: Senders, q: byte) {
    OneSlot(ss, q) && ss[0].data == []
  }

  predicate Filling(ss: Senders, q: byte, m: seq<byte>) {
    OneSlot(ss, q) && (ss[0].data == [] || Carries(ss[0], m))
  }

  /** Everything a node has begun to broadcast has been sent. */
  predicate Spent(n: Node) {
    n.snapshot.current >= |n.snapshot.messages|
  }

  predicate Resting(n: Node, q: byte) {
    Idle(n.senders, q) && Spent(n)
  }

  lemma {:induction false} TickIdle(t: Table, ss: Senders, i: nat, q: byte)
    requires i <= |t| && Idle(ss, q)
    ensures Idle(TickSendersFrom(t, ss, i), q)
    decreases |t| - i
  {
    if i < |t| {
      TickIdle(TickSlot(t, i), if Expires(t[i]) then DropSender(ss, t[i].id) else ss, i + 1, q);
    }
  }

  /** The ping of a node whose table fits in one message. */
  function Call(from: byte, m: seq<byte>): (p: Packet)
    ensures |p| == |m| + 4 && p[0] == from
  {
    PingPacket(from, COMMAND_PING_END, 1, m)
  }

  lemma CallIsPing(from: byte, m: seq<byte>)
    ensures IsPing(Call(from, m)) && Message(Call(from, m)) == m && Call(from, m)[|m| + 3] == 0 && Call(from, m)[2] == 1
  {
    assert Message(Call(from, m)) == m;
  }

  lemma TickCalls(n: Node, q: byte)
    requires NodeInv(n) && Resting(n, q) && |Pairs(Tick(n.table))| <= MAX_DATA_LENGTH
    ensures var (r, ping) := OnTimer(n);
      && r == n.(table := Tick(n.table), senders := r.senders, snapshot := r.snapshot)
      && Resting(r, q) && ping == Call(n.address, Pairs(Tick(n.table)))
  {
    TickIdle(n.table, n.senders, 0, q);
  }

  /** A ping from an untrusted neighbour raises its weight and does nothing else. */
  lemma HearStranger(n: Node, q: byte, m: seq<byte>, weight: nat)
    requires NodeInv(n) && q != 0 && q != n.address && |m| <= MAX_DATA_LENGTH && weight <= WEIGHT_MAX - 10
    requires Stranger(n.table, q, weight)
    ensures var (r, out) := Step(n, Hear(Call(q, m)));
      && Stranger(r.table, q, weight + 10) && r.senders == n.senders && r.snapshot == n.snapshot && out == []
  {
    assert weight == 0 ==> FirstLive(n.table, q) == |n.table| && FirstFree(n.table) == 0;
    assert weight > 0 ==> FirstLive(n.table, q) == 0;
    var u := UpdateWeight(n.table, q);
    assert FirstId(u, q) == 0 && !CheckTrusted(u, q);
  }

  /** A fragment of m goes into the slot of q: either it fills up and m is merged, or it holds more than before. */
  lemma SaveFills(t: Table, ss: Senders, self: byte, q: byte, nd: seq<byte>, m: seq<byte>)
    requires Open(ss) && Reads(nd, m) && Filling(ss, q, m)
    ensures var (r, ss') := Save(t, ss, self, q, nd, |m| + 2, 1);
      || (r == ProcessData(t, self, m, q) && Idle(ss', q))
      || (r == t && Filling(ss', q, m) && |ss[0].data| < |ss'[0].data| < MAX_DATA_LENGTH)
  {
    var claimed := Claim(ss, q).0;
    assert Claim(ss, q).1 == 0 && claimed[0].data == ss[0].data && claimed[0].number == 0;
    var s := Headed(claimed[0], 1);
    assert Matches(s, 1);
    AppendStarts(s, nd, m, m);
    var full := Append(s, nd, |m| + 2);
    assert |full.data| > |ss[0].data| && full.number == 0;
    if |full.data| >= MAX_DATA_LENGTH {
      MergeStarts(DropChildren(t, q), self, full.data, m, q, 0);
    }
  }

  /** What a ping from the trusted neighbour does. */
  lemma HearFriend(n: Node, q: byte, m: seq<byte>, weight: int)
    requires NodeInv(n) && q != 0 && q != n.address && IsMessage(m)
    requires Host(n.table, q, weight) && Filling(n.senders, q, m)
    ensures var (r, out) := Step(n, Hear(Call(q, m)));
      var u := n.table[0 := Refresh(n.table[0])];
      && r.snapshot == n.snapshot && out == []
      && (|| (r.table == ProcessData(u, n.address, m, q) && Idle(r.senders, q))
          || (r.table == u && Filling(r.senders, q, m)
              && |n.senders[0].data| < |r.senders[0].data| < MAX_DATA_LENGTH))
  {
    var p := Call(q, m);
    CallIsPing(q, m);
    PingReads(p, n.received);
    var u := n.table[0 := Refresh(n.table[0])];
    assert FirstLive(n.table, q) == 0 && u == UpdateWeight(n.table, q);
    assert FirstId(u, q) == 0 && CheckTrusted(u, q);
    SaveFills(u, n.senders, n.address, q, (p + n.received[|p|..])[3..], m);
  }

  /** A route heard from the trusted neighbour: it is stored at the latest when the slot is full. */
  lemma HearRoute(n: Node, q: byte, x: byte, hops: byte, m: seq<byte>)
    requires NodeInv(n) && q != 0 && q != n.address && x != 0 && x != q && x != n.address && 1 <= hops <= MAX_HOPS
    requires m == [x, hops] || m == Route(n.address, x, hops)
    requires Host(n.table, q, 39) && Filling(n.senders, q, m)
    ensures var (r, out) := Step(n, Hear(Call(q, m)));
      && r.snapshot == n.snapshot && out == []
      && (|| (Routed(r.table, q, 40, x, hops + 1) && Idle(r.senders, q))
          || (Host(r.table, q, 39) && Filling(r.senders, q, m)
              && |n.senders[0].data| < |r.senders[0].data| < MAX_DATA_LENGTH))
  {
    HearFriend(n, q, m, 39);
    MergesRoute(n.table[0 := Refresh(n.table[0])], n.address, q, 40, x, hops, m);
  }

  // ----- Steps of the network -----

  lemma OneOut(p: Packet)
    ensures (set q | q in [p]) == {p}
  {
  }

  lemma NetTick(net: Net, p: byte, q: byte, y: byte) returns (r: Net)
    requires NetInv(net) && p in net.nodes
    requires Resting(net.nodes[p], q) && |Pairs(Tick(net.nodes[p].table))| <= MAX_DATA_LENGTH
    ensures Leads(net, r, y) && NetInv(r) && p in r.nodes && r.nodes == net.nodes[p := r.nodes[p]]
    ensures r.nodes[p].table == Tick(net.nodes[p].table) && Resting(r.nodes[p], q)
    ensures r.air == net.air + {Call(p, Pairs(Tick(net.nodes[p].table)))}
  {
    assert NodeSound(net, p, net.nodes[p]);
    TickCalls(net.nodes[p], q);
    r := OneStep(net, Act(p, Timer), y);
    OneOut(OnTimer(net.nodes[p]).1);
  }

  lemma NetHear(net: Net, at: byte, q: byte, m: seq<byte>, y: byte) returns (r: Net)
    requires NetInv(net) && at in net.nodes && Call(q, m) in net.air && q != 0 && q != at && q != y
    requires |m| <= MAX_DATA_LENGTH
    requires NodeInv(net.nodes[at]) && net.nodes[at].address == at
    requires Step(net.nodes[at], Hear(Call(q, m))).1 == []
    ensures Leads(net, r, y) && NetInv(r) && r.air == net.air
    ensures r.nodes == net.nodes[at := Step(net.nodes[at], Hear(Call(q, m))).0]
    ensures NodeInv(r.nodes[at]) && r.nodes[at].address == at
  {
    r := OneStep(net, Act(at, Hear(Call(q, m))), y);
    assert NodeSound(r, at, r.nodes[at]);
  }

  lemma NetLose(net: Net, p: Packet, y: byte) returns (r: Net)
    requires NetInv(net) && p in net.air
    ensures Leads(net, r, y) && NetInv(r) && r.nodes == net.nodes && r.air == net.air - {p}
  {
    r := OneStep(net, Lose(p), y);
  }

  lemma NodeAt(net: Net, a: byte)
    requires NetInv(net) && a in net.nodes
    ensures NodeInv(net.nodes[a]) && net.nodes[a].address == a
  {
    assert NodeSound(net, a, net.nodes[a]);
  }

  // ----- What the three nodes do -----

  /** Only node at has moved on from net to r, and nobody has heard y. */
  ghost predicate OneMoved(net: Net, r: Net, at: byte, y: byte) {
    Leads(net, r, y) && NetInv(r) && at in net.nodes && at in r.nodes && r.nodes == net.nodes[at := r.nodes[at]]
  }

  lemma OneMovedOn(net: Net, mid: Net, r: Net, at: byte, y: byte)
    requires OneMoved(net, mid, at, y) && OneMoved(mid, r, at, y)
    ensures OneMoved(net, r, at, y)
  {
    LeadsOn(net, mid, r, y);
  }

  lemma Warms(net: Net, at: byte, q: byte, m: seq<byte>, weight: nat, y: byte) returns (r: Net)
    requires NetInv(net) && at in net.nodes && Call(q, m) in net.air && q != 0 && q != at && q != y
    requires |m| <= MAX_DATA_LENGTH && weight <= 30 && Stranger(net.nodes[at].table, q, weight)
    ensures OneMoved(net, r, at, y) && r.air == net.air && Stranger(r.nodes[at].table, q, weight + 10)
    ensures r.nodes[at].senders == net.nodes[at].senders && r.nodes[at].snapshot == net.nodes[at].snapshot
  {
    NodeAt(net, at);
    HearStranger(net.nodes[at], q, m, weight);
    r := NetHear(net, at, q, m, y);
  }

  /** Hearing a stranger four times. */
  lemma WarmsUp(net: Net, at: byte, q: byte, m: seq<byte>, y: byte) returns (r: Net)
    requires NetInv(net) && at in net.nodes && Call(q, m) in net.air && q != 0 && q != at && q != y
    requires |m| <= MAX_DATA_LENGTH && Stranger(net.nodes[at].table, q, 0)
    ensures OneMoved(net, r, at, y) && r.air == net.air && Alone(r.nodes[at].table, q, 40, false)
    ensures r.nodes[at].senders == net.nodes[at].senders && r.nodes[at].snapshot == net.nodes[at].snapshot
  {
    var r1 := Warms(net, at, q, m, 0, y);
    var r2 := Warms(r1, at, q, m, 10, y);
    OneMovedOn(net, r1, r2, at, y);
    var r3 := Warms(r2, at, q, m, 20, y);
    OneMovedOn(net, r2, r3, at, y);
    r := Warms(r3, at, q, m, 30, y);
    OneMovedOn(net, r3, r, at, y);
  }

  /** A stranger that has been heard four times is trusted after the next tick, and told to others. */
  lemma Befriends(net: Net, at: byte, q: byte, m: seq<byte>, peer: byte, y: byte) returns (r: Net)
    requires NetInv(net) && at in net.nodes && Call(q, m) in net.air && q != 0 && q != at && q != y
    requires |m| <= MAX_DATA_LENGTH
    requires var n := net.nodes[at];
      Stranger(n.table, q, 0) && Resting(n, peer)
    ensures OneMoved(net, r, at, y) && r.air == net.air + {Call(at, [q, 1])}
    ensures var n := r.nodes[at];
      Alone(n.table, q, 39, true) && Resting(n, peer)
  {
    var mid := WarmsUp(net, at, q, m, y);
    NodeAt(mid, at);
    var t := mid.nodes[at].table;
    TickAlone(t, at, q, 40, false);
    TickFromInv(t, at, 0);
    PairsAlone(Tick(t), at, q, 39, true);
    r := NetTick(mid, at, peer, y);
    OneMovedOn(net, mid, r, at, y);
  }

  /** The route is heard again and again, until the slot is full and it is stored. */
  lemma {:induction false} Learns(net: Net, at: byte, q: byte, x: byte, hops: byte, m: seq<byte>, y: byte)
      returns (r: Net)
    requires NetInv(net) && at in net.nodes && Call(q, m) in net.air && q != 0 && q != at && q != y
    requires at != 0 && x != 0 && x != q && x != at && 1 <= hops <= MAX_HOPS
    requires m == [x, hops] || m == Route(at, x, hops)
    requires Host(net.nodes[at].table, q, 39) && Filling(net.nodes[at].senders, q, m)
    ensures OneMoved(net, r, at, y) && r.air == net.air
    ensures var n := r.nodes[at];
      && Routed(n.table, q, 40, x, hops + 1) && Idle(n.senders, q)
      && n.snapshot == net.nodes[at].snapshot
    decreases MAX_DATA_LENGTH - |net.nodes[at].senders[0].data|
  {
    NodeAt(net, at);
    HearRoute(net.nodes[at], q, x, hops, m);
    r := NetHear(net, at, q, m, y);
    if !(Routed(r.nodes[at].table, q, 40, x, hops + 1) && Idle(r.nodes[at].senders, q)) {
      var mid := r;
      r := Learns(mid, at, q, x, hops, m, y);
      OneMovedOn(net, mid, r, at, y);
    }
  }

  /** A tick nobody hears of takes one off the weight of the only neighbour. */
  lemma Fades(net: Net, at: byte, q: byte, weight: nat, trusted: bool, peer: byte, y: byte) returns (r: Net)
    requires NetInv(net) && at in net.nodes && weight >= 1
    requires Alone(net.nodes[at].table, q, weight, trusted) && Resting(net.nodes[at], peer)
    ensures OneMoved(net, r, at, y) && r.air <= net.air && Resting(r.nodes[at], peer)
    ensures if weight == 1 then Stranger(r.nodes[at].table, q, 0)
      else Alone(r.nodes[at].table, q, weight - 1, weight - 1 > WEIGHT_THRESHOLD)
  {
    NodeAt(net, at);
    var t := net.nodes[at].table;
    TickAlone(t, at, q, weight, trusted);
    PairsFaded(t, at, q, weight, trusted);
    var ticked := NetTick(net, at, peer, y);
    r := NetLose(ticked, Call(at, Pairs(Tick(t))), y);
    OneMovedOn(net, ticked, r, at, y);
  }

  /** A neighbour that is no longer heard leaves the table, and what is said of it meanwhile gets lost. */
  lemma {:induction false} Forgets(net: Net, at: byte, q: byte, weight: nat, trusted: bool, peer: byte, y: byte)
      returns (r: Net)
    requires NetInv(net) && at in net.nodes && weight >= 1
    requires Alone(net.nodes[at].table, q, weight, trusted) && Resting(net.nodes[at], peer)
    ensures OneMoved(net, r, at, y) && r.air <= net.air && Resting(r.nodes[at], peer)
    ensures Stranger(r.nodes[at].table, q, 0)
    decreases weight
  {
    r := Fades(net, at, q, weight, trusted, peer, y);
    if weight > 1 {
      var mid := r;
      r := Forgets(mid, at, q, weight - 1, weight - 1 > WEIGHT_THRESHOLD, peer, y);
      OneMovedOn(net, mid, r, at, y);
    }
  }

  // ----- Three nodes -----

  /** Nodes a and b have each other as peers, x has nothing to tell, and between calls nobody is in the middle
      of anything. */
  ghost predicate Trio(net: Net, a: byte, b: byte, x: byte) {
    && NetInv(net)
    && a != 0 && b != 0 && x != 0 && a != b && a != x && b != x
    && a in net.nodes && b in net.nodes && x in net.nodes
    && (forall n :: n in net.nodes ==> n == a || n == b || n == x)
    && Resting(net.nodes[a], b) && Resting(net.nodes[b], a)
    && Resting(net.nodes[x], x) && FreeFrom(net.nodes[x].table, 0)
  }

  /** Nodes at and peer and x are still what they were, whatever at has just done. */
  ghost predicate Moved(net: Net, r: Net, at: byte, peer: byte, x: byte, y: byte) {
    && Leads(net, r, y) && Trio(r, at, peer, x)
    && at in net.nodes && peer in net.nodes && x in net.nodes
    && r.nodes[peer] == net.nodes[peer] && r.nodes[x] == net.nodes[x]
  }

  lemma TrioKept(net: Net, r: Net, at: byte, peer: byte, x: byte, y: byte)
    requires Trio(net, at, peer, x) && OneMoved(net, r, at, y) && Resting(r.nodes[at], peer)
    ensures Moved(net, r, at, peer, x, y)
  {
  }

  /** A node with one route tells its peer of it. */
  lemma Tells(net: Net, at: byte, peer: byte, x: byte, hops: byte, y: byte) returns (r: Net)
    requires Trio(net, at, peer, x) && hops <= MAX_HOPS && Routed(net.nodes[at].table, peer, 40, x, hops)
    ensures Moved(net, r, at, peer, x, y) && Routed(r.nodes[at].table, peer, 39, x, hops)
    ensures r.air == net.air + {Call(at, Route(peer, x, hops))}
  {
    NodeAt(net, at);
    var t := net.nodes[at].table;
    TickRouted(t, at, peer, 40, x, hops);
    TickFromInv(t, at, 0);
    PairsRouted(Tick(t), at, peer, 39, x, hops);
    r := NetTick(net, at, peer, y);
    TrioKept(net, r, at, peer, x, y);
  }

  /** The peer takes the route over. */
  lemma Takes(net: Net, at: byte, peer: byte, x: byte, hops: byte, m: seq<byte>, y: byte) returns (r: Net)
    requires Trio(net, at, peer, x) && Call(peer, m) in net.air && peer != y && 1 <= hops <= MAX_HOPS
    requires m == [x, hops] || m == Route(at, x, hops)
    requires Host(net.nodes[at].table, peer, 39)
    ensures Moved(net, r, at, peer, x, y) && Routed(r.nodes[at].table, peer, 40, x, hops + 1)
    ensures r.air == net.air - {Call(peer, m)}
  {
    var learnt := Learns(net, at, peer, x, hops, m, y);
    TrioKept(net, learnt, at, peer, x, y);
    r := NetLose(learnt, Call(peer, m), y);
    LeadsOn(net, learnt, r, y);
  }

  /** A node that has been free so far gets to trust its peer, or x, and says so. */
  lemma Joins(net: Net, at: byte, q: byte, m: seq<byte>, peer: byte, x: byte, y: byte) returns (r: Net)
    requires Trio(net, at, peer, x) && Call(q, m) in net.air && (q == peer || q == x) && q != y
    requires |m| <= MAX_DATA_LENGTH && Stranger(net.nodes[at].table, q, 0)
    ensures Moved(net, r, at, peer, x, y) && Alone(r.nodes[at].table, q, 39, true)
    ensures r.air == net.air + {Call(at, [q, 1])}
  {
    r := Befriends(net, at, q, m, peer, y);
    TrioKept(net, r, at, peer, x, y);
  }

  /** The same, but nobody gets to hear of it. */
  lemma JoinsUnnoticed(net: Net, at: byte, m: seq<byte>, peer: byte, x: byte, y: byte) returns (r: Net)
    requires Trio(net, at, peer, x) && Call(peer, m) in net.air && peer != y
    requires |m| <= MAX_DATA_LENGTH && Stranger(net.nodes[at].table, peer, 0)
    ensures Moved(net, r, at, peer, x, y) && Alone(r.nodes[at].table, peer, 39, true)
    ensures r.air == net.air - {Call(at, [peer, 1])}
  {
    var joined := Joins(net, at, peer, m, peer, x, y);
    r := NetLose(joined, Call(at, [peer, 1]), y);
    LeadsOn(net, joined, r, y);
  }

  lemma LosesSight(net: Net, at: byte, peer: byte, x: byte, y: byte) returns (r: Net)
    requires Trio(net, at, peer, x) && Alone(net.nodes[at].table, x, 39, true)
    ensures Moved(net, r, at, peer, x, y) && Stranger(r.nodes[at].table, peer, 0) && r.air <= net.air
  {
    r := Forgets(net, at, x, 39, true, peer, y);
    TrioKept(net, r, at, peer, x, y);
  }

  // ----- Counting up -----

  /** Apart from the empty ping of x, just these packets are in flight. */
  predicate Flying(air: set<Packet>, x: byte, packets: set<Packet>) {
    packets <= air && forall p :: p in air ==> p in packets || p == Call(x, [])
  }

  /** A packet that has been sent and is lost again leaves nothing behind. */
  lemma FlyingOn(air: set<Packet>, more: set<Packet>, less: set<Packet>, x: byte, packets: set<Packet>, p: Packet)
    requires Flying(air, x, packets) && p !in packets && more == air + {p} && less == more - {p}
    ensures Flying(less, x, packets)
  {
  }

  lemma FlyingWith(air: set<Packet>, x: byte, p: Packet, q: Packet)
    requires air == {} + {Call(x, [])} + {p} - {q} && p != q
    ensures Flying(air, x, {p})
  {
  }

  lemma CallsDiffer(a: byte, m: seq<byte>, b: byte, n: seq<byte>)
    requires a != b
    ensures Call(a, m) != Call(b, n)
  {
    assert Call(a, m)[0] == a && Call(b, n)[0] == b;
  }

  /** Node q goes through p to x in hops hops, and p through q in one more, if that is not too far. */
  ghost predicate Counting(net: Net, p: byte, q: byte, x: byte, hops: nat) {
    && Trio(net, p, q, x) && Flying(net.air, x, {})
    && Routed(net.nodes[p].table, q, 40, x, hops + 1) && Routed(net.nodes[q].table, p, 39, x, hops)
  }

  /** The least hop count recorded for x anywhere is hops, and a live entry says so. */
  ghost predicate Youngest(net: Net, x: byte, hops: nat) {
    && Age(net, x, hops)
    && exists a, i :: a in net.nodes && 0 <= i < |net.nodes[a].table| && net.nodes[a].table[i].Named(x)
         && net.nodes[a].table[i].hops == hops
  }

  lemma RestingAge(n: Node, q: byte, x: byte, k: nat)
    requires Resting(n, q) && TableAge(n.table, x, k)
    ensures NodeAge(n, x, k)
  {
    assert DataAge([], x, k);
  }

  lemma CountingAge(net: Net, p: byte, q: byte, x: byte, hops: nat)
    requires Counting(net, p, q, x, hops) && hops <= MAX_HOPS
    ensures Age(net, x, hops)
  {
    RestingAge(net.nodes[p], q, x, hops);
    RestingAge(net.nodes[q], p, x, hops);
    RestingAge(net.nodes[x], x, x, hops);
    assert DataAge([], x, hops);
    CallIsPing(x, []);
  }

  lemma CountingIs(net: Net, p: byte, q: byte, x: byte, hops: nat)
    requires Counting(net, p, q, x, hops) && hops <= MAX_HOPS
    ensures Youngest(net, x, hops)
  {
    CountingAge(net, p, q, x, hops);
    assert net.nodes[q].table[1].Named(x);
  }

  /** The next hop count: p tells q, and q forgets its route through p for the longer one. */
  lemma Climbs(net: Net, p: byte, q: byte, x: byte, hops: nat) returns (r: Net)
    requires Counting(net, p, q, x, hops) && 1 <= hops < MAX_HOPS
    ensures Leads(net, r, x) && Counting(r, q, p, x, hops + 1)
  {
    var next: byte := hops + 1;
    var told := Tells(net, p, q, x, next, x);
    r := Takes(told, q, p, x, next, Route(q, x, next), x);
    LeadsOn(net, told, r, x);
    FlyingOn(net.air, told.air, r.air, x, {}, Call(p, Route(q, x, next)));
  }

  lemma StartTrio(a: byte, b: byte, x: byte, key: seq<byte>)
    requires a != 0 && b != 0 && x != 0 && a != b && a != x && b != x && key != []
    ensures var start := Start({a, b, x}, key);
      && Reachable({a, b, x}, key, start) && Trio(start, a, b, x) && start.air == {}
      && Stranger(start.nodes[a].table, b, 0) && Stranger(start.nodes[b].table, x, 0)
  {
    StartReachable({a, b, x}, key);
    StartInv({a, b, x}, key);
  }

  /** Node x is heard of. */
  lemma Appears(net: Net, a: byte, b: byte, x: byte, y: byte) returns (r: Net)
    requires Trio(net, a, b, x)
    ensures Leads(net, r, y) && Trio(r, a, b, x) && r.air == net.air + {Call(x, [])}
    ensures r.nodes[a] == net.nodes[a] && r.nodes[b] == net.nodes[b]
  {
    NodeAt(net, x);
    TickFree(net.nodes[x].table, x);
    PairsFree(Tick(net.nodes[x].table));
    r := NetTick(net, x, x, y);
  }

  /** Node b gets to know x, and a gets to know b. */
  lemma Meets(net: Net, a: byte, b: byte, x: byte) returns (r: Net)
    requires Trio(net, a, b, x) && net.air == {}
    requires Stranger(net.nodes[a].table, b, 0) && Stranger(net.nodes[b].table, x, 0)
    ensures Leads(net, r, 0) && Trio(r, a, b, x) && Flying(r.air, x, {Call(b, [x, 1])})
    ensures Alone(r.nodes[a].table, b, 39, true) && Alone(r.nodes[b].table, x, 39, true)
  {
    CallsDiffer(a, [b, 1], b, [x, 1]);
    var started := Appears(net, a, b, x, 0);
    var joined := Joins(started, b, x, [], a, x, 0);
    LeadsOn(net, started, joined, 0);
    r := JoinsUnnoticed(joined, a, [x, 1], b, x, 0);
    LeadsOn(net, joined, r, 0);
    FlyingWith(r.air, x, Call(b, [x, 1]), Call(a, [b, 1]));
  }

  /** Node a learns of x through b, and b, which does not hear x any more, forgets it. */
  lemma LosesTouch(net: Net, a: byte, b: byte, x: byte) returns (r: Net)
    requires Trio(net, a, b, x) && Flying(net.air, x, {Call(b, [x, 1])})
    requires Alone(net.nodes[a].table, b, 39, true) && Alone(net.nodes[b].table, x, 39, true)
    ensures Leads(net, r, x) && Trio(r, a, b, x) && Flying(r.air, x, {})
    ensures Routed(r.nodes[a].table, b, 40, x, 2) && Stranger(r.nodes[b].table, a, 0)
  {
    NodeAt(net, a);
    var taken := Takes(net, a, b, x, 1, [x, 1], x);
    r := LosesSight(taken, b, a, x, x);
    LeadsOn(net, taken, r, x);
  }

  /** Now b gets to know a, and believes what a says about x. */
  lemma Believes(net: Net, a: byte, b: byte, x: byte) returns (r: Net)
    requires Trio(net, a, b, x) && Flying(net.air, x, {})
    requires Routed(net.nodes[a].table, b, 40, x, 2) && Stranger(net.nodes[b].table, a, 0)
    ensures Leads(net, r, x) && Counting(r, b, a, x, 2)
  {
    var told := Tells(net, a, b, x, 2, x);
    var joined := JoinsUnnoticed(told, b, Route(b, x, 2), a, x, x);
    LeadsOn(net, told, joined, x);
    NodeAt(joined, b);
    r := Takes(joined, b, a, x, 2, Route(b, x, 2), x);
    LeadsOn(net, joined, r, x);
  }

  lemma {:induction false} ClimbsTo(net: Net, p: byte, q: byte, x: byte, hops: nat, top: nat) returns (r: Net)
    requires Counting(net, p, q, x, hops) && 1 <= hops <= top <= MAX_HOPS
    ensures Leads(net, r, x) && Youngest(r, x, top)
    decreases top - hops
  {
    if hops == top {
      r := net;
      LeadsNowhere(net, x);
      CountingIs(net, p, q, x, hops);
    } else {
      var next := Climbs(net, p, q, x, hops);
      r := ClimbsTo(next, q, p, x, hops + 1, top);
      LeadsOn(net, next, r, x);
    }
  }

  /**
   * Counting to infinity happens. Any three nodes with any key can get into a state in which the youngest copy of x is
   * a live route of two hops, and from there, without anybody hearing x again, into one in which it is a live route of
   * any number of hops up to MAX_HOPS.
   */
  lemma GhostCountsUp(a: byte, b: byte, x: byte, key: seq<byte>, top: nat) returns (ghosts: Net, net: Net)
    requires a != 0 && b != 0 && x != 0 && a != b && a != x && b != x && key != [] && 2 <= top <= MAX_HOPS
    ensures Reachable({a, b, x}, key, ghosts) && Youngest(ghosts, x, 2)
    ensures Leads(ghosts, net, x) && Reachable({a, b, x}, key, net) && Youngest(net, x, top)
  {
    var start := Start({a, b, x}, key);
    StartTrio(a, b, x, key);
    var met := Meets(start, a, b, x);
    LeadsReachable({a, b, x}, key, start, met, 0);
    var lost := LosesTouch(met, a, b, x);
    LeadsReachable({a, b, x}, key, met, lost, x);
    ghosts := Believes(lost, a, b, x);
    LeadsReachable({a, b, x}, key, lost, ghosts, x);
    CountingIs(ghosts, b, a, x, 2);
    net := ClimbsTo(ghosts, b, a, x, 2, top);
    LeadsReachable({a, b, x}, key, ghosts, net, x);
  }
}
