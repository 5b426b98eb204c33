/** What holds over whole runs of one node, whatever it hears and in whatever order. */
module NodeRuns {
  import opened Bytes
  import opened MeshConfig
  import opened RouteTable
  import opened TickRule
  import opened Reassembly
  import opened Snapshot
  import opened Node

  predicate Legal(self: byte, es: seq<Event>) {
    forall i :: 0 <= i < |es| ==> Enabled(self, es[i])
  }

  /** The node after the events es. */
  ghost function Run(n: Node, es: seq<Event>): (r: Node)
    requires NodeInv(n) && Legal(n.address, es)
    ensures NodeInv(r) && r.address == n.address && r.key == n.key
    decreases |es|
  {
    if es == [] then n
    else
      StepInv(n, es[0]);
      Run(Step(n, es[0]).0, es[1..])
  }

  /** The pings sent on the way. */
  ghost function Pings(n: Node, es: seq<Event>): (r: seq<Packet>)
    requires NodeInv(n) && Legal(n.address, es)
    decreases |es|
  {
    if es == [] then []
    else
      StepInv(n, es[0]);
      var rest := Pings(Step(n, es[0]).0, es[1..]);
      if es[0].Timer? then [OnTimer(n).1] + rest else rest
  }

  function Timers(es: seq<Event>): nat {
    if es == [] then 0 else (if es[0].Timer? then 1 else 0) + Timers(es[1..])
  }

  // ----- The two-level forest -----

  /** The states a node can be in. */
  ghost function Reached(address: byte, key: seq<byte>, es: seq<Event>): (r: Node)
    requires address != 0 && key != [] && Legal(address, es)
    ensures NodeInv(r) && r.address == address
  {
    BootInv(address, key);
    Run(Boot(address, key), es)
  }

  /**
   * In every reachable state live addresses are distinct and never the node's own, and each live entry is either
   * a neighbour at one hop or is reached through an owner that is itself a live, direct, trusted neighbour.
   */
  lemma ReachableForest(address: byte, key: seq<byte>, es: seq<Event>, i: nat)
    requires address != 0 && key != [] && Legal(address, es)
    requires i < MAX_SENDERS && Reached(address, key, es).table[i].inUse
    ensures var t := Reached(address, key, es).table;
      && (t[i].owner == 0 ==> t[i].hops == 1)
      && (t[i].owner != 0 ==> TrustedNeighbour(t, t[i].owner))
      && 1 <= t[i].hops <= MAX_HOPS && t[i].id != address
      && forall j :: 0 <= j < MAX_SENDERS && t[j].Named(t[i].id) ==> j == i
  {
    var t := Reached(address, key, es).table;
    assert SlotOk(t[i], address);
    forall j | 0 <= j < MAX_SENDERS && t[j].Named(t[i].id)
      ensures j == i
    {
      LiveIsUnique(t, i, j);
    }
  }

  /** A live one-hop neighbour with address a. */
  predicate Neighbour(t: Table, a: byte) {
    exists k :: 0 <= k < |t| && t[k].Named(a) && t[k].owner == 0 && t[k].hops == 1
  }

  /** Whatever packet sendRadioData builds is handed to a live one-hop neighbour. */
  lemma SentToNeighbour(n: Node, target: byte, data: seq<byte>, encrypt: bool)
    requires NodeInv(n) && SendData(n, target, data, encrypt).Some?
    ensures Neighbour(n.table, SendData(n, target, data, encrypt).value[2])
  {
    var k := FirstLive(n.table, target);
    if n.table[k].owner != 0 {
      var m :| 0 <= m < |n.table| && n.table[m].Named(n.table[k].owner) && n.table[m].owner == 0 && n.table[m].trusted;
      assert SlotOk(n.table[m], n.address);
    }
  }

  // ----- What merging a neighbour table leaves alone -----

  /** Direct entries come from t unchanged, and trusted direct entries of t all stay. */
  predicate KeepsNeighbours(t: Table, r: Table)
    requires |r| == |t|
  {
    && (forall i :: 0 <= i < |t| && r[i].Direct() ==> r[i] == t[i])
    && (forall i :: 0 <= i < |t| && t[i].Direct() && t[i].trusted ==> r[i] == t[i])
  }

  lemma {:induction false} MergeKeeps(t: Table, self: byte, data: seq<byte>, owner: byte, i: nat)
    requires forall k :: 0 <= k < |t| ==> SlotOk(t[k], self)
    requires owner != 0 && i % 2 == 0 && |data| % 2 == 0
    ensures KeepsNeighbours(t, Merge(t, self, data, owner, i))
    decreases |data| - i
  {
    if i < |data| && data[i] != 0 {
      if data[i] == self || data[i + 1] >= MAX_HOPS || !HasRoom(t, data[i]) {
        MergeKeeps(t, self, data, owner, i + 2);
      }
    }
  }

  lemma ProcessDataKeeps(t: Table, self: byte, data: seq<byte>, owner: byte)
    requires forall k :: 0 <= k < |t| ==> SlotOk(t[k], self)
    requires owner != 0 && |data| % 2 == 0
    ensures KeepsNeighbours(t, ProcessData(t, self, data, owner))
  {
    MergeKeeps(DropChildren(t, owner), self, data, owner, 0);
  }

  lemma SaveKeeps(t: Table, ss: Senders, self: byte, a: byte, nd: seq<byte>, len: nat, index: byte)
    requires forall k :: 0 <= k < |t| ==> SlotOk(t[k], self)
    requires a != 0 && Open(ss) && |nd| >= MAX_DATA_LENGTH
    ensures KeepsNeighbours(t, Save(t, ss, self, a, nd, len, index).0)
  {
    var (claimed, k) := Claim(ss, a);
    if k < |ss| {
      var s := Headed(claimed[k], index);
      if Matches(s, index) && |Append(s, nd, len).data| >= MAX_DATA_LENGTH {
        ProcessDataKeeps(t, self, Append(s, nd, len).data, a);
      }
    }
  }

  /** Hearing p first updates the sender's own entry; the rest of the work leaves neighbours alone. */
  lemma HearKeeps(n: Node, p: Packet)
    requires NodeInv(n) && Receivable(n.address, p)
    ensures KeepsNeighbours(UpdateWeight(n.table, p[0]), Step(n, Hear(p)).0.table)
  {
    UpdateWeightInv(n.table, n.address, p[0]);
    var m := n.(newData := true, received := p + n.received[|p|..], table := UpdateWeight(n.table, p[0]));
    SaveKeeps(m.table, m.senders, m.address, p[0], m.received[3..], |p| - 2, m.received[2]);
  }

  // ----- Silence -----

  /** No packet from x is heard. */
  predicate Quiet(es: seq<Event>, x: byte) {
    forall i :: 0 <= i < |es| && es[i].Hear? && |es[i].packet| > 0 ==> es[i].packet[0] != x
  }

  /** If x is a neighbour at all, its weight has come down by k. */
  predicate Cooled(t: Table, x: byte, k: nat) {
    forall i :: 0 <= i < |t| && t[i].Named(x) && t[i].owner == 0 ==> t[i].weight <= WEIGHT_MAX - k
  }

  lemma TickCools(t: Table, self: byte, x: byte, k: nat)
    requires Inv(t, self) && Cooled(t, x, k)
    ensures Cooled(Tick(t), x, k + 1)
  {
    var r := Tick(t);
    forall i | 0 <= i < |r| && r[i].Named(x) && r[i].owner == 0
      ensures r[i].weight <= WEIGHT_MAX - (k + 1)
    {
      TickExact(t, self, i);
    }
  }

  lemma StepCools(n: Node, e: Event, x: byte, k: nat)
    requires NodeInv(n) && Enabled(n.address, e) && Cooled(n.table, x, k)
    requires e.Hear? ==> e.packet[0] != x
    ensures Cooled(Step(n, e).0.table, x, if e.Timer? then k + 1 else k)
  {
    match e
    case Timer =>
      TickCools(n.table, n.address, x, k);
    case Hear(p) =>
      HearKeeps(n, p);
      assert Cooled(UpdateWeight(n.table, p[0]), x, k);
    case Poll =>
    case Fetch =>
    case Transmit(_, _, _) =>
  }

  lemma {:induction false} RunCools(n: Node, es: seq<Event>, x: byte, k: nat)
    requires NodeInv(n) && Legal(n.address, es) && Quiet(es, x) && Cooled(n.table, x, k)
    ensures Cooled(Run(n, es).table, x, k + Timers(es))
    decreases |es|
  {
    if es != [] {
      StepInv(n, es[0]);
      StepCools(n, es[0], x, k);
      RunCools(Step(n, es[0]).0, es[1..], x, if es[0].Timer? then k + 1 else k);
    }
  }

  /** Every trusted neighbour is above the threshold, except one that was heard since the last tick. */
  predicate TrustEarned(t: Table, x: byte) {
    forall i :: 0 <= i < |t| && t[i].Named(x) && t[i].owner == 0 && t[i].trusted ==> t[i].weight > WEIGHT_THRESHOLD
  }

  lemma StepEarns(n: Node, e: Event, x: byte)
    requires NodeInv(n) && Enabled(n.address, e) && (e.Timer? || TrustEarned(n.table, x))
    requires e.Hear? ==> e.packet[0] != x
    ensures TrustEarned(Step(n, e).0.table, x)
  {
    var r := Step(n, e).0.table;
    match e
    case Timer =>
      forall i | 0 <= i < |r| && r[i].Named(x) && r[i].owner == 0 && r[i].trusted
        ensures r[i].weight > WEIGHT_THRESHOLD
      {
        TickExact(n.table, n.address, i);
      }
    case Hear(p) =>
      HearKeeps(n, p);
      assert TrustEarned(UpdateWeight(n.table, p[0]), x);
    case Poll =>
    case Fetch =>
    case Transmit(_, _, _) =>
  }

  lemma {:induction false} RunEarns(n: Node, es: seq<Event>, x: byte)
    requires NodeInv(n) && Legal(n.address, es) && Quiet(es, x)
    requires TrustEarned(n.table, x) || Timers(es) > 0
    ensures TrustEarned(Run(n, es).table, x)
    decreases |es|
  {
    if es != [] {
      StepInv(n, es[0]);
      if es[0].Timer? || TrustEarned(n.table, x) {
        StepEarns(n, es[0], x);
      }
      RunEarns(Step(n, es[0]).0, es[1..], x);
    }
  }

  /**
   * After 40 ticks without a packet from x nothing is reached through x any more, whatever else was heard;
   * after 70 ticks x is not a neighbour either.
   */
  lemma Silence(n: Node, es: seq<Event>, x: byte)
    requires NodeInv(n) && Legal(n.address, es) && Quiet(es, x) && x != 0
    ensures Timers(es) >= 40 ==>
      forall i :: 0 <= i < MAX_SENDERS && Run(n, es).table[i].inUse ==> Run(n, es).table[i].owner != x
    ensures Timers(es) >= 70 ==> !Neighbour(Run(n, es).table, x)
  {
    var t := Run(n, es).table;
    forall i | 0 <= i < |n.table|
      ensures n.table[i].weight <= WEIGHT_MAX
    {
      assert SlotOk(n.table[i], n.address);
    }
    RunCools(n, es, x, 0);
    if Timers(es) >= 40 {
      RunEarns(n, es, x);
      assert !TrustedNeighbour(t, x);
    }
    if Timers(es) >= 70 {
      forall k | 0 <= k < |t|
        ensures !(t[k].Named(x) && t[k].owner == 0)
      {
        assert SlotOk(t[k], n.address);
      }
    }
  }

  // ----- Keep-alive -----

  /** Slot i holds x as a trusted neighbour that has gone c ticks without being heard. */
  predicate Kept(t: Table, i: nat, x: byte, c: nat) {
    i < |t| && t[i].Named(x) && t[i].owner == 0 && t[i].trusted && t[i].weight >= 41 - c
  }

  /** How many ticks x has gone unheard after event e. */
  function Gap(e: Event, x: byte, c: nat): nat {
    match e
    case Timer => c + 1
    case Hear(p) => if |p| > 0 && p[0] == x then 0 else c
    case _ => c
  }

  /** Starting c ticks after x was last heard, x is heard at least once in every ten ticks. */
  predicate HeardOften(es: seq<Event>, x: byte, c: nat)
    decreases |es|
  {
    c <= 10 && (es == [] || HeardOften(es[1..], x, Gap(es[0], x, c)))
  }

  lemma StepKeeps(n: Node, e: Event, i: nat, x: byte, c: nat)
    requires NodeInv(n) && Enabled(n.address, e) && Kept(n.table, i, x, c)
    requires c <= 10 && Gap(e, x, c) <= 10
    ensures Kept(Step(n, e).0.table, i, x, Gap(e, x, c))
  {
    match e
    case Timer => TickExact(n.table, n.address, i);
    case Hear(p) =>
      HearKeeps(n, p);
      if p[0] == x {
        FirstLiveIs(n.table, i);
      }
      var u := UpdateWeight(n.table, p[0]);
      assert Kept(u, i, x, Gap(e, x, c));
      assert u[i].Direct();
    case Poll =>
    case Fetch =>
    case Transmit(_, _, _) =>
  }

  /** A trusted neighbour at weight 41 or more that is heard at least once in ten ticks stays one, in its slot. */
  lemma {:induction false} KeepAlive(n: Node, es: seq<Event>, i: nat, x: byte, c: nat)
    requires NodeInv(n) && Legal(n.address, es) && Kept(n.table, i, x, c)
    requires HeardOften(es, x, c)
    ensures Kept(Run(n, es).table, i, x, 10)
    decreases |es|
  {
    if es != [] {
      StepInv(n, es[0]);
      StepKeeps(n, es[0], i, x, c);
      KeepAlive(Step(n, es[0]).0, es[1..], i, x, Gap(es[0], x, c));
    }
  }

  // ----- Broadcasting a snapshot -----

  /** The ping that carries message k of a snapshot. */
  function PingAt(messages: seq<seq<byte>>, self: byte, k: nat): Packet
    requires k < |messages|
  {
    PingPacket(self, if k + 1 == |messages| then COMMAND_PING_END else COMMAND_PING,
               IndexByte(k, |messages|), messages[k])
  }

  /** The pings that carry messages k, k + 1, ..., k + count - 1. */
  function PingsFrom(messages: seq<seq<byte>>, self: byte, k: nat, count: nat): (r: seq<Packet>)
    requires k + count <= |messages|
    decreases count
  {
    if count == 0 then [] else [PingAt(messages, self, k)] + PingsFrom(messages, self, k + 1, count - 1)
  }

  lemma StepSnapshot(n: Node, e: Event)
    requires NodeInv(n) && Enabled(n.address, e)
    ensures !e.Timer? ==> Step(n, e).0.snapshot == n.snapshot
    ensures e.Timer? && n.snapshot.current < |n.snapshot.messages| ==>
      && Step(n, e).0.snapshot == n.snapshot.(current := n.snapshot.current + 1)
      && OnTimer(n).1 == PingAt(n.snapshot.messages, n.address, n.snapshot.current)
  {
  }

  /** Only the timer moves the snapshot, one message a tick while there is one. */
  lemma {:induction false} SnapshotMoves(n: Node, es: seq<Event>)
    requires NodeInv(n) && Legal(n.address, es)
    requires Timers(es) <= |n.snapshot.messages| - n.snapshot.current
    ensures Run(n, es).snapshot == n.snapshot.(current := n.snapshot.current + Timers(es))
    decreases |es|
  {
    if es != [] {
      StepInv(n, es[0]);
      StepSnapshot(n, es[0]);
      SnapshotMoves(Step(n, es[0]).0, es[1..]);
    }
  }

  /** A tick puts the snapshot's next message in front of those that later ticks send. */
  lemma TimerSendsNext(n: Node, es: seq<Event>, rest: seq<Packet>)
    requires NodeInv(n) && Legal(n.address, es) && es != [] && es[0].Timer?
    requires n.snapshot.current + Timers(es) <= |n.snapshot.messages|
    requires rest == PingsFrom(n.snapshot.messages, n.address, n.snapshot.current + 1, Timers(es[1..]))
    ensures [OnTimer(n).1] + rest == PingsFrom(n.snapshot.messages, n.address, n.snapshot.current, Timers(es))
  {
    StepSnapshot(n, Timer);
  }

  /** A run sends what its first event sends, and then what the rest sends. */
  lemma PingsGoOn(n: Node, es: seq<Event>)
    requires NodeInv(n) && Legal(n.address, es) && es != []
    ensures var m := Step(n, es[0]).0;
      && NodeInv(m) && m.address == n.address && Legal(m.address, es[1..])
      && Pings(n, es) == if es[0].Timer? then [OnTimer(n).1] + Pings(m, es[1..]) else Pings(m, es[1..])
  {
    StepInv(n, es[0]);
  }

  /** Each tick sends the snapshot's next message. */
  lemma {:induction false} PingsInOrder(n: Node, es: seq<Event>)
    requires NodeInv(n) && Legal(n.address, es)
    requires Timers(es) <= |n.snapshot.messages| - n.snapshot.current
    ensures Pings(n, es) == PingsFrom(n.snapshot.messages, n.address, n.snapshot.current, Timers(es))
    decreases |es|
  {
    if es != [] {
      var m := Step(n, es[0]).0;
      PingsGoOn(n, es);
      StepSnapshot(n, es[0]);
      PingsInOrder(m, es[1..]);
      if es[0].Timer? {
        TimerSendsNext(n, es, Pings(m, es[1..]));
      }
    }
  }

  /**
   * One broadcast cycle. Once the last message is out, the next tick takes a snapshot of the table as that tick
   * leaves it, and that tick and the ticks after it send each of its messages once and in order, whatever else
   * happens in between: index bytes and PING_END as PingAt lays them out, and the messages joined are exactly
   * the pairs of the live trusted entries.
   */
  lemma BroadcastCycle(n: Node, es: seq<Event>)
    requires NodeInv(n) && Legal(n.address, es)
    requires n.snapshot.current == |n.snapshot.messages|
    requires es != [] && es[0] == Timer
    requires Timers(es) == |Chunks(Pairs(Tick(n.table)))| > 0
    ensures var messages := Chunks(Pairs(Tick(n.table)));
      && Concat(messages) == Pairs(Tick(n.table))
      && Pings(n, es) == PingsFrom(messages, n.address, 0, |messages|)
      && Run(n, es).snapshot == Snapshot(messages, |messages|)
  {
    var m := Step(n, Timer).0;
    StepInv(n, Timer);
    ChunksShape(Pairs(Tick(n.table)));
    assert m.snapshot == Snapshot(Chunks(Pairs(Tick(n.table))), 1);
    PingsInOrder(m, es[1..]);
    SnapshotMoves(m, es[1..]);
  }

  /** With nothing to advertise, the tick sends the empty ping. */
  lemma EmptyBroadcast(n: Node)
    requires NodeInv(n) && n.snapshot.current == |n.snapshot.messages|
    requires forall id: byte, hops: byte :: !Advertised(Tick(n.table), id, hops)
    ensures OnTimer(n).1 == PingPacket(n.address, COMMAND_PING_END, 0x01, [])
    ensures OnTimer(n).0.snapshot.current == |OnTimer(n).0.snapshot.messages|
  {
    var t := Tick(n.table);
    if Pairs(t) != [] {
      PairsExact(t, Pairs(t)[0], Pairs(t)[1]);
      assert PairAt(Pairs(t), 0, Pairs(t)[0], Pairs(t)[1]);
    }
  }
}
