/** The chunked snapshot of a node's routes, and the pings that broadcast it. */
module Snapshot {
  import opened Bytes
  import opened MeshConfig
  import opened RouteTable

  type Packet = seq<byte>

  /** Messages still to be broadcast: messages[current..]. */
  datatype Snapshot = Snapshot(messages: seq<seq<byte>>, current: nat)

  /** The (id, hops) pairs of the live trusted entries, in slot order. */
  function Pairs(t: Table): (r: seq<byte>)
    ensures |r| % 2 == 0 && |r| <= 2 * |t|
  {
    if t == [] then []
    else (if t[0].inUse && t[0].trusted then [t[0].id, t[0].hops] else []) + Pairs(t[1..])
  }

  /** The pairs cut into messages of MAX_DATA_LENGTH bytes. */
  function Chunks(s: seq<byte>): (r: seq<seq<byte>>) {
    if s == [] then []
    else if |s| <= MAX_DATA_LENGTH then [s]
    else [s[..MAX_DATA_LENGTH]] + Chunks(s[MAX_DATA_LENGTH..])
  }

  function Concat(ms: seq<seq<byte>>): seq<byte> {
    if ms == [] then [] else ms[0] + Concat(ms[1..])
  }

  /** The byte that carries a message's number and the message count, four bits each. */
  function IndexByte(current: nat, total: nat): byte {
    current * 16 % 256 + total % 16
  }

  function PingPacket(self: byte, command: byte, index: byte, message: seq<byte>): (p: Packet)
    ensures |p| == |message| + 4 && p[0] == self && p[1] == command
  {
    [self, command, index] + message + [0]
  }

  /** The snapshot the next ping is taken from: a fresh one once the last has been sent. */
  function Renewed(s: Snapshot, t: Table): Snapshot {
    if s.current >= |s.messages| then Snapshot(Chunks(Pairs(t)), 0) else s
  }

  function NextPing(s: Snapshot, t: Table, self: byte): (Snapshot, Packet) {
    var r := Renewed(s, t);
    if r.current < |r.messages| then
      var command := if r.current + 1 == |r.messages| then COMMAND_PING_END else COMMAND_PING;
      var index := IndexByte(r.current, |r.messages|);
      (r.(current := r.current + 1), PingPacket(self, command, index, r.messages[r.current]))
    else (r, PingPacket(self, COMMAND_PING_END, 0x01, []))
  }

  // ----- What the messages are -----

  /** A message as a snapshot holds it: whole pairs, no zero id. */
  predicate IsMessage(m: seq<byte>) {
    |m| % 2 == 0 && |m| <= MAX_DATA_LENGTH && forall i :: 0 <= i < |m| && i % 2 == 0 ==> m[i] != 0
  }

  lemma {:induction false} ChunksShape(s: seq<byte>)
    ensures Concat(Chunks(s)) == s
    ensures |Chunks(s)| == (|s| + MAX_DATA_LENGTH - 1) / MAX_DATA_LENGTH
    ensures forall k :: 0 <= k < |Chunks(s)| ==> 0 < |Chunks(s)[k]| <= MAX_DATA_LENGTH
    ensures forall k :: 0 <= k < |Chunks(s)| - 1 ==> |Chunks(s)[k]| == MAX_DATA_LENGTH
  {
    if |s| > MAX_DATA_LENGTH {
      ChunksShape(s[MAX_DATA_LENGTH..]);
    } else if s != [] {
      assert Concat([s]) == s + Concat([]);
    }
  }

  predicate Advertises(e: Entry, id: byte, hops: byte) {
    e.inUse && e.trusted && e.id == id && e.hops == hops
  }

  /** Some live trusted entry says that id is hops away. */
  predicate Advertised(t: Table, id: byte, hops: byte) {
    exists k :: 0 <= k < |t| && Advertises(t[k], id, hops)
  }

  predicate PairAt(s: seq<byte>, i: int, id: byte, hops: byte) {
    0 <= i < |s| - 1 && i % 2 == 0 && s[i] == id && s[i + 1] == hops
  }

  ghost predicate Listed(s: seq<byte>, id: byte, hops: byte) {
    exists i :: PairAt(s, i, id, hops)
  }

  lemma ListedAppend(a: seq<byte>, b: seq<byte>, id: byte, hops: byte)
    requires |a| % 2 == 0
    ensures Listed(a + b, id, hops) <==> Listed(a, id, hops) || Listed(b, id, hops)
  {
    if i :| PairAt(a + b, i, id, hops) {
      assert PairAt(a, i, id, hops) || PairAt(b, i - |a|, id, hops);
    }
    if i :| PairAt(a, i, id, hops) {
      assert PairAt(a + b, i, id, hops);
    }
    if i :| PairAt(b, i, id, hops) {
      assert PairAt(a + b, i + |a|, id, hops);
    }
  }

  lemma AdvertisedCons(t: Table, id: byte, hops: byte)
    requires t != []
    ensures Advertised(t, id, hops) <==> Advertises(t[0], id, hops) || Advertised(t[1..], id, hops)
  {
    if k :| 0 <= k < |t[1..]| && Advertises(t[1..][k], id, hops) {
      assert Advertises(t[k + 1], id, hops);
    }
    if k :| 0 < k < |t| && Advertises(t[k], id, hops) {
      assert Advertises(t[1..][k - 1], id, hops);
    }
  }

  /** What is broadcast is what the live trusted entries say, no more and no less. */
  lemma {:induction false} PairsExact(t: Table, id: byte, hops: byte)
    ensures Listed(Pairs(t), id, hops) <==> Advertised(t, id, hops)
  {
    if t != [] {
      var head := if t[0].inUse && t[0].trusted then [t[0].id, t[0].hops] else [];
      PairsExact(t[1..], id, hops);
      AdvertisedCons(t, id, hops);
      ListedAppend(head, Pairs(t[1..]), id, hops);
      if Advertises(t[0], id, hops) {
        assert PairAt(head, 0, id, hops);
      }
    }
  }

  /** How many of the slots from i to k are live and trusted. */
  function TrustedIn(t: Table, i: nat, k: nat): nat
    requires k <= |t|
    decreases |t| - i
  {
    if i >= k then 0 else (if t[i].inUse && t[i].trusted then 1 else 0) + TrustedIn(t, i + 1, k)
  }

  /** The pairs of the slots from i on. */
  lemma PairsStep(t: Table, i: nat)
    requires i < |t|
    ensures Pairs(t[i..]) == (if t[i].inUse && t[i].trusted then [t[i].id, t[i].hops] else []) + Pairs(t[i + 1..])
  {
    assert t[i..][1..] == t[i + 1..];
  }

  lemma {:induction false} PairsFromSlot(t: Table, i: nat, k: nat)
    requires i <= k <= |t|
    ensures |Pairs(t[i..])| == 2 * TrustedIn(t, i, |t|) && TrustedIn(t, i, k) <= TrustedIn(t, i, |t|)
    ensures k < |t| && t[k].inUse && t[k].trusted ==> var n := TrustedIn(t, i, k);
      n < TrustedIn(t, i, |t|) && Pairs(t[i..])[2 * n] == t[k].id && Pairs(t[i..])[2 * n + 1] == t[k].hops
    decreases |t| - i
  {
    if i < |t| {
      PairsStep(t, i);
      PairsFromSlot(t, i + 1, if i < k then k else i + 1);
    }
  }

  /** The pairs stand in slot order, one for each live trusted entry: each behind those of the slots before it. */
  lemma PairsInOrder(t: Table, k: nat)
    requires k < |t|
    ensures |Pairs(t)| == 2 * TrustedIn(t, 0, |t|)
    ensures t[k].inUse && t[k].trusted ==> var n := TrustedIn(t, 0, k);
      2 * n + 1 < |Pairs(t)| && Pairs(t)[2 * n] == t[k].id && Pairs(t)[2 * n + 1] == t[k].hops
  {
    assert t[0..] == t;
    PairsFromSlot(t, 0, k);
  }

  /** The bytes of a ping. */
  lemma PingBytes(self: byte, command: byte, index: byte, m: seq<byte>)
    ensures var p := PingPacket(self, command, index, m);
      && |p| == |m| + 4 && p[0] == self && p[1] == command && p[2] == index
      && p[3..|m| + 3] == m && p[|m| + 3] == 0
  {
  }

  /** Message k of a fresh snapshot consists of pairs of live trusted entries. */
  lemma ChunkFromTable(t: Table, k: nat, i: nat)
    requires k < |Chunks(Pairs(t))| && i < |Chunks(Pairs(t))[k]| && i % 2 == 0
    ensures i + 1 < |Chunks(Pairs(t))[k]|
    ensures Advertised(t, Chunks(Pairs(t))[k][i], Chunks(Pairs(t))[k][i + 1])
  {
    ChunkEven(Pairs(t), k);
    ChunkListed(Pairs(t), k, i);
    PairsExact(t, Chunks(Pairs(t))[k][i], Chunks(Pairs(t))[k][i + 1]);
  }

  lemma {:induction false} ChunkListed(s: seq<byte>, k: nat, i: nat)
    requires k < |Chunks(s)| && i + 1 < |Chunks(s)[k]| && i % 2 == 0
    ensures Listed(s, Chunks(s)[k][i], Chunks(s)[k][i + 1])
  {
    if |s| > MAX_DATA_LENGTH && k > 0 {
      var rest := s[MAX_DATA_LENGTH..];
      ChunkListed(rest, k - 1, i);
      ListedAppend(s[..MAX_DATA_LENGTH], rest, Chunks(s)[k][i], Chunks(s)[k][i + 1]);
      assert s == s[..MAX_DATA_LENGTH] + rest;
    } else {
      assert PairAt(s, i, Chunks(s)[k][i], Chunks(s)[k][i + 1]);
    }
  }

  lemma {:induction false} ChunkEven(s: seq<byte>, k: nat)
    requires |s| % 2 == 0 && k < |Chunks(s)|
    ensures |Chunks(s)[k]| % 2 == 0
  {
    if |s| > MAX_DATA_LENGTH && k > 0 {
      ChunkEven(s[MAX_DATA_LENGTH..], k - 1);
    }
  }

  lemma ChunksAreMessages(t: Table, self: byte)
    requires Inv(t, self)
    ensures forall k :: 0 <= k < |Chunks(Pairs(t))| ==> IsMessage(Chunks(Pairs(t))[k])
  {
    var c := Chunks(Pairs(t));
    ChunksShape(Pairs(t));
    forall k | 0 <= k < |c|
      ensures IsMessage(c[k])
    {
      ChunkEven(Pairs(t), k);
      forall i | 0 <= i < |c[k]| && i % 2 == 0
        ensures c[k][i] != 0
      {
        ChunkFromTable(t, k, i);
      }
    }
  }

  /** A table of MAX_SENDERS slots needs at most four messages, so the index byte loses nothing. */
  lemma IndexByteExact(t: Table, current: nat)
    requires |t| <= MAX_SENDERS && current < |Chunks(Pairs(t))|
    ensures |Chunks(Pairs(t))| <= 4
    ensures IndexByte(current, |Chunks(Pairs(t))|) / 16 == current
    ensures IndexByte(current, |Chunks(Pairs(t))|) % 16 == |Chunks(Pairs(t))|
  {
    ChunksShape(Pairs(t));
  }
}
