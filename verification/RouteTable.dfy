/** The neighbour and route table as a value: what each operation of the mesh radio does to it. */
module RouteTable {
  import opened Bytes
  import opened MeshConfig

  /** One slot. Freeing a slot clears inUse only: every other member stays behind. */
  datatype Entry = Entry(id: byte, weight: int, inUse: bool, trusted: bool, owner: byte, hops: byte) {
    predicate Direct() {
      inUse && owner == 0
    }

    predicate Named(a: byte) {
      inUse && id == a
    }
  }

  type Table = seq<Entry>

  // ----- Searches -----

  /** First live slot for address a; |t| when there is none. */
  function FirstLive(t: Table, a: byte): (r: nat)
    ensures r <= |t|
    ensures forall i :: 0 <= i < r ==> !t[i].Named(a)
    ensures r < |t| ==> t[r].Named(a)
  {
    if t == [] || t[0].Named(a) then 0 else 1 + FirstLive(t[1..], a)
  }

  /** First slot that is not in use; |t| when the table is full. */
  function FirstFree(t: Table): (r: nat)
    ensures r <= |t|
    ensures forall i :: 0 <= i < r ==> t[i].inUse
    ensures r < |t| ==> !t[r].inUse
  {
    if t == [] || !t[0].inUse then 0 else 1 + FirstFree(t[1..])
  }

  /** First slot that carries address a, whether or not it is in use; |t| when there is none. */
  function FirstId(t: Table, a: byte): (r: nat)
    ensures r <= |t|
    ensures forall i :: 0 <= i < r ==> t[i].id != a
    ensures r < |t| ==> t[r].id == a
  {
    if t == [] || t[0].id == a then 0 else 1 + FirstId(t[1..], a)
  }

  // ----- Operations -----

  function Refresh(e: Entry): Entry {
    e.(weight := Min(e.weight + 10, WEIGHT_MAX), owner := 0, hops := 1)
  }

  /** A packet from a was heard. A new entry keeps whatever trust its slot had before. */
  function UpdateWeight(t: Table, a: byte): (r: Table)
    ensures |r| == |t|
  {
    var i := FirstLive(t, a);
    if i < |t| then t[i := Refresh(t[i])]
    else
      var j := FirstFree(t);
      if j < |t| then t[j := t[j].(id := a, weight := 10, inUse := true, owner := 0, hops := 1)] else t
  }

  /** What hearing a does, slot by slot: a live entry is moved up by ten, to seventy at most, and becomes direct; a new
      one starts with ten in the first free slot; nothing else changes, trust included. */
  lemma UpdateWeightExact(t: Table, a: byte, k: nat)
    requires k < |t|
    ensures var e, r := t[k], UpdateWeight(t, a)[k];
      if e.Named(a) && forall i :: 0 <= i < k ==> !t[i].Named(a) then
        r == Entry(a, if e.weight + 10 > 70 then 70 else e.weight + 10, true, e.trusted, 0, 1)
      else if !e.inUse && (forall i :: 0 <= i < |t| ==> !t[i].Named(a)) && forall i :: 0 <= i < k ==> t[i].inUse then
        r == Entry(a, 10, true, e.trusted, 0, 1)
      else r == e
  {
    var i, j := FirstLive(t, a), FirstFree(t);
    assert i < k ==> t[i].Named(a);
  }

  predicate CheckTrusted(t: Table, a: byte) {
    var i := FirstId(t, a);
    i < |t| && t[i].trusted
  }

  /** The first slot that carries the address decides, whether or not it is in use. */
  lemma CheckTrustedExact(t: Table, a: byte)
    ensures CheckTrusted(t, a) <==>
      exists k :: 0 <= k < |t| && t[k].id == a && t[k].trusted && forall i :: 0 <= i < k ==> t[i].id != a
  {
    var f := FirstId(t, a);
    assert f < |t| && t[f].trusted ==> t[f].id == a;
  }

  /** Frees every live slot owned by o. */
  function DropChildren(t: Table, o: byte): (r: Table)
    ensures |r| == |t|
    ensures forall j :: 0 <= j < |t| ==> r[j] == if t[j].inUse && t[j].owner == o then t[j].(inUse := false) else t[j]
  {
    seq(|t|, j requires 0 <= j < |t| => if t[j].inUse && t[j].owner == o then t[j].(inUse := false) else t[j])
  }

  /** Whether a pair is stored at all: the address has a live entry, or a slot is free. */
  predicate HasRoom(t: Table, id: byte) {
    FirstLive(t, id) < |t| || FirstFree(t) < |t|
  }

  function Commit(t: Table, owner: byte, id: byte, hops: byte): (r: Table)
    requires HasRoom(t, id) && hops < MAX_HOPS
    ensures |r| == |t|
  {
    var k := FirstLive(t, id);
    if k < |t| then
      if t[k].hops > hops + 1 || !t[k].trusted then t[k := t[k].(owner := owner, hops := hops + 1)] else t
    else
      var j := FirstFree(t);
      t[j := t[j].(id := id, inUse := true, trusted := true, owner := owner, hops := hops + 1)]
  }

  /** Merges the pairs of data from position i on; at most one pair is stored. */
  function Merge(t: Table, self: byte, data: seq<byte>, owner: byte, i: nat): (r: Table)
    requires i % 2 == 0 && |data| % 2 == 0
    ensures |r| == |t|
    decreases |data| - i
  {
    if i >= |data| || data[i] == 0 then t
    else if data[i] == self || data[i + 1] >= MAX_HOPS || !HasRoom(t, data[i]) then Merge(t, self, data, owner, i + 2)
    else Commit(t, owner, data[i], data[i + 1])
  }

  /** A complete neighbour table of owner replaces everything that was reached through owner. */
  function ProcessData(t: Table, self: byte, data: seq<byte>, owner: byte): (r: Table)
    requires |data| % 2 == 0
    ensures |r| == |t|
  {
    Merge(DropChildren(t, owner), self, data, owner, 0)
  }

  function Decay(e: Entry): Entry {
    if e.weight > 0 then e.(weight := e.weight - 1) else e
  }

  /** A slot leaves the table in this tick: it is direct and its weight has just run out. */
  predicate Expires(e: Entry) {
    e.Direct() && Decay(e).weight == 0
  }

  /** What one timer tick does when it reaches slot i. */
  function TickSlot(t: Table, i: nat): (r: Table)
    requires i < |t|
    ensures |r| == |t|
  {
    var e := Decay(t[i]);
    var t1 := t[i := e];
    if !e.Direct() then t1
    else if e.weight == 0 then t1[i := e.(inUse := false)]
    else if e.weight > WEIGHT_THRESHOLD then t1[i := e.(trusted := true)]
    else DropChildren(t1[i := e.(trusted := false)], e.id)
  }

  function TickFrom(t: Table, i: nat): (r: Table)
    requires i <= |t|
    ensures |r| == |t|
    decreases |t| - i
  {
    if i == |t| then t else TickFrom(TickSlot(t, i), i + 1)
  }

  function Tick(t: Table): (r: Table)
    ensures |r| == |t|
  {
    TickFrom(t, 0)
  }

  // ----- The invariant -----

  predicate SlotOk(e: Entry, self: byte) {
    && 0 <= e.weight <= WEIGHT_MAX
    && (e.inUse ==> e.id != 0 && e.id != self && 1 <= e.hops <= MAX_HOPS)
    && (e.Direct() ==> e.hops == 1 && e.weight >= 1 && (e.trusted ==> e.weight >= 10))
  }

  /** No slot before a live slot carries that slot's address, live or stale. */
  predicate NoShadow(t: Table) {
    forall i, j :: 0 <= i < j < |t| && t[j].inUse ==> t[i].id != t[j].id
  }

  /** Address o has a live, direct and trusted entry. */
  predicate TrustedNeighbour(t: Table, o: byte) {
    exists k :: 0 <= k < |t| && t[k].Named(o) && t[k].owner == 0 && t[k].trusted
  }

  /** Every live entry that is reached through another node is reached through a trusted neighbour. */
  predicate Owned(t: Table) {
    forall i :: 0 <= i < |t| && t[i].inUse && t[i].owner != 0 ==> TrustedNeighbour(t, t[i].owner)
  }

  predicate Inv(t: Table, self: byte) {
    && (forall i :: 0 <= i < |t| ==> SlotOk(t[i], self))
    && NoShadow(t)
    && Owned(t)
  }

  /** All slots zero, as the globals of a C program start. */
  function Empty(n: nat): (r: Table)
    ensures |r| == n
    ensures forall i :: 0 <= i < n ==> r[i] == Entry(0, 0, false, false, 0, 0)
  {
    seq(n, _ => Entry(0, 0, false, false, 0, 0))
  }

  // ----- Preservation -----

  lemma LiveIsUnique(t: Table, i: nat, j: nat)
    requires NoShadow(t) && i < |t| && j < |t|
    requires t[i].inUse && t[j].inUse && t[i].id == t[j].id
    ensures i == j
  {
  }

  lemma FirstLiveIs(t: Table, k: nat)
    requires NoShadow(t) && k < |t| && t[k].inUse
    ensures FirstLive(t, t[k].id) == k
  {
    LiveIsUnique(t, FirstLive(t, t[k].id), k);
  }

  lemma UpdateWeightInv(t: Table, self: byte, a: byte)
    requires Inv(t, self) && a != 0 && a != self
    ensures Inv(UpdateWeight(t, a), self)
  {
    var r := UpdateWeight(t, a);
    assert NoShadow(r);
    forall i | 0 <= i < |r| && r[i].inUse && r[i].owner != 0
      ensures TrustedNeighbour(r, r[i].owner)
    {
      assert t[i] == r[i];
      var k :| 0 <= k < |t| && t[k].Named(t[i].owner) && t[k].owner == 0 && t[k].trusted;
      assert r[k].Named(t[i].owner) && r[k].owner == 0 && r[k].trusted;
    }
  }

  /** Although CheckTrusted never tests inUse, right after UpdateWeight it finds the live entry. */
  lemma CheckTrustedIsLive(t: Table, self: byte, a: byte)
    requires Inv(t, self) && a != 0 && a != self
    ensures CheckTrusted(UpdateWeight(t, a), a) <==> TrustedNeighbour(UpdateWeight(t, a), a)
    ensures CheckTrusted(UpdateWeight(t, a), a) <==>
      exists k :: 0 <= k < |t| && UpdateWeight(t, a)[k].Named(a) && UpdateWeight(t, a)[k].trusted
  {
    var r := UpdateWeight(t, a);
    UpdateWeightInv(t, self, a);
    var f := FirstId(r, a);
    if k :| 0 <= k < |r| && r[k].Named(a) {
      assert f == k;
      FirstLiveIs(r, k);
      assert r[k].owner == 0;
    } else {
      var i, j := FirstLive(t, a), FirstFree(t);
      assert i < |t| ==> r[i].Named(a);
      assert j < |t| ==> r[j].Named(a);
    }
  }

  lemma DropChildrenInv(t: Table, self: byte, o: byte)
    requires o != 0
    requires forall i :: 0 <= i < |t| ==> SlotOk(t[i], self)
    requires NoShadow(t)
    requires forall i :: 0 <= i < |t| && t[i].inUse && t[i].owner != 0 && t[i].owner != o ==>
      TrustedNeighbour(t, t[i].owner)
    ensures Inv(DropChildren(t, o), self)
  {
    var r := DropChildren(t, o);
    forall i | 0 <= i < |r| && r[i].inUse && r[i].owner != 0
      ensures TrustedNeighbour(r, r[i].owner)
    {
      assert t[i] == r[i];
      var k :| 0 <= k < |t| && t[k].Named(t[i].owner) && t[k].owner == 0 && t[k].trusted;
      assert r[k] == t[k];
    }
  }

  lemma TrustSurvivesDrop(t: Table, o: byte, p: byte)
    requires o != 0 && TrustedNeighbour(t, p)
    ensures TrustedNeighbour(DropChildren(t, o), p)
  {
    var k :| 0 <= k < |t| && t[k].Named(p) && t[k].owner == 0 && t[k].trusted;
    assert DropChildren(t, o)[k] == t[k];
  }

  lemma CommitInv(t: Table, self: byte, owner: byte, id: byte, hops: byte)
    requires Inv(t, self) && TrustedNeighbour(t, owner) && owner != 0
    requires id != 0 && id != self && hops < MAX_HOPS && HasRoom(t, id)
    ensures Inv(Commit(t, owner, id, hops), self)
    ensures TrustedNeighbour(Commit(t, owner, id, hops), owner)
  {
    var r := Commit(t, owner, id, hops);
    forall o | TrustedNeighbour(t, o)
      ensures TrustedNeighbour(r, o)
    {
      var k :| 0 <= k < |t| && t[k].Named(o) && t[k].owner == 0 && t[k].trusted;
      assert r[k] == t[k];
    }
    assert NoShadow(r);
    forall i | 0 <= i < |r| && r[i].inUse && r[i].owner != 0
      ensures TrustedNeighbour(r, r[i].owner)
    {
      assert r[i].owner == owner || r[i] == t[i];
    }
  }

  lemma {:induction false} MergeInv(t: Table, self: byte, data: seq<byte>, owner: byte, i: nat)
    requires Inv(t, self) && TrustedNeighbour(t, owner) && owner != 0
    requires i % 2 == 0 && |data| % 2 == 0
    ensures Inv(Merge(t, self, data, owner, i), self)
    decreases |data| - i
  {
    if i >= |data| || data[i] == 0 {
    } else if data[i] == self || data[i + 1] >= MAX_HOPS || !HasRoom(t, data[i]) {
      MergeInv(t, self, data, owner, i + 2);
    } else {
      CommitInv(t, self, owner, data[i], data[i + 1]);
    }
  }

  lemma ProcessDataInv(t: Table, self: byte, data: seq<byte>, owner: byte)
    requires Inv(t, self) && TrustedNeighbour(t, owner) && owner != 0 && |data| % 2 == 0
    ensures Inv(ProcessData(t, self, data, owner), self)
  {
    DropChildrenInv(t, self, owner);
    TrustSurvivesDrop(t, owner, owner);
    MergeInv(DropChildren(t, owner), self, data, owner, 0);
  }

  lemma TickSlotInv(t: Table, self: byte, i: nat)
    requires Inv(t, self) && i < |t|
    ensures Inv(TickSlot(t, i), self)
  {
    var e := Decay(t[i]);
    var expired := e.Direct() && e.weight == 0;
    var lost := e.Direct() && 0 < e.weight <= WEIGHT_THRESHOLD;
    var t1 := t[i := e];
    var t2 := if !e.Direct() then t1
              else if expired then t1[i := e.(inUse := false)]
              else t1[i := e.(trusted := !lost)];
    assert NoShadow(t2) && forall k :: 0 <= k < |t2| ==> SlotOk(t2[k], self);
    forall k | 0 <= k < |t2| && t2[k].inUse && t2[k].owner != 0 && (lost ==> t2[k].owner != e.id)
      ensures TrustedNeighbour(t2, t2[k].owner)
    {
      assert t[k].inUse && t[k].owner == t2[k].owner;
      var m :| 0 <= m < |t| && t[m].Named(t[k].owner) && t[m].owner == 0 && t[m].trusted;
      assert t2[m].Named(t[k].owner) && t2[m].owner == 0 && t2[m].trusted;
    }
    if lost {
      DropChildrenInv(t2, self, e.id);
    }
  }

  lemma {:induction false} TickFromInv(t: Table, self: byte, i: nat)
    requires Inv(t, self) && i <= |t|
    ensures Inv(TickFrom(t, i), self)
    decreases |t| - i
  {
    if i < |t| {
      TickSlotInv(t, self, i);
      TickFromInv(TickSlot(t, i), self, i + 1);
    }
  }
}
