/** Which of its pairs a neighbour table leaves behind, and when that amounts to all of them. */
module WholeMerge {
  import opened Bytes
  import opened MeshConfig
  import opened RouteTable

  /** A pair that is stored if merging gets to it. */
  predicate Storable(t: Table, self: byte, data: seq<byte>, j: nat)
    requires j + 1 < |data|
  {
    data[j] != 0 && data[j] != self && data[j + 1] < MAX_HOPS && HasRoom(t, data[j])
  }

  /** Merging gets to the pair at j: none before it ends the data or is storable. */
  predicate Reaches(t: Table, self: byte, data: seq<byte>, i: nat, j: nat)
    requires |data| % 2 == 0
  {
    forall k :: i <= k < j && k % 2 == 0 && k < |data| ==> data[k] != 0 && !Storable(t, self, data, k)
  }

  /** The first storable pair that merging gets to from i on; |data| when there is none. */
  function FirstStored(t: Table, self: byte, data: seq<byte>, i: nat): (f: nat)
    requires i % 2 == 0 && |data| % 2 == 0 && i <= |data|
    ensures i <= f <= |data| && f % 2 == 0
    decreases |data| - i
  {
    if i == |data| || data[i] == 0 then |data|
    else if Storable(t, self, data, i) then i
    else FirstStored(t, self, data, i + 2)
  }

  lemma {:induction false} FirstStoredIsFirst(t: Table, self: byte, data: seq<byte>, i: nat, j: nat)
    requires i % 2 == 0 && j % 2 == 0 && |data| % 2 == 0 && i <= j < |data|
    ensures FirstStored(t, self, data, i) == j <==> Reaches(t, self, data, i, j) && Storable(t, self, data, j)
    decreases |data| - i
  {
    if i < j && data[i] != 0 && !Storable(t, self, data, i) {
      FirstStoredIsFirst(t, self, data, i + 2, j);
      assert Reaches(t, self, data, i + 2, j) ==> Reaches(t, self, data, i, j);
    }
  }

  /** Of all pairs merging stores the first storable one it gets to, and no other. */
  lemma {:induction false} MergeStoresFirst(t: Table, self: byte, data: seq<byte>, owner: byte, i: nat)
    requires i % 2 == 0 && |data| % 2 == 0 && i <= |data|
    ensures var f := FirstStored(t, self, data, i);
      if f < |data| then
        Storable(t, self, data, f) && Merge(t, self, data, owner, i) == Commit(t, owner, data[f], data[f + 1])
      else Merge(t, self, data, owner, i) == t
    decreases |data| - i
  {
    if i < |data| && data[i] != 0 && !Storable(t, self, data, i) {
      MergeStoresFirst(t, self, data, owner, i + 2);
    }
  }

  /** What storing a pair does, slot by slot: the live entry for the address changes its owner only for strictly fewer
      hops or while it is not trusted; without one, the first free slot takes the pair, and keeps its weight. */
  lemma CommitExact(t: Table, owner: byte, id: byte, hops: byte, k: nat)
    requires k < |t| && hops < 15
    requires exists i :: 0 <= i < |t| && (t[i].Named(id) || !t[i].inUse)
    ensures HasRoom(t, id)
    ensures var e, r := t[k], Commit(t, owner, id, hops)[k];
      if e.Named(id) && forall i :: 0 <= i < k ==> !t[i].Named(id) then
        r == if e.hops > hops + 1 || !e.trusted then e.(owner := owner, hops := hops + 1) else e
      else if !e.inUse && (forall i :: 0 <= i < |t| ==> !t[i].Named(id)) && forall i :: 0 <= i < k ==> t[i].inUse then
        r == Entry(id, e.weight, true, true, owner, hops + 1)
      else r == e
  {
    var i, j := FirstLive(t, id), FirstFree(t);
    assert i < k ==> t[i].Named(id);
  }

  /** A trusted route that merging a table does not drop is given to another owner only for strictly fewer hops. */
  lemma OwnerKept(t: Table, self: byte, data: seq<byte>, owner: byte, k: nat)
    requires |data| % 2 == 0 && k < |t| && t[k].inUse && t[k].trusted && t[k].owner != owner
    ensures var e, r := t[k], ProcessData(t, self, data, owner)[k];
      r == e || (r.owner == owner && r.hops < e.hops && r == e.(owner := r.owner, hops := r.hops))
  {
    var d := DropChildren(t, owner);
    var f := FirstStored(d, self, data, 0);
    MergeStoresFirst(d, self, data, owner, 0);
    if f < |data| {
      assert exists i :: 0 <= i < |d| && (d[i].Named(data[f]) || !d[i].inUse) by {
        var i, j := FirstLive(d, data[f]), FirstFree(d);
        assert i < |d| ==> d[i].Named(data[f]);
      }
      CommitExact(d, owner, data[f], data[f + 1], k);
    }
  }

  // ----- When a neighbour table is merged as a whole -----

  /** The pair at j is offered: it stands before the end of the data, is not about this node, and not too far away. */
  predicate Offered(self: byte, data: seq<byte>, j: nat)
    requires |data| % 2 == 0
  {
    && j % 2 == 0 && j < |data| && (forall k :: 0 <= k <= j && k % 2 == 0 ==> data[k] != 0)
    && data[j] != self && data[j + 1] < MAX_HOPS
  }

  /** The table has a route to the address that is as short as the offered one. */
  predicate Serves(t: Table, id: byte, hops: byte) {
    var k := FirstLive(t, id);
    k < |t| && t[k].hops <= hops + 1
  }

  /** Every offered pair is served. */
  ghost predicate MergedWhole(t: Table, self: byte, data: seq<byte>)
    requires |data| % 2 == 0
  {
    forall j: nat {:trigger Offered(self, data, j)} :: Offered(self, data, j) ==> Serves(t, data[j], data[j + 1])
  }

  /** The hop count of an address once a pair for it has been stored. */
  function HopsOnce(t: Table, id: byte, hops: byte): int {
    var k := FirstLive(t, id);
    if k < |t| && t[k].trusted && t[k].hops <= hops + 1 then t[k].hops else hops + 1
  }

  /** Apart from what the first stored pair brings, everything that is offered is served already. */
  ghost predicate OneNewAtMost(t: Table, self: byte, data: seq<byte>)
    requires |data| % 2 == 0
  {
    var f := FirstStored(t, self, data, 0);
    forall j: nat {:trigger Offered(self, data, j)} :: Offered(self, data, j) ==>
      if f < |data| && data[j] == data[f] then HopsOnce(t, data[f], data[f + 1]) <= data[j + 1] + 1
      else Serves(t, data[j], data[j + 1])
  }

  /** Storing a pair serves its address with HopsOnce hops and changes the route to no other address. */
  lemma CommitServes(t: Table, owner: byte, id: byte, hops: byte, x: byte, h: byte)
    requires HasRoom(t, id) && hops < MAX_HOPS
    ensures Serves(Commit(t, owner, id, hops), x, h) <==>
      if x == id then HopsOnce(t, id, hops) <= h + 1 else Serves(t, x, h)
  {
    var r := Commit(t, owner, id, hops);
    var k, j := FirstLive(t, id), FirstFree(t);
    var c := if k < |t| then k else j;
    assert forall i :: 0 <= i < |t| && i != c ==> r[i] == t[i];
    assert r[c].Named(id) && r[c].hops == HopsOnce(t, id, hops);
    if x == id {
      assert FirstLive(r, id) == c;
    } else {
      assert !r[c].Named(x) && !t[c].Named(x);
      SameFirstLive(t, r, x);
    }
  }

  /** Where the same slots are named x, the same slot is the first. */
  lemma SameFirstLive(t: Table, r: Table, x: byte)
    requires |t| == |r| && forall i :: 0 <= i < |t| ==> (r[i].Named(x) <==> t[i].Named(x))
    ensures FirstLive(r, x) == FirstLive(t, x)
  {
  }

  /** Although at most one pair is stored, a neighbour table is merged as a whole exactly if what remains once the
      routes through its sender are dropped already serves every offered pair but those about one address. */
  lemma MergedWholeIff(t: Table, self: byte, data: seq<byte>, owner: byte)
    requires |data| % 2 == 0
    ensures MergedWhole(ProcessData(t, self, data, owner), self, data) <==>
      OneNewAtMost(DropChildren(t, owner), self, data)
  {
    var d, r := DropChildren(t, owner), ProcessData(t, self, data, owner);
    var f := FirstStored(d, self, data, 0);
    MergeStoresFirst(d, self, data, owner, 0);
    if f < |data| {
      forall j: nat | Offered(self, data, j)
        ensures Serves(r, data[j], data[j + 1]) <==>
          if data[j] == data[f] then HopsOnce(d, data[f], data[f + 1]) <= data[j + 1] + 1
          else Serves(d, data[j], data[j + 1])
      {
        CommitServes(d, owner, data[f], data[f + 1], data[j], data[j + 1]);
      }
    }
  }

  /** A neighbour at hand, and a table of the neighbour's with two addresses, followed by zeros. */
  function LoneNeighbour(): (t: Table)
    ensures |t| == MAX_SENDERS && forall i :: 0 < i < |t| ==> !t[i].inUse
  {
    [Entry(5, 40, true, true, 0, 1)] + Empty(MAX_SENDERS - 1)
  }

  function TwoPairs(): (data: seq<byte>)
    ensures |data| == MAX_DATA_LENGTH && data[..4] == [6, 1, 7, 1] && data[4] == 0
  {
    [6, 1, 7, 1] + seq(MAX_DATA_LENGTH - 4, _ => 0)
  }

  lemma LoneNeighbourInv()
    ensures Inv(LoneNeighbour(), 9) && TrustedNeighbour(LoneNeighbour(), 5)
    ensures DropChildren(LoneNeighbour(), 5) == LoneNeighbour()
  {
    var t := LoneNeighbour();
    assert t[0].Named(5) && t[0].owner == 0 && t[0].trusted;
  }

  /** Both pairs could be stored, and the first one is. */
  lemma TwoPairsStorable()
    ensures var t, data := LoneNeighbour(), TwoPairs();
      && data[0] == 6 && data[1] == 1 && data[2] == 7 && data[3] == 1
      && Storable(t, 9, data, 0) && Storable(t, 9, data, 2) && FirstStored(t, 9, data, 0) == 0
      && FirstLive(t, 6) == |t| == FirstLive(t, 7)
  {
    var t, data := LoneNeighbour(), TwoPairs();
    assert data[0] == data[..4][0] && data[1] == data[..4][1] && data[2] == data[..4][2] && data[3] == data[..4][3];
    assert FirstFree(t) == 1;
  }

  /** It is not always: of these two pairs, for which there is room, only the first is stored. */
  lemma SecondPairIsLost()
    ensures var t, data, r := LoneNeighbour(), TwoPairs(), ProcessData(LoneNeighbour(), 9, TwoPairs(), 5);
      && Inv(t, 9) && TrustedNeighbour(t, 5) && Storable(t, 9, data, 0) && Storable(t, 9, data, 2)
      && Serves(r, data[0], data[1]) && !Serves(r, data[2], data[3]) && !MergedWhole(r, 9, data)
  {
    var t, data := LoneNeighbour(), TwoPairs();
    LoneNeighbourInv();
    TwoPairsStorable();
    MergeStoresFirst(t, 9, data, 5, 0);
    CommitServes(t, 5, 6, 1, 6, 1);
    CommitServes(t, 5, 6, 1, 7, 1);
    assert Offered(9, data, 2);
  }
}
