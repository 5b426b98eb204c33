/** The table of mesh_radio.c, updated in place; RouteTable says what each routine does to it. */
module NeighborTable {
  import opened Bytes
  import opened MeshConfig
  import opened RouteTable

  /** The addresses getOwnIds collects from a table, in slot order. */
  function OwnIds(t: Table): (r: seq<byte>)
    ensures |r| <= |t|
  {
    if t == [] then []
    else if t[0].inUse && t[0].trusted && BASE_ADDRESS <= t[0].id <= TEST_END_ADDRESS then [t[0].id] + OwnIds(t[1..])
    else OwnIds(t[1..])
  }

  predicate OwnAddress(t: Table, a: byte) {
    BASE_ADDRESS <= a <= TEST_END_ADDRESS && exists k :: 0 <= k < |t| && t[k].Named(a) && t[k].trusted
  }

  /** getOwnIds lists each trusted address of the own range exactly once, and nothing else. */
  lemma {:induction false} OwnIdsExact(t: Table)
    requires NoShadow(t)
    ensures forall a: byte :: a in OwnIds(t) <==> OwnAddress(t, a)
    ensures forall i, j :: 0 <= i < j < |OwnIds(t)| ==> OwnIds(t)[i] != OwnIds(t)[j]
  {
    if t != [] {
      var u := t[1..];
      forall i, j | 0 <= i < j < |u| && u[j].inUse
        ensures u[i].id != u[j].id
      {
        assert t[i + 1].id != t[j + 1].id;
      }
      OwnIdsExact(u);
      assert !OwnAddress(u, t[0].id) by {
        forall k | 0 <= k < |u|
          ensures !u[k].Named(t[0].id)
        {
          assert t[k + 1].inUse ==> t[0].id != t[k + 1].id;
        }
      }
      forall a: byte
        ensures a in OwnIds(t) <==> OwnAddress(t, a)
      {
        if OwnAddress(t, a) {
          var k :| 0 <= k < |t| && t[k].Named(a) && t[k].trusted;
          assert k > 0 ==> u[k - 1].Named(a) && u[k - 1].trusted;
        }
        if OwnAddress(u, a) {
          var k :| 0 <= k < |u| && u[k].Named(a) && u[k].trusted;
          assert t[k + 1].Named(a) && t[k + 1].trusted && t[0].id != a;
        }
      }
    }
  }

  predicate Own(e: Entry) {
    e.inUse && e.trusted && 0x40 <= e.id <= 0x7F
  }

  /** How many of the slots from i to k hold a trusted address of the own range. */
  function OwnIn(t: Table, i: nat, k: nat): nat
    requires k <= |t|
    decreases |t| - i
  {
    if i >= k then 0 else (if Own(t[i]) then 1 else 0) + OwnIn(t, i + 1, k)
  }

  lemma {:induction false} OwnIdsFromSlot(t: Table, i: nat, k: nat)
    requires i <= k <= |t|
    ensures |OwnIds(t[i..])| == OwnIn(t, i, |t|) && OwnIn(t, i, k) <= OwnIn(t, i, |t|)
    ensures k < |t| && Own(t[k]) ==>
      OwnIn(t, i, k) < OwnIn(t, i, |t|) && OwnIds(t[i..])[OwnIn(t, i, k)] == t[k].id
    decreases |t| - i
  {
    if i < |t| {
      assert t[i..][1..] == t[i + 1..];
      OwnIdsFromSlot(t, i + 1, if i < k then k else i + 1);
    }
  }

  /** They are listed in slot order, each behind those of the slots before it. */
  lemma OwnIdsInOrder(t: Table, k: nat)
    requires k < |t| && Own(t[k])
    ensures OwnIn(t, 0, k) < |OwnIds(t)| && OwnIds(t)[OwnIn(t, 0, k)] == t[k].id
  {
    assert t[0..] == t;
    OwnIdsFromSlot(t, 0, k);
  }

  class NeighborTable {
    const packages: array<Entry>

    ghost predicate Valid() {
      packages.Length == MAX_SENDERS
    }

    constructor ()
      ensures Valid() && fresh(packages)
      ensures packages[..] == Empty(MAX_SENDERS)
    {
      packages := new Entry[MAX_SENDERS](_ => Entry(0, 0, false, false, 0, 0));
    }

    method UpdateWeight(updateAddress: byte)
      requires Valid()
      modifies packages
      ensures packages[..] == RouteTable.UpdateWeight(old(packages[..]), updateAddress)
    {
      ghost var t := packages[..];
      var i := 0;
      while i < MAX_SENDERS
        invariant 0 <= i <= MAX_SENDERS
        invariant packages[..] == t
        invariant forall j :: 0 <= j < i ==> !t[j].Named(updateAddress)
      {
        if packages[i].inUse && packages[i].id == updateAddress {
          var e := packages[i].(weight := packages[i].weight + 10, owner := 0, hops := 1);
          if e.weight > WEIGHT_MAX {
            e := e.(weight := WEIGHT_MAX);
          }
          packages[i] := e;
          assert i == FirstLive(t, updateAddress);
          return;
        }
        i := i + 1;
      }
      assert FirstLive(t, updateAddress) == |t|;
      i := 0;
      while i < MAX_SENDERS
        invariant 0 <= i <= MAX_SENDERS
        invariant packages[..] == t
        invariant forall j :: 0 <= j < i ==> t[j].inUse
      {
        if !packages[i].inUse {
          packages[i] := packages[i].(id := updateAddress, weight := 10, inUse := true, owner := 0, hops := 1);
          assert i == FirstFree(t);
          return;
        }
        i := i + 1;
      }
    }

    method CheckTrusted(checkAddress: byte) returns (trusted: bool)
      requires Valid()
      ensures trusted == RouteTable.CheckTrusted(packages[..], checkAddress)
    {
      ghost var t := packages[..];
      var i := 0;
      while i < MAX_SENDERS
        invariant 0 <= i <= MAX_SENDERS
        invariant forall j :: 0 <= j < i ==> t[j].id != checkAddress
      {
        if packages[i].id == checkAddress {
          assert i == FirstId(t, checkAddress);
          return packages[i].trusted;
        }
        i := i + 1;
      }
      return false;
    }

    /** Clears the in-use flag of every live slot owned by o. */
    method DropChildren(o: byte)
      requires Valid()
      modifies packages
      ensures packages[..] == RouteTable.DropChildren(old(packages[..]), o)
    {
      ghost var t := packages[..];
      var j := 0;
      while j < MAX_SENDERS
        invariant 0 <= j <= MAX_SENDERS
        invariant forall k :: 0 <= k < MAX_SENDERS ==>
          packages[k] == if k < j && t[k].inUse && t[k].owner == o then t[k].(inUse := false) else t[k]
      {
        if packages[j].inUse && packages[j].owner == o {
          packages[j] := packages[j].(inUse := false);
        }
        j := j + 1;
      }
    }

    method ProcessData(data: seq<byte>, owner: byte, self: byte)
      requires Valid() && |data| % 2 == 0
      modifies packages
      ensures packages[..] == RouteTable.ProcessData(old(packages[..]), self, data, owner)
    {
      DropChildren(owner);
      ghost var t := packages[..];
      var i := 0;
      while i < |data|
        invariant 0 <= i <= |data| && i % 2 == 0
        invariant packages[..] == t
        invariant Merge(t, self, data, owner, i) == Merge(t, self, data, owner, 0)
      {
        var id, hops := data[i], data[i + 1];
        if id == 0 {
          break;
        }
        if id != self && hops < MAX_HOPS {
          var done := Store(id, hops, owner);
          if done {
            return;
          }
        }
        i := i + 2;
      }
    }

    /** Stores one pair; fails when the address is unknown and the table is full. */
    method Store(id: byte, hops: byte, owner: byte) returns (done: bool)
      requires Valid() && hops < MAX_HOPS
      modifies packages
      ensures done == HasRoom(old(packages[..]), id)
      ensures packages[..] == if done then Commit(old(packages[..]), owner, id, hops) else old(packages[..])
    {
      ghost var t := packages[..];
      var i := 0;
      while i < MAX_SENDERS
        invariant 0 <= i <= MAX_SENDERS
        invariant packages[..] == t
        invariant forall j :: 0 <= j < i ==> !t[j].Named(id)
      {
        if packages[i].inUse && packages[i].id == id {
          if packages[i].hops > hops + 1 || !packages[i].trusted {
            packages[i] := packages[i].(owner := owner, hops := hops + 1);
          }
          assert i == FirstLive(t, id);
          return true;
        }
        i := i + 1;
      }
      assert FirstLive(t, id) == |t|;
      i := 0;
      while i < MAX_SENDERS
        invariant 0 <= i <= MAX_SENDERS
        invariant packages[..] == t
        invariant forall j :: 0 <= j < i ==> t[j].inUse
      {
        if !packages[i].inUse {
          packages[i] := packages[i].(id := id, inUse := true, trusted := true, owner := owner, hops := hops + 1);
          assert i == FirstFree(t);
          return true;
        }
        i := i + 1;
      }
      return false;
    }

    /** First live slot for target, as the route lookup of sendRadioData walks the table. */
    method FindRoute(target: byte) returns (slot: nat)
      requires Valid()
      ensures slot == FirstLive(packages[..], target)
    {
      ghost var t := packages[..];
      slot := 0;
      while slot < MAX_SENDERS
        invariant 0 <= slot <= MAX_SENDERS
        invariant forall j :: 0 <= j < slot ==> !t[j].Named(target)
      {
        if packages[slot].inUse && packages[slot].id == target {
          break;
        }
        slot := slot + 1;
      }
    }

    method GetOwnIds(ids: array<byte>) returns (numberOfIds: nat)
      requires Valid() && ids.Length >= MAX_SENDERS
      modifies ids
      ensures numberOfIds == |OwnIds(packages[..])|
      ensures ids[..numberOfIds] == OwnIds(packages[..])
      ensures ids[numberOfIds..] == old(ids[..])[numberOfIds..]
    {
      ghost var t := packages[..];
      numberOfIds := 0;
      var i := 0;
      while i < MAX_SENDERS
        invariant 0 <= i <= MAX_SENDERS && numberOfIds <= i
        invariant ids[..numberOfIds] + OwnIds(t[i..]) == OwnIds(t)
        invariant forall j :: numberOfIds <= j < ids.Length ==> ids[j] == old(ids[j])
      {
        assert t[i..][1..] == t[i + 1..];
        if packages[i].inUse && packages[i].trusted && BASE_ADDRESS <= packages[i].id <= TEST_END_ADDRESS {
          ids[numberOfIds] := packages[i].id;
          numberOfIds := numberOfIds + 1;
          assert ids[..numberOfIds] == ids[..numberOfIds - 1] + [t[i].id];
        }
        i := i + 1;
      }
    }
  }
}
