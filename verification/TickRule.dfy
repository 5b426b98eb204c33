/** The timer pass, done slot by slot in place with nested removals, is one simultaneous rule. */
module TickRule {
  import opened Bytes
  import opened MeshConfig
  import opened RouteTable

  /** A neighbour that stays in the table but is no longer trusted. */
  predicate Lost(e: Entry) {
    e.Direct() && 0 < Decay(e).weight <= WEIGHT_THRESHOLD
  }

  /** One of the first n slots is a neighbour with address o that loses its trust. */
  predicate OwnerLost(t: Table, n: nat, o: byte)
    requires n <= |t|
  {
    exists k :: 0 <= k < n && Lost(t[k]) && t[k].id == o
  }

  /** Slot j once the pass has done its first n slots. */
  function After(t: Table, n: nat, j: nat): Entry
    requires n <= |t| && j < |t|
  {
    var e := if j < n then Decay(t[j]) else t[j];
    if t[j].Direct() then
      if j >= n then e
      else if e.weight == 0 then e.(inUse := false)
      else e.(trusted := e.weight > WEIGHT_THRESHOLD)
    else if t[j].inUse && OwnerLost(t, n, t[j].owner) then e.(inUse := false)
    else e
  }

  function AfterAll(t: Table, n: nat): (r: Table)
    requires n <= |t|
    ensures |r| == |t|
  {
    seq(|t|, j requires 0 <= j < |t| => After(t, n, j))
  }

  lemma PassStep(t: Table, self: byte, i: nat)
    requires Inv(t, self) && i < |t|
    ensures TickSlot(AfterAll(t, i), i) == AfterAll(t, i + 1)
  {
    var u := AfterAll(t, i);
    var r := TickSlot(u, i);
    forall j | 0 <= j < |t|
      ensures r[j] == After(t, i + 1, j)
    {
      assert SlotOk(t[i], self) && SlotOk(t[j], self);
      assert OwnerLost(t, i + 1, t[j].owner) <==> OwnerLost(t, i, t[j].owner) || (Lost(t[i]) && t[i].id == t[j].owner);
      assert u[i].Direct() <==> t[i].Direct();
    }
  }

  lemma {:induction false} PassFrom(t: Table, self: byte, i: nat)
    requires Inv(t, self) && i <= |t|
    ensures TickFrom(AfterAll(t, i), i) == AfterAll(t, |t|)
    decreases |t| - i
  {
    if i < |t| {
      PassStep(t, self, i);
      PassFrom(t, self, i + 1);
    }
  }

  /**
   * Whatever order the slots stand in: every weight drops by one; a neighbour stays while its weight lasts and is
   * trusted exactly above the threshold; a route stays exactly while its owner is trusted.
   */
  lemma TickExact(t: Table, self: byte, j: nat)
    requires Inv(t, self) && j < |t|
    ensures var e, r := t[j], Tick(t)[j];
      && r.id == e.id && r.owner == e.owner && r.hops == e.hops
      && r.weight == (if e.weight == 0 then 0 else e.weight - 1)
      && (e.Direct() ==> (r.inUse <==> r.weight > 0) && (r.inUse ==> (r.trusted <==> r.weight > 30)))
      && (!e.Direct() || !r.inUse ==> r.trusted == e.trusted)
      && (e.inUse && e.owner != 0 ==> (r.inUse <==> TrustedNeighbour(Tick(t), e.owner)))
      && (!e.inUse ==> !r.inUse)
  {
    assert AfterAll(t, 0) == t;
    PassFrom(t, self, 0);
    var e := t[j];
    if e.inUse && e.owner != 0 {
      var k :| 0 <= k < |t| && t[k].Named(e.owner) && t[k].owner == 0 && t[k].trusted;
      assert SlotOk(t[k], self);
      assert Tick(t)[k] == After(t, |t|, k);
      if OwnerLost(t, |t|, e.owner) {
        var m :| 0 <= m < |t| && Lost(t[m]) && t[m].id == e.owner;
        LiveIsUnique(t, k, m);
        assert !Tick(t)[k].trusted;
        forall q | 0 <= q < |t|
          ensures !(Tick(t)[q].Named(e.owner) && Tick(t)[q].owner == 0 && Tick(t)[q].trusted)
        {
          assert Tick(t)[q] == After(t, |t|, q);
          assert t[q].Named(e.owner) ==> q == k;
        }
      } else {
        assert !Lost(t[k]);
        assert Tick(t)[k].Named(e.owner) && Tick(t)[k].owner == 0 && Tick(t)[k].trusted;
      }
    }
  }
}
