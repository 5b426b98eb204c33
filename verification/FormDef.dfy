/** Connecting an array of fields to a form: pages, and a sorted circular list of fields on each page. */
module FormDef {
  import opened FormTypes
  import opened PageOrder
  import opened Rings

  // ----- Rings of fields -----

  ghost function Members(s: seq<Field>): set<Field> {
    set f | f in s
  }

  ghost predicate LinkedAt(s: seq<Field>, i: nat)
    requires i < |s|
    reads Members(s)
  {
    s[i].snext == s[Next(i, |s|)] && s[i].sprev == s[Previous(i, |s|)]
  }

  /** The fields of s form one circle: snext leads along s and around, sprev back. */
  ghost predicate Ring(s: seq<Field>)
    reads Members(s)
  {
    && Distinct(s)
    && forall i :: 0 <= i < |s| ==> LinkedAt(s, i)
  }

  function KeyOf(f: Field): Key
    reads f
  {
    (f.frow, f.fcol)
  }

  function Keys(fs: seq<Field>): (r: seq<Key>)
    reads Members(fs)
    ensures |r| == |fs|
    ensures forall i :: 0 <= i < |fs| ==> r[i] == KeyOf(fs[i])
  {
    seq(|fs|, i requires 0 <= i < |fs| reads Members(fs) => KeyOf(fs[i]))
  }

  /** The field reached from f after k steps along snext. */
  ghost function Follow(f: Field, k: nat, region: set<Field>): Field?
    reads region, f
    decreases k
  {
    if k == 0 then f
    else if f.snext == null || f.snext !in region then null
    else Follow(f.snext, k - 1, region)
  }

  /** From any member the walk along snext visits the ring in order. */
  lemma {:induction false} FollowRing(s: seq<Field>, i: nat, k: nat, region: set<Field>)
    requires Ring(s) && i + k < |s| && forall f :: f in s ==> f in region
    ensures Follow(s[i], k, region) == s[i + k]
    decreases k
  {
    if k > 0 {
      assert LinkedAt(s, i);
      FollowRing(s, i + 1, k - 1, region);
    }
  }

  /** Position of the first member whose key does not come before k. */
  function RingPlace(s: seq<Field>, k: Key): (p: nat)
    reads Members(s)
    ensures p <= |s|
    ensures forall i :: 0 <= i < p ==> Before(KeyOf(s[i]), k)
    ensures p < |s| ==> !Before(KeyOf(s[p]), k)
  {
    if s == [] || !Before(KeyOf(s[0]), k) then 0 else 1 + RingPlace(s[1..], k)
  }

  method InsertFieldByPosition(newfield: Field, head: Field?, ghost s: seq<Field>) returns (newhead: Field)
    requires Ring(s) && newfield !in s
    requires if s == [] then head == null else head == s[0]
    modifies Members(s)`snext, Members(s)`sprev, newfield`snext, newfield`sprev
    ensures Ring(InsertAt(s, old(RingPlace(s, KeyOf(newfield))), newfield))
    ensures newhead == InsertAt(s, old(RingPlace(s, KeyOf(newfield))), newfield)[0]
  {
    ghost var p := RingPlace(s, KeyOf(newfield));
    InsertAtIsInserted(s, p, newfield);
    if head == null {
      newhead, newfield.snext, newfield.sprev := newfield, newfield, newfield;
    } else {
      var first: Field? := head;
      var current: Field := head;
      newhead := head;
      ghost var i: nat := 0;
      while current.frow < newfield.frow || (current.frow == newfield.frow && current.fcol < newfield.fcol)
        invariant i < |s| && current == s[i] && first == s[0]
        invariant forall j :: 0 <= j < i ==> Before(KeyOf(s[j]), KeyOf(newfield))
        decreases |s| - i
      {
        assert LinkedAt(s, i);
        current := current.snext;
        i := i + 1;
        if current == first {
          first := null;
          break;
        }
      }
      // current is the field that comes after newfield
      assert i == p && current == s[Wrap(p, |s|)];
      LinkBefore(newfield, current, s, p);
      if current == first {
        newhead := newfield;
      }
    }
  }

  /** Links newfield into the ring between current, the member at p, and the one before it. */
  method LinkBefore(newfield: Field, current: Field, ghost s: seq<Field>, ghost p: nat)
    requires s != [] && Ring(s) && newfield !in s && p <= |s| && current == s[Wrap(p, |s|)]
    modifies Members(s)`snext, Members(s)`sprev, newfield`snext, newfield`sprev
    ensures Ring(InsertAt(s, p, newfield))
  {
    ghost var n := |s|;
    ghost var c := Wrap(p, n);
    ghost var b := Previous(c, n);
    assert LinkedAt(s, c) && LinkedAt(s, b);
    newfield.snext := current;
    newfield.sprev := current.sprev;
    newfield.snext.sprev := newfield;
    newfield.sprev.snext := newfield;
    forall j | 0 <= j < n
      ensures s[j].snext == if j == b then newfield else s[Next(j, n)]
      ensures s[j].sprev == if j == c then newfield else s[Previous(j, n)]
    {
      assert old(LinkedAt(s, j));
    }
    InsertAtIsInserted(s, p, newfield);
    SplicedRing(s, p, newfield, InsertAt(s, p, newfield));
  }

  /** The pointers after the splice make up the larger ring. */
  lemma SplicedRing(s: seq<Field>, p: nat, f: Field, r: seq<Field>)
    requires s != [] && Distinct(s) && f !in s && Inserted(s, p, f, r)
    requires f.snext == s[Wrap(p, |s|)] && f.sprev == s[Previous(Wrap(p, |s|), |s|)]
    requires forall j :: 0 <= j < |s| ==> s[j].snext == if j == Previous(Wrap(p, |s|), |s|) then f else s[Next(j, |s|)]
    requires forall j :: 0 <= j < |s| ==> s[j].sprev == if j == Wrap(p, |s|) then f else s[Previous(j, |s|)]
    ensures Ring(r)
  {
    var n := |s|;
    InsertDistinct(s, p, f, r);
    forall i | 0 <= i < n + 1
      ensures LinkedAt(r, i)
    {
      var k := if i != p then i else if p == 0 then 1 else 0;
      NextShift(n, p, k);
      PreviousShift(n, p, k);
      ShiftedMember(s, p, f, r, if i == p then Wrap(p, n) else Next(Unshift(i, p), n));
      ShiftedMember(s, p, f, r, if i == p then Previous(Wrap(p, n), n) else Previous(Unshift(i, p), n));
    }
  }
}
