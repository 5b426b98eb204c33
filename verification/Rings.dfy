/** Circular lists: positions around a ring, and how they move when a member is put in. */
module Rings {

  function Next(i: nat, n: nat): (r: nat)
    requires i < n
    ensures r < n
  {
    if i + 1 == n then 0 else i + 1
  }

  function Previous(i: nat, n: nat): (r: nat)
    requires i < n
    ensures r < n
  {
    if i == 0 then n - 1 else i - 1
  }

  ghost predicate Distinct<T>(s: seq<T>) {
    forall i, j :: 0 <= i < j < |s| ==> s[i] != s[j]
  }

  /** In a ring of n members, position n stands for the start again. */
  function Wrap(p: nat, n: nat): (r: nat)
    requires p <= n && n > 0
    ensures r < n
  {
    if p == n then 0 else p
  }

  /** Where position i ends up when a member is put in at p. */
  function Shift(i: nat, p: nat): nat {
    if i < p then i else i + 1
  }

  /** The position that Shift takes to i. */
  function Unshift(i: nat, p: nat): nat
    requires i != p
  {
    if i < p then i else i - 1
  }

  /** r is s with x put in at p. */
  ghost predicate Inserted<T>(s: seq<T>, p: nat, x: T, r: seq<T>) {
    && p <= |s| && |r| == |s| + 1 && r[p] == x
    && forall i :: 0 <= i < |r| && i != p ==> r[i] == s[Unshift(i, p)]
  }

  function InsertAt<T>(s: seq<T>, p: nat, x: T): (r: seq<T>)
    requires p <= |s|
    ensures |r| == |s| + 1
  {
    s[..p] + [x] + s[p..]
  }

  lemma InsertAtIsInserted<T>(s: seq<T>, p: nat, x: T)
    requires p <= |s|
    ensures Inserted(s, p, x, InsertAt(s, p, x))
  {
  }

  lemma InsertDistinct<T>(s: seq<T>, p: nat, x: T, r: seq<T>)
    requires Inserted(s, p, x, r) && Distinct(s) && x !in s
    ensures Distinct(r)
  {
  }

  lemma NextShift(n: nat, p: nat, i: nat)
    requires n > 0 && p <= n && i <= n && i != p
    ensures var j := Unshift(i, p);
      Next(i, n + 1) == if j == Previous(Wrap(p, n), n) then p else Shift(Next(j, n), p)
    ensures Unshift(i, p) < n && Next(p, n + 1) == Shift(Wrap(p, n), p)
  {
  }

  lemma PreviousShift(n: nat, p: nat, i: nat)
    requires n > 0 && p <= n && i <= n && i != p
    ensures var j := Unshift(i, p);
      Previous(i, n + 1) == if j == Wrap(p, n) then p else Shift(Previous(j, n), p)
    ensures Unshift(i, p) < n && Previous(p, n + 1) == Shift(Previous(Wrap(p, n), n), p)
  {
  }

  lemma ShiftedMember<T>(s: seq<T>, p: nat, x: T, r: seq<T>, j: nat)
    requires Inserted(s, p, x, r) && j < |s|
    ensures r[Shift(j, p)] == s[j]
  {
    assert Unshift(Shift(j, p), p) == j;
  }
}
