/** The order in which a page's fields are visited: insertion into a sorted list, as a value. */
module PageOrder {
  import opened Rings

  /** Row and column of a field. */
  type Key = (int, int)

  predicate Before(a: Key, b: Key) {
    a.0 < b.0 || (a.0 == b.0 && a.1 < b.1)
  }

  /** First position of order whose key does not come before key k; |order| when all do. */
  function Place(keys: seq<Key>, order: seq<nat>, k: Key): (p: nat)
    requires forall i :: 0 <= i < |order| ==> order[i] < |keys|
    ensures p <= |order|
    ensures forall i :: 0 <= i < p ==> Before(keys[order[i]], k)
    ensures p < |order| ==> !Before(keys[order[p]], k)
  {
    if order == [] || !Before(keys[order[0]], k) then 0 else 1 + Place(keys, order[1..], k)
  }

  /** The visiting order of fields lo..hi, each inserted in turn. */
  function Order(keys: seq<Key>, lo: nat, hi: nat): (r: seq<nat>)
    requires lo <= hi <= |keys|
    ensures |r| == hi - lo
    ensures forall i :: 0 <= i < |r| ==> lo <= r[i] < hi
    decreases hi
  {
    if lo == hi then []
    else
      var order := Order(keys, lo, hi - 1);
      InsertAt(order, Place(keys, order, keys[hi - 1]), hi - 1)
  }

  /** Field a is visited before field b: by row, then column, and of equal fields the one later in the array. */
  predicate Precedes(keys: seq<Key>, a: nat, b: nat)
    requires a < |keys| && b < |keys|
  {
    Before(keys[a], keys[b]) || (keys[a] == keys[b] && a > b)
  }

  /** Positions i and j of s stand in the right order. */
  predicate InOrderAt(keys: seq<Key>, s: seq<nat>, i: nat, j: nat)
    requires i < |s| && j < |s|
  {
    s[i] < |keys| && s[j] < |keys| && Precedes(keys, s[i], s[j])
  }

  /** s is strictly sorted by Precedes. */
  predicate SortedBy(keys: seq<Key>, s: seq<nat>) {
    forall i, j :: 0 <= i < j < |s| ==> InOrderAt(keys, s, i, j)
  }

  lemma InsertedAt<T>(s: seq<T>, p: nat, x: T, i: nat)
    requires p <= |s| && i <= |s|
    ensures InsertAt(s, p, x)[i] == if i < p then s[i] else if i == p then x else s[i - 1]
  {
  }

  /** Members i and j of the list that results when k goes in at p. */
  lemma InsertPairSorted(keys: seq<Key>, s: seq<nat>, p: nat, k: nat, i: nat, j: nat)
    requires SortedBy(keys, s) && k < |keys| && i < j <= |s| && p <= |s|
    requires forall q :: 0 <= q < |s| ==> s[q] < k
    requires i < p ==> Before(keys[s[i]], keys[k])
    requires p < |s| ==> !Before(keys[s[p]], keys[k])
    ensures var a := if i < p then s[i] else if i == p then k else s[i - 1];
      var b := if j < p then s[j] else if j == p then k else s[j - 1];
      a < |keys| && b < |keys| && Precedes(keys, a, b)
  {
    if i != p && j != p {
      assert InOrderAt(keys, s, if i < p then i else i - 1, if j < p then j else j - 1);
    } else if i == p && p < j - 1 {
      assert InOrderAt(keys, s, p, j - 1);
    }
  }

  /** An index larger than all in a sorted list, put in before the first key that does not come before its own. */
  lemma InsertSorted(keys: seq<Key>, s: seq<nat>, k: nat)
    requires SortedBy(keys, s) && k < |keys| && forall i :: 0 <= i < |s| ==> s[i] < k
    ensures SortedBy(keys, InsertAt(s, Place(keys, s, keys[k]), k))
  {
    var p := Place(keys, s, keys[k]);
    forall i, j | 0 <= i < j <= |s|
      ensures InOrderAt(keys, InsertAt(s, p, k), i, j)
    {
      InsertedAt(s, p, k, i);
      InsertedAt(s, p, k, j);
      InsertPairSorted(keys, s, p, k, i, j);
    }
  }

  /** The visiting order is strictly sorted by Precedes. */
  lemma {:induction false} OrderSorted(keys: seq<Key>, lo: nat, hi: nat)
    requires lo <= hi <= |keys|
    ensures SortedBy(keys, Order(keys, lo, hi))
    decreases hi
  {
    if lo < hi {
      OrderSorted(keys, lo, hi - 1);
      InsertSorted(keys, Order(keys, lo, hi - 1), hi - 1);
    }
  }

  /** In rows and columns. */
  lemma OrderReads(keys: seq<Key>, lo: nat, hi: nat, i: nat, j: nat)
    requires lo <= hi <= |keys| && i < j < hi - lo
    ensures var a, b := Order(keys, lo, hi)[i], Order(keys, lo, hi)[j];
      || keys[a].0 < keys[b].0
      || (keys[a].0 == keys[b].0 && (keys[a].1 < keys[b].1 || (keys[a].1 == keys[b].1 && a > b)))
  {
    OrderSorted(keys, lo, hi);
    assert InOrderAt(keys, Order(keys, lo, hi), i, j);
  }

  lemma InsertMember<T>(s: seq<T>, p: nat, x: T, y: T)
    requires p <= |s| && (y in s || y == x)
    ensures y in InsertAt(s, p, x)
  {
    if y in s {
      var i :| 0 <= i < |s| && s[i] == y;
      InsertedAt(s, p, x, if i < p then i else i + 1);
      assert InsertAt(s, p, x)[if i < p then i else i + 1] == y;
    } else {
      InsertedAt(s, p, x, p);
    }
  }

  lemma {:induction false} OrderVisits(keys: seq<Key>, lo: nat, hi: nat, k: nat)
    requires lo <= k < hi <= |keys|
    ensures k in Order(keys, lo, hi)
    decreases hi
  {
    if k < hi - 1 {
      OrderVisits(keys, lo, hi - 1, k);
    }
    var order := Order(keys, lo, hi - 1);
    InsertMember(order, Place(keys, order, keys[hi - 1]), hi - 1, k);
  }

  /** Each field lo..hi of the page is visited exactly once, and nothing else is. */
  lemma OrderExact(keys: seq<Key>, lo: nat, hi: nat)
    requires lo <= hi <= |keys|
    ensures forall k: nat :: k in Order(keys, lo, hi) <==> lo <= k < hi
    ensures forall i, j :: 0 <= i < j < hi - lo ==> Order(keys, lo, hi)[i] != Order(keys, lo, hi)[j]
  {
    OrderSorted(keys, lo, hi);
    forall k: nat | lo <= k < hi {
      OrderVisits(keys, lo, hi, k);
    }
    forall i, j | 0 <= i < j < hi - lo
      ensures Order(keys, lo, hi)[i] != Order(keys, lo, hi)[j]
    {
      assert InOrderAt(keys, Order(keys, lo, hi), i, j);
    }
  }

  /** Two sorted lists with the same members are the same list. */
  lemma {:induction false} SortedUnique(keys: seq<Key>, s: seq<nat>, t: seq<nat>)
    requires SortedBy(keys, s) && SortedBy(keys, t)
    requires forall k :: k in s <==> k in t
    ensures s == t
    decreases |s|
  {
    if s == [] {
      assert forall i :: 0 <= i < |t| ==> t[i] in s;
    } else {
      assert s[0] in t;
      var j :| 0 <= j < |t| && t[j] == s[0];
      assert t[0] in s;
      var i :| 0 <= i < |s| && s[i] == t[0];
      assert i > 0 ==> InOrderAt(keys, s, 0, i);
      assert j > 0 ==> InOrderAt(keys, t, 0, j);
      assert s[0] == t[0];
      TailMembers(keys, s);
      TailMembers(keys, t);
      SortedUnique(keys, s[1..], t[1..]);
    }
  }

  lemma TailMembers(keys: seq<Key>, s: seq<nat>)
    requires s != [] && SortedBy(keys, s)
    ensures SortedBy(keys, s[1..])
    ensures forall k :: k in s[1..] <==> k in s && k != s[0]
  {
    forall i, j | 0 <= i < j < |s| - 1
      ensures InOrderAt(keys, s[1..], i, j)
    {
      assert InOrderAt(keys, s, i + 1, j + 1);
    }
    forall k | k in s[1..]
      ensures k != s[0]
    {
      var i :| 0 <= i < |s[1..]| && s[1..][i] == k;
      assert InOrderAt(keys, s, 0, i + 1);
    }
  }

  /** The visiting order is the only sorted list of exactly the page's fields. */
  lemma OrderUnique(keys: seq<Key>, lo: nat, hi: nat, s: seq<nat>)
    requires lo <= hi <= |keys| && SortedBy(keys, s)
    requires forall k: nat :: k in s <==> lo <= k < hi
    ensures s == Order(keys, lo, hi)
  {
    OrderSorted(keys, lo, hi);
    OrderExact(keys, lo, hi);
    SortedUnique(keys, s, Order(keys, lo, hi));
  }
}
