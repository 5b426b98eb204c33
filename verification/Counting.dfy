/** How many keys of a map lead to a value, and how updates change that. */
module Counting {

  ghost function Keyed<K, V>(m: map<K, V>, v: V): set<K> {
    set k | k in m && m[k] == v
  }

  ghost function Count<K, V>(m: map<K, V>, v: V): nat {
    |Keyed(m, v)|
  }

  /** One if the condition holds. */
  function Bit(b: bool): nat {
    if b then 1 else 0
  }

  lemma CountAdd<K, V>(m: map<K, V>, k: K, w: V, v: V)
    requires k !in m
    ensures Count(m[k := w], v) == Count(m, v) + Bit(w == v)
  {
    assert Keyed(m[k := w], v) == if w == v then Keyed(m, v) + {k} else Keyed(m, v);
  }

  lemma CountRemove<K, V>(m: map<K, V>, k: K, v: V)
    requires k in m
    ensures Count(m, v) == Count(m - {k}, v) + Bit(m[k] == v)
  {
    assert Keyed(m - {k}, v) == Keyed(m, v) - {k};
  }

  lemma CountZero<K, V>(m: map<K, V>, v: V, k: K)
    requires Count(m, v) == 0 && k in m
    ensures m[k] != v
  {
    assert k in Keyed(m, v) ==> Keyed(m, v) != {};
  }
}
