/** The two `java.util.HashMap` operations the source uses, on Dafny maps.

    A Java `HashMap` may map a key to `null`; `get` answers `null` both for
    such a key and for a key that is not in the map, so the caller supplies
    the value that plays the role of `null` for the map's value type. */
module JavaHashMap {
  import opened JavaValues

  /** The entry stored for `k`, distinguishing "not in the map" from every
      stored value (including a stored `null`). */
  function Entry<V>(m: map<string, V>, k: string): (o: Option<V>)
  {
    if k in m then Some(m[k]) else None
  }

  /** `HashMap.get`: the stored value, or `absent` (Java's `null`) when the
      key has no entry. */
  function Get<V>(m: map<string, V>, k: string, absent: V): (v: V)
  {
    if k in m then m[k] else absent
  }

  /** `HashMap.put`: the entry for `k` becomes `v` (last write wins) and no
      other key's entry changes. */
  function Put<V>(m: map<string, V>, k: string, v: V): (m': map<string, V>)
    ensures Entry(m', k) == Some(v)
    ensures forall j :: j != k ==> Entry(m', j) == Entry(m, j)
    ensures m'.Keys == m.Keys + {k}
  {
    m[k := v]
  }
}
