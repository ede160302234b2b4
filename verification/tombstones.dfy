/**
 * The abstract behaviour shared by every tree-backed map in the store:
 * a map from keys to values where deletion does not remove a key but
 * marks it with a tombstone.  The B+ tree is proved to implement these
 * operations, and the collection layer is written on top of them.
 */
module Tombstones {

  datatype Option<T> = None | Some(value: T)

  /** A stored value together with its tombstone flag. */
  datatype Record<V> = Record(value: V, deleted: bool)

  type TMap<K(==), V> = map<K, Record<V>>

  /** `set(k, v, deleted)`: insert or overwrite, replacing the flag too. */
  function Put<K(==), V>(m: TMap<K, V>, k: K, v: V, deleted: bool): TMap<K, V>
  {
    m[k := Record(v, deleted)]
  }

  /** `at(k, &isDeleted)`: the stored record, tombstoned or not; None when the key was never stored. */
  function Get<K(==), V>(m: TMap<K, V>, k: K): Option<Record<V>>
  {
    if k in m then Some(m[k]) else None
  }

  /**
   * `del(k)`: flag an existing entry (whatever its previous flag) and report
   * whether the key was present; an absent key leaves the map unchanged.
   */
  function Delete<K(==), V>(m: TMap<K, V>, k: K): (TMap<K, V>, bool)
  {
    if k in m then (m[k := Record(m[k].value, true)], true) else (m, false)
  }
}
