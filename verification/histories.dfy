/**
 * Sequences of `set` calls: after any sequence of writes, `at` returns the
 * record of the last write to the key, and fails when there was none.
 */
module Histories {
  import opened Tombstones
  import opened SortedEntries
  import opened Nodes
  import opened OrderedMaps

  /** One call `set(key, value, deleted)`. */
  datatype Write<V> = Write(key: int, value: V, deleted: bool)

  /** The writes of `ws` applied to `t` in order, first to last. */
  function SetAll<V>(t: OrderedMap<V>, ws: seq<Write<V>>): (t': OrderedMap<V>)
    requires Shaped(t)
    ensures Shaped(t') && t'.bf == t.bf
    decreases |ws|
  {
    if |ws| == 0 then t
    else
      var w := ws[|ws| - 1];
      Set(SetAll(t, ws[..|ws| - 1]), w.key, w.value, w.deleted)
  }

  /** The keys written by `ws`. */
  ghost function WrittenKeys<V>(ws: seq<Write<V>>): set<int>
  {
    set i | 0 <= i < |ws| :: ws[i].key
  }

  /** The keys written by `ws` are those of its prefix and of its last write. */
  lemma {:induction false} WrittenKeysSnoc<V>(ws: seq<Write<V>>)
    requires |ws| > 0
    ensures WrittenKeys(ws) == WrittenKeys(ws[..|ws| - 1]) + {ws[|ws| - 1].key}
  {
    var n := |ws| - 1;
    forall k | k in WrittenKeys(ws)
      ensures k in WrittenKeys(ws[..n]) + {ws[n].key}
    {
      var i :| 0 <= i < |ws| && ws[i].key == k;
      if i < n {
        assert ws[..n][i].key == k;
      }
    }
    forall k | k in WrittenKeys(ws[..n])
      ensures k in WrittenKeys(ws)
    {
      var i :| 0 <= i < n && ws[..n][i].key == k;
      assert ws[i].key == k;
    }
  }

  /** The position of the last write of `ws` to `key`; None when `key` was never written. */
  function LastWrite<V>(ws: seq<Write<V>>, key: int): (r: Option<nat>)
    ensures r.None? <==> key !in WrittenKeys(ws)
    ensures r.Some? ==> r.value < |ws| && ws[r.value].key == key
    ensures r.Some? ==> forall j :: r.value < j < |ws| ==> ws[j].key != key
    decreases |ws|
  {
    if |ws| == 0 then None
    else
      var n := |ws| - 1;
      WrittenKeysSnoc(ws);
      if ws[n].key == key then Some(n)
      else
        var r := LastWrite(ws[..n], key);
        assert r.Some? ==> ws[r.value] == ws[..n][r.value];
        r
  }

  /** The record a write stores. */
  function Stored<V>(w: Write<V>): Record<V>
  {
    Record(w.value, w.deleted)
  }

  /**
   * Each write keeps the tree valid, and afterwards the abstract map holds
   * at `key` the record of the last write to `key`, or what it held before
   * when `key` was not written.
   */
  lemma {:induction false} SetAllView<V>(t: OrderedMap<V>, ws: seq<Write<V>>, key: int)
    requires Valid(t)
    ensures Valid(SetAll(t, ws))
    ensures Get(ViewOf(SetAll(t, ws)), key) ==
      match LastWrite(ws, key)
      case None => Get(ViewOf(t), key)
      case Some(i) => Some(Stored(ws[i]))
    decreases |ws|
  {
    if |ws| > 0 {
      var n := |ws| - 1;
      var w := ws[n];
      SetAllView(t, ws[..n], key);
      SetCorrect(SetAll(t, ws[..n]), w.key, w.value, w.deleted);
    }
  }

  /**
   * The round trip of `at`: on a tree built from empty by the writes `ws`,
   * `at(key)` returns the record of the last write to `key`, and fails
   * exactly when `key` was never written.
   */
  lemma {:induction false} AtAfterSets<V>(bf: nat, ws: seq<Write<V>>, key: int)
    requires bf >= 2
    ensures Valid(SetAll(Empty(bf), ws))
    ensures At(SetAll(Empty(bf), ws), key) ==
      match LastWrite(ws, key)
      case None => None
      case Some(i) => Some(Stored(ws[i]))
  {
    SetAllView(Empty(bf), ws, key);
    AtCorrect(SetAll(Empty(bf), ws), key);
  }

  /** The keys a tree built from empty holds are exactly the keys written. */
  lemma {:induction false} KeysAfterSets<V>(bf: nat, ws: seq<Write<V>>)
    requires bf >= 2
    ensures Valid(SetAll(Empty(bf), ws))
    ensures ViewOf(SetAll(Empty(bf), ws)).Keys == WrittenKeys(ws)
  {
    var t := SetAll(Empty(bf), ws);
    SetAllView(Empty(bf), ws, 0);
    forall k | true
      ensures k in ViewOf(t) <==> k in WrittenKeys(ws)
    {
      SetAllView(Empty(bf), ws, k);
    }
  }

  /**
   * Deleting and then setting again revives a key: `at` returns the new
   * record, no longer tombstoned.
   */
  lemma {:induction false} ReviveAfterDelete<V>(t: OrderedMap<V>, key: int, value: V)
    requires Valid(t)
    ensures Valid(Del(t, key).0)
    ensures var t' := Set(Del(t, key).0, key, value, false);
      && Valid(t')
      && At(t', key) == Some(Record(value, false))
  {
    DelCorrect(t, key);
    var d := Del(t, key).0;
    SetCorrect(d, key, value, false);
    AtCorrect(Set(d, key, value, false), key);
  }
}
