/**
 * Key-ordered sequences of leaf entries.  The B+ tree's contents, read leaf
 * by leaf along the leaf chain, form such a sequence; this module gives the
 * reference definition of inserting into it (`Upsert`) and its map view.
 */
module SortedEntries {
  import opened Tombstones

  /** One leaf slot: the key, its value and its tombstone flag. */
  datatype Entry<V> = Entry(key: int, rec: Record<V>)

  function KeysOf<V>(s: seq<Entry<V>>): (ks: seq<int>)
    ensures |ks| == |s|
    ensures forall i {:trigger ks[i]} :: 0 <= i < |s| ==> ks[i] == s[i].key
  {
    seq(|s|, i requires 0 <= i < |s| => s[i].key)
  }

  /** Each key lies below the next one; `IncreasingPairs` reads it pairwise. */
  ghost predicate Increasing(ks: seq<int>)
    decreases |ks|
  {
    |ks| <= 1 || (ks[0] < ks[1] && Increasing(ks[1..]))
  }

  /** Increasing means every key lies below every later one. */
  lemma {:induction false} IncreasingPairs(ks: seq<int>)
    ensures Increasing(ks) <==> forall i, j :: 0 <= i < j < |ks| ==> ks[i] < ks[j]
    decreases |ks|
  {
    if |ks| > 1 {
      var tail := ks[1..];
      IncreasingPairs(tail);
      if Increasing(ks) {
        forall i, j | 0 <= i < j < |ks|
          ensures ks[i] < ks[j]
        {
          if i == 0 {
            if j > 1 {
              assert tail[0] < tail[j - 1];
            }
          } else {
            assert tail[i - 1] < tail[j - 1];
          }
        }
      }
      if forall i, j :: 0 <= i < j < |ks| ==> ks[i] < ks[j] {
        forall i, j | 0 <= i < j < |tail|
          ensures tail[i] < tail[j]
        {
          assert ks[i + 1] < ks[j + 1];
        }
      }
    }
  }

  /** Keys strictly increase along the sequence. */
  ghost predicate StrictlySorted<V>(s: seq<Entry<V>>)
  {
    Increasing(KeysOf(s))
  }

  /** `StrictlySorted`, read pairwise on the entries themselves. */
  lemma {:induction false} SortedPairs<V>(s: seq<Entry<V>>)
    ensures StrictlySorted(s) <==> forall i, j :: 0 <= i < j < |s| ==> s[i].key < s[j].key
  {
    var ks := KeysOf(s);
    IncreasingPairs(ks);
    if StrictlySorted(s) {
      forall i, j | 0 <= i < j < |s|
        ensures s[i].key < s[j].key
      {
        assert ks[i] < ks[j];
      }
    }
  }

  /** The tail of a sorted sequence is sorted and lies above its head. */
  lemma {:induction false} SortedTail<V>(s: seq<Entry<V>>)
    requires StrictlySorted(s) && |s| > 0
    ensures StrictlySorted(s[1..]) && AllAbove(s[1..], s[0].key)
  {
    SortedPairs(s);
    SortedPairs(s[1..]);
  }

  ghost predicate AllBelow<V>(s: seq<Entry<V>>, k: int)
  {
    forall i :: 0 <= i < |s| ==> s[i].key < k
  }

  ghost predicate AllAbove<V>(s: seq<Entry<V>>, k: int)
  {
    forall i :: 0 <= i < |s| ==> k < s[i].key
  }

  /**
   * The first index whose key is not below `key` (the linear scan that
   * starts `set_value`).
   */
  function InsertPoint(keys: seq<int>, key: int): (i: nat)
    ensures i <= |keys|
    ensures forall j :: 0 <= j < i ==> keys[j] < key
    ensures i < |keys| ==> key <= keys[i]
  {
    if |keys| == 0 || key <= keys[0] then 0 else 1 + InsertPoint(keys[1..], key)
  }

  /**
   * Reference definition of storing `e` in a key-ordered sequence: it
   * replaces the entry with the same key, or goes in front of the first
   * larger key.
   */
  function Upsert<V>(s: seq<Entry<V>>, e: Entry<V>): seq<Entry<V>>
  {
    if |s| == 0 then [e]
    else if e.key < s[0].key then [e] + s
    else if e.key == s[0].key then [e] + s[1..]
    else [s[0]] + Upsert(s[1..], e)
  }

  /** The map a key-ordered sequence denotes; the first entry of a key wins. */
  function View<V>(s: seq<Entry<V>>): TMap<int, V>
  {
    if |s| == 0 then map[] else View(s[1..])[s[0].key := s[0].rec]
  }

  lemma {:induction false} UpsertBounded<V>(s: seq<Entry<V>>, e: Entry<V>, b: int)
    requires AllAbove(s, b) && b < e.key
    ensures AllAbove(Upsert(s, e), b)
    decreases |s|
  {
    if |s| > 0 && e.key > s[0].key {
      UpsertBounded(s[1..], e, b);
    }
  }

  /** Upsert keeps a strictly sorted sequence strictly sorted. */
  lemma {:induction false} UpsertSorted<V>(s: seq<Entry<V>>, e: Entry<V>)
    requires StrictlySorted(s)
    ensures StrictlySorted(Upsert(s, e))
    decreases |s|
  {
    SortedPairs(s);
    SortedPairs(Upsert(s, e));
    if |s| > 0 && e.key > s[0].key {
      SortedPairs(s[1..]);
      UpsertSorted(s[1..], e);
      SortedPairs(Upsert(s[1..], e));
      UpsertBounded(s[1..], e, s[0].key);
      var r := Upsert(s, e);
      assert r == [s[0]] + Upsert(s[1..], e);
      forall i, j | 0 <= i < j < |r|
        ensures r[i].key < r[j].key
      {
        if i > 0 {
          assert r[i] == Upsert(s[1..], e)[i - 1];
        }
        assert r[j] == Upsert(s[1..], e)[j - 1];
      }
    }
  }

  /** Upsert is the map update `k := rec` on the view. */
  lemma {:induction false} UpsertView<V>(s: seq<Entry<V>>, e: Entry<V>)
    ensures View(Upsert(s, e)) == View(s)[e.key := e.rec]
    decreases |s|
  {
    if |s| == 0 {
    } else if e.key < s[0].key {
      assert ([e] + s)[1..] == s;
    } else if e.key == s[0].key {
      assert ([e] + s[1..])[1..] == s[1..];
    } else {
      var u := Upsert(s[1..], e);
      assert ([s[0]] + u)[1..] == u;
      UpsertView(s[1..], e);
    }
  }

  /** The first key after an upsert is the smaller of the old first key and the new key. */
  lemma {:induction false} UpsertFirst<V>(s: seq<Entry<V>>, e: Entry<V>)
    requires |s| > 0
    ensures |Upsert(s, e)| > 0
    ensures Upsert(s, e)[0].key == if e.key < s[0].key then e.key else s[0].key
  {
  }

  /** Entries below the new key are passed over untouched. */
  lemma {:induction false} UpsertPrefix<V>(a: seq<Entry<V>>, x: seq<Entry<V>>, e: Entry<V>)
    requires AllBelow(a, e.key)
    ensures Upsert(a + x, e) == a + Upsert(x, e)
    decreases |a|
  {
    if |a| > 0 {
      assert (a + x)[0] == a[0];
      assert (a + x)[1..] == a[1..] + x;
      UpsertPrefix(a[1..], x, e);
      assert a == [a[0]] + a[1..];
    } else {
      assert a + x == x;
    }
  }

  /** Entries above the new key are left in place after it. */
  lemma {:induction false} UpsertSuffix<V>(c: seq<Entry<V>>, b: seq<Entry<V>>, e: Entry<V>)
    requires AllAbove(b, e.key)
    ensures Upsert(c + b, e) == Upsert(c, e) + b
    decreases |c|
  {
    if |c| == 0 {
      assert c + b == b;
    } else {
      assert (c + b)[0] == c[0];
      assert (c + b)[1..] == c[1..] + b;
      if e.key > c[0].key {
        UpsertSuffix(c[1..], b, e);
      } else if e.key == c[0].key {
        assert c[1..] + b == (c + b)[1..];
      }
    }
  }

  /**
   * `Upsert` is what `set_value` does to a leaf: overwrite at the insert
   * point when the key there is equal, otherwise insert there.
   */
  lemma {:induction false} UpsertAt<V>(s: seq<Entry<V>>, e: Entry<V>)
    ensures var i := InsertPoint(KeysOf(s), e.key);
      Upsert(s, e) == if i < |s| && s[i].key == e.key then s[i := e] else s[..i] + [e] + s[i..]
    decreases |s|
  {
    if |s| > 0 && e.key > s[0].key {
      var t := s[1..];
      assert KeysOf(s)[1..] == KeysOf(t);
      UpsertAt(t, e);
      var i := InsertPoint(KeysOf(t), e.key);
      assert InsertPoint(KeysOf(s), e.key) == i + 1;
      assert Upsert(s, e) == [s[0]] + Upsert(t, e);
      if i < |t| && t[i].key == e.key {
        assert Upsert(t, e) == t[i := e];
        assert [s[0]] + t[i := e] == s[i + 1 := e];
      } else {
        assert Upsert(t, e) == t[..i] + [e] + t[i..];
        assert s[..i + 1] == [s[0]] + t[..i];
        assert s[i + 1..] == t[i..];
      }
    } else if |s| > 0 && e.key == s[0].key {
      assert [e] + s[1..] == s[0 := e];
    }
  }

  /** A key absent from every entry is absent from the view. */
  lemma {:induction false} ViewMissing<V>(s: seq<Entry<V>>, k: int)
    requires forall i :: 0 <= i < |s| ==> s[i].key != k
    ensures k !in View(s)
    decreases |s|
  {
    if |s| > 0 {
      ViewMissing(s[1..], k);
    }
  }

  /** In a strictly sorted sequence the view holds every entry at its own key. */
  lemma {:induction false} ViewHolds<V>(s: seq<Entry<V>>, i: int)
    requires StrictlySorted(s) && 0 <= i < |s|
    ensures s[i].key in View(s) && View(s)[s[i].key] == s[i].rec
    decreases |s|
  {
    SortedPairs(s);
    if i > 0 {
      SortedPairs(s[1..]);
      ViewHolds(s[1..], i - 1);
    }
  }

  /** The view of a concatenation: the earlier part wins. */
  lemma {:induction false} ViewAppend<V>(a: seq<Entry<V>>, b: seq<Entry<V>>)
    ensures View(a + b) == View(b) + View(a)
    decreases |a|
  {
    if |a| == 0 {
      assert a + b == b;
    } else {
      assert (a + b)[0] == a[0];
      assert (a + b)[1..] == a[1..] + b;
      ViewAppend(a[1..], b);
    }
  }

  /** The keys of the view are exactly the keys of the entries. */
  lemma {:induction false} ViewDomain<V>(s: seq<Entry<V>>)
    ensures View(s).Keys == set i | 0 <= i < |s| :: s[i].key
    decreases |s|
  {
    if |s| > 0 {
      ViewDomain(s[1..]);
      var tail := set i | 0 <= i < |s[1..]| :: s[1..][i].key;
      var all := set i | 0 <= i < |s| :: s[i].key;
      forall k | k in all
        ensures k in tail + {s[0].key}
      {
        var i :| 0 <= i < |s| && s[i].key == k;
        if i > 0 {
          assert s[1..][i - 1].key == k;
        }
      }
      forall k | k in tail
        ensures k in all
      {
        var i :| 0 <= i < |s[1..]| && s[1..][i].key == k;
        assert s[i + 1].key == k;
      }
    }
  }

  /** Storing into the middle part of a sequence whose other parts lie below and above the key. */
  lemma {:induction false} UpsertMiddle<V>(a: seq<Entry<V>>, c: seq<Entry<V>>, b: seq<Entry<V>>, e: Entry<V>)
    requires AllBelow(a, e.key) && AllAbove(b, e.key)
    ensures Upsert(a + c + b, e) == a + Upsert(c, e) + b
  {
    UpsertPrefix(a, c + b, e);
    UpsertSuffix(c, b, e);
    AppendAssoc(a, c, b);
    AppendAssoc(a, Upsert(c, e), b);
  }

  /** Looking up a key in the middle part of a sequence whose other parts lie below and above it. */
  lemma {:induction false} ViewMiddle<V>(a: seq<Entry<V>>, c: seq<Entry<V>>, b: seq<Entry<V>>, k: int)
    requires AllBelow(a, k) && AllAbove(b, k)
    ensures Get(View(a + c + b), k) == Get(View(c), k)
  {
    ViewAppend(a + c, b);
    ViewAppend(a, c);
    ViewMissing(a, k);
    ViewMissing(b, k);
  }

  /** Tombstoning a key found only in the middle part of a sequence. */
  lemma {:induction false} TombstonedMiddle<V>(a: seq<Entry<V>>, c: seq<Entry<V>>, b: seq<Entry<V>>, k: int)
    requires AllBelow(a, k) && AllAbove(b, k)
    ensures Tombstoned(a + c + b, k) == a + Tombstoned(c, k) + b
  {
    TombstonedAppend(a + c, b, k);
    TombstonedAppend(a, c, k);
    TombstonedMissing(a, k);
    TombstonedMissing(b, k);
  }

  lemma {:induction false} AppendAssoc<T>(a: seq<T>, b: seq<T>, c: seq<T>)
    ensures a + b + c == a + (b + c)
  {
  }

  /** A sorted concatenation is made of sorted parts, the first wholly below the second. */
  lemma {:induction false} SortedConcat<V>(x: seq<Entry<V>>, y: seq<Entry<V>>)
    requires StrictlySorted(x + y)
    ensures StrictlySorted(x) && StrictlySorted(y)
    ensures forall i, j :: 0 <= i < |x| && 0 <= j < |y| ==> x[i].key < y[j].key
  {
    SortedPairs(x + y);
    SortedPairs(x);
    SortedPairs(y);
    forall i, j | 0 <= i < |x| && 0 <= j < |y|
      ensures x[i].key < y[j].key
    {
      assert (x + y)[i] == x[i];
      assert (x + y)[|x| + j] == y[j];
    }
    forall i, j | 0 <= i < j < |y|
      ensures y[i].key < y[j].key
    {
      assert (x + y)[|x| + i] == y[i];
      assert (x + y)[|x| + j] == y[j];
    }
    forall i, j | 0 <= i < j < |x|
      ensures x[i].key < x[j].key
    {
      assert (x + y)[i] == x[i];
      assert (x + y)[j] == x[j];
    }
  }

  /** `InsertPoint` is the only index with its two defining properties. */
  lemma {:induction false} InsertPointIs(keys: seq<int>, key: int, p: nat)
    requires p <= |keys|
    requires forall j :: 0 <= j < p ==> keys[j] < key
    requires p < |keys| ==> key <= keys[p]
    ensures InsertPoint(keys, key) == p
  {
  }

  /** The sequence after `del(k)`: the entry with key `k`, if any, gets its tombstone set. */
  function Tombstoned<V>(s: seq<Entry<V>>, k: int): (r: seq<Entry<V>>)
  {
    seq(|s|, i requires 0 <= i < |s| => if s[i].key == k then Entry(k, Record(s[i].rec.value, true)) else s[i])
  }

  lemma {:induction false} TombstonedKeys<V>(s: seq<Entry<V>>, k: int)
    ensures |Tombstoned(s, k)| == |s| && KeysOf(Tombstoned(s, k)) == KeysOf(s)
    ensures StrictlySorted(s) ==> StrictlySorted(Tombstoned(s, k))
  {
  }

  lemma {:induction false} TombstonedAppend<V>(a: seq<Entry<V>>, b: seq<Entry<V>>, k: int)
    ensures Tombstoned(a + b, k) == Tombstoned(a, k) + Tombstoned(b, k)
  {
  }

  lemma {:induction false} TombstonedMissing<V>(s: seq<Entry<V>>, k: int)
    requires forall i :: 0 <= i < |s| ==> s[i].key != k
    ensures Tombstoned(s, k) == s
  {
  }

  /** Tombstoning a sorted sequence is `Delete` on its view. */
  lemma {:induction false} TombstonedView<V>(s: seq<Entry<V>>, k: int)
    requires StrictlySorted(s)
    ensures View(Tombstoned(s, k)) == Delete(View(s), k).0
    ensures Delete(View(s), k).1 <==> exists i :: 0 <= i < |s| && s[i].key == k
    decreases |s|
  {
    if |s| == 0 {
    } else {
      SortedTail(s);
      var t := Tombstoned(s, k);
      assert t[1..] == Tombstoned(s[1..], k);
      TombstonedView(s[1..], k);
      if s[0].key == k {
        ViewMissing(s[1..], k);
        ViewMissing(t[1..], k);
      } else {
        if exists i :: 0 <= i < |s| && s[i].key == k {
          var i :| 0 <= i < |s| && s[i].key == k;
          assert s[1..][i - 1].key == k;
        }
        if exists i :: 0 <= i < |s[1..]| && s[1..][i].key == k {
          var i :| 0 <= i < |s[1..]| && s[1..][i].key == k;
          assert s[i + 1].key == k;
        }
      }
    }
  }
}
