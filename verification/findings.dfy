/**
 * Three places where the source, as written, does not do what it evidently
 * means to.  Each is modelled as written, with an input that exhibits the
 * problem; the rest of the model uses the corrected behaviour.
 */
module Findings {
  import opened Tombstones
  import opened SortedEntries
  import opened Nodes
  import opened OrderedMaps
  import opened Iteration

  // ---------------------------------------------------------------------
  // The leaf search of `at` on `size_t` indices

  /** 2^64: `size_t` arithmetic wraps modulo this. */
  const SizeMod: nat := 0x1_0000_0000_0000_0000

  /** Where the leaf search ends: a slot holding the key, the "not found" exit, or a read past the node. */
  datatype Probe = Hit(index: nat) | Miss | Overrun(mid: nat)

  /**
   * The leaf search of `at` as written: `left`, `right` and `mid` are
   * `size_t`, so `right = mid - 1` wraps to 2^64 - 1 when `mid` is 0.  The
   * wrapped state can only arise with `left` still 0, and it reads
   * `mKeys[mid]` far beyond the node.
   */
  function SizeSearch<V>(es: seq<Entry<V>>, key: int, left: nat, right: nat): (p: Probe)
    requires |es| < SizeMod / 2
    requires left <= right + 1
    requires right < |es| || (right == SizeMod - 1 && left == 0)
    ensures p.Hit? ==> p.index < |es| && es[p.index].key == key
    ensures p.Overrun? ==> p.mid >= |es|
    decreases if right < |es| then right + 2 - left else 0
  {
    if left <= right then
      var sum := left + right;
      var mid := (if sum < SizeMod then sum else sum - SizeMod) / 2;
      if mid >= |es| then Overrun(mid)
      else if key == es[mid].key then Hit(mid)
      else if key < es[mid].key then SizeSearch(es, key, left, if mid == 0 then SizeMod - 1 else mid - 1)
      else SizeSearch(es, key, mid + 1, right)
    else
      Miss
  }

  /**
   * Whenever the key lies below every key of a sorted leaf (as it does in
   * the leftmost leaf for a key below every key of the tree), the search
   * keeps halving towards slot 0, wraps, and reads past the node.
   */
  lemma {:induction false} SizeSearchOverruns<V>(es: seq<Entry<V>>, key: int, right: nat)
    requires |es| < SizeMod / 2 && right < |es|
    requires StrictlySorted(es) && key < es[0].key
    ensures SizeSearch(es, key, 0, right).Overrun?
    decreases right
  {
    SortedPairs(es);
    var mid := right / 2;
    assert key < es[mid].key by {
      if mid > 0 {
        assert es[0].key < es[mid].key;
      }
    }
    if mid > 0 {
      SizeSearchOverruns(es, key, mid - 1);
    }
  }

  /** The smallest case: one key, 10, and a query for 5; a query above the key, 12, does not wrap. */
  lemma {:induction false} SizeSearchExample()
    ensures SizeSearch([Entry(10, Record(10, false))], 5, 0, 0) == Overrun(SizeMod / 2 - 1)
    ensures SizeSearch([Entry(10, Record(10, false))], 12, 0, 0) == Miss
  {
  }

  /** With `int` indices, the same query reports "not found". */
  lemma {:induction false} LeafSearchExample()
    ensures LeafSearch([Entry(10, Record(10, false))], 5, 0, 0) == None
    ensures At(OrderedMap(Leaf([Entry(10, Record(10, false))]), 1, 3), 5) == None
  {
  }

  // ---------------------------------------------------------------------
  // Iterator aliasing

  /**
   * The store `operator++` makes through the references of `value_type`:
   * they are bound to the first slot of the leftmost leaf, so its key and
   * value are overwritten with the entry moved to (the tombstone flag is a
   * copy and stays).
   */
  function Clobber<V>(chain: seq<Node<V>>, e: Entry<V>): (c: seq<Node<V>>)
    requires |chain| > 0 && chain[0].Leaf? && |chain[0].entries| > 0
    ensures |c| == |chain| && c[1..] == chain[1..]
    ensures c[0].Leaf? && |c[0].entries| == |chain[0].entries|
    ensures c[0].entries[0] == Entry(e.key, Record(e.rec.value, chain[0].entries[0].rec.deleted))
    ensures c[0].entries[1..] == chain[0].entries[1..]
  {
    var es := chain[0].entries;
    chain[0 := Leaf(es[0 := Entry(e.key, Record(e.rec.value, es[0].rec.deleted))])]
  }

  /**
   * Traversal as written: each `++` that lands on an entry also writes that
   * entry into the first slot.  Returns what the loop reads and the chain
   * it leaves behind.  The entries read carry each slot's own tombstone
   * flag, the corrected one (as written the flag is always false; see
   * `DeletedFlagLost`), so this isolates the aliasing defect.
   */
  function AliasedWalk<V>(chain: seq<Node<V>>, it: Iterator): (r: (seq<Entry<V>>, seq<Node<V>>))
    requires Walkable(chain) || it.leaf.None?
    requires Within(chain, it)
    ensures |r.0| == |Flatten(chain)| - Position(chain, it)
    ensures |r.1| == |chain|
    decreases |Flatten(chain)| - Position(chain, it)
  {
    if Equal(it, End()) then ([], chain)
    else
      var e := Deref(chain, it);
      var next := Next(chain, it);
      if Equal(next, End()) then ([e], chain)
      else
        var clobbered := Clobber(chain, Deref(chain, next));
        ClobberShape(chain, clobbered);
        var rest := AliasedWalk(clobbered, next);
        ([e] + rest.0, rest.1)
  }

  /** Overwriting the first slot keeps the shape of the chain, so positions stay put. */
  lemma {:induction false} ClobberShape<V>(chain: seq<Node<V>>, c: seq<Node<V>>)
    requires |c| == |chain|
    requires forall p :: 0 <= p < |chain| ==> chain[p].Leaf? && c[p].Leaf? && |c[p].entries| == |chain[p].entries|
    ensures |Flatten(c)| == |Flatten(chain)|
    ensures forall m :: 0 <= m <= |chain| ==> |Flatten(c[..m])| == |Flatten(chain[..m])|
    decreases |chain|
  {
    if |chain| > 0 {
      ClobberShape(chain[1..], c[1..]);
      forall m | 0 <= m <= |chain|
        ensures |Flatten(c[..m])| == |Flatten(chain[..m])|
      {
        if m > 0 {
          assert c[..m][1..] == c[1..][..m - 1];
          assert chain[..m][1..] == chain[1..][..m - 1];
        }
      }
    }
  }

  /**
   * A leaf holding 1 and 2: the walk reads both entries, but leaves the
   * leaf holding 2 twice, so it is no longer sorted.  A later `at(1)` then
   * reads past the node as written (the wrap of `SizeSearch`); the
   * corrected `at` reports that 1 is not found.
   */
  lemma {:induction false} AliasingCounterexample()
    ensures var e1, e2 := Entry(1, Record(10, false)), Entry(2, Record(20, false));
      var t := OrderedMap(Leaf([e1, e2]), 1, 3);
      && Valid(t) && At(t, 1) == Some(e1.rec)
      && var r := AliasedWalk(Leaves(t.root), Begin(t));
      && r.0 == [e1, e2]
      && r.1 == [Leaf([e2, e2])]
      && !StrictlySorted(Flatten(r.1))
      && SizeSearch(r.1[0].entries, 1, 0, 1).Overrun?
      && At(OrderedMap(r.1[0], 1, 3), 1) == None
  {
    var e1, e2 := Entry(1, Record(10, false)), Entry(2, Record(20, false));
    var t := OrderedMap(Leaf([e1, e2]), 1, 3);
    ContentsOfLeaf([e1, e2]);
    assert StrictlySorted([e1, e2]) by {
      assert KeysOf([e1, e2]) == [1, 2];
    }
    assert Valid(t);
    var chain := [Leaf([e1, e2])];
    assert Leaves(t.root) == chain;
    var it0, it1 := Iterator(Some(0), 0), Iterator(Some(0), 1);
    assert Begin(t) == it0;
    assert Next(chain, it0) == it1;
    var c := Clobber(chain, e2);
    assert chain[0].entries[1..] == [e2];
    assert c[0].entries[0] == e2;
    assert c[0].entries[1..] == [e2];
    assert c[0].entries == [e2, e2];
    assert c[0] == Leaf([e2, e2]);
    assert c == [Leaf([e2, e2])];
    assert Next(c, it1) == Iterator(None, 1);
    assert AliasedWalk(c, it1) == ([e2], c);
    ContentsOfLeaf([e2, e2]);
    assert Flatten(c) == [e2, e2];
    var ks := KeysOf([e2, e2]);
    assert ks[0] == ks[1] == 2;
    assert !Increasing(ks);
  }

  // ---------------------------------------------------------------------
  // The tombstone flag the iterator yields

  /**
   * The flag `operator*` yields as written: the iterator's `value_type` is
   * built with `false`, and neither the constructor nor `++` changes it.
   */
  function ReportedDeleted<V>(chain: seq<Node<V>>, it: Iterator): bool
    requires Within(chain, it) && it.leaf.Some?
  {
    false
  }

  /**
   * After `del(1)` on a tree holding 1, the entry under `begin()` is a
   * tombstone, yet the flag the iterator yields says it is live.
   */
  lemma {:induction false} DeletedFlagLost()
    ensures var t := OrderedMap(Leaf([Entry(1, Record(10, false))]), 1, 3);
      var d := Del(t, 1).0;
      && Valid(d)
      && Begin(d).leaf.Some?
      && Deref(Leaves(d.root), Begin(d)).rec == Record(10, true)
      && !ReportedDeleted(Leaves(d.root), Begin(d))
  {
    var e := Entry(1, Record(10, false));
    var t := OrderedMap(Leaf([e]), 1, 3);
    ContentsOfLeaf([e]);
    assert StrictlySorted([e]);
    assert Valid(t);
    DelCorrect(t, 1);
    var d := Del(t, 1).0;
    assert d.root == Leaf([Entry(1, Record(10, true))]);
    ContentsOfLeaf([Entry(1, Record(10, true))]);
    assert Begin(d) == Iterator(Some(0), 0);
  }

  /** The corrected traversal leaves the tree untouched and reads exactly its contents. */
  lemma {:induction false} WalkLeavesTree<V>(t: OrderedMap<V>)
    requires Valid(t)
    ensures Walkable(Leaves(t.root)) || Begin(t).leaf.None?
    ensures Walk(Leaves(t.root), Begin(t)) == Contents(t.root)
  {
    TraversalCorrect(t);
  }
}
