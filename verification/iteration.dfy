/**
 * Iteration: `begin`, `end`, `Iterator::operator++`, `operator==` and
 * `operator!=`.  An iterator names a leaf by its position in the leaf chain
 * (the in-order sequence of leaves that the `mNext` pointers link), or holds
 * no leaf at all, as the end iterator's null `parent` does; `index` is
 * `keyIndex`.  Dereferencing yields the entry the iterator points at, as a
 * value rather than as references into the tree.
 */
module Iteration {
  import opened Tombstones
  import opened SortedEntries
  import opened Nodes
  import opened OrderedMaps
  import opened Histories

  datatype Iterator = Iterator(leaf: Option<nat>, index: nat)

  /** Every leaf of the chain is a leaf node holding at least one entry. */
  ghost predicate Walkable<V>(chain: seq<Node<V>>)
  {
    forall p :: 0 <= p < |chain| ==> chain[p].Leaf? && |chain[p].entries| > 0
  }

  /** The iterator is an end iterator or points at an entry of the chain. */
  ghost predicate Within<V>(chain: seq<Node<V>>, it: Iterator)
  {
    it.leaf.Some? ==>
      && it.leaf.value < |chain|
      && chain[it.leaf.value].Leaf?
      && it.index < |chain[it.leaf.value].entries|
  }

  /** The entries of the first `p + 1` leaves: those of the first `p`, then leaf `p`'s. */
  lemma {:induction false} FlattenStep<V>(chain: seq<Node<V>>, p: nat)
    requires p < |chain| && chain[p].Leaf?
    ensures Flatten(chain[..p + 1]) == Flatten(chain[..p]) + chain[p].entries
    ensures Flatten(chain) == Flatten(chain[..p + 1]) + Flatten(chain[p + 1..])
  {
    assert Flatten(chain[..p + 1]) == Flatten(chain[..p]) + chain[p].entries by {
      assert chain[..p] + [chain[p]] == chain[..p + 1];
      FlattenSnoc(chain[..p], chain[p]);
    }
    assert Flatten(chain) == Flatten(chain[..p + 1]) + Flatten(chain[p + 1..]) by {
      assert chain[..p + 1] + chain[p + 1..] == chain;
      FlattenAppend(chain[..p + 1], chain[p + 1..]);
    }
  }

  lemma {:induction false} FlattenSnoc<V>(chain: seq<Node<V>>, n: Node<V>)
    requires n.Leaf?
    ensures Flatten(chain + [n]) == Flatten(chain) + n.entries
  {
    FlattenAppend(chain, [n]);
    assert Flatten([n]) == n.entries + Flatten([]);
  }

  /**
   * How many entries of the chain come before the one the iterator points
   * at; an end iterator stands after all of them.
   */
  ghost function Position<V>(chain: seq<Node<V>>, it: Iterator): (r: nat)
    requires Within(chain, it)
    ensures r <= |Flatten(chain)|
    ensures it.leaf.Some? <==> r < |Flatten(chain)|
  {
    match it.leaf
    case None => |Flatten(chain)|
    case Some(p) =>
      FlattenStep(chain, p);
      |Flatten(chain[..p])| + it.index
  }

  /** `operator*`: the entry the iterator points at. */
  function Deref<V>(chain: seq<Node<V>>, it: Iterator): (e: Entry<V>)
    requires Within(chain, it) && it.leaf.Some?
    ensures e == Flatten(chain)[Position(chain, it)]
  {
    var p := it.leaf.value;
    FlattenStep(chain, p);
    chain[p].entries[it.index]
  }

  /** `end()`: an iterator with no leaf. */
  function End(): (it: Iterator)
    ensures it.leaf.None?
  {
    Iterator(None, 0)
  }

  /**
   * `operator==`: two end iterators are equal whatever their `keyIndex`;
   * otherwise leaf and index must both agree.
   */
  function Equal(a: Iterator, b: Iterator): (r: bool)
    ensures r <==> (a.leaf.None? && b.leaf.None?) || a == b
  {
    if a.leaf.None? && b.leaf.None? then true
    else a.leaf == b.leaf && a.index == b.index
  }

  /** `operator!=`, written separately in the source: exactly the negation of `==`. */
  function NotEqual(a: Iterator, b: Iterator): (r: bool)
    ensures r == !Equal(a, b)
  {
    if a.leaf.None? && b.leaf.None? then false
    else a.leaf != b.leaf || a.index != b.index
  }

  /**
   * `operator++`: the next slot of the same leaf, else the first slot of the
   * next leaf, else the end (keeping `keyIndex`, as the source does).  It
   * moves exactly one entry forward along the chain.
   */
  function Next<V>(chain: seq<Node<V>>, it: Iterator): (r: Iterator)
    requires Walkable(chain) && Within(chain, it) && it.leaf.Some?
    ensures Within(chain, r)
    ensures Position(chain, r) == Position(chain, it) + 1
  {
    var p := it.leaf.value;
    FlattenStep(chain, p);
    if it.index < |chain[p].entries| - 1 then Iterator(it.leaf, it.index + 1)
    else if p + 1 < |chain| then
      FlattenStep(chain, p + 1);
      Iterator(Some(p + 1), 0)
    else
      assert chain[p + 1..] == [];
      Iterator(None, it.index)
  }

  /** The descent of `begin()`: follow the first child down to a leaf. */
  function Leftmost<V>(n: Node<V>): Node<V>
    decreases n
  {
    match n
    case Leaf(_) => n
    case Branch(kids) => if |kids| == 0 then n else Leftmost(kids[0].node)
  }

  /** In a balanced subtree the descent along first children reaches the first leaf of the chain. */
  lemma {:induction false} LeftmostFirst<V>(n: Node<V>, d: nat, bf: nat)
    requires Balanced(n, d, bf)
    ensures |Leaves(n)| > 0 && Leftmost(n) == Leaves(n)[0]
    decreases n
  {
    match n
    case Leaf(_) =>
    case Branch(kids) =>
      LeftmostFirst(kids[0].node, d - 1, bf);
      LeavesAround(kids, 0);
      assert Leaves(n) == LeavesOf(kids);
  }

  /**
   * The constructor's scan for `keyIndex`: the last slot holding `key`, or 0
   * when no slot does.
   */
  function KeyIndex(keys: seq<int>, key: int): (i: nat)
    ensures i == 0 || (i < |keys| && keys[i] == key)
    ensures forall j :: i < j < |keys| ==> keys[j] != key
    ensures i > 0 || |keys| == 0 || keys[0] == key || forall j :: 0 <= j < |keys| ==> keys[j] != key
    decreases |keys|
  {
    if |keys| == 0 then 0
    else if keys[|keys| - 1] == key then |keys| - 1
    else
      var i := KeyIndex(keys[..|keys| - 1], key);
      assert forall j :: i < j < |keys| - 1 ==> keys[j] == keys[..|keys| - 1][j];
      i
  }

  /**
   * `begin()`: the end iterator for an empty root, otherwise the first slot
   * of the leftmost leaf, whose `keyIndex` the constructor finds by scanning
   * for the first key.
   */
  function Begin<V>(t: OrderedMap<V>): (it: Iterator)
    requires Valid(t)
    ensures Within(Leaves(t.root), it)
    ensures Equal(it, End()) <==> |Contents(t.root)| == 0
    ensures it.leaf.Some? ==> Position(Leaves(t.root), it) == 0
  {
    if Size(t.root) == 0 then
      ContentsOfLeaf<V>([]);
      End()
    else
      var d := t.height - 1;
      LeftmostFirst(t.root, d, t.bf);
      BalancedLeaves(t.root, d, t.bf);
      BalancedNonEmpty(t.root, d, t.bf);
      var leaf := Leftmost(t.root);
      var keys := KeysOf(leaf.entries);
      assert Increasing(keys) by {
        BalancedLeavesSorted(t);
      }
      IncreasingPairs(keys);
      var i := KeyIndex(keys, leaf.entries[0].key);
      assert keys[0] == leaf.entries[0].key;
      assert forall j :: 0 < j < |keys| ==> keys[0] < keys[j];
      assert Leaves(t.root)[..0] == [];
      Iterator(Some(0), i)
  }

  /** The first leaf of a valid tree is strictly sorted. */
  lemma {:induction false} BalancedLeavesSorted<V>(t: OrderedMap<V>)
    requires Valid(t) && Size(t.root) > 0
    ensures |Leaves(t.root)| > 0 && Leaves(t.root)[0].Leaf?
    ensures StrictlySorted(Leaves(t.root)[0].entries)
  {
    var chain := Leaves(t.root);
    BalancedLeaves(t.root, t.height - 1, t.bf);
    LeftmostFirst(t.root, t.height - 1, t.bf);
    FlattenStep(chain, 0);
    assert chain[..0] == [];
    SortedConcat(chain[0].entries, Flatten(chain[1..]));
  }

  /** The range-`for` loop: dereference and advance until the iterator equals `end()`. */
  function Walk<V>(chain: seq<Node<V>>, it: Iterator): (out: seq<Entry<V>>)
    requires Walkable(chain) || it.leaf.None?
    requires Within(chain, it)
    decreases |Flatten(chain)| - Position(chain, it)
  {
    if Equal(it, End()) then []
    else [Deref(chain, it)] + Walk(chain, Next(chain, it))
  }

  /** From any iterator the walk yields the rest of the chain's entries, in chain order. */
  lemma {:induction false} WalkRest<V>(chain: seq<Node<V>>, it: Iterator)
    requires Walkable(chain) || it.leaf.None?
    requires Within(chain, it)
    ensures Walk(chain, it) == Flatten(chain)[Position(chain, it)..]
    decreases |Flatten(chain)| - Position(chain, it)
  {
    if it.leaf.Some? {
      var p := Position(chain, it);
      WalkRest(chain, Next(chain, it));
      assert Flatten(chain)[p..] == [Flatten(chain)[p]] + Flatten(chain)[p + 1..];
    }
  }

  /**
   * Traversal from `begin()` yields every stored entry exactly once, in
   * strictly ascending key order: its keys are the keys of the abstract map
   * and each entry carries the record the map holds for its key.
   */
  lemma {:induction false} TraversalCorrect<V>(t: OrderedMap<V>)
    requires Valid(t)
    ensures Walkable(Leaves(t.root)) || Begin(t).leaf.None?
    ensures var out := Walk(Leaves(t.root), Begin(t));
      && out == Contents(t.root)
      && StrictlySorted(out)
      && (set i | 0 <= i < |out| :: out[i].key) == ViewOf(t).Keys
      && forall i :: 0 <= i < |out| ==> Get(ViewOf(t), out[i].key) == Some(out[i].rec)
  {
    var it := Begin(t);
    if it.leaf.Some? {
      BalancedLeaves(t.root, t.height - 1, t.bf);
    }
    WalkRest(Leaves(t.root), it);
    var out := Walk(Leaves(t.root), it);
    ViewDomain(out);
    forall i | 0 <= i < |out|
      ensures Get(ViewOf(t), out[i].key) == Some(out[i].rec)
    {
      ViewHolds(out, i);
    }
  }

  /**
   * On a tree built from empty by the writes `ws`, traversal yields each
   * written key exactly once, in strictly ascending order.
   */
  lemma {:induction false} TraversalAfterSets<V>(bf: nat, ws: seq<Write<V>>)
    requires bf >= 2
    ensures Valid(SetAll(Empty(bf), ws))
    ensures var t := SetAll(Empty(bf), ws);
      && (Walkable(Leaves(t.root)) || Begin(t).leaf.None?)
      && var out := Walk(Leaves(t.root), Begin(t));
      && StrictlySorted(out)
      && (set i | 0 <= i < |out| :: out[i].key) == WrittenKeys(ws)
  {
    KeysAfterSets(bf, ws);
    TraversalCorrect(SetAll(Empty(bf), ws));
  }
}
