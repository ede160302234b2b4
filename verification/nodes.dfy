/**
 * Nodes of the B+ tree (`OrderedMapNode`): the node layout, the leaf chain,
 * the branch-routing binary search `child_position`, `min_key`, and the
 * insert-or-split step `set_value`.
 */
module Nodes {
  import opened Tombstones
  import opened SortedEntries

  /**
   * A node.  A leaf holds its entries in key order; a branch holds its
   * children, each paired with the summary key recorded for it.  The source
   * keeps the keys and the slots in two parallel arrays; pairing them here
   * makes the two lengths equal by construction.
   */
  datatype Node<V> = Leaf(entries: seq<Entry<V>>) | Branch(kids: seq<Child<V>>)

  /** A branch slot: the summary key (the minimum of the subtree) and the subtree. */
  datatype Child<V> = Child(key: int, node: Node<V>)

  /** The second argument of `set_value`: a record for a leaf, a subtree for a branch. */
  datatype Slot<V> = Stored(rec: Record<V>) | Subtree(node: Node<V>)

  /** What `set_value` leaves behind: the node itself and, after a split, its new right sibling. */
  datatype Outcome<V> = Outcome(node: Node<V>, sibling: Option<Node<V>>)

  /** `mSize` */
  function Size<V>(n: Node<V>): nat
  {
    match n
    case Leaf(es) => |es|
    case Branch(kids) => |kids|
  }

  function KidKeys<V>(kids: seq<Child<V>>): (ks: seq<int>)
    ensures |ks| == |kids|
    ensures forall i :: 0 <= i < |kids| ==> ks[i] == kids[i].key
  {
    seq(|kids|, i requires 0 <= i < |kids| => kids[i].key)
  }

  // ---------------------------------------------------------------------
  // The leaf chain and the contents of a subtree

  function Concat<T>(ss: seq<seq<T>>): seq<T>
  {
    if |ss| == 0 then [] else ss[0] + Concat(ss[1..])
  }

  /**
   * The leaves of a subtree from left to right.  Every leaf's `mNext` points
   * at the following leaf of this sequence, so it is the leaf chain.
   */
  function Leaves<V>(n: Node<V>): seq<Node<V>>
    decreases n
  {
    match n
    case Leaf(_) => [n]
    case Branch(kids) => Concat(seq(|kids|, i requires 0 <= i < |kids| => Leaves(kids[i].node)))
  }

  function LeavesOf<V>(kids: seq<Child<V>>): seq<Node<V>>
  {
    Leaves(Branch(kids))
  }

  /** The entries met when walking a chain of leaves. */
  function Flatten<V>(chain: seq<Node<V>>): seq<Entry<V>>
  {
    if |chain| == 0 then []
    else (if chain[0].Leaf? then chain[0].entries else []) + Flatten(chain[1..])
  }

  /** All entries of a subtree in leaf-chain order. */
  function Contents<V>(n: Node<V>): seq<Entry<V>>
  {
    Flatten(Leaves(n))
  }

  function ContentsOf<V>(kids: seq<Child<V>>): seq<Entry<V>>
  {
    Flatten(LeavesOf(kids))
  }

  lemma {:induction false} ConcatAppend<T>(a: seq<seq<T>>, b: seq<seq<T>>)
    ensures Concat(a + b) == Concat(a) + Concat(b)
    decreases |a|
  {
    if |a| == 0 {
      assert a + b == b;
    } else {
      assert (a + b)[0] == a[0];
      assert (a + b)[1..] == a[1..] + b;
      ConcatAppend(a[1..], b);
    }
  }

  lemma {:induction false} LeavesOfAppend<V>(a: seq<Child<V>>, b: seq<Child<V>>)
    ensures LeavesOf(a + b) == LeavesOf(a) + LeavesOf(b)
  {
    var fa := seq(|a|, i requires 0 <= i < |a| => Leaves(a[i].node));
    var fb := seq(|b|, i requires 0 <= i < |b| => Leaves(b[i].node));
    var fab := seq(|a + b|, i requires 0 <= i < |a + b| => Leaves((a + b)[i].node));
    assert fab == fa + fb;
    ConcatAppend(fa, fb);
  }

  lemma {:induction false} LeavesOfOne<V>(c: Child<V>)
    ensures LeavesOf([c]) == Leaves(c.node)
  {
    var f := seq(1, i requires 0 <= i < 1 => Leaves([c][i].node));
    assert f == [Leaves(c.node)];
    assert Concat(f) == Leaves(c.node) + Concat([]);
  }

  lemma {:induction false} FlattenAppend<V>(a: seq<Node<V>>, b: seq<Node<V>>)
    ensures Flatten(a + b) == Flatten(a) + Flatten(b)
    decreases |a|
  {
    if |a| == 0 {
      assert a + b == b;
    } else {
      assert (a + b)[0] == a[0];
      assert (a + b)[1..] == a[1..] + b;
      FlattenAppend(a[1..], b);
    }
  }

  lemma {:induction false} ContentsOfAppend<V>(a: seq<Child<V>>, b: seq<Child<V>>)
    ensures ContentsOf(a + b) == ContentsOf(a) + ContentsOf(b)
  {
    LeavesOfAppend(a, b);
    FlattenAppend(LeavesOf(a), LeavesOf(b));
  }

  lemma {:induction false} ContentsOfOne<V>(c: Child<V>)
    ensures ContentsOf([c]) == Contents(c.node)
  {
    LeavesOfOne(c);
  }

  lemma {:induction false} ContentsOfLeaf<V>(es: seq<Entry<V>>)
    ensures Contents(Leaf(es)) == es
  {
    assert Leaves(Leaf(es)) == [Leaf(es)];
    assert Flatten([Leaf(es)]) == es + Flatten([]);
  }

  /** The contents of a branch are those before child `j`, child `j`'s, and those after. */
  lemma {:induction false} ContentsAround<V>(kids: seq<Child<V>>, j: int)
    requires 0 <= j < |kids|
    ensures ContentsOf(kids) == ContentsOf(kids[..j]) + Contents(kids[j].node) + ContentsOf(kids[j + 1..])
  {
    assert kids == kids[..j] + [kids[j]] + kids[j + 1..];
    ContentsOfAppend(kids[..j] + [kids[j]], kids[j + 1..]);
    ContentsOfAppend(kids[..j], [kids[j]]);
    ContentsOfOne(kids[j]);
  }

  /** Replacing child `j` changes only the middle part of the contents. */
  lemma {:induction false} ContentsReplace<V>(kids: seq<Child<V>>, j: int, c: Child<V>)
    requires 0 <= j < |kids|
    ensures ContentsOf(kids[j := c]) == ContentsOf(kids[..j]) + Contents(c.node) + ContentsOf(kids[j + 1..])
  {
    var kids1 := kids[j := c];
    assert kids1[..j] == kids[..j] && kids1[j + 1..] == kids[j + 1..];
    ContentsAround(kids1, j);
  }

  lemma {:induction false} LeavesAround<V>(kids: seq<Child<V>>, j: int)
    requires 0 <= j < |kids|
    ensures LeavesOf(kids) == LeavesOf(kids[..j]) + Leaves(kids[j].node) + LeavesOf(kids[j + 1..])
  {
    assert kids == kids[..j] + [kids[j]] + kids[j + 1..];
    LeavesOfAppend(kids[..j] + [kids[j]], kids[j + 1..]);
    LeavesOfAppend(kids[..j], [kids[j]]);
    LeavesOfOne(kids[j]);
  }

  // ---------------------------------------------------------------------
  // Tree-shape invariants

  /**
   * Every leaf sits at depth `d` below `n`; a leaf holds 1 to `bf - 1`
   * entries and a branch 1 to `bf` children.
   */
  ghost predicate Balanced<V>(n: Node<V>, d: nat, bf: nat)
    decreases n
  {
    match n
    case Leaf(es) => d == 0 && 1 <= |es| <= bf - 1
    case Branch(kids) =>
      && d > 0 && 1 <= |kids| <= bf
      && forall i :: 0 <= i < |kids| ==> Balanced(kids[i].node, d - 1, bf)
  }

  /** Balanced, or the empty leaf a fresh tree starts with. */
  ghost predicate RootBalanced<V>(n: Node<V>, d: nat, bf: nat)
  {
    Balanced(n, d, bf) || (n == Leaf([]) && d == 0)
  }

  /** Every branch records, for each child, `min_key` of that child. */
  ghost predicate Summarized<V>(n: Node<V>)
    decreases n
  {
    match n
    case Leaf(_) => true
    case Branch(kids) => forall i :: 0 <= i < |kids| ==> Keyed(kids[i])
  }

  /** A summarized child recorded under its own `min_key`. */
  ghost predicate Keyed<V>(c: Child<V>)
    decreases c
  {
    Summarized(c.node) && HasMin(c.node) && c.key == MinKey(c.node)
  }

  /** Every leaf of a balanced subtree is non-empty, so its contents are. */
  lemma {:induction false} BalancedNonEmpty<V>(n: Node<V>, d: nat, bf: nat)
    requires Balanced(n, d, bf)
    ensures |Contents(n)| > 0
    decreases n
  {
    match n
    case Leaf(es) =>
      ContentsOfLeaf(es);
    case Branch(kids) =>
      ContentsAround(kids, 0);
      BalancedNonEmpty(kids[0].node, d - 1, bf);
  }

  /** Every leaf of a balanced subtree is non-empty. */
  lemma {:induction false} BalancedLeaves<V>(n: Node<V>, d: nat, bf: nat)
    requires Balanced(n, d, bf)
    ensures forall p :: 0 <= p < |Leaves(n)| ==> Leaves(n)[p].Leaf? && |Leaves(n)[p].entries| > 0
    decreases n
  {
    match n
    case Leaf(es) =>
    case Branch(kids) =>
      assert Leaves(n) == LeavesOf(kids);
      BalancedKidsLeaves(kids, d, bf);
  }

  lemma {:induction false} BalancedKidsLeaves<V>(kids: seq<Child<V>>, d: nat, bf: nat)
    requires d > 0
    requires forall i :: 0 <= i < |kids| ==> Balanced(kids[i].node, d - 1, bf)
    ensures forall p :: 0 <= p < |LeavesOf(kids)| ==> LeavesOf(kids)[p].Leaf? && |LeavesOf(kids)[p].entries| > 0
    decreases kids
  {
    if |kids| > 0 {
      var last := |kids| - 1;
      LeavesAround(kids, last);
      assert kids[..last] < kids;
      BalancedKidsLeaves(kids[..last], d, bf);
      BalancedLeaves(kids[last].node, d - 1, bf);
      assert kids[last + 1..] == [];
    }
  }

  // ---------------------------------------------------------------------
  // child_position

  /**
   * The binary search of `child_position`: `left` only moves onto keys
   * not above `key`, `right` only below keys above it.
   */
  function Search(keys: seq<int>, key: int, left: nat, right: nat): (r: nat)
    requires 1 <= left <= right < |keys|
    requires keys[left] <= key
    requires right + 1 == |keys| || key < keys[right + 1]
    ensures left <= r <= right
    ensures keys[r] <= key
    ensures r + 1 == |keys| || key < keys[r + 1]
    decreases right - left
  {
    if right > left then
      var mid := (left + right + 1) / 2;
      if key < keys[mid] then Search(keys, key, left, mid - 1) else Search(keys, key, mid, right)
    else
      left
  }

  /**
   * The child of a branch that must hold `key`: 0 when the branch has at
   * most one child or the key is below `keys[1]`; otherwise an index `r`
   * with `keys[r] <= key` whose successor key (if any) is above `key`.
   */
  function ChildPosition(keys: seq<int>, key: int): (r: nat)
    ensures r == 0 <==> |keys| <= 1 || key < keys[1]
    ensures r > 0 ==> r < |keys| && keys[r] <= key && (r + 1 == |keys| || key < keys[r + 1])
  {
    if |keys| <= 1 || key < keys[1] then 0 else Search(keys, key, 1, |keys| - 1)
  }

  /**
   * On keys increasing from index 1, `child_position` is the greatest index
   * `i >= 1` with `keys[i] <= key`, or 0 when there is none.
   */
  lemma {:induction false} ChildPositionGreatest(keys: seq<int>, key: int)
    requires forall i, j :: 1 <= i < j < |keys| ==> keys[i] < keys[j]
    ensures var r := ChildPosition(keys, key);
      && (|keys| > 0 ==> r < |keys|)
      && (r > 0 ==> keys[r] <= key)
      && (forall i :: r < i < |keys| ==> key < keys[i])
  {
    var r := ChildPosition(keys, key);
    forall i | r < i < |keys|
      ensures key < keys[i]
    {
      if r == 0 {
        assert key < keys[1];
        assert keys[1] <= keys[i];
      } else {
        assert key < keys[r + 1];
        assert keys[r + 1] <= keys[i];
      }
    }
  }

  /**
   * On keys increasing from index 1, any index `r >= 1` that has the two
   * properties `child_position` guarantees is its result.
   */
  lemma {:induction false} ChildPositionIs(keys: seq<int>, key: int, r: nat)
    requires forall i, j :: 1 <= i < j < |keys| ==> keys[i] < keys[j]
    requires 0 < r < |keys| && keys[r] <= key && (r + 1 == |keys| || key < keys[r + 1])
    ensures ChildPosition(keys, key) == r
  {
  }

  /** The routing table checked for a branch keyed 10, 20, ..., 60. */
  lemma {:induction false} ChildPositionExample()
    ensures var ks := [10, 20, 30, 40, 50, 60];
      && ChildPosition(ks, 0) == 0 && ChildPosition(ks, 9) == 0 && ChildPosition(ks, 10) == 0
      && ChildPosition(ks, 20) == 1 && ChildPosition(ks, 30) == 2 && ChildPosition(ks, 39) == 2
      && ChildPosition(ks, 59) == 4 && ChildPosition(ks, 60) == 5 && ChildPosition(ks, 100) == 5
  {
  }

  // ---------------------------------------------------------------------
  // min_key

  /** The leftmost path ends in a non-empty leaf, so `min_key` reads a real key. */
  ghost predicate HasMin<V>(n: Node<V>)
    decreases n
  {
    match n
    case Leaf(es) => |es| > 0
    case Branch(kids) => |kids| > 0 && HasMin(kids[0].node)
  }

  /** `min_key`: the first key of the leftmost leaf. */
  function MinKey<V>(n: Node<V>): int
    requires HasMin(n)
    decreases n
  {
    match n
    case Leaf(es) => es[0].key
    case Branch(kids) => MinKey(kids[0].node)
  }

  /** `min_key` is the first key of the subtree's contents, hence its least key when sorted. */
  lemma {:induction false} MinKeyFirst<V>(n: Node<V>)
    requires HasMin(n)
    ensures |Contents(n)| > 0 && MinKey(n) == Contents(n)[0].key
    ensures StrictlySorted(Contents(n)) ==> forall i :: 0 <= i < |Contents(n)| ==> MinKey(n) <= Contents(n)[i].key
    decreases n
  {
    SortedPairs(Contents(n));
    match n
    case Leaf(es) =>
      ContentsOfLeaf(es);
    case Branch(kids) =>
      ContentsAround(kids, 0);
      MinKeyFirst(kids[0].node);
      assert Contents(n) == ContentsOf(kids);
  }

  lemma {:induction false} BalancedHasMin<V>(n: Node<V>, d: nat, bf: nat)
    requires Balanced(n, d, bf)
    ensures HasMin(n)
    decreases n
  {
    match n
    case Leaf(_) =>
    case Branch(kids) =>
      BalancedHasMin(kids[0].node, d - 1, bf);
  }

  // ---------------------------------------------------------------------
  // set_value

  /** `ceil(size / 2)`: the number of slots the left node keeps after a split. */
  function Half(size: nat): nat
  {
    (size + 1) / 2
  }

  /**
   * The split of a full node while inserting `x` at `i`: when `i` falls in
   * the first half, the slots from `half - 1` move right and `x` is placed
   * in the left node; otherwise the right node gets the slots from `half`
   * up to `i`, then `x`, then the rest.
   */
  function SplitInsert<T>(s: seq<T>, i: nat, x: T): (r: (seq<T>, seq<T>))
    requires i <= |s|
    ensures r.0 + r.1 == s[..i] + [x] + s[i..]
    ensures |r.0| == Half(|s|)
  {
    var half := Half(|s|);
    if i < half then
      assert s[i..] == s[i..half - 1] + s[half - 1..];
      AppendAssoc(s[..i] + [x], s[i..half - 1], s[half - 1..]);
      (s[..i] + [x] + s[i..half - 1], s[half - 1..])
    else
      assert s[..i] == s[..half] + s[half..i];
      AppendAssoc(s[..half], s[half..i], [x]);
      AppendAssoc(s[..half], s[half..i] + [x], s[i..]);
      (s[..half], s[half..i] + [x] + s[i..])
  }

  /**
   * `set_value`: in a leaf, overwrite the entry with an equal key; else
   * insert at the first index whose key is not below `key`, splitting the
   * node when it is full (a leaf at `bf - 1` entries, a branch at `bf`).
   * The leaf chain is implicit in the order of leaves (`Leaves`), so the
   * new right leaf follows the old one by construction.
   */
  function SetValue<V>(n: Node<V>, key: int, slot: Slot<V>, bf: nat): (o: Outcome<V>)
    requires n.Leaf? <==> slot.Stored?
    ensures o.node.Leaf? == n.Leaf?
    ensures o.sibling.Some? ==> o.sibling.value.Leaf? == n.Leaf?
  {
    match n
    case Leaf(es) =>
      var e := Entry(key, slot.rec);
      var i := InsertPoint(KeysOf(es), key);
      if i < |es| && es[i].key == key then
        Outcome(Leaf(es[i := e]), None)
      else if |es| == bf - 1 then
        var halves := SplitInsert(es, i, e);
        Outcome(Leaf(halves.0), Some(Leaf(halves.1)))
      else
        Outcome(Leaf(es[..i] + [e] + es[i..]), None)
    case Branch(kids) =>
      var c := Child(key, slot.node);
      var i := InsertPoint(KidKeys(kids), key);
      if |kids| == bf then
        var halves := SplitInsert(kids, i, c);
        Outcome(Branch(halves.0), Some(Branch(halves.1)))
      else
        Outcome(Branch(kids[..i] + [c] + kids[i..]), None)
  }

  /** The leaves `set_value` leaves behind, left node first. */
  function Chain<V>(o: Outcome<V>): seq<Node<V>>
  {
    Leaves(o.node) + (if o.sibling.Some? then Leaves(o.sibling.value) else [])
  }

  /** The entries `set_value` leaves behind, left node first. */
  function Joined<V>(o: Outcome<V>): seq<Entry<V>>
  {
    Flatten(Chain(o))
  }

  /**
   * Overwrite: a leaf holding `key` changes only that entry's record; size
   * and keys stay, and no sibling is created.
   */
  lemma {:induction false} SetValueOverwrite<V>(es: seq<Entry<V>>, key: int, rec: Record<V>, bf: nat, i: int)
    requires 0 <= i < |es| && es[i].key == key
    requires StrictlySorted(es)
    ensures var o := SetValue(Leaf(es), key, Stored(rec), bf);
      && o.sibling.None? && o.node.Leaf?
      && KeysOf(o.node.entries) == KeysOf(es)
      && o.node.entries[i].rec == rec
      && forall j :: 0 <= j < |es| && j != i ==> o.node.entries[j] == es[j]
  {
    var p := InsertPoint(KeysOf(es), key);
    SortedPairs(es);
    assert KeysOf(es)[i] == key;
    assert p <= i;
  }

  /**
   * Insertion without overflow: the new entry or child goes in at the first
   * index whose key is not below `key`; later slots shift right; no sibling.
   */
  lemma {:induction false} SetValueInsert<V>(n: Node<V>, key: int, slot: Slot<V>, bf: nat)
    requires n.Leaf? <==> slot.Stored?
    requires n.Leaf? ==> key !in KeysOf(n.entries) && |n.entries| != bf - 1
    requires n.Branch? ==> |n.kids| != bf
    ensures var o := SetValue(n, key, slot, bf);
      && o.sibling.None?
      && Size(o.node) == Size(n) + 1
      && (n.Leaf? ==>
            var i := InsertPoint(KeysOf(n.entries), key);
            o.node.entries == n.entries[..i] + [Entry(key, slot.rec)] + n.entries[i..])
      && (n.Branch? ==>
            var i := InsertPoint(KidKeys(n.kids), key);
            o.node.kids == n.kids[..i] + [Child(key, slot.node)] + n.kids[i..])
  {
    if n.Leaf? {
      Absent(n.entries, key);
    }
  }

  /**
   * Split: the left node keeps `ceil(size / 2)` slots, the right one the
   * rest; both are non-empty and within capacity, and read left to right
   * they are the old slots with the new one inserted.
   */
  lemma {:induction false} SetValueSplit<V>(n: Node<V>, key: int, slot: Slot<V>, bf: nat)
    requires bf >= 2
    requires n.Leaf? <==> slot.Stored?
    requires n.Leaf? ==> key !in KeysOf(n.entries) && |n.entries| == bf - 1
    requires n.Branch? ==> |n.kids| == bf
    ensures var o := SetValue(n, key, slot, bf);
      && o.sibling.Some?
      && var l := o.node; var r := o.sibling.value;
      && Size(l) == Half(Size(n)) && Size(l) + Size(r) == Size(n) + 1
      && 1 <= Size(l) && 1 <= Size(r)
      && (n.Leaf? ==>
            && Size(l) <= bf - 1 && Size(r) <= bf - 1
            && var i := InsertPoint(KeysOf(n.entries), key);
            l.entries + r.entries == n.entries[..i] + [Entry(key, slot.rec)] + n.entries[i..])
      && (n.Branch? ==>
            && Size(l) <= bf && Size(r) <= bf
            && var i := InsertPoint(KidKeys(n.kids), key);
            l.kids + r.kids == n.kids[..i] + [Child(key, slot.node)] + n.kids[i..])
  {
    if n.Leaf? {
      Absent(n.entries, key);
    }
  }

  lemma {:induction false} Absent<V>(es: seq<Entry<V>>, key: int)
    requires key !in KeysOf(es)
    ensures forall j :: 0 <= j < |es| ==> es[j].key != key
  {
    forall j | 0 <= j < |es|
      ensures es[j].key != key
    {
      assert KeysOf(es)[j] == es[j].key;
    }
  }

  /** On a leaf, `set_value` stores exactly `Upsert` across the node and its new sibling. */
  lemma {:induction false} SetValueLeafUpsert<V>(es: seq<Entry<V>>, key: int, rec: Record<V>, bf: nat)
    ensures Joined(SetValue(Leaf(es), key, Stored(rec), bf)) == Upsert(es, Entry(key, rec))
  {
    var o := SetValue(Leaf(es), key, Stored(rec), bf);
    UpsertAt(es, Entry(key, rec));
    ContentsOfLeaf(o.node.entries);
    if o.sibling.Some? {
      ContentsOfLeaf(o.sibling.value.entries);
      FlattenAppend(Leaves(o.node), Leaves(o.sibling.value));
    } else {
      assert Chain(o) == Leaves(o.node);
    }
  }

  /** On a branch, the children left behind are the old ones with the new child inserted. */
  lemma {:induction false} SetValueBranchKids<V>(kids: seq<Child<V>>, key: int, sub: Node<V>, bf: nat)
    ensures var o := SetValue(Branch(kids), key, Subtree(sub), bf);
      var i := InsertPoint(KidKeys(kids), key);
      && o.node.Branch?
      && (o.sibling.Some? <==> |kids| == bf)
      && o.node.kids + (if o.sibling.Some? then o.sibling.value.kids else []) == kids[..i] + [Child(key, sub)] + kids[i..]
      && Joined(o) == ContentsOf(kids[..i] + [Child(key, sub)] + kids[i..])
  {
    var o := SetValue(Branch(kids), key, Subtree(sub), bf);
    if o.sibling.Some? {
      FlattenAppend(Leaves(o.node), Leaves(o.sibling.value));
      ContentsOfAppend(o.node.kids, o.sibling.value.kids);
    } else {
      assert Chain(o) == Leaves(o.node);
      assert o.node.kids + [] == o.node.kids;
    }
  }

  /** `set_value` keeps a balanced node balanced, and a split gives a balanced sibling. */
  lemma {:induction false} SetValueBalanced<V>(n: Node<V>, key: int, slot: Slot<V>, bf: nat, d: nat)
    requires bf >= 2
    requires RootBalanced(n, d, bf)
    requires n.Leaf? <==> slot.Stored?
    requires slot.Subtree? ==> d > 0 && Balanced(slot.node, d - 1, bf)
    ensures var o := SetValue(n, key, slot, bf);
      && Balanced(o.node, d, bf)
      && (o.sibling.Some? ==> Balanced(o.sibling.value, d, bf))
  {
    var o := SetValue(n, key, slot, bf);
    match n
    case Leaf(es) =>
      var i := InsertPoint(KeysOf(es), key);
      if i < |es| && es[i].key == key {
      } else if |es| == bf - 1 {
        var halves := SplitInsert(es, i, Entry(key, slot.rec));
        assert |halves.0| + |halves.1| == |es| + 1;
      }
    case Branch(kids) =>
      var c := Child(key, slot.node);
      var i := InsertPoint(KidKeys(kids), key);
      var all := kids[..i] + [c] + kids[i..];
      assert forall j :: 0 <= j < |all| ==> Balanced(all[j].node, d - 1, bf) by {
        forall j | 0 <= j < |all|
          ensures Balanced(all[j].node, d - 1, bf)
        {
          if j < i {
            assert all[j] == kids[j];
          } else if j > i {
            assert all[j] == kids[j - 1];
          }
        }
      }
      if |kids| == bf {
        SetValueSplit(n, key, slot, bf);
        var l := o.node.kids;
        var r := o.sibling.value.kids;
        assert l + r == all;
        assert forall j :: 0 <= j < |l| ==> l[j] == all[j];
        assert forall j :: 0 <= j < |r| ==> r[j] == all[|l| + j];
      }
  }
}
