/**
 * The B+ tree itself (`OrderedMap`): insertion that descends from the root,
 * lowers the summary keys on the way, and pushes splits upward, growing a
 * new root when the root splits; lookup (`at`); and tombstone deletion.
 * The tree is proved to implement the abstract tombstoned map.
 */
module OrderedMaps {
  import opened Tombstones
  import opened SortedEntries
  import opened Nodes

  /** The root, `mHeight` (levels, 1 for a lone leaf) and `mBranchingFactor`. */
  datatype OrderedMap<V> = OrderedMap(root: Node<V>, height: nat, bf: nat)

  /** A fresh tree: one empty leaf. */
  function Empty<V>(bf: nat): (t: OrderedMap<V>)
    ensures t.height == 1 && t.bf == bf && Contents(t.root) == []
    ensures bf >= 2 ==> Valid(t) && ViewOf(t) == map[]
    ensures forall key :: At(t, key) == None
  {
    OrderedMap(Leaf([]), 1, bf)
  }

  /**
   * The tree invariant: a branching factor of at least 2, every leaf
   * `height - 1` levels down, every node within capacity, every summary key
   * the minimum of its child, and the keys along the leaf chain strictly
   * increasing.
   */
  ghost predicate Valid<V>(t: OrderedMap<V>)
  {
    && Shaped(t)
    && Summarized(t.root)
    && StrictlySorted(Contents(t.root))
  }

  /** The structural part of the invariant, all that `set` needs to run. */
  ghost predicate Shaped<V>(t: OrderedMap<V>)
  {
    t.bf >= 2 && t.height >= 1 && RootBalanced(t.root, t.height - 1, t.bf)
  }

  /** The abstract map a tree stands for. */
  ghost function ViewOf<V>(t: OrderedMap<V>): TMap<int, V>
  {
    View(Contents(t.root))
  }

  function Min(a: int, b: int): int
  {
    if a <= b then a else b
  }

  // ---------------------------------------------------------------------
  // set

  /**
   * One level of `set`: at a branch, route with `child_position`, lower the
   * child's summary key to `min(keys[j], key)`, recurse, and when the child
   * split insert the new sibling under its minimum key; at a leaf, call
   * `set_value`.  The result keeps every leaf at depth `d` and every node
   * within capacity.
   */
  function Ins<V>(n: Node<V>, key: int, rec: Record<V>, bf: nat, ghost d: nat): (o: Outcome<V>)
    requires bf >= 2 && RootBalanced(n, d, bf)
    ensures Balanced(o.node, d, bf)
    ensures o.sibling.Some? ==> Balanced(o.sibling.value, d, bf)
    decreases n
  {
    if n.Leaf? then
      SetValueBalanced(n, key, Stored(rec), bf, d);
      SetValue(n, key, Stored(rec), bf)
    else
      var kids := n.kids;
      var j := ChildPosition(KidKeys(kids), key);
      var sub := Ins(kids[j].node, key, rec, bf, d - 1);
      Lift(kids, j, Min(kids[j].key, key), sub, bf, d)
  }

  /**
   * Back at a branch after the recursive call into child `j`: store the
   * child under its lowered summary key `k` and, when the child split,
   * promote its new sibling.
   */
  function Lift<V>(kids: seq<Child<V>>, j: nat, k: int, sub: Outcome<V>, bf: nat, ghost d: nat): (o: Outcome<V>)
    requires bf >= 2 && d > 0 && j < |kids|
    requires Balanced(Branch(kids), d, bf) && Balanced(sub.node, d - 1, bf)
    requires sub.sibling.Some? ==> Balanced(sub.sibling.value, d - 1, bf)
    ensures Balanced(o.node, d, bf)
    ensures o.sibling.Some? ==> Balanced(o.sibling.value, d, bf)
  {
    var kids1 := kids[j := Child(k, sub.node)];
    ReplaceKidBalanced(kids, j, Child(k, sub.node), d, bf);
    if sub.sibling.None? then
      Outcome(Branch(kids1), None)
    else
      Promote(kids1, sub.sibling.value, bf, d)
  }

  /**
   * The upward step of `set`: insert a child's new sibling into the parent
   * under the sibling's `min_key`, which may split the parent in turn.
   */
  function Promote<V>(kids: seq<Child<V>>, sib: Node<V>, bf: nat, ghost d: nat): (o: Outcome<V>)
    requires bf >= 2 && d > 0
    requires Balanced(Branch(kids), d, bf) && Balanced(sib, d - 1, bf)
    ensures Balanced(o.node, d, bf)
    ensures o.sibling.Some? ==> Balanced(o.sibling.value, d, bf)
  {
    BalancedHasMin(sib, d - 1, bf);
    SetValueBalanced(Branch(kids), MinKey(sib), Subtree(sib), bf, d);
    SetValue(Branch(kids), MinKey(sib), Subtree(sib), bf)
  }

  /** Replacing one child of a balanced branch by a balanced subtree of the same depth keeps it balanced. */
  lemma {:induction false} ReplaceKidBalanced<V>(kids: seq<Child<V>>, j: nat, c: Child<V>, d: nat, bf: nat)
    requires j < |kids|
    requires Balanced(Branch(kids), d, bf) && Balanced(c.node, d - 1, bf)
    ensures Balanced(Branch(kids[j := c]), d, bf)
  {
    var kids1 := kids[j := c];
    forall i | 0 <= i < |kids1|
      ensures Balanced(kids1[i].node, d - 1, bf)
    {
      if i != j {
        assert kids1[i] == kids[i];
      }
    }
  }

  /**
   * `set(key, value, deleted)`: when the root splits, a new root branch
   * takes the old root and its sibling, keyed by their minima, and the
   * height grows by one.  All leaves stay at the same depth.
   */
  function Set<V>(t: OrderedMap<V>, key: int, value: V, deleted: bool): (t': OrderedMap<V>)
    requires Shaped(t)
    ensures Shaped(t') && t'.bf == t.bf
    ensures Balanced(t'.root, t'.height - 1, t'.bf)
    ensures t'.height == t.height || t'.height == t.height + 1
  {
    var o := Ins(t.root, key, Record(value, deleted), t.bf, t.height - 1);
    Grow(o, t.height, t.bf)
  }

  /** The root step of `set`: keep the root, or grow a new one above it and its sibling. */
  function Grow<V>(o: Outcome<V>, height: nat, bf: nat): (t': OrderedMap<V>)
    requires bf >= 2 && height >= 1
    requires Balanced(o.node, height - 1, bf)
    requires o.sibling.Some? ==> Balanced(o.sibling.value, height - 1, bf)
    ensures t'.bf == bf && t'.height >= 1
    ensures Balanced(t'.root, t'.height - 1, t'.bf)
    ensures Shaped(t')
    ensures t'.height == if o.sibling.Some? then height + 1 else height
  {
    match o.sibling
    case None => OrderedMap(o.node, height, bf)
    case Some(sib) =>
      BalancedHasMin(o.node, height - 1, bf);
      BalancedHasMin(sib, height - 1, bf);
      OrderedMap(Branch([Child(MinKey(o.node), o.node), Child(MinKey(sib), sib)]), height + 1, bf)
  }

  // ---------------------------------------------------------------------
  // at

  /**
   * The leaf binary search of `at`, over `[left, right]`.  Indices are
   * mathematical integers, so `right` may become -1 (see the README).
   */
  function LeafSearch<V>(es: seq<Entry<V>>, key: int, left: int, right: int): (r: Option<nat>)
    requires 0 <= left && right < |es| && left <= right + 1
    ensures r.Some? ==> left <= r.value <= right && es[r.value].key == key
    ensures r.None? && StrictlySorted(es) ==> forall i :: left <= i <= right ==> es[i].key != key
    decreases right - left + 1
  {
    SortedPairs(es);
    if left <= right then
      var mid := (left + right) / 2;
      if key == es[mid].key then Some(mid)
      else if key < es[mid].key then LeafSearch(es, key, left, mid - 1)
      else LeafSearch(es, key, mid + 1, right)
    else
      None
  }

  /** The descent of `at`: an empty node ends the search unsuccessfully. */
  function Find<V>(n: Node<V>, key: int): Option<Record<V>>
    decreases n
  {
    match n
    case Leaf(es) =>
      if |es| == 0 then None
      else
        var r := LeafSearch(es, key, 0, |es| - 1);
        if r.Some? then Some(es[r.value].rec) else None
    case Branch(kids) =>
      if |kids| == 0 then None
      else Find(kids[ChildPosition(KidKeys(kids), key)].node, key)
  }

  /** `at(key, &isDeleted)`: the record stored under `key`; None is the "not found" exception. */
  function At<V>(t: OrderedMap<V>, key: int): Option<Record<V>>
  {
    Find(t.root, key)
  }

  // ---------------------------------------------------------------------
  // del

  /** The descent of `del`: flag the matching leaf entry; report whether there was one. */
  function Kill<V>(n: Node<V>, key: int): (r: (Node<V>, bool))
    ensures Size(r.0) == Size(n)
    decreases n
  {
    match n
    case Leaf(es) =>
      if |es| == 0 then (n, false)
      else
        var r := LeafSearch(es, key, 0, |es| - 1);
        if r.Some? then
          (Leaf(es[r.value := Entry(key, Record(es[r.value].rec.value, true))]), true)
        else (n, false)
    case Branch(kids) =>
      if |kids| == 0 then (n, false)
      else
        var j := ChildPosition(KidKeys(kids), key);
        var sub := Kill(kids[j].node, key);
        (Branch(kids[j := Child(kids[j].key, sub.0)]), sub.1)
  }

  /**
   * `del(key)`: tombstone the entry stored under `key` and return true, or
   * return false and change nothing when there is none.
   */
  function Del<V>(t: OrderedMap<V>, key: int): (r: (OrderedMap<V>, bool))
    ensures r.0.height == t.height && r.0.bf == t.bf
    ensures !r.1 ==> r.0 == t
  {
    var k := Kill(t.root, key);
    if k.1 then (t.(root := k.0), true) else (t, false)
  }

  // ---------------------------------------------------------------------
  // Routing inside a valid branch

  /**
   * In a valid branch the child chosen by `child_position` splits the
   * contents into what lies before it (all below `key`), its own contents,
   * and what lies after it (all above `key`).
   */
  lemma {:induction false} RouteBounds<V>(kids: seq<Child<V>>, key: int)
    requires |kids| > 0 && WellKeyed(kids)
    requires StrictlySorted(ContentsOf(kids))
    ensures var j := ChildPosition(KidKeys(kids), key);
      && j < |kids|
      && ContentsOf(kids) == ContentsOf(kids[..j]) + Contents(kids[j].node) + ContentsOf(kids[j + 1..])
      && AllBelow(ContentsOf(kids[..j]), key)
      && AllAbove(ContentsOf(kids[j + 1..]), key)
  {
    var j := ChildPosition(KidKeys(kids), key);
    ContentsAround(kids, j);
    WellKeyedSummarized(kids);
    if j > 0 {
      BeforeKid(kids, j);
    } else {
      assert kids[..j] == [];
    }
    if j + 1 < |kids| {
      FromKid(kids, j + 1);
    } else {
      assert kids[j + 1..] == [];
    }
  }

  /** Everything stored before child `j` lies below its summary key. */
  lemma {:induction false} BeforeKid<V>(kids: seq<Child<V>>, j: nat)
    requires j < |kids| && WellKeyed(kids) && StrictlySorted(ContentsOf(kids))
    ensures AllBelow(ContentsOf(kids[..j]), kids[j].key)
  {
    assert Keyed(kids[j]);
    MinKeyFirst(kids[j].node);
    ContentsAround(kids, j);
    var a, c, b := ContentsOf(kids[..j]), Contents(kids[j].node), ContentsOf(kids[j + 1..]);
    SortedConcat(a + c, b);
    SortedConcat(a, c);
  }

  /** Everything stored from child `j` on lies at or above its summary key. */
  lemma {:induction false} FromKid<V>(kids: seq<Child<V>>, j: nat)
    requires j < |kids| && WellKeyed(kids) && StrictlySorted(ContentsOf(kids))
    ensures forall i :: 0 <= i < |ContentsOf(kids[j..])| ==> kids[j].key <= ContentsOf(kids[j..])[i].key
  {
    var b := ContentsOf(kids[j..]);
    assert StrictlySorted(b) by {
      assert kids == kids[..j] + kids[j..];
      ContentsOfAppend(kids[..j], kids[j..]);
      SortedConcat(ContentsOf(kids[..j]), b);
    }
    assert |b| > 0 && b[0].key == kids[j].key by {
      assert Keyed(kids[j]);
      MinKeyFirst(kids[j].node);
      var rest := kids[j..];
      assert rest == [rest[0]] + rest[1..];
      ContentsOfAppend([rest[0]], rest[1..]);
      ContentsOfOne(rest[0]);
    }
    SortedPairs(b);
    forall i | 0 <= i < |b|
      ensures kids[j].key <= b[i].key
    {
      if i > 0 {
        assert b[0].key < b[i].key;
      }
    }
  }

  /** The child chosen by `child_position` in a valid branch is itself sorted. */
  lemma {:induction false} RouteSorted<V>(kids: seq<Child<V>>, key: int)
    requires |kids| > 0
    requires StrictlySorted(ContentsOf(kids))
    ensures var j := ChildPosition(KidKeys(kids), key);
      j < |kids| && StrictlySorted(Contents(kids[j].node))
  {
    var j := ChildPosition(KidKeys(kids), key);
    ContentsAround(kids, j);
    var a, c, b := ContentsOf(kids[..j]), Contents(kids[j].node), ContentsOf(kids[j + 1..]);
    SortedConcat(a + c, b);
    SortedConcat(a, c);
  }

  /** The summary keys of a valid branch increase strictly. */
  lemma {:induction false} KidKeysIncreasing<V>(kids: seq<Child<V>>)
    requires WellKeyed(kids) && StrictlySorted(ContentsOf(kids))
    ensures Increasing(KidKeys(kids))
  {
    IncreasingPairs(KidKeys(kids));
    forall i, k | 0 <= i < k < |kids|
      ensures kids[i].key < kids[k].key
    {
      assert Keyed(kids[i]) && Keyed(kids[k]);
      MinKeyFirst(kids[i].node);
      MinKeyFirst(kids[k].node);
      ContentsAround(kids, k);
      var front := kids[..k];
      ContentsAround(front, i);
      assert front[i] == kids[i];
      var x := ContentsOf(front[..i]);
      var y := Contents(kids[i].node);
      var z := ContentsOf(front[i + 1..]);
      AppendAssoc(ContentsOf(front), Contents(kids[k].node), ContentsOf(kids[k + 1..]));
      SortedConcat(ContentsOf(front), Contents(kids[k].node) + ContentsOf(kids[k + 1..]));
      assert ContentsOf(front)[|x|] == y[0];
      assert (Contents(kids[k].node) + ContentsOf(kids[k + 1..]))[0] == Contents(kids[k].node)[0];
    }
  }

  /** `set_value`'s outcome, read as two subtrees. */
  lemma {:induction false} JoinedParts<V>(o: Outcome<V>)
    ensures Joined(o) == Contents(o.node) + (if o.sibling.Some? then Contents(o.sibling.value) else [])
  {
    if o.sibling.Some? {
      FlattenAppend(Leaves(o.node), Leaves(o.sibling.value));
    } else {
      assert Chain(o) == Leaves(o.node);
    }
  }

  // ---------------------------------------------------------------------
  // Correctness of set

  /** Every child is summarized and recorded under its `min_key`. */
  ghost predicate WellKeyed<V>(kids: seq<Child<V>>)
  {
    forall i :: 0 <= i < |kids| ==> Keyed(kids[i])
  }

  lemma {:induction false} InsertKidContents<V>(kids: seq<Child<V>>, p: nat, c: Child<V>)
    requires p <= |kids|
    ensures ContentsOf(kids[..p] + [c] + kids[p..]) == ContentsOf(kids[..p]) + Contents(c.node) + ContentsOf(kids[p..])
  {
    ContentsOfAppend(kids[..p] + [c], kids[p..]);
    ContentsOfAppend(kids[..p], [c]);
    ContentsOfOne(c);
  }

  lemma {:induction false} WellKeyedSummarized<V>(kids: seq<Child<V>>)
    ensures Summarized(Branch(kids)) <==> WellKeyed(kids)
  {
  }

  lemma {:induction false} WellKeyedAppend<V>(x: seq<Child<V>>, y: seq<Child<V>>)
    ensures WellKeyed(x + y) <==> WellKeyed(x) && WellKeyed(y)
  {
    var xy := x + y;
    if WellKeyed(xy) {
      forall i | 0 <= i < |y|
        ensures Keyed(y[i])
      {
        assert y[i] == xy[|x| + i];
      }
      forall i | 0 <= i < |x|
        ensures Keyed(x[i])
      {
        assert x[i] == xy[i];
      }
    }
    if WellKeyed(x) && WellKeyed(y) {
      forall i | 0 <= i < |xy|
        ensures Keyed(xy[i])
      {
        if i < |x| {
          assert xy[i] == x[i];
        } else {
          assert xy[i] == y[i - |x|];
        }
      }
    }
  }

  /**
   * With the sibling already in place after child `j`, the summary keys
   * increase, so `set_value`'s insertion point for the sibling's minimum
   * is exactly `j + 1`.
   */
  lemma {:induction false} PromotePoint<V>(kids: seq<Child<V>>, sc: Child<V>, j: nat)
    requires j < |kids|
    requires WellKeyed(kids[..j + 1] + [sc] + kids[j + 1..])
    requires StrictlySorted(ContentsOf(kids[..j + 1] + [sc] + kids[j + 1..]))
    ensures InsertPoint(KidKeys(kids), sc.key) == j + 1
  {
    var kids2 := kids[..j + 1] + [sc] + kids[j + 1..];
    KidKeysIncreasing(kids2);
    IncreasingPairs(KidKeys(kids2));
    var ks := KidKeys(kids);
    var ks2 := KidKeys(kids2);
    assert ks2[j + 1] == sc.key;
    forall i | 0 <= i < j + 1
      ensures ks[i] < sc.key
    {
      assert kids2[i] == kids[i];
      assert ks2[i] < ks2[j + 1];
    }
    if j + 1 < |ks| {
      assert kids2[j + 2] == kids[j + 1];
      assert ks2[j + 1] < ks2[j + 2];
    }
    InsertPointIs(ks, sc.key, j + 1);
  }

  /**
   * The upward step places the sibling right after the child it split
   * from, because the summary keys increase and the sibling's minimum lies
   * between its neighbours'; the result reads as the children with the
   * sibling inserted there.
   */
  lemma {:induction false} PromoteCorrect<V>(kids: seq<Child<V>>, sib: Node<V>, j: nat, bf: nat, d: nat)
    requires bf >= 2 && d > 0 && j < |kids|
    requires Balanced(Branch(kids), d, bf) && Balanced(sib, d - 1, bf)
    requires WellKeyed(kids) && Summarized(sib)
    requires StrictlySorted(ContentsOf(kids[..j + 1]) + Contents(sib) + ContentsOf(kids[j + 1..]))
    ensures var o := Promote(kids, sib, bf, d);
      && Joined(o) == ContentsOf(kids[..j + 1]) + Contents(sib) + ContentsOf(kids[j + 1..])
      && Summarized(o.node)
      && (o.sibling.Some? ==> Summarized(o.sibling.value))
  {
    BalancedHasMin(sib, d - 1, bf);
    BalancedNonEmpty(sib, d - 1, bf);
    MinKeyFirst(sib);
    var sc := Child(MinKey(sib), sib);
    var front, back := kids[..j + 1], kids[j + 1..];
    var kids2 := front + [sc] + back;
    InsertKidContents(kids, j + 1, sc);
    assert kids == front + back;
    WellKeyedAppend(front, back);
    WellKeyedAppend(front, [sc]);
    WellKeyedAppend(front + [sc], back);
    PromotePoint(kids, sc, j);
    SetValueBranchKids(kids, sc.key, sib, bf);
    var o := Promote(kids, sib, bf, d);
    assert o == SetValue(Branch(kids), sc.key, Subtree(sib), bf);
    if o.sibling.Some? {
      WellKeyedAppend(o.node.kids, o.sibling.value.kids);
      WellKeyedSummarized(o.sibling.value.kids);
    } else {
      assert o.node.kids == kids2;
    }
    WellKeyedSummarized(o.node.kids);
  }

  /**
   * Inserting into the routed child of a valid branch upserts into the
   * whole: everything before the child is below `key` and everything after
   * it above, so only the child's part changes.
   */
  lemma {:induction false} RouteUpsert<V>(kids: seq<Child<V>>, e: Entry<V>)
    requires |kids| > 0 && WellKeyed(kids)
    requires StrictlySorted(ContentsOf(kids))
    ensures var j := ChildPosition(KidKeys(kids), e.key);
      && j < |kids|
      && Upsert(ContentsOf(kids), e) == ContentsOf(kids[..j]) + Upsert(Contents(kids[j].node), e) + ContentsOf(kids[j + 1..])
  {
    var j := ChildPosition(KidKeys(kids), e.key);
    RouteBounds(kids, e.key);
    UpsertMiddle(ContentsOf(kids[..j]), Contents(kids[j].node), ContentsOf(kids[j + 1..]), e);
  }

  /** Replacing child `j` by a well-keyed child keeps the children well keyed. */
  lemma {:induction false} WellKeyedReplace<V>(kids: seq<Child<V>>, j: nat, c: Child<V>)
    requires j < |kids| && WellKeyed(kids) && WellKeyed([c])
    ensures WellKeyed(kids[j := c])
  {
    assert kids == kids[..j] + [kids[j]] + kids[j + 1..];
    assert kids[j := c] == kids[..j] + [c] + kids[j + 1..];
    WellKeyedAppend(kids[..j] + [kids[j]], kids[j + 1..]);
    WellKeyedAppend(kids[..j], [kids[j]]);
    WellKeyedAppend(kids[..j], [c]);
    WellKeyedAppend(kids[..j] + [c], kids[j + 1..]);
  }

  /** The child stored back under the lowered key `k` is well keyed. */
  lemma {:induction false} LoweredChild<V>(k: int, sub: Outcome<V>, d: nat, bf: nat)
    requires Balanced(sub.node, d, bf) && Summarized(sub.node)
    requires |Joined(sub)| > 0 && Joined(sub)[0].key == k
    ensures WellKeyed([Child(k, sub.node)])
  {
    JoinedParts(sub);
    BalancedHasMin(sub.node, d, bf);
    MinKeyFirst(sub.node);
    assert Contents(sub.node)[0] == Joined(sub)[0];
    assert Keyed(Child(k, sub.node));
  }

  /** Lifting without a split: the parent's contents change only in child `j`. */
  lemma {:induction false} LiftKeep<V>(kids: seq<Child<V>>, j: nat, k: int, sub: Outcome<V>, bf: nat, d: nat)
    requires bf >= 2 && d > 0 && j < |kids| && sub.sibling.None?
    requires Balanced(Branch(kids), d, bf) && Balanced(sub.node, d - 1, bf)
    requires WellKeyed(kids[j := Child(k, sub.node)])
    ensures var o := Lift(kids, j, k, sub, bf, d);
      && Summarized(o.node) && o.sibling.None?
      && Joined(o) == ContentsOf(kids[..j]) + Joined(sub) + ContentsOf(kids[j + 1..])
  {
    var kids1 := kids[j := Child(k, sub.node)];
    var o := Lift(kids, j, k, sub, bf, d);
    assert o == Outcome(Branch(kids1), None);
    assert kids1[..j] == kids[..j] && kids1[j + 1..] == kids[j + 1..];
    ContentsAround(kids1, j);
    JoinedParts(o);
    JoinedParts(sub);
    WellKeyedSummarized(kids1);
  }

  /** Lifting after a split: the sibling is promoted right after child `j`. */
  lemma {:induction false} LiftPromote<V>(kids: seq<Child<V>>, j: nat, k: int, sub: Outcome<V>, bf: nat, d: nat)
    requires bf >= 2 && d > 0 && j < |kids| && sub.sibling.Some?
    requires Balanced(Branch(kids), d, bf) && Balanced(sub.node, d - 1, bf)
    requires Balanced(sub.sibling.value, d - 1, bf) && Summarized(sub.sibling.value)
    requires WellKeyed(kids[j := Child(k, sub.node)])
    requires StrictlySorted(ContentsOf(kids[..j]) + Joined(sub) + ContentsOf(kids[j + 1..]))
    ensures var o := Lift(kids, j, k, sub, bf, d);
      && Summarized(o.node)
      && (o.sibling.Some? ==> Summarized(o.sibling.value))
      && Joined(o) == ContentsOf(kids[..j]) + Joined(sub) + ContentsOf(kids[j + 1..])
  {
    var c := Child(k, sub.node);
    var kids1 := kids[j := c];
    var sib := sub.sibling.value;
    ReplaceKidBalanced(kids, j, c, d, bf);
    assert Lift(kids, j, k, sub, bf, d) == Promote(kids1, sib, bf, d);
    assert kids1[..j + 1] == kids[..j] + [c];
    assert kids1[j + 1..] == kids[j + 1..];
    ContentsOfAppend(kids[..j], [c]);
    ContentsOfOne(c);
    JoinedParts(sub);
    AppendAssoc(ContentsOf(kids[..j]), Contents(sub.node), Contents(sib));
    PromoteCorrect(kids1, sib, j, bf, d);
  }

  /**
   * Lifting a child's outcome into its parent: the parent's contents read
   * as the children before `j`, then the child's outcome, then the
   * children after `j`, and every summary key stays the minimum of its
   * child provided `k` is the outcome's least key.
   */
  lemma {:induction false} LiftCorrect<V>(kids: seq<Child<V>>, j: nat, k: int, sub: Outcome<V>, bf: nat, d: nat)
    requires bf >= 2 && d > 0 && j < |kids|
    requires Balanced(Branch(kids), d, bf) && Balanced(sub.node, d - 1, bf)
    requires sub.sibling.Some? ==> Balanced(sub.sibling.value, d - 1, bf)
    requires WellKeyed(kids) && Summarized(sub.node)
    requires sub.sibling.Some? ==> Summarized(sub.sibling.value)
    requires |Joined(sub)| > 0 && Joined(sub)[0].key == k
    requires StrictlySorted(ContentsOf(kids[..j]) + Joined(sub) + ContentsOf(kids[j + 1..]))
    ensures var o := Lift(kids, j, k, sub, bf, d);
      && Summarized(o.node)
      && (o.sibling.Some? ==> Summarized(o.sibling.value))
      && Joined(o) == ContentsOf(kids[..j]) + Joined(sub) + ContentsOf(kids[j + 1..])
  {
    LoweredChild(k, sub, d - 1, bf);
    WellKeyedReplace(kids, j, Child(k, sub.node));
    if sub.sibling.None? {
      LiftKeep(kids, j, k, sub, bf, d);
    } else {
      LiftPromote(kids, j, k, sub, bf, d);
    }
  }

  /**
   * `o` is a correct outcome of storing `e` into `n`: the node and its new
   * sibling keep every summary key the minimum of its child, and together
   * they read as `Upsert` of what `n` held.
   */
  ghost predicate Inserted<V>(n: Node<V>, o: Outcome<V>, e: Entry<V>)
  {
    && Summarized(o.node)
    && (o.sibling.Some? ==> Summarized(o.sibling.value))
    && Joined(o) == Upsert(Contents(n), e)
  }

  /**
   * One step of the induction for `InsCorrect` at a branch: if the
   * outcome `sub` of the call into the routed child `j` is correct,
   * lifting it gives a correct outcome for the branch.
   */
  lemma {:induction false} InsBranchStep<V>(kids: seq<Child<V>>, j: nat, e: Entry<V>, sub: Outcome<V>, bf: nat, d: nat)
    requires bf >= 2 && d > 0 && Balanced(Branch(kids), d, bf)
    requires WellKeyed(kids) && StrictlySorted(ContentsOf(kids))
    requires j == ChildPosition(KidKeys(kids), e.key) && j < |kids|
    requires Balanced(sub.node, d - 1, bf) && (sub.sibling.Some? ==> Balanced(sub.sibling.value, d - 1, bf))
    requires Inserted(kids[j].node, sub, e)
    ensures Inserted(Branch(kids), Lift(kids, j, Min(kids[j].key, e.key), sub, bf, d), e)
  {
    var k := Min(kids[j].key, e.key);
    var a, c, b := ContentsOf(kids[..j]), Contents(kids[j].node), ContentsOf(kids[j + 1..]);
    assert Upsert(ContentsOf(kids), e) == a + Joined(sub) + b by {
      RouteUpsert(kids, e);
    }
    assert StrictlySorted(a + Joined(sub) + b) by {
      UpsertSorted(ContentsOf(kids), e);
    }
    assert |Joined(sub)| > 0 && Joined(sub)[0].key == k by {
      assert Keyed(kids[j]);
      MinKeyFirst(kids[j].node);
      UpsertFirst(c, e);
    }
    LiftCorrect(kids, j, k, sub, bf, d);
    assert Contents(Branch(kids)) == ContentsOf(kids);
  }

  /** At a leaf, `set` is `set_value` with a stored record. */
  lemma {:induction false} InsLeaf<V>(es: seq<Entry<V>>, key: int, rec: Record<V>, bf: nat, d: nat)
    requires bf >= 2 && RootBalanced(Leaf(es), d, bf)
    ensures Inserted(Leaf(es), Ins(Leaf(es), key, rec, bf, d), Entry(key, rec))
  {
    ContentsOfLeaf(es);
    SetValueLeafUpsert(es, key, rec, bf);
  }

  /** `Ins` at a branch lifts a correct outcome of the routed child to a correct outcome of the branch. */
  lemma {:induction false} InsLift<V>(kids: seq<Child<V>>, key: int, rec: Record<V>, bf: nat, d: nat)
    requires bf >= 2 && d > 0 && Balanced(Branch(kids), d, bf)
    requires WellKeyed(kids) && StrictlySorted(ContentsOf(kids))
    requires var j := ChildPosition(KidKeys(kids), key);
      j < |kids| && Inserted(kids[j].node, Ins(kids[j].node, key, rec, bf, d - 1), Entry(key, rec))
    ensures Inserted(Branch(kids), Ins(Branch(kids), key, rec, bf, d), Entry(key, rec))
  {
    var j := ChildPosition(KidKeys(kids), key);
    var sub := Ins(kids[j].node, key, rec, bf, d - 1);
    assert Ins(Branch(kids), key, rec, bf, d) == Lift(kids, j, Min(kids[j].key, key), sub, bf, d);
    InsBranchStep(kids, j, Entry(key, rec), sub, bf, d);
  }

  /**
   * The branch case of `InsCorrect`: the recursive call into the routed
   * child is correct, hence so is lifting its outcome.
   */
  lemma {:induction false} InsBranch<V>(kids: seq<Child<V>>, key: int, rec: Record<V>, bf: nat, d: nat)
    requires bf >= 2 && d > 0 && Balanced(Branch(kids), d, bf)
    requires WellKeyed(kids) && StrictlySorted(ContentsOf(kids))
    ensures Inserted(Branch(kids), Ins(Branch(kids), key, rec, bf, d), Entry(key, rec))
    decreases Branch(kids), 0
  {
    var j := ChildPosition(KidKeys(kids), key);
    RouteSorted(kids, key);
    assert Keyed(kids[j]);
    InsCorrect(kids[j].node, key, rec, bf, d - 1);
    InsLift(kids, key, rec, bf, d);
  }

  /**
   * One level of `set` stores exactly `Upsert` of the subtree's contents
   * across the node and its new sibling, and every summary key it leaves
   * is the minimum of its child (the lowered key on the way down, and
   * `min_key` for a promoted sibling).
   */
  lemma {:induction false} InsCorrect<V>(n: Node<V>, key: int, rec: Record<V>, bf: nat, d: nat)
    requires bf >= 2 && RootBalanced(n, d, bf)
    requires Summarized(n) && StrictlySorted(Contents(n))
    ensures Inserted(n, Ins(n, key, rec, bf, d), Entry(key, rec))
    decreases n, 1
  {
    if n.Leaf? {
      InsLeaf(n.entries, key, rec, bf, d);
    } else {
      assert Contents(n) == ContentsOf(n.kids);
      WellKeyedSummarized(n.kids);
      InsBranch(n.kids, key, rec, bf, d);
    }
  }

  /** The two-child root reads as the old root followed by its sibling. */
  lemma {:induction false} NewRootContents<V>(x: Node<V>, y: Node<V>, d: nat, bf: nat)
    requires bf >= 2
    requires Balanced(x, d, bf) && Balanced(y, d, bf)
    ensures HasMin(x) && HasMin(y)
    ensures Contents(Branch([Child(MinKey(x), x), Child(MinKey(y), y)])) == Contents(x) + Contents(y)
  {
    BalancedHasMin(x, d, bf);
    BalancedHasMin(y, d, bf);
    var kids := [Child(MinKey(x), x), Child(MinKey(y), y)];
    assert kids == [kids[0]] + [kids[1]];
    ContentsOfAppend([kids[0]], [kids[1]]);
    ContentsOfOne(kids[0]);
    ContentsOfOne(kids[1]);
    assert Contents(Branch(kids)) == ContentsOf(kids);
  }

  /** The two-child root built when the old root splits. */
  lemma {:induction false} NewRoot<V>(x: Node<V>, y: Node<V>, d: nat, bf: nat)
    requires bf >= 2
    requires Balanced(x, d, bf) && Balanced(y, d, bf)
    requires Summarized(x) && Summarized(y)
    ensures HasMin(x) && HasMin(y)
    ensures var r := Branch([Child(MinKey(x), x), Child(MinKey(y), y)]);
      && Balanced(r, d + 1, bf)
      && Summarized(r)
      && Contents(r) == Contents(x) + Contents(y)
  {
    NewRootContents(x, y, d, bf);
    BalancedNonEmpty(x, d, bf);
    BalancedNonEmpty(y, d, bf);
    MinKeyFirst(x);
    MinKeyFirst(y);
    var kids := [Child(MinKey(x), x), Child(MinKey(y), y)];
    assert WellKeyed(kids);
    WellKeyedSummarized(kids);
  }

  /** The new root holds what the top-level `set_value` left behind, in order. */
  lemma {:induction false} GrowCorrect<V>(o: Outcome<V>, height: nat, bf: nat)
    requires bf >= 2 && height >= 1
    requires Balanced(o.node, height - 1, bf)
    requires o.sibling.Some? ==> Balanced(o.sibling.value, height - 1, bf)
    requires Summarized(o.node) && (o.sibling.Some? ==> Summarized(o.sibling.value))
    ensures Contents(Grow(o, height, bf).root) == Joined(o)
    ensures Summarized(Grow(o, height, bf).root)
  {
    JoinedParts(o);
    if o.sibling.Some? {
      NewRoot(o.node, o.sibling.value, height - 1, bf);
    }
  }

  /**
   * `set` keeps the tree valid, stores exactly `Upsert` of its contents,
   * and so updates the abstract map at `key` and nowhere else.
   */
  lemma {:induction false} SetCorrect<V>(t: OrderedMap<V>, key: int, value: V, deleted: bool)
    requires Valid(t)
    ensures var t' := Set(t, key, value, deleted);
      && Valid(t')
      && Contents(t'.root) == Upsert(Contents(t.root), Entry(key, Record(value, deleted)))
      && ViewOf(t') == Put(ViewOf(t), key, value, deleted)
  {
    var e := Entry(key, Record(value, deleted));
    SetContents(t, key, e.rec);
    UpsertSorted(Contents(t.root), e);
    UpsertView(Contents(t.root), e);
  }

  /** `set` stores `Upsert` of the old contents and keeps every summary key a minimum. */
  lemma {:induction false} SetContents<V>(t: OrderedMap<V>, key: int, rec: Record<V>)
    requires Valid(t)
    ensures var t' := Set(t, key, rec.value, rec.deleted);
      && Summarized(t'.root)
      && Contents(t'.root) == Upsert(Contents(t.root), Entry(key, rec))
  {
    InsCorrect(t.root, key, rec, t.bf, t.height - 1);
    GrowCorrect(Ins(t.root, key, rec, t.bf, t.height - 1), t.height, t.bf);
  }

  /**
   * Root growth: when the root splits, the new root is a branch with
   * exactly two children, the old root first and its new sibling second,
   * each keyed by its minimum; the height grows by one.
   */
  lemma {:induction false} RootSplit<V>(t: OrderedMap<V>, key: int, value: V, deleted: bool)
    requires Valid(t)
    requires Set(t, key, value, deleted).height != t.height
    ensures var t' := Set(t, key, value, deleted);
      && t'.height == t.height + 1
      && t'.root.Branch? && |t'.root.kids| == 2
      && Balanced(t'.root.kids[0].node, t.height - 1, t.bf)
      && Balanced(t'.root.kids[1].node, t.height - 1, t.bf)
      && (forall i :: 0 <= i < 2 ==>
            |Contents(t'.root.kids[i].node)| > 0 && t'.root.kids[i].key == Contents(t'.root.kids[i].node)[0].key)
      && Contents(t'.root.kids[0].node) + Contents(t'.root.kids[1].node)
         == Upsert(Contents(t.root), Entry(key, Record(value, deleted)))
  {
    var o := Ins(t.root, key, Record(value, deleted), t.bf, t.height - 1);
    InsCorrect(t.root, key, Record(value, deleted), t.bf, t.height - 1);
    JoinedParts(o);
    GrowSplit(o, t.height, t.bf);
  }

  /** A split below the root yields a two-child root keyed by the minima of its halves. */
  lemma {:induction false} GrowSplit<V>(o: Outcome<V>, height: nat, bf: nat)
    requires bf >= 2 && height >= 1 && o.sibling.Some?
    requires Balanced(o.node, height - 1, bf) && Balanced(o.sibling.value, height - 1, bf)
    ensures var r := Grow(o, height, bf).root;
      && r.Branch? && |r.kids| == 2
      && r.kids[0].node == o.node && r.kids[1].node == o.sibling.value
      && (forall i :: 0 <= i < 2 ==>
            |Contents(r.kids[i].node)| > 0 && r.kids[i].key == Contents(r.kids[i].node)[0].key)
  {
    var sib := o.sibling.value;
    BalancedNonEmpty(o.node, height - 1, bf);
    BalancedNonEmpty(sib, height - 1, bf);
    BalancedHasMin(o.node, height - 1, bf);
    BalancedHasMin(sib, height - 1, bf);
    MinKeyFirst(o.node);
    MinKeyFirst(sib);
    assert Grow(o, height, bf).root.kids == [Child(MinKey(o.node), o.node), Child(MinKey(sib), sib)];
  }

  // ---------------------------------------------------------------------
  // Correctness of at and del

  /** At a leaf, the binary search finds exactly what the leaf's view holds. */
  lemma {:induction false} FindLeaf<V>(es: seq<Entry<V>>, key: int)
    requires StrictlySorted(es)
    ensures Find(Leaf(es), key) == Get(View(Contents(Leaf(es))), key)
  {
    ContentsOfLeaf(es);
    if |es| > 0 {
      var r := LeafSearch(es, key, 0, |es| - 1);
      if r.Some? {
        ViewHolds(es, r.value);
      } else {
        ViewMissing(es, key);
      }
    }
  }

  /** The branch case of `FindCorrect`: the search follows the routed child. */
  lemma {:induction false} FindBranch<V>(kids: seq<Child<V>>, d: nat, bf: nat, key: int)
    requires Balanced(Branch(kids), d, bf) && Summarized(Branch(kids)) && StrictlySorted(ContentsOf(kids))
    ensures Find(Branch(kids), key) == Get(View(ContentsOf(kids)), key)
    decreases Branch(kids), 0
  {
    var j := ChildPosition(KidKeys(kids), key);
    RouteSorted(kids, key);
    FindCorrect(kids[j].node, d - 1, bf, key);
    RouteView(kids, key);
  }

  /** The descent of `at` finds exactly what the subtree's view holds. */
  lemma {:induction false} FindCorrect<V>(n: Node<V>, d: nat, bf: nat, key: int)
    requires RootBalanced(n, d, bf) && Summarized(n) && StrictlySorted(Contents(n))
    ensures Find(n, key) == Get(View(Contents(n)), key)
    decreases n, 1
  {
    match n
    case Leaf(es) =>
      ContentsOfLeaf(es);
      FindLeaf(es, key);
    case Branch(kids) =>
      assert Contents(n) == ContentsOf(kids);
      FindBranch(kids, d, bf, key);
  }

  /** `at` returns the record the abstract map holds, and fails exactly when the key was never stored. */
  lemma {:induction false} AtCorrect<V>(t: OrderedMap<V>, key: int)
    requires Valid(t)
    ensures At(t, key) == Get(ViewOf(t), key)
  {
    FindCorrect(t.root, t.height - 1, t.bf, key);
  }

  /** At a leaf, `del` flags the entry under `key`, if there is one. */
  lemma {:induction false} KillLeaf<V>(es: seq<Entry<V>>, d: nat, bf: nat, key: int)
    requires RootBalanced(Leaf(es), d, bf) && StrictlySorted(es)
    ensures var r := Kill(Leaf(es), key);
      && RootBalanced(r.0, d, bf) && Summarized(r.0)
      && Contents(r.0) == Tombstoned(es, key)
      && (r.1 <==> key in View(es))
  {
    var r := Kill(Leaf(es), key);
    ContentsOfLeaf(r.0.entries);
    ViewDomain(es);
    if |es| > 0 {
      var s := LeafSearch(es, key, 0, |es| - 1);
      if s.Some? {
        var i := s.value;
        assert r.0.entries == Tombstoned(es, key) by {
          SortedPairs(es);
          forall p | 0 <= p < |es|
            ensures r.0.entries[p] == Tombstoned(es, key)[p]
          {
            if p != i {
              assert es[p].key != es[i].key;
            }
          }
        }
      } else {
        TombstonedMissing(es, key);
      }
    } else {
      TombstonedMissing(es, key);
    }
  }

  /** At a branch, `del` changes the contents only inside the routed child. */
  lemma {:induction false} KillBranchContents<V>(kids: seq<Child<V>>, d: nat, bf: nat, key: int)
    requires Balanced(Branch(kids), d, bf) && Summarized(Branch(kids))
    requires StrictlySorted(ContentsOf(kids))
    requires var j := ChildPosition(KidKeys(kids), key);
      j < |kids| && Contents(Kill(kids[j].node, key).0) == Tombstoned(Contents(kids[j].node), key)
    ensures Contents(Kill(Branch(kids), key).0) == Tombstoned(ContentsOf(kids), key)
  {
    var j := ChildPosition(KidKeys(kids), key);
    var c := Child(kids[j].key, Kill(kids[j].node, key).0);
    var a, b := ContentsOf(kids[..j]), ContentsOf(kids[j + 1..]);
    assert Contents(Kill(Branch(kids), key).0) == a + Tombstoned(Contents(kids[j].node), key) + b by {
      KillUnfold(kids, key);
      ContentsReplace(kids, j, c);
    }
    assert a + Tombstoned(Contents(kids[j].node), key) + b == Tombstoned(ContentsOf(kids), key) by {
      RouteBounds(kids, key);
      TombstonedMiddle(a, Contents(kids[j].node), b, key);
    }
  }

  /** `Kill` at a branch is the recursive call into the routed child. */
  lemma {:induction false} KillUnfold<V>(kids: seq<Child<V>>, key: int)
    requires |kids| > 0
    ensures var j := ChildPosition(KidKeys(kids), key);
      && j < |kids|
      && Kill(Branch(kids), key).0 == Branch(kids[j := Child(kids[j].key, Kill(kids[j].node, key).0)])
      && Kill(Branch(kids), key).1 == Kill(kids[j].node, key).1
  {
  }


  /** At a branch, `del` keeps the shape and every summary key. */
  lemma {:induction false} KillBranchShape<V>(kids: seq<Child<V>>, d: nat, bf: nat, key: int)
    requires Balanced(Branch(kids), d, bf) && Summarized(Branch(kids))
    requires var j := ChildPosition(KidKeys(kids), key);
      && j < |kids|
      && var sub := Kill(kids[j].node, key);
      && Balanced(sub.0, d - 1, bf) && Summarized(sub.0)
      && Contents(sub.0) == Tombstoned(Contents(kids[j].node), key)
    ensures Balanced(Kill(Branch(kids), key).0, d, bf) && Summarized(Kill(Branch(kids), key).0)
  {
    var j := ChildPosition(KidKeys(kids), key);
    var sub := Kill(kids[j].node, key);
    var c := Child(kids[j].key, sub.0);
    assert Kill(Branch(kids), key).0 == Branch(kids[j := c]);
    WellKeyedSummarized(kids);
    var before := Contents(kids[j].node);
    assert Keyed(kids[j]);
    MinKeyFirst(kids[j].node);
    BalancedHasMin(sub.0, d - 1, bf);
    MinKeyFirst(sub.0);
    TombstonedKeys(before, key);
    assert KeysOf(Contents(sub.0))[0] == KeysOf(before)[0];
    assert Keyed(c);
    WellKeyedReplace(kids, j, c);
    WellKeyedSummarized(kids[j := c]);
    ReplaceKidBalanced(kids, j, c, d, bf);
  }

  /** What a valid branch's view holds under `key` is what its routed child's view holds. */
  lemma {:induction false} RouteView<V>(kids: seq<Child<V>>, key: int)
    requires |kids| > 0 && WellKeyed(kids)
    requires StrictlySorted(ContentsOf(kids))
    ensures var j := ChildPosition(KidKeys(kids), key);
      && j < |kids|
      && Get(View(ContentsOf(kids)), key) == Get(View(Contents(kids[j].node)), key)
  {
    var j := ChildPosition(KidKeys(kids), key);
    RouteBounds(kids, key);
    ViewMiddle(ContentsOf(kids[..j]), Contents(kids[j].node), ContentsOf(kids[j + 1..]), key);
  }

  /**
   * The descent of `del` tombstones the entry under `key` and changes
   * nothing else: same shape, same keys, same summaries.
   */
  lemma {:induction false} KillCorrect<V>(n: Node<V>, d: nat, bf: nat, key: int)
    requires RootBalanced(n, d, bf) && Summarized(n) && StrictlySorted(Contents(n))
    ensures var r := Kill(n, key);
      && RootBalanced(r.0, d, bf)
      && (Balanced(n, d, bf) ==> Balanced(r.0, d, bf))
      && Summarized(r.0)
      && Contents(r.0) == Tombstoned(Contents(n), key)
      && (r.1 <==> key in View(Contents(n)))
    decreases n, 1
  {
    match n
    case Leaf(es) =>
      ContentsOfLeaf(es);
      KillLeaf(es, d, bf, key);
    case Branch(kids) =>
      assert Contents(n) == ContentsOf(kids);
      KillBranch(kids, d, bf, key);
  }

  /** At a branch, `del` descends into the routed child and replaces it by the result. */
  lemma {:induction false} KillBranch<V>(kids: seq<Child<V>>, d: nat, bf: nat, key: int)
    requires RootBalanced(Branch(kids), d, bf) && Summarized(Branch(kids)) && StrictlySorted(ContentsOf(kids))
    ensures var r := Kill(Branch(kids), key);
      && Balanced(r.0, d, bf)
      && Summarized(r.0)
      && Contents(r.0) == Tombstoned(ContentsOf(kids), key)
      && (r.1 <==> key in View(ContentsOf(kids)))
    decreases Branch(kids), 0
  {
    var j := ChildPosition(KidKeys(kids), key);
    RouteSorted(kids, key);
    KillCorrect(kids[j].node, d - 1, bf, key);
    KillBranchContents(kids, d, bf, key);
    KillBranchShape(kids, d, bf, key);
    RouteView(kids, key);
  }

  /**
   * `del` keeps the tree valid; it returns true exactly when the key is
   * stored (live or tombstoned), and the abstract map changes by `Delete`.
   */
  lemma {:induction false} DelCorrect<V>(t: OrderedMap<V>, key: int)
    requires Valid(t)
    ensures var r := Del(t, key);
      && Valid(r.0)
      && r.1 == Delete(ViewOf(t), key).1
      && ViewOf(r.0) == Delete(ViewOf(t), key).0
  {
    KillCorrect(t.root, t.height - 1, t.bf, key);
    TombstonedKeys(Contents(t.root), key);
    TombstonedView(Contents(t.root), key);
  }
}
