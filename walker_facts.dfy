/** Properties of the subkey walk that relate several calls: termination
    on a self-referencing index block, and the shape of the result for the
    one-level (leaf) and two-level (index of leaves) layouts. */
module WalkerFacts {
  import opened Results
  import opened HiveStore
  import opened Node
  import opened Walker

  /** An index block whose first entry points back at itself is walked
      until the block list reaches its ceiling, then the walk fails:
      the recursion is bounded by MaxSubkeys, not by the hive's shape. */
  lemma {:induction false} SelfCycleExhaustsBudget(h: Hive, flags: Flags, limit: nat, blk: nat, acc: Lists)
    requires Wf(h) && IsValidBlock(h, blk) && KindOf(h, blk) == IndexList
    requires 1 <= EntryCount(h, blk) && 8 + EntryCount(h, blk) * 4 <= BlockLen(h, blk)
    requires IndexEntries(h, blk, EntryCount(h, blk))[0] == blk
    requires WithinLimits(limit, acc)
    ensures Walk(h, flags, limit, blk, acc) == Err(OutOfRange)
    decreases MaxSubkeys - |acc.blocks|
  {
    if |acc.blocks| < MaxSubkeys {
      SelfCycleExhaustsBudget(h, flags, limit, blk, Lists(acc.children, acc.blocks + [blk]));
    }
  }

  /** A leaf block whose table fits and whose children all pass. */
  ghost predicate GoodLeaf(h: Hive, flags: Flags, blk: nat)
    requires Wf(h)
  {
    && IsValidBlock(h, blk)
    && KindOf(h, blk) == LeafList
    && 8 + EntryCount(h, blk) * 8 <= BlockLen(h, blk)
    && forall k <- LeafEntries(h, blk, EntryCount(h, blk)) :: ChildPasses(h, flags, k)
  }

  /** The children a good leaf block lists, in entry order. */
  function LeafKids(h: Hive, flags: Flags, blk: nat): seq<nat>
    requires Wf(h) && GoodLeaf(h, flags, blk)
  {
    LeafEntries(h, blk, EntryCount(h, blk))
  }

  /** Every block of `leaves` is a good leaf block. */
  ghost predicate AllGoodLeaves(h: Hive, flags: Flags, leaves: seq<nat>)
    requires Wf(h)
  {
    leaves == [] || (GoodLeaf(h, flags, leaves[0]) && AllGoodLeaves(h, flags, leaves[1..]))
  }

  /** The children of a sequence of good leaf blocks, concatenated. */
  function Flatten(h: Hive, flags: Flags, leaves: seq<nat>): seq<nat>
    requires Wf(h) && AllGoodLeaves(h, flags, leaves)
  {
    if leaves == [] then [] else LeafKids(h, flags, leaves[0]) + Flatten(h, flags, leaves[1..])
  }

  /** One level: walking a good leaf block records it and appends its
      children in entry order, provided both ceilings allow it. */
  lemma LeafWalk(h: Hive, flags: Flags, limit: nat, blk: nat, acc: Lists)
    requires Wf(h) && GoodLeaf(h, flags, blk) && WithinLimits(limit, acc)
    requires |acc.blocks| < MaxSubkeys
    requires |acc.children| + |LeafKids(h, flags, blk)| <= limit
    ensures Walk(h, flags, limit, blk, acc)
         == Ok(Lists(acc.children + LeafKids(h, flags, blk), acc.blocks + [blk]))
  {
  }

  /** Walking a list of good leaf blocks from an index records each leaf
      once and appends all their children, leaf after leaf. */
  lemma {:induction false} IndexOfLeaves(h: Hive, flags: Flags, limit: nat, leaves: seq<nat>, acc: Lists)
    requires Wf(h) && WithinLimits(limit, acc)
    requires AllGoodLeaves(h, flags, leaves)
    requires |acc.blocks| + |leaves| <= MaxSubkeys
    requires |acc.children| + |Flatten(h, flags, leaves)| <= limit
    ensures WalkIndex(h, flags, limit, leaves, acc)
         == Ok(Lists(acc.children + Flatten(h, flags, leaves), acc.blocks + leaves))
  {
    if leaves != [] {
      var b := leaves[0];
      assert Flatten(h, flags, leaves) == LeafKids(h, flags, b) + Flatten(h, flags, leaves[1..]);
      LeafWalk(h, flags, limit, b, acc);
      var a := Lists(acc.children + LeafKids(h, flags, b), acc.blocks + [b]);
      assert Walk(h, flags, limit, b, acc) == Ok(a);
      IndexOfLeaves(h, flags, limit, leaves[1..], a);
      WalkIndexStep(h, flags, limit, leaves, 0, acc);
      assert leaves[0..] == leaves;
      Regroup(acc.children, LeafKids(h, flags, b), Flatten(h, flags, leaves[1..]), Flatten(h, flags, leaves));
      RegroupHead(acc.blocks, leaves);
    } else {
      assert acc.children + Flatten(h, flags, leaves) == acc.children;
      assert acc.blocks + leaves == acc.blocks;
    }
  }

  lemma Regroup(c: seq<nat>, k: seq<nat>, r: seq<nat>, f: seq<nat>)
    requires f == k + r
    ensures (c + k) + r == c + f
  {
  }

  lemma RegroupHead(bs: seq<nat>, xs: seq<nat>)
    requires xs != []
    ensures (bs + [xs[0]]) + xs[1..] == bs + xs
  {
    assert xs == [xs[0]] + xs[1..];
  }

  /** Two levels: an index block whose entries are good leaf blocks yields
      the leaves' children in leaf order, exactly the children list a single
      leaf block listing the same children would yield; the block list is
      the index block followed by its leaves (pre-order). */
  lemma TwoLevelMatchesFlat(h: Hive, flags: Flags, limit: nat, ri: nat, lf: nat, acc: Lists)
    requires Wf(h) && IsValidBlock(h, ri) && KindOf(h, ri) == IndexList
    requires 8 + EntryCount(h, ri) * 4 <= BlockLen(h, ri)
    requires AllGoodLeaves(h, flags, IndexEntries(h, ri, EntryCount(h, ri)))
    requires GoodLeaf(h, flags, lf)
    requires LeafKids(h, flags, lf) == Flatten(h, flags, IndexEntries(h, ri, EntryCount(h, ri)))
    requires WithinLimits(limit, acc)
    requires |acc.blocks| + 1 + EntryCount(h, ri) <= MaxSubkeys
    requires |acc.children| + |LeafKids(h, flags, lf)| <= limit
    ensures Walk(h, flags, limit, ri, acc).Ok? && Walk(h, flags, limit, lf, acc).Ok?
    ensures Walk(h, flags, limit, ri, acc).value.children == Walk(h, flags, limit, lf, acc).value.children
    ensures Walk(h, flags, limit, ri, acc).value.blocks
         == acc.blocks + [ri] + IndexEntries(h, ri, EntryCount(h, ri))
  {
    var leaves := IndexEntries(h, ri, EntryCount(h, ri));
    IndexOfLeaves(h, flags, limit, leaves, Lists(acc.children, acc.blocks + [ri]));
    LeafWalk(h, flags, limit, lf, acc);
  }

  /** _hivex_get_children on a key whose subkey list is one good leaf
      holding exactly nr_subkeys entries: the children are the leaf's
      entries in order, and the leaf is the only block recorded. */
  lemma KeyWithOneLeaf(h: Hive, node: nat, flags: Flags)
    requires Wf(h) && IsNk(h, node)
    requires 0 < NrSubkeys(h, node) <= MaxSubkeys
    requires GoodLeaf(h, flags, SubkeyList(h, node))
    requires |LeafKids(h, flags, SubkeyList(h, node))| == NrSubkeys(h, node)
    ensures ChildrenOf(h, node, flags)
         == Ok(Lists(LeafKids(h, flags, SubkeyList(h, node)), [SubkeyList(h, node)]))
  {
    var lf, nr := SubkeyList(h, node), NrSubkeys(h, node);
    var kids := LeafKids(h, flags, lf);
    LeafWalk(h, flags, nr, lf, Lists([], []));
    assert [] + kids == kids && [] + [lf] == [lf];
    assert Walk(h, flags, nr, lf, Lists([], [])) == Ok(Lists(kids, [lf]));
  }

  /** _hivex_get_children on a key whose subkey list is an ri block over
      good leaves: the children are the leaves' entries, leaf after leaf,
      and the blocks are the ri block followed by its leaves (pre-order). */
  lemma KeyWithIndexOfLeaves(h: Hive, node: nat, flags: Flags)
    requires Wf(h) && IsNk(h, node)
    requires 0 < NrSubkeys(h, node) <= MaxSubkeys
    requires IsValidBlock(h, SubkeyList(h, node)) && KindOf(h, SubkeyList(h, node)) == IndexList
    requires 8 + EntryCount(h, SubkeyList(h, node)) * 4 <= BlockLen(h, SubkeyList(h, node))
    requires 1 + EntryCount(h, SubkeyList(h, node)) <= MaxSubkeys
    requires AllGoodLeaves(h, flags, IndexEntries(h, SubkeyList(h, node), EntryCount(h, SubkeyList(h, node))))
    requires |Flatten(h, flags, IndexEntries(h, SubkeyList(h, node), EntryCount(h, SubkeyList(h, node))))|
          == NrSubkeys(h, node)
    ensures var ri := SubkeyList(h, node);
      var leaves := IndexEntries(h, ri, EntryCount(h, ri));
      ChildrenOf(h, node, flags) == Ok(Lists(Flatten(h, flags, leaves), [ri] + leaves))
  {
    var ri := SubkeyList(h, node);
    var leaves := IndexEntries(h, ri, EntryCount(h, ri));
    var nr := NrSubkeys(h, node);
    var kids := Flatten(h, flags, leaves);
    IndexOfLeaves(h, flags, nr, leaves, Lists([], [ri]));
    assert [] + kids == kids && [] + [ri] == [ri];
    assert WalkIndex(h, flags, nr, leaves, Lists([], [ri])) == Ok(Lists(kids, [ri] + leaves));
    assert Walk(h, flags, nr, ri, Lists([], [])) == Ok(Lists(kids, [ri] + leaves));
  }
}
