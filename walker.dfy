/** The subkey walker of lib/node.c: _hivex_get_children, _get_children and
    check_child_is_nk_block. A key's subkey_lf pointer leads to an
    indirection block: an "lf"/"lh" leaf listing child keys, or an "ri"
    index listing further indirection blocks. The walker collects the child
    keys and every indirection block it visits into two bounded lists. */
module Walker {
  import opened Results
  import opened Bytes
  import opened HiveStore
  import opened OffsetLists
  import opened Node

  /** HIVEX_MAX_SUBKEYS: the ceiling on declared subkeys and on visited
      indirection blocks. */
  const MaxSubkeys: nat := 25000

  /** The flags argument; GET_CHILDREN_NO_CHECK_NK is its only bit. */
  datatype Flags = Flags(noCheckNk: bool)

  const CheckNk := Flags(noCheckNk := false)

  /** The two accumulators: child key handles and visited blocks. */
  datatype Lists = Lists(children: seq<nat>, blocks: seq<nat>)

  /** The shape an indirection block's signature announces. */
  datatype BlockKind = LeafList | IndexList | Unsupported(id0: byte, id1: byte)

  function KindOf(h: Hive, blk: nat): (k: BlockKind)
    requires Wf(h) && IsValidBlock(h, blk)
    ensures k == LeafList <==> HasId(h, blk, 'l', 'f') || HasId(h, blk, 'l', 'h')
    ensures k == IndexList <==> HasId(h, blk, 'r', 'i')
  {
    var a, b := h.bytes[blk + IdAt], h.bytes[blk + IdAt + 1];
    if a == Ascii('l') && (b == Ascii('f') || b == Ascii('h')) then LeafList
    else if a == Ascii('r') && b == Ascii('i') then IndexList
    else Unsupported(a, b)
  }

  /** The 16-bit entry count of an lf/lh/ri block. */
  function EntryCount(h: Hive, blk: nat): nat
    requires Wf(h) && IsValidBlock(h, blk)
  {
    ReadLE(h, blk + CountAt, 2)
  }

  /** The biased child offsets of the first `n` entries of a leaf block,
      each entry an (offset, hash) pair of 8 bytes. Every read lies inside
      the block once the entry table is known to fit. */
  function LeafEntries(h: Hive, blk: nat, n: nat): (es: seq<nat>)
    requires Wf(h) && IsValidBlock(h, blk) && 8 + n * 8 <= BlockLen(h, blk)
    ensures |es| == n
    ensures forall i | 0 <= i < n :: es[i] == ReadLE(h, blk + 8 + 8 * i, 4) + BlockBias
  {
    seq(n, i requires 0 <= i < n => ReadLE(h, blk + 8 + 8 * i, 4) + BlockBias)
  }

  /** The biased offsets of the first `n` entries of an index block, each
      entry a 4-byte offset. */
  function IndexEntries(h: Hive, blk: nat, n: nat): (es: seq<nat>)
    requires Wf(h) && IsValidBlock(h, blk) && 8 + n * 4 <= BlockLen(h, blk)
    ensures |es| == n
    ensures forall i | 0 <= i < n :: es[i] == ReadLE(h, blk + 8 + 4 * i, 4) + BlockBias
  {
    seq(n, i requires 0 <= i < n => ReadLE(h, blk + 8 + 4 * i, 4) + BlockBias)
  }

  /** What the walk demands of a child key it records. */
  predicate ChildPasses(h: Hive, flags: Flags, child: nat)
    requires Wf(h)
  {
    flags.noCheckNk || IsNk(h, child)
  }

  /** check_child_is_nk_block: unless the flag bypasses it, the child must
      be a valid block with signature "nk". */
  function CheckChildIsNk(h: Hive, flags: Flags, child: nat): (o: Outcome)
    requires Wf(h)
    ensures o.Pass? <==> flags.noCheckNk || (IsValidBlock(h, child) && HasId(h, child, 'n', 'k'))
    ensures o.Fail? ==> o.error == Fault
  {
    if flags.noCheckNk then Pass
    else if !IsValidBlock(h, child) then Fail(Fault)
    else if !HasId(h, child, 'n', 'k') then Fail(Fault)
    else Pass
  }

  /** The loop over a leaf block's entries: check each child in turn, then
      append it to `acc` under the ceiling `limit`. It succeeds exactly when
      every child passes and they all fit, and then appends them in order. */
  function AddLeafChildren(h: Hive, flags: Flags, limit: nat, kids: seq<nat>, acc: seq<nat>): (r: Result<seq<nat>>)
    requires Wf(h)
    requires |acc| <= limit
    ensures r.Ok? <==> (forall k <- kids :: ChildPasses(h, flags, k)) && |acc| + |kids| <= limit
    ensures r.Ok? ==> r.value == acc + kids
    ensures r.Err? ==> r.error in {Fault, OutOfRange}
    decreases |kids|
  {
    if kids == [] then Ok(acc)
    else match CheckChildIsNk(h, flags, kids[0])
      case Fail(e) => assert kids[0] in kids; Err(e)
      case Pass =>
        match Push(acc, limit, kids[0])
        case Err(e) => Err(e)
        case Ok(acc') => AddLeafChildren(h, flags, limit, kids[1..], acc')
  }

  /** `b` is `a` with entries appended: new children pass the child check,
      new blocks are valid blocks. */
  ghost predicate Grows(h: Hive, flags: Flags, a: Lists, b: Lists)
    requires Wf(h)
  {
    && a.children <= b.children
    && a.blocks <= b.blocks
    && (forall i | |a.children| <= i < |b.children| ::
          b.children[i] >= BlockBias && ChildPasses(h, flags, b.children[i]))
    && (forall i | |a.blocks| <= i < |b.blocks| :: IsValidBlock(h, b.blocks[i]))
  }

  lemma GrowsTransitive(h: Hive, flags: Flags, a: Lists, b: Lists, c: Lists)
    requires Wf(h) && Grows(h, flags, a, b) && Grows(h, flags, b, c)
    ensures Grows(h, flags, a, c)
  {
    forall i | |a.children| <= i < |c.children|
      ensures c.children[i] >= BlockBias && ChildPasses(h, flags, c.children[i])
    {
      if i < |b.children| {
        assert c.children[i] == b.children[i];
      }
    }
    forall i | |a.blocks| <= i < |c.blocks|
      ensures IsValidBlock(h, c.blocks[i])
    {
      if i < |b.blocks| {
        assert c.blocks[i] == b.blocks[i];
      }
    }
  }

  /** Both accumulators are within their ceilings. */
  predicate WithinLimits(limit: nat, acc: Lists)
  {
    |acc.children| <= limit && |acc.blocks| <= MaxSubkeys
  }

  /** _get_children on block `blk`: record the block (which fails once
      MaxSubkeys blocks are recorded), then read a leaf's children or walk
      an index's entries in order; any other signature is unsupported.
      Each call records one more block, so the walk ends even when index
      entries form a cycle. On success the accumulators only grew, stay
      within their ceilings, and `blk` is the first block this call added. */
  function Walk(h: Hive, flags: Flags, limit: nat, blk: nat, acc: Lists): (r: Result<Lists>)
    requires Wf(h) && IsValidBlock(h, blk) && WithinLimits(limit, acc)
    ensures r.Ok? ==>
      && Grows(h, flags, acc, r.value)
      && WithinLimits(limit, r.value)
      && |acc.blocks| < |r.value.blocks|
      && r.value.blocks[|acc.blocks|] == blk
    decreases MaxSubkeys - |acc.blocks|, 0
  {
    match Push(acc.blocks, MaxSubkeys, blk)
    case Err(e) => Err(e)
    case Ok(blocks) =>
      var len := BlockLen(h, blk);
      match KindOf(h, blk)
      case LeafList =>
        var n := EntryCount(h, blk);
        if 8 + n * 8 > len then Err(Fault)
        else (
          match AddLeafChildren(h, flags, limit, LeafEntries(h, blk, n), acc.children)
          case Err(e) => Err(e)
          case Ok(children) => Ok(Lists(children, blocks)))
      case IndexList =>
        var n := EntryCount(h, blk);
        if 8 + n * 4 > len then Err(Fault)
        else WalkIndex(h, flags, limit, IndexEntries(h, blk, n), Lists(acc.children, blocks))
      case Unsupported(_, _) => Err(NotSupported)
  }

  /** How one _get_children call ends: a full blocks list fails with
      OutOfRange; otherwise an unknown signature is unsupported, a table
      that does not fit its block is a fault, a leaf gives the outcome of
      reading its entries, and an index the outcome of walking its entries,
      with the block recorded. */
  lemma WalkCases(h: Hive, flags: Flags, limit: nat, blk: nat, acc: Lists)
    requires Wf(h) && IsValidBlock(h, blk) && WithinLimits(limit, acc)
    ensures var r := Walk(h, flags, limit, blk, acc);
      && (|acc.blocks| >= MaxSubkeys ==> r == Err(OutOfRange))
      && (|acc.blocks| < MaxSubkeys && KindOf(h, blk).Unsupported? ==> r == Err(NotSupported))
      && (|acc.blocks| < MaxSubkeys && KindOf(h, blk) == LeafList ==>
            if 8 + EntryCount(h, blk) * 8 > BlockLen(h, blk) then r == Err(Fault)
            else r == match AddLeafChildren(h, flags, limit, LeafEntries(h, blk, EntryCount(h, blk)), acc.children)
                      case Err(e) => Err(e)
                      case Ok(c) => Ok(Lists(c, acc.blocks + [blk])))
      && (|acc.blocks| < MaxSubkeys && KindOf(h, blk) == IndexList ==>
            if 8 + EntryCount(h, blk) * 4 > BlockLen(h, blk) then r == Err(Fault)
            else r == WalkIndex(h, flags, limit, IndexEntries(h, blk, EntryCount(h, blk)),
                                Lists(acc.children, acc.blocks + [blk])))
  {
  }

  /** The loop over an index block's entries: each must be a valid block
      and is walked, in entry order, with the same accumulators. */
  function WalkIndex(h: Hive, flags: Flags, limit: nat, offs: seq<nat>, acc: Lists): (r: Result<Lists>)
    requires Wf(h) && WithinLimits(limit, acc)
    ensures r.Ok? ==> Grows(h, flags, acc, r.value) && WithinLimits(limit, r.value)
    ensures r.Ok? ==> |r.value.blocks| >= |acc.blocks| + |offs|
    decreases MaxSubkeys - |acc.blocks|, 1, |offs|
  {
    if offs == [] then Ok(acc)
    else if !IsValidBlock(h, offs[0]) then Err(Fault)
    else match Walk(h, flags, limit, offs[0], acc)
      case Err(e) => Err(e)
      case Ok(a) =>
        var r := WalkIndex(h, flags, limit, offs[1..], a);
        if r.Ok? then GrowsTransitive(h, flags, acc, a, r.value); r else r
  }

  /** _hivex_get_children: the two lists for key `node`, or the error that
      ended the walk; partial lists are never returned. */
  function ChildrenOf(h: Hive, node: nat, flags: Flags): (r: Result<Lists>)
    requires Wf(h)
    ensures !IsNk(h, node) ==> r == Err(InvalidArgument)
    ensures IsNk(h, node) && NrSubkeys(h, node) == 0 ==> r == Ok(Lists([], []))
    ensures IsNk(h, node) && NrSubkeys(h, node) > MaxSubkeys ==> r == Err(OutOfRange)
    ensures IsNk(h, node) && 0 < NrSubkeys(h, node) <= MaxSubkeys && !IsValidBlock(h, SubkeyList(h, node)) ==>
      r == Err(Fault)
    ensures r.Ok? ==>
      && IsNk(h, node)
      && |r.value.children| == NrSubkeys(h, node)
      && |r.value.blocks| <= MaxSubkeys
      && (forall c <- r.value.children :: c >= BlockBias && ChildPasses(h, flags, c))
      && (forall b <- r.value.blocks :: IsValidBlock(h, b))
      && (NrSubkeys(h, node) > 0 ==>
            |r.value.blocks| > 0 && r.value.blocks[0] == SubkeyList(h, node))
    ensures IsNk(h, node) && 0 < NrSubkeys(h, node) <= MaxSubkeys && IsValidBlock(h, SubkeyList(h, node)) ==>
      r == match Walk(h, flags, NrSubkeys(h, node), SubkeyList(h, node), Lists([], []))
           case Err(e) => Err(e)
           case Ok(found) => if |found.children| != NrSubkeys(h, node) then Err(NotSupported) else Ok(found)
  {
    if !IsNk(h, node) then Err(InvalidArgument)
    else
      var nr := NrSubkeys(h, node);
      if nr == 0 then Ok(Lists([], []))
      else if nr > MaxSubkeys then Err(OutOfRange)
      else
        var lf := SubkeyList(h, node);
        if !IsValidBlock(h, lf) then Err(Fault)
        else match Walk(h, flags, nr, lf, Lists([], []))
          case Err(e) => Err(e)
          case Ok(found) =>
            if |found.children| != nr then Err(NotSupported) else Ok(found)
  }

  /** The current contents of the two accumulators. */
  function Snapshot(children: OffsetList, blocks: OffsetList): Lists
    reads children, blocks
  {
    Lists(children.items, blocks.items)
  }

  /** A call's outcome and the accumulators it leaves agree with the
      specification's result: on success the lists are its lists, on
      failure the error is its error. */
  predicate Agrees(st: Outcome, now: Lists, spec: Result<Lists>)
  {
    match spec
    case Ok(l) => st == Pass && now == l
    case Err(e) => st == Fail(e)
  }

  /** _get_children: appends to the two shared lists in place. */
  method Descend(h: Hive, flags: Flags, blk: nat, children: OffsetList, blocks: OffsetList)
    returns (st: Outcome)
    requires Wf(h) && IsValidBlock(h, blk)
    requires children != blocks && children.Valid() && blocks.Valid()
    requires blocks.limit == MaxSubkeys
    modifies children, blocks
    ensures children.Valid() && blocks.Valid()
    ensures children.limit == old(children.limit) && blocks.limit == MaxSubkeys
    ensures Agrees(st, Snapshot(children, blocks),
                   Walk(h, flags, children.limit, blk, old(Snapshot(children, blocks))))
    decreases MaxSubkeys - |blocks.items|, 0
  {
    var added := blocks.Add(blk);
    if !added {
      return Fail(OutOfRange);
    }
    var len := BlockLen(h, blk);
    var kind := KindOf(h, blk);
    match kind {
      case LeafList =>
        var n := EntryCount(h, blk);
        if 8 + n * 8 > len {
          return Fail(Fault);
        }
        st := ReadLeaf(h, flags, blk, n, children);
      case IndexList =>
        var n := EntryCount(h, blk);
        if 8 + n * 4 > len {
          return Fail(Fault);
        }
        st := DescendIndex(h, flags, blk, n, children, blocks);
      case Unsupported(_, _) =>
        return Fail(NotSupported);
    }
  }

  /** The loop of _get_children over the entries of an lf/lh block. */
  method ReadLeaf(h: Hive, flags: Flags, blk: nat, n: nat, children: OffsetList)
    returns (st: Outcome)
    requires Wf(h) && IsValidBlock(h, blk) && 8 + n * 8 <= BlockLen(h, blk)
    requires children.Valid()
    modifies children
    ensures children.Valid() && children.limit == old(children.limit)
    ensures match AddLeafChildren(h, flags, children.limit, LeafEntries(h, blk, n), old(children.items))
            case Ok(c) => st == Pass && children.items == c
            case Err(e) => st == Fail(e)
  {
    ghost var kids := LeafEntries(h, blk, n);
    ghost var acc := children.items;
    var i := 0;
    while i < n
      invariant 0 <= i <= n
      invariant children.Valid() && children.limit == old(children.limit)
      invariant AddLeafChildren(h, flags, children.limit, kids, acc)
             == AddLeafChildren(h, flags, children.limit, kids[i..], children.items)
    {
      var subkey := ReadLE(h, blk + 8 + 8 * i, 4) + BlockBias;
      assert kids[i..][0] == subkey && kids[i..][1..] == kids[i + 1..];
      var check := CheckChildIsNk(h, flags, subkey);
      if check.Fail? {
        return check;
      }
      var ok := children.Add(subkey);
      if !ok {
        return Fail(OutOfRange);
      }
      i := i + 1;
    }
    return Pass;
  }

  /** The loop of _get_children over the entries of an ri block, recursing
      into each with the same two lists. */
  method DescendIndex(h: Hive, flags: Flags, blk: nat, n: nat, children: OffsetList, blocks: OffsetList)
    returns (st: Outcome)
    requires Wf(h) && IsValidBlock(h, blk) && 8 + n * 4 <= BlockLen(h, blk)
    requires children != blocks && children.Valid() && blocks.Valid()
    requires blocks.limit == MaxSubkeys
    modifies children, blocks
    ensures children.Valid() && blocks.Valid()
    ensures children.limit == old(children.limit) && blocks.limit == MaxSubkeys
    ensures Agrees(st, Snapshot(children, blocks),
                   WalkIndex(h, flags, children.limit, IndexEntries(h, blk, n), old(Snapshot(children, blocks))))
    decreases MaxSubkeys - |blocks.items|, 1
  {
    ghost var offs := IndexEntries(h, blk, n);
    ghost var acc := Snapshot(children, blocks);
    var i := 0;
    while i < n
      invariant 0 <= i <= n
      invariant children.Valid() && blocks.Valid()
      invariant children.limit == old(children.limit) && blocks.limit == MaxSubkeys
      invariant |blocks.items| >= |acc.blocks|
      invariant WalkIndex(h, flags, children.limit, offs, acc)
             == WalkIndex(h, flags, children.limit, offs[i..], Snapshot(children, blocks))
    {
      var offset := ReadLE(h, blk + 8 + 4 * i, 4) + BlockBias;
      WalkIndexStep(h, flags, children.limit, offs, i, Snapshot(children, blocks));
      if !IsValidBlock(h, offset) {
        return Fail(Fault);
      }
      st := Descend(h, flags, offset, children, blocks);
      if st.Fail? {
        return st;
      }
      i := i + 1;
    }
    return Pass;
  }

  /** One turn of the index loop: the walk from entry `i` on is entry i's
      walk followed by the walk from entry i + 1 on. */
  lemma WalkIndexStep(h: Hive, flags: Flags, limit: nat, offs: seq<nat>, i: nat, cur: Lists)
    requires Wf(h) && WithinLimits(limit, cur) && i < |offs|
    ensures !IsValidBlock(h, offs[i]) ==> WalkIndex(h, flags, limit, offs[i..], cur) == Err(Fault)
    ensures IsValidBlock(h, offs[i]) ==>
      WalkIndex(h, flags, limit, offs[i..], cur) ==
        match Walk(h, flags, limit, offs[i], cur)
        case Err(e) => Err(e)
        case Ok(a) => WalkIndex(h, flags, limit, offs[i + 1..], a)
  {
    assert offs[i..][0] == offs[i] && offs[i..][1..] == offs[i + 1..];
  }

  /** _hivex_get_children: validates the key, applies the two ceilings,
      walks the subkey list and checks the count found against the count
      declared; any failure discards both lists. */
  method GetChildren(h: Hive, node: nat, flags: Flags) returns (r: Result<Lists>)
    requires Wf(h)
    ensures r == ChildrenOf(h, node, flags)
  {
    if !IsNk(h, node) {
      return Err(InvalidArgument);
    }
    var nrSubkeys := NrSubkeys(h, node);
    var children := new OffsetList();
    var blocks := new OffsetList();
    if nrSubkeys == 0 {
      return Ok(Snapshot(children, blocks));
    }
    if nrSubkeys > MaxSubkeys {
      return Err(OutOfRange);
    }
    children.SetLimit(nrSubkeys);
    blocks.SetLimit(MaxSubkeys);
    var subkeyLf := ReadLE(h, node + NkSubkeyLfAt, 4) + BlockBias;
    if !IsValidBlock(h, subkeyLf) {
      return Err(Fault);
    }
    var st := Descend(h, flags, subkeyLf, children, blocks);
    if st.Fail? {
      return Err(st.error);
    }
    if children.Length() != nrSubkeys {
      return Err(NotSupported);
    }
    return Ok(Snapshot(children, blocks));
  }
}
