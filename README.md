# hivex key-tree traversal, modelled in Dafny

This project models the key-tree traversal engine of hivex, `lib/node.c`.
hivex reads Windows NT Registry hive files. The engine works over one flat
byte image that may be corrupt or hostile, and has three parts:

- **Key-record ("nk") accessors** (module `Node`). `hivex_root`,
  `hivex_node_struct_length`, `hivex_node_name`, `timestamp_check`,
  `hivex_last_modified`, `hivex_node_timestamp` and `hivex_node_parent` are
  pure functions over the image. Each returns a `Result`: the C sentinel
  return value (0, NULL or -1) with an errno becomes an `Err` carrying the
  error kind.
- **The subkey walker** (module `Walker`). `_hivex_get_children`,
  `_get_children` and `check_child_is_nk_block` appear twice:
  - as a specification, the recursive functions `Walk`, `WalkIndex` and
    `ChildrenOf`;
  - as imperative methods, `GetChildren`, `Descend`, `ReadLeaf` and
    `DescendIndex`, which append in place to two `OffsetList` objects, as
    the C code does. Each method is proved to end in the state, and with
    the outcome, that the specification gives.
  Termination uses the measure `HIVEX_MAX_SUBKEYS - |blocks|`, because
  every `_get_children` call first spends one slot of the bounded `blocks`
  list. This also covers cyclic `ri` chains (`WalkerFacts`).
- **Child lookup** (module `Lookup`). `hivex_node_children` and
  `hivex_node_get_child` are methods. The loop of `hivex_node_get_child`
  runs over the 0-terminated children array until it reaches the 0 or
  hits a `break`.

The supporting modules are:

- `Results`: error kinds and result types.
- `Bytes`: little-endian field decoding and its inverse, and the int64
  reinterpretation.
- `HiveStore`: the mapped image and the store oracles that `lib/node.c`
  uses but does not define.
- `OffsetLists`: the bounded offset list.

Error kinds follow the errno values the code sets:

| Error kind | errno |
|---|---|
| `InvalidArgument` | EINVAL |
| `Fault` | EFAULT |
| `NotSupported` | ENOTSUP |
| `OutOfRange` | ERANGE |
| `NoKey` | HIVEX_NO_KEY |

hivex reports a subkey count that differs from `nr_subkeys` with ENOTSUP
(lib/node.c:271) and a negative time with EINVAL (lib/node.c:110). The
model keeps these kinds.

## Model

| member | source | states |
|---|---|---|
| Node.Root | lib/node.c:39-48 | Succeeds exactly when the stored root offset is a valid block. The result is then that offset, and it is never 0. Otherwise the error is NoKey. |
| Node.NodeStructLength | lib/node.c:50-70 | A handle that is not a valid "nk" block gives InvalidArgument. Otherwise the call succeeds exactly when sizeof(nk record) + name_len - 1 is at most the block length. The result is then 0x50 + name_len, which lies within the block. Otherwise the error is Fault. |
| Node.NodeName | lib/node.c:72-104 | Same accept and reject conditions and errors as the record length. On success the result is name_len + 1 bytes: exactly the name_len raw bytes at offset 0x50 of the block, followed by one NUL. The name lies inside the block. |
| Node.NameAgreesWithStructLength | lib/node.c:50-104 | The name and record-length accessors accept the same handles and fail with the same error. The name's length plus 0x50 is one more than the record length. |
| Node.TimestampCheck | lib/node.c:106-116 | A time passes unchanged exactly when it is non-negative. A negative time gives InvalidArgument. |
| Node.AsReturned | lib/node.c:106-139 | The C int64 return value is -1 exactly on error and non-negative exactly on success, so -1 is an unambiguous sentinel. |
| Node.LastModified | lib/node.c:118-122 | The hive-wide time is returned unchanged when it is non-negative. Otherwise the error is InvalidArgument. |
| Node.NodeTimestamp | lib/node.c:124-139 | Succeeds exactly for a valid "nk" block whose stored time is non-negative, and then returns that time. Every failure, whether a non-"nk" handle or a negative time, is InvalidArgument. |
| Node.TimestampRoundTrip | lib/node.c:124-139 | A key whose timestamp field holds the 8-byte little-endian form of a time t reports t when t >= 0. When t < 0 (stored as two's complement) it fails. |
| Node.NodeParent | lib/node.c:433-451 | A non-"nk" handle gives InvalidArgument. Otherwise the call succeeds exactly when the stored parent + 0x1000 is a valid block, and returns that offset, which is non-zero. Otherwise the error is Fault. |
| Bytes.DecodeEncode | lib/node.c:137 | Little-endian decoding (le16toh, le32toh, le64toh over image bytes) inverts the n-byte encoding of any value below 256^n. |
| Bytes.EncodeDecode | lib/node.c:137 | Encoding the decoded value of any byte string gives back that string. |
| Bytes.AsInt64 | lib/node.c:137 | Assigning the unsigned 64-bit field to an int64_t gives a non-negative value exactly when the field is below 2^63, and it is congruent to the field modulo 2^64. |
| OffsetLists.Push | lib/node.c:297-298 | Appending to a bounded list succeeds exactly when the list is below its ceiling. It then appends the value at the end. Otherwise the error is OutOfRange. |
| OffsetLists.OffsetList.constructor | lib/node.c:222-223 | A fresh list is empty, with an unlimited (SIZE_MAX) ceiling. |
| OffsetLists.OffsetList.SetLimit | lib/node.c:238-245 | Sets the ceiling and keeps the contents. |
| OffsetLists.OffsetList.Add | lib/node.c:297-298 | Appends in place when below the ceiling and reports success. Otherwise it reports failure and leaves the list unchanged. The list never holds 0 and never exceeds its ceiling. |
| OffsetLists.OffsetList.Length | lib/node.c:269 | The number of entries held. |
| Walker.KindOf | lib/node.c:308-358 | A block is a leaf exactly when its signature is "lf" or "lh". It is an index exactly when its signature is "ri". Any other signature is unsupported. |
| Walker.LeafEntries | lib/node.c:322-324 | A leaf block yields one child offset per entry: entry i is the 32-bit little-endian value at 8 + 8i in the block, plus 0x1000. |
| Walker.IndexEntries | lib/node.c:344-346 | An index block yields one block offset per entry: entry i is the 32-bit little-endian value at 8 + 4i in the block, plus 0x1000. |
| Walker.CheckChildIsNk | lib/node.c:366-388 | Passes exactly when the bypass flag is set or the child is a valid block with signature "nk". Otherwise the error is Fault. |
| Walker.AddLeafChildren | lib/node.c:320-329 | The loop over a leaf block's entries succeeds exactly when every child passes the nk check and all of them fit under the children ceiling. It then appends them in entry order. Otherwise the error is Fault or OutOfRange. |
| Walker.Walk | lib/node.c:291-364 | On success the two lists only grew and stay within their ceilings. New children are biased offsets that pass the nk check. New blocks are valid, and the first block added is the block walked, so the order is pre-order. |
| Walker.WalkCases | lib/node.c:291-364 | How one call ends. Once the blocks list is full it fails with OutOfRange. Otherwise an unknown signature gives NotSupported, and a leaf or index table that does not fit the block gives Fault. Otherwise a leaf gives AddLeafChildren's result over its entries, and an index gives WalkIndex over its entries, with the block appended to the blocks list. |
| Walker.WalkIndex | lib/node.c:331-355 | On success the lists only grew and stay within their ceilings, and at least one block was recorded per index entry. |
| Walker.ChildrenOf | lib/node.c:206-289 | A non-"nk" node gives InvalidArgument. nr_subkeys == 0 gives two empty lists, without reading subkey_lf. nr_subkeys > HIVEX_MAX_SUBKEYS gives OutOfRange. An invalid subkey_lf + 0x1000 gives Fault. On success: exactly nr_subkeys children, each passing the nk check; at most HIVEX_MAX_SUBKEYS blocks, all valid, the first being subkey_lf + 0x1000. Failure returns no lists. Otherwise the result is the walk from subkey_lf + 0x1000 with a children ceiling of nr_subkeys: the walk's error if it fails, NotSupported if it finds a different number of children, and otherwise exactly the walk's two lists. |
| Walker.Descend | lib/node.c:291-364 | The in-place walk of one block leaves the two shared lists holding what Walk computes and reports its outcome. On failure it reports Walk's error. The ceilings are unchanged. |
| Walker.ReadLeaf | lib/node.c:320-329 | The in-place leaf loop leaves the children list holding what AddLeafChildren computes, or reports its error. |
| Walker.DescendIndex | lib/node.c:340-355 | The in-place index loop leaves the lists holding what WalkIndex computes, or reports its error. |
| Walker.GetChildren | lib/node.c:206-289 | The driver, over two freshly allocated lists, returns exactly ChildrenOf. |
| WalkerFacts.SelfCycleExhaustsBudget | lib/node.c:291-364 | An index block whose first entry is itself makes the walk fail with OutOfRange, because the blocks ceiling is reached. The walk does not loop. |
| WalkerFacts.LeafWalk | lib/node.c:308-330 | Walking a well-formed leaf whose children all pass appends those children and records the one block. |
| WalkerFacts.IndexOfLeaves | lib/node.c:331-355 | Walking a sequence of well-formed leaves from an index appends their children concatenated in entry order, and records the leaves in order. |
| WalkerFacts.TwoLevelMatchesFlat | lib/node.c:291-364 | An "ri" block over well-formed leaves yields the same children as a single leaf listing the same children. It records the ri block first, then its leaves. |
| WalkerFacts.KeyWithOneLeaf | lib/node.c:206-330 | For a key whose subkey list is one well-formed leaf with exactly nr_subkeys passing entries, _hivex_get_children succeeds. The children are the leaf's entries in order, and the only block is the leaf. |
| WalkerFacts.KeyWithIndexOfLeaves | lib/node.c:206-355 | For a key whose subkey list is an ri block over well-formed leaves holding nr_subkeys children in all, _hivex_get_children succeeds. The children are the leaves' entries, leaf after leaf, and the blocks are the ri block followed by its leaves. |
| Lookup.CString | lib/node.c:420 | What STRCASEEQ reads of a byte string: the prefix before the first NUL, which holds no NUL and is followed by one if shorter than the string. |
| Lookup.Fold | lib/node.c:420 | ASCII lower-case folding, byte by byte, with the length kept. |
| Lookup.NamesOf | lib/node.c:417-418 | The decoded name of each child, in child order. |
| Lookup.Scan | lib/node.c:417-424 | The scan's result is 0 or one of the children. |
| Lookup.ScanIsFirstHit | lib/node.c:417-424 | A non-zero result is the child at the first position whose name matches the query, with every earlier name decoding and not matching. 0 means no such position exists. |
| Lookup.ScanIgnoresCase | lib/node.c:420 | Queries that are equal up to ASCII case find the same child. |
| Lookup.ScanByOwnName | lib/node.c:417-424 | Looking up a child's own name, with all earlier names decoding, finds a matching child at or before it. It finds that child itself when no earlier name matches. |
| Lookup.NodeChildren | lib/node.c:390-401 | Returns exactly the walker's children (with the nk check on) and discards the blocks, or the walker's error. On success there are nr_subkeys children, all valid "nk" blocks. |
| Lookup.ChildByName | lib/node.c:406-431 | Returns 0 when enumeration fails. A non-zero result is one of the node's children. |
| Lookup.GetChild | lib/node.c:406-431 | The loop over the 0-terminated children array returns what ChildByName specifies. |
| Lookup.GetChildIsFirstMatch | lib/node.c:406-431 | A non-zero result is the first child in walker order whose name matches ignoring ASCII case. 0 with a successful enumeration means no child matches before the end of the list or before an undecodable name. |
| Lookup.GetChildIgnoresCase | lib/node.c:406-431 | Queries equal up to ASCII case give the same result. |
| Lookup.GetChildByOwnName | lib/node.c:406-431 | Looking up the i-th child's own name finds one of the node's children with that name up to case, and finds the i-th child itself when no earlier child's name matches. |

## Left out

- The store primitives `IS_VALID_BLOCK`, `block_len`, `h->rootoffs` and `h->last_modified` are parameters of the model. They are the `validBlocks` set, the `blockLens` map and two fields of `Hive`.
- The store is taken to place every valid block at least 0x1000 bytes into the image, with its declared length inside the image. `BLOCK_ID_EQ` is read directly from the image.
- The fixed 0x50-byte part of a key record is taken to lie inside the image. `lib/node.c` reads `name_len`, `nr_subkeys`, `subkey_lf`, `parent` and the timestamp without comparing their offsets with `block_len`. The model takes that guarantee from the store rather than modelling a read past the image.
- lib/hivex-internal.h is not part of this model. `HIVEX_MAX_SUBKEYS` is the named constant `MaxSubkeys` (25000), and `sizeof (struct ntreg_nk_record)` is the named constant `NkRecordSize` (0x51, packed layout). The proofs do not depend on the value of `MaxSubkeys`.
- The offset-list functions are defined outside `lib/node.c` and are modelled by the `OffsetList` class: a sequence with a ceiling, where adding past the ceiling fails. `_hivex_grow_offset_list` (preallocation) is not modelled.
- Allocation failure (`malloc`, list growth and list return) is not modelled. Neither are `free` or the `SET_ERRNO` message text.
- `_hivex_return_offset_list`'s 0 terminator is modelled by appending 0 to the children in `GetChild`. Children are never 0, because they carry the 0x1000 bias.
- The code disabled by `#if 0` (`hivex_node_security`, `hivex_node_classname`) is not modelled.
- Host endianness is not modelled: fields are decoded as little-endian byte sequences.
- The `size_t` arithmetic in the bound checks is unbounded in the model. Its operands fit in 32 bits, so this matches the C code on 64-bit hosts.
- Lookup.CString: the query and names are C strings. The model compares the bytes before the first NUL, as `STRCASEEQ` does, and does not model a query pointer that is not NUL-terminated.
- Node.NodeParent: the parent is not required to be an "nk" block, and nothing relates a child's parent field to the node it was enumerated from. `lib/node.c` checks neither.
- Node.Root: the root offset is not required to be an "nk" block, because `hivex_root` does not check it.
- Walker.Walk: pre-order is stated for the first block of each call and, for two-level trees, in full (`WalkerFacts.TwoLevelMatchesFlat`). No lemma states it for arbitrarily deep trees.
