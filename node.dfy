/** The key-record ("nk") accessors of lib/node.c: the root handle, the
    record length, the name, the two timestamps and the parent handle. Each
    is a read-only decode of fixed fields plus a bound check. */
module Node {
  import opened Results
  import opened Bytes
  import opened HiveStore

  /** The check every accessor starts with: the store accepts the block
      and its signature is "nk". */
  predicate IsNk(h: Hive, node: nat)
    requires Wf(h)
  {
    IsValidBlock(h, node) && HasId(h, node, 'n', 'k')
  }

  // Fixed fields of a key record. The store guarantees they lie inside
  // the image; node.c does not compare them with the block length.

  function NameLen(h: Hive, node: nat): (n: nat)
    requires Wf(h) && IsValidBlock(h, node)
    ensures n < 0x1_0000
  {
    ReadLE(h, node + NkNameLenAt, 2)
  }

  function NrSubkeys(h: Hive, node: nat): (n: nat)
    requires Wf(h) && IsValidBlock(h, node)
    ensures n < 0x1_0000_0000
  {
    ReadLE(h, node + NkNrSubkeysAt, 4)
  }

  /** The stored subkey_lf field with the block bias applied. */
  function SubkeyList(h: Hive, node: nat): (o: nat)
    requires Wf(h) && IsValidBlock(h, node)
    ensures o >= BlockBias
  {
    ReadLE(h, node + NkSubkeyLfAt, 4) + BlockBias
  }

  /** The stored parent field with the block bias applied. */
  function ParentField(h: Hive, node: nat): (o: nat)
    requires Wf(h) && IsValidBlock(h, node)
    ensures o >= BlockBias
  {
    ReadLE(h, node + NkParentAt, 4) + BlockBias
  }

  /** The stored 64-bit last-write time, read as a signed integer. */
  function StoredTimestamp(h: Hive, node: nat): int64
    requires Wf(h) && IsValidBlock(h, node)
  {
    Pow256Eight();
    AsInt64(ReadLE(h, node + NkTimestampAt, 8))
  }

  /** hivex_root: the store's root offset, provided it is a valid block.
      A success is never 0, so the C sentinel for "no root" is unambiguous. */
  function Root(h: Hive): (r: Result<nat>)
    requires Wf(h)
    ensures r.Ok? <==> IsValidBlock(h, h.rootOffs)
    ensures r.Ok? ==> r.value == h.rootOffs && r.value != 0
    ensures r.Err? ==> r.error == NoKey
  {
    if !IsValidBlock(h, h.rootOffs) then Err(NoKey) else Ok(h.rootOffs)
  }

  /** hivex_node_struct_length: header size plus name length, less the one
      name byte the header already counts, provided it fits the block. */
  function NodeStructLength(h: Hive, node: nat): (r: Result<nat>)
    requires Wf(h)
    ensures !IsNk(h, node) ==> r == Err(InvalidArgument)
    ensures IsNk(h, node) ==>
      (r.Ok? <==> NkRecordSize + NameLen(h, node) - 1 <= BlockLen(h, node))
    ensures IsNk(h, node) && r.Err? ==> r.error == Fault
    ensures r.Ok? ==> r.value == NkNameAt + NameLen(h, node) && r.value <= BlockLen(h, node)
  {
    if !IsNk(h, node) then Err(InvalidArgument)
    else
      var ret := NameLen(h, node) + NkRecordSize - 1;
      if ret > BlockLen(h, node) then Err(Fault) else Ok(ret)
  }

  /** hivex_node_name: a copy of the name_len raw name bytes followed by
      one NUL, provided the name lies inside the block. */
  function NodeName(h: Hive, node: nat): (r: Result<seq<byte>>)
    requires Wf(h)
    ensures !IsNk(h, node) ==> r == Err(InvalidArgument)
    ensures IsNk(h, node) ==>
      (r.Ok? <==> NkRecordSize + NameLen(h, node) - 1 <= BlockLen(h, node))
    ensures IsNk(h, node) && r.Err? ==> r.error == Fault
    ensures r.Ok? ==>
      && |r.value| == NameLen(h, node) + 1
      && r.value[NameLen(h, node)] == 0
      && node + NkNameAt + NameLen(h, node) <= node + BlockLen(h, node)
      && r.value[..NameLen(h, node)] == h.bytes[node + NkNameAt .. node + NkNameAt + NameLen(h, node)]
  {
    if !IsNk(h, node) then Err(InvalidArgument)
    else
      var len := NameLen(h, node);
      var segLen := BlockLen(h, node);
      if NkRecordSize + len - 1 > segLen then Err(Fault)
      else Ok(h.bytes[node + NkNameAt .. node + NkNameAt + len] + [0])
  }

  /** The two accessors accept and reject the same handles, and the name
      they describe has exactly the length the record length implies. */
  lemma NameAgreesWithStructLength(h: Hive, node: nat)
    requires Wf(h)
    ensures NodeName(h, node).Ok? <==> NodeStructLength(h, node).Ok?
    ensures NodeName(h, node).Err? ==> NodeName(h, node).error == NodeStructLength(h, node).error
    ensures NodeName(h, node).Ok? ==>
      |NodeName(h, node).value| + NkNameAt == NodeStructLength(h, node).value + 1
  {
  }

  /** timestamp_check: a negative time is an error, any other passes. */
  function TimestampCheck(t: int64): (r: Result<int64>)
    ensures r.Ok? <==> t >= 0
    ensures r.Ok? ==> r.value == t
    ensures r.Err? ==> r.error == InvalidArgument
  {
    if t < 0 then Err(InvalidArgument) else Ok(t)
  }

  /** The int64 the C functions return: the time, or -1 for any error.
      Since a passing time is never negative, -1 means failure exactly. */
  function AsReturned(r: Result<int64>): (v: int64)
    requires r.Ok? ==> r.value >= 0
    ensures v == -1 <==> r.Err?
    ensures v >= 0 <==> r.Ok?
  {
    if r.Ok? then r.value else -1
  }

  /** hivex_last_modified: the store's hive-wide time, checked. */
  function LastModified(h: Hive): (r: Result<int64>)
    ensures r.Ok? <==> h.lastModified >= 0
    ensures r.Ok? ==> r.value == h.lastModified
    ensures r.Err? ==> r.error == InvalidArgument
  {
    TimestampCheck(h.lastModified)
  }

  /** hivex_node_timestamp: the key's last write time, checked. */
  function NodeTimestamp(h: Hive, node: nat): (r: Result<int64>)
    requires Wf(h)
    ensures r.Err? ==> r.error == InvalidArgument
    ensures r.Ok? <==> IsNk(h, node) && StoredTimestamp(h, node) >= 0
    ensures r.Ok? ==> r.value == StoredTimestamp(h, node)
  {
    if !IsNk(h, node) then Err(InvalidArgument)
    else TimestampCheck(StoredTimestamp(h, node))
  }

  /** A key whose timestamp field holds the 8-byte little-endian form of a
      time t reports t when t is non-negative, and fails when t is negative
      (stored as its two's complement). */
  lemma TimestampRoundTrip(h: Hive, node: nat, t: int64)
    requires Wf(h) && IsNk(h, node)
    requires t >= 0 ==> h.bytes[node + NkTimestampAt .. node + NkTimestampAt + 8] == Encode(t, 8)
    requires t < 0 ==> h.bytes[node + NkTimestampAt .. node + NkTimestampAt + 8] == Encode(t + Two64, 8)
    ensures t >= 0 ==> NodeTimestamp(h, node) == Ok(t)
    ensures t < 0 ==> NodeTimestamp(h, node) == Err(InvalidArgument)
  {
    Pow256Eight();
    if t >= 0 {
      DecodeEncode(t, 8);
    } else {
      DecodeEncode(t + Two64, 8);
    }
  }

  /** hivex_node_parent: the biased parent offset, provided the store
      accepts it as a block. The parent is not required to be an "nk". */
  function NodeParent(h: Hive, node: nat): (r: Result<nat>)
    requires Wf(h)
    ensures !IsNk(h, node) ==> r == Err(InvalidArgument)
    ensures IsNk(h, node) ==> (r.Ok? <==> IsValidBlock(h, ParentField(h, node)))
    ensures IsNk(h, node) && r.Err? ==> r.error == Fault
    ensures r.Ok? ==> r.value == ParentField(h, node) && IsValidBlock(h, r.value) && r.value != 0
  {
    if !IsNk(h, node) then Err(InvalidArgument)
    else
      var ret := ParentField(h, node);
      if !IsValidBlock(h, ret) then Err(Fault) else Ok(ret)
  }
}
