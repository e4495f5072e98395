/** The Hive Store: the mapped hive image and the block oracles that
    lib/node.c consumes but does not define (IS_VALID_BLOCK, block_len,
    BLOCK_ID_EQ, h->rootoffs, h->last_modified). */
module HiveStore {
  import opened Bytes

  /** Every inter-block pointer stored in the hive is relative to the first
      hbin page, which starts 0x1000 bytes into the file. */
  const BlockBias: nat := 0x1000

  // Packed on-disk layout. Offsets count from the start of a block, that is
  // from its 4-byte length word.
  const IdAt: nat := 4              // 2-byte block signature
  const CountAt: nat := 6           // lf/lh/ri: 16-bit number of entries
  const NkTimestampAt: nat := 0x08  // nk: 64-bit last write time
  const NkParentAt: nat := 0x14     // nk: 32-bit parent offset
  const NkNrSubkeysAt: nat := 0x18  // nk: 32-bit number of subkeys
  const NkSubkeyLfAt: nat := 0x20   // nk: 32-bit offset of the subkey list block
  const NkNameLenAt: nat := 0x4C    // nk: 16-bit name length
  const NkNameAt: nat := 0x50       // nk: first byte of the name
  /** sizeof (struct ntreg_nk_record): the fixed header plus the one name
      byte that the struct declares as `char name[1]`. */
  const NkRecordSize: nat := NkNameAt + 1

  /** A mapped hive: its bytes, the set of offsets the store accepts as
      blocks, each block's declared length, and the two header values. */
  datatype Hive = Hive(
    bytes: seq<byte>,
    validBlocks: set<nat>,
    blockLens: map<nat, nat>,
    rootOffs: nat,
    lastModified: int64)

  /** What the store guarantees of every block it reports as valid: it lies
      after the 4 KiB file header, has a declared length, lies inside the
      image, and so does the fixed part of a key record starting there. */
  ghost predicate Wf(h: Hive)
  {
    forall o | o in h.validBlocks ::
      && o >= BlockBias
      && o in h.blockLens
      && o + h.blockLens[o] <= |h.bytes|
      && o + NkNameAt <= |h.bytes|
  }

  /** IS_VALID_BLOCK */
  predicate IsValidBlock(h: Hive, o: nat)
  {
    o in h.validBlocks
  }

  /** block_len: the block's declared length, length word included. */
  function BlockLen(h: Hive, o: nat): (len: nat)
    requires Wf(h) && IsValidBlock(h, o)
    ensures o + len <= |h.bytes|
  {
    h.blockLens[o]
  }

  /** The `width`-byte little-endian field at absolute offset `at`. */
  function ReadLE(h: Hive, at: nat, width: nat): (v: nat)
    requires at + width <= |h.bytes|
    ensures v < Pow256(width)
  {
    LittleEndian(h.bytes[at..at + width])
  }

  /** The byte value of an ASCII character. */
  function Ascii(c: char): byte
    requires c as int < 128
  {
    c as int
  }

  /** BLOCK_ID_EQ: the two signature bytes of block `o` are `a` then `b`. */
  predicate HasId(h: Hive, o: nat, a: char, b: char)
    requires Wf(h) && IsValidBlock(h, o)
    requires a as int < 128 && b as int < 128
  {
    h.bytes[o + IdAt] == Ascii(a) && h.bytes[o + IdAt + 1] == Ascii(b)
  }
}
