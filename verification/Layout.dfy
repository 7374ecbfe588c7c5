/** On-disk layout: superblock, inode table and data area, with the record codecs. */
module Layout {
  import opened Wrappers
  import opened Bytes

  const NDIRECT: nat := 64
  const MAXBYTES: nat := NDIRECT * BLOCKSIZE  // MAXFILE * BLOCKSIZE
  const NUM_INODES: nat := 256
  const FS_SIZE: nat := 1000                  // size in blocks
  const INODE_SIZE: nat := 272                // size_of::<Inode>()
  const INODES_PER_BLOCK: nat := BLOCKSIZE / INODE_SIZE
  const INODE_START: u32 := 1
  const DATA_START: nat := 1 + NUM_INODES / INODES_PER_BLOCK

  const ROOT_DEV: u32 := 1
  const ROOT_INUM: u32 := 0
  const SUPERBLOCK_ADDR: u32 := 0
  const UNUSED_BLOCKADDR: u32 := 0
  const UNUSED_INUM: u32 := 0xFFFF_FFFF

  const ZERO_BLOCK: Block := Zeros(BLOCKSIZE)

  datatype FsError =
    | ExhaustedBlocks | ExhaustedInodes | EntryExists | NotFound
    | ReadTooLarge | WriteTooLarge | BlockNotMapped(blockno: nat) | TypeMismatch

  type FsResult<T> = Result<T, FsError>

  // ----- inodes -----

  // InodeType is a 16-bit enumeration.
  const UNUSED: u16 := 0
  const FILE: u16 := 1
  const DIRECTORY: u16 := 2

  type BlockMap = s: seq<u32> | |s| == NDIRECT witness ZeroWords(NDIRECT)

  datatype Inode = Inode(type_: u16, device: u32, major: u16, minor: u16, size: u32, blocks: BlockMap)

  const UNUSED_INODE := Inode(UNUSED, 0, 0, 0, 0, ZeroWords(NDIRECT))

  type InodeTable = t: seq<Inode> | |t| == NUM_INODES witness seq(NUM_INODES, _ => UNUSED_INODE)

  /** The inode a formatter or `write_file` starts from. */
  function FreshInode(type_: u16): Inode {
    Inode(type_, ROOT_DEV, 0, 0, 0, ZeroWords(NDIRECT))
  }

  function InodeWords(ino: Inode): (w: seq<u32>)
    ensures 4 * |w| == INODE_SIZE
  {
    var minor: int := ino.minor;
    [ino.type_, ino.device, ino.major + 0x1_0000 * minor, ino.size] + ino.blocks
  }

  function InodeOf(w: WordBlock): Inode {
    Inode(w[0] % 0x1_0000, w[1], w[2] % 0x1_0000, w[2] / 0x1_0000, w[3], w[4..4 + NDIRECT])
  }

  lemma InodeRoundTrip(ino: Inode, w: WordBlock)
    requires w[..68] == InodeWords(ino)
    ensures InodeOf(w) == ino
  {
    assert forall i :: 0 <= i < 68 ==> w[i] == InodeWords(ino)[i];
    assert w[4..68] == ino.blocks;
  }

  /** The block that holds inode `inum` (the IBLOCK! macro). */
  function IBlock(inum: nat, inodeStart: u32): nat {
    inodeStart + inum / INODES_PER_BLOCK
  }

  /** The table position of an inode number is a block of its own, and lies outside the
      superblock and the data area exactly for the numbers below NUM_INODES: the bound
      `inum <= NUM_INODES` that `read_inode` asserts also lets through the first data block. */
  lemma InodeTableLayout(i: nat, j: nat)
    ensures IBlock(i, INODE_START) == IBlock(j, INODE_START) <==> i == j
    ensures 0 < IBlock(i, INODE_START) < 257 <==> i < 256
    ensures IBlock(256, INODE_START) == 257 == DATA_START
  {
    assert INODES_PER_BLOCK == 1;
  }

  // ----- superblock -----

  datatype SuperBlock = SuperBlock(size: u32, nblocks: u32, ninodes: u32, inode_start: u32, freelist_start: u32)

  function SbWords(sb: SuperBlock): seq<u32> {
    [sb.size, sb.nblocks, sb.ninodes, sb.inode_start, sb.freelist_start]
  }

  function SbOf(b: Block): SuperBlock {
    var w := ToWords(b);
    SuperBlock(w[0], w[1], w[2], w[3], w[4])
  }

  /** A superblock stored through the cast buffer. */
  function PutSb(b: Block, sb: SuperBlock): Block {
    Overlay(b, 0, ToBytes(SbWords(sb)))
  }

  lemma SbRoundTrip(b: Block, sb: SuperBlock)
    ensures SbOf(PutSb(b, sb)) == sb
  {
    WordsOfOverlay(b, SbWords(sb));
  }

  /** The C layout of the superblock: where each field lies in block 0, and that the rest is kept. */
  lemma SbFieldOffsets(b: Block, sb: SuperBlock)
    ensures var r := PutSb(b, sb);
            && WordAt(r, 0) == sb.size && WordAt(r, 4) == sb.nblocks && WordAt(r, 8) == sb.ninodes
            && WordAt(r, 12) == sb.inode_start && WordAt(r, 16) == sb.freelist_start && r[20..] == b[20..]
  {
    hide WordAt, ToBytes, ByteOf;
    var w := SbWords(sb);
    WordWritten(b, w, 0);
    WordWritten(b, w, 1);
    WordWritten(b, w, 2);
    WordWritten(b, w, 3);
    WordWritten(b, w, 4);
    assert |ToBytes(w)| == 20;
  }

  // ----- file images -----

  /** The 64 blocks of a file. */
  type Image = s: seq<Block> | |s| == NDIRECT witness BlankBlocks()

  function BlankBlocks(): (s: seq<Block>)
    ensures |s| == NDIRECT && forall q :: 0 <= q < NDIRECT ==> s[q] == ZERO_BLOCK
  {
    seq<Block>(NDIRECT, _ => ZERO_BLOCK)
  }

  // ----- whole disks -----

  function WordsOf(d: seq<Block>): (w: seq<WordBlock>)
    ensures |w| == |d|
    ensures forall i :: 0 <= i < |d| ==> w[i] == ToWords(d[i])
  {
    seq(|d|, i requires 0 <= i < |d| => ToWords(d[i]))
  }

  function InodeAt(d: seq<Block>, i: nat): Inode
    requires 1 + i < |d|
  {
    InodeOf(ToWords(d[1 + i]))
  }

  /** An inode stored through the cast buffer. */
  function PutInode(b: Block, ino: Inode): Block {
    Overlay(b, 0, ToBytes(InodeWords(ino)))
  }

  lemma PutInodeRoundTrip(b: Block, ino: Inode)
    ensures InodeOf(ToWords(PutInode(b, ino))) == ino
  {
    WordsOfOverlay(b, InodeWords(ino));
    var w := ToWords(PutInode(b, ino));
    assert w[..68] == InodeWords(ino);
    InodeRoundTrip(ino, w);
  }

  /** The C layout of an inode: where each field lies in its block, and that the rest is kept. */
  lemma InodeFieldOffsets(b: Block, ino: Inode)
    ensures var r := PutInode(b, ino);
            && WordAt(r, 0) == ino.type_ && WordAt(r, 4) == ino.device && WordAt(r, 12) == ino.size
            && WordAt(r, 8) % 0x1_0000 == ino.major && WordAt(r, 8) / 0x1_0000 == ino.minor
            && (forall q :: 0 <= q < NDIRECT ==> WordAt(r, 16 + 4 * q) == ino.blocks[q])
            && r[INODE_SIZE..] == b[INODE_SIZE..]
  {
    hide WordAt, ToBytes, ByteOf;
    var r, w := PutInode(b, ino), InodeWords(ino);
    forall i | 0 <= i < 68 ensures WordAt(r, 4 * i) == w[i] {
      FieldAt(b, ino, i);
    }
    assert WordAt(r, 4 * 0) == w[0] && WordAt(r, 4 * 1) == w[1] && WordAt(r, 4 * 2) == w[2] && WordAt(r, 4 * 3) == w[3];
    forall q | 0 <= q < NDIRECT ensures WordAt(r, 16 + 4 * q) == ino.blocks[q] {
      assert WordAt(r, 4 * (4 + q)) == w[4 + q];
    }
  }

  lemma FieldAt(b: Block, ino: Inode, i: nat)
    requires i < 68
    ensures WordAt(PutInode(b, ino), 4 * i) == InodeWords(ino)[i]
  {
    hide WordAt, ToBytes, ByteOf, InodeWords;
    WordsOfOverlay(b, InodeWords(ino));
    assert ToWords(PutInode(b, ino))[i] == WordAt(PutInode(b, ino), 4 * i);
  }

  lemma UnusedInodeIsZero()
    ensures InodeOf(ZeroWords(BLOCKWORDS)) == UNUSED_INODE
  {
    assert ZeroWords(BLOCKWORDS)[4..68] == ZeroWords(NDIRECT);
  }
}
