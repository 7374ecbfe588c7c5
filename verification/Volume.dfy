/** The meaning of a formatted disk: who owns each data block, and what each inode maps. */
module Volume {
  import opened Wrappers
  import opened Bytes
  import opened Layout
  import FreeList

  /** Who holds a block that is not on the free list: one slot of one inode, or the caller
      of `alloc_block` (or of `mkfs`, before a block is first freed). */
  datatype Owner = Slot(inum: nat, idx: nat) | Caller

  /** `free` is the free list as a stack, top last.  `table` holds the current inodes: the
      copies in memory for those in `dirty`, the ones on disk for all others. */
  datatype View = View(free: seq<u32>, own: map<u32, Owner>, table: InodeTable, dirty: set<nat>)

  predicate DataBlock(b: nat) { DATA_START <= b < FS_SIZE }

  /** Every data block is free or owned, never both. */
  ghost predicate Partition(v: View) {
    && (forall b :: b in v.free ==> DataBlock(b))
    && (forall b :: b in v.own ==> DataBlock(b))
    && (forall b: u32 :: DataBlock(b) ==> (b in v.free <==> b !in v.own))
  }

  /** The inode slots and the owner map describe each other; unused inodes map nothing. */
  ghost predicate Slots(v: View) {
    && (forall i, q :: 0 <= i < NUM_INODES && 0 <= q < NDIRECT && v.table[i].blocks[q] != 0 ==>
          v.table[i].blocks[q] in v.own && v.own[v.table[i].blocks[q]] == Slot(i, q))
    && (forall b :: b in v.own && v.own[b].Slot? ==>
          v.own[b].inum < NUM_INODES && v.own[b].idx < NDIRECT && v.table[v.own[b].inum].blocks[v.own[b].idx] == b)
    && (forall i :: 0 <= i < NUM_INODES && v.table[i].type_ == UNUSED ==> v.table[i].blocks == ZeroWords(NDIRECT))
  }

  /** The inode table on disk; an inode being changed in memory has been claimed on disk. */
  ghost predicate TableOnDisk(d: seq<Block>, v: View)
    requires |d| == FS_SIZE
  {
    forall i :: 0 <= i < NUM_INODES ==>
      if i in v.dirty then InodeAt(d, i).type_ != UNUSED && v.table[i].type_ != UNUSED
      else InodeAt(d, i) == v.table[i]
  }

  ghost predicate FreeOnDisk(d: seq<Block>, free: seq<u32>)
    requires |d| == FS_SIZE
  {
    FreeList.Rep(WordsOf(d), SbOf(d[0]).freelist_start, free)
  }

  /** The file-system invariant. */
  ghost predicate Inv(d: seq<Block>, v: View) {
    && |d| == FS_SIZE
    && SbOf(d[0]).inode_start == INODE_START
    && FreeOnDisk(d, v.free)
    && Partition(v)
    && Slots(v)
    && TableOnDisk(d, v)
  }

  // ----- conservation -----

  ghost function Interval(lo: u32, hi: u32): (r: set<u32>)
    requires lo <= hi
    ensures |r| == hi - lo && forall b :: b in r <==> lo <= b < hi
    decreases hi
  {
    if lo == hi then {} else Interval(lo, hi - 1) + {hi - 1}
  }

  lemma {:induction false} Elements(s: seq<u32>) returns (r: set<u32>)
    requires FreeList.Distinct(s)
    ensures |r| == |s| && forall b :: b in r <==> b in s
  {
    r := {};
    for i := 0 to |s|
      invariant |r| == i && forall b :: b in r <==> b in s[..i]
    {
      r := r + {s[i]};
    }
    assert s[..|s|] == s;
  }

  lemma IntervalCount(free: set<u32>, own: set<u32>, lo: u32, hi: u32)
    requires lo <= hi && free !! own
    requires forall b: u32 :: b in free || b in own <==> lo <= b < hi
    ensures |free| + |own| == hi - lo
  {
    assert free + own == Interval(lo, hi);
    assert |free + own| == |free| + |own|;
  }

  lemma PartitionCount(v: View)
    requires Partition(v) && FreeList.Distinct(v.free)
    ensures |v.free| + |v.own| == FS_SIZE - DATA_START
  {
    var free := Elements(v.free);
    forall b: u32 ensures b in free || b in v.own.Keys <==> DATA_START <= b < FS_SIZE {
      assert DataBlock(b) ==> (b in v.free <==> b !in v.own);
    }
    IntervalCount(free, v.own.Keys, DATA_START, FS_SIZE);
  }

  /** Free plus owned is constant: all 743 data blocks, in every state. */
  lemma Conservation(d: seq<Block>, v: View)
    requires Inv(d, v)
    ensures |v.free| + |v.own| == FS_SIZE - DATA_START == 743
  {
    PartitionCount(v);
  }

  /** No block is mapped twice, by two inodes or by two slots of one. */
  lemma NoSharing(d: seq<Block>, v: View, i: nat, q: nat, i': nat, q': nat)
    requires Inv(d, v)
    requires i < NUM_INODES && i' < NUM_INODES && q < NDIRECT && q' < NDIRECT
    requires v.table[i].blocks[q] != 0 && v.table[i].blocks[q] == v.table[i'].blocks[q']
    ensures (i, q) == (i', q') && DataBlock(v.table[i].blocks[q]) && v.table[i].blocks[q] !in v.free
  {
  }

  // ----- file images -----

  /** The contents of a block an inode maps; an unmapped block counts as zeros. */
  ghost function Mapped(d: seq<Block>, addr: u32): Block {
    if 0 < addr < |d| then d[addr] else ZERO_BLOCK
  }

  /** The 64 blocks an inode maps. */
  ghost function Img(d: seq<Block>, ino: Inode): (img: Image)
    ensures forall q :: 0 <= q < NDIRECT ==> img[q] == Mapped(d, ino.blocks[q])
  {
    seq(NDIRECT, q requires 0 <= q < NDIRECT => Mapped(d, ino.blocks[q]))
  }

  /** What every operation on inode `inum` leaves alone: all other inodes and all they map. */
  ghost predicate OthersKept(d: seq<Block>, v: View, d': seq<Block>, v': View, inum: nat) {
    forall i :: 0 <= i < NUM_INODES && i != inum ==>
      v'.table[i] == v.table[i] && Img(d', v.table[i]) == Img(d, v.table[i])
  }

  /** Of the superblock nothing but the head of the free list has changed. */
  ghost predicate SbKept(d: seq<Block>, d': seq<Block>) {
    && |d'| == |d|
    && (|d| > 0 ==>
          var sb, sb' := SbOf(d[0]), SbOf(d'[0]);
          sb'.size == sb.size && sb'.nblocks == sb.nblocks && sb'.ninodes == sb.ninodes && sb'.inode_start == sb.inode_start)
  }

  /** The inode table on disk is not written, nor the superblock but for the free list. */
  ghost predicate TableKept(d: seq<Block>, d': seq<Block>) {
    SbKept(d, d') && forall b :: 1 <= b < DATA_START && b < |d| ==> d'[b] == d[b]
  }

  lemma TableKeptTrans(d: seq<Block>, d1: seq<Block>, d2: seq<Block>)
    requires TableKept(d, d1) && TableKept(d1, d2)
    ensures TableKept(d, d2)
  {
    hide SbOf;
  }

  lemma OthersKeptRefl(d: seq<Block>, v: View, inum: nat)
    ensures OthersKept(d, v, d, v, inum) && TableKept(d, d)
  {
  }

  lemma OthersKeptTrans(d: seq<Block>, v: View, d1: seq<Block>, v1: View, d2: seq<Block>, v2: View, inum: nat)
    requires OthersKept(d, v, d1, v1, inum) && OthersKept(d1, v1, d2, v2, inum)
    ensures OthersKept(d, v, d2, v2, inum)
  {
  }

  /** Keeping every block that some other inode maps is enough. */
  lemma OthersKeptFromBlocks(d: seq<Block>, v: View, d': seq<Block>, v': View, inum: nat)
    requires Inv(d, v) && |d'| == |d|
    requires forall b :: b in v.own && v.own[b].Slot? && v.own[b].inum != inum ==> d'[b] == d[b]
    requires forall i :: 0 <= i < NUM_INODES && i != inum ==> v'.table[i] == v.table[i]
    ensures OthersKept(d, v, d', v', inum)
  {
    hide SbOf, ToWords, FreeOnDisk;
    forall i | 0 <= i < NUM_INODES && i != inum
      ensures Img(d', v.table[i]) == Img(d, v.table[i])
    {
    }
  }

  // ----- steps on one inode -----

  lemma FreeOnDiskFrame(d: seq<Block>, d': seq<Block>, free: seq<u32>)
    requires |d| == |d'| == FS_SIZE && FreeOnDisk(d, free) && d'[0] == d[0]
    requires forall b :: b in free && b < |d| ==> d'[b] == d[b]
    ensures FreeOnDisk(d', free)
  {
    hide SbOf, ToWords, FreeList.NodesHold;
    FreeList.RepFrame(WordsOf(d), WordsOf(d'), SbOf(d[0]).freelist_start, free);
  }

  /** A data block that is not free holds no file-system structure. */
  lemma WriteOwned(d: seq<Block>, v: View, b: u32, blk: Block)
    requires Inv(d, v) && b in v.own
    ensures b < |d| && Inv(d[b := blk], v)
  {
    hide SbOf, ToWords, FreeOnDisk, Slots;
    FreeOnDiskFrame(d, d[b := blk], v.free);
  }

  /** Overwriting a block that inode `inum` maps changes that block of its image only. */
  lemma WriteMapped(d: seq<Block>, v: View, inum: nat, q: nat, blk: Block)
    requires Inv(d, v) && inum < NUM_INODES && q < NDIRECT && v.table[inum].blocks[q] != 0
    ensures v.table[inum].blocks[q] < |d|
    ensures var d' := d[v.table[inum].blocks[q] := blk];
            && Inv(d', v) && OthersKept(d, v, d', v, inum) && TableKept(d, d')
            && Img(d', v.table[inum]) == Img(d, v.table[inum])[q := blk]
  {
    hide SbOf, ToWords, FreeOnDisk, TableOnDisk;
    var b := v.table[inum].blocks[q];
    assert v.own[b] == Slot(inum, q);
    WriteOwned(d, v, b, blk);
    OthersKeptFromBlocks(d, v, d[b := blk], v, inum);
  }

  /** An inode is changed in memory, keeping its type and its blocks. */
  ghost function Touch(v: View, inum: nat, ino: Inode): View
    requires inum < NUM_INODES
  {
    v.(table := v.table[inum := ino], dirty := v.dirty + {inum})
  }

  lemma TouchKeeps(d: seq<Block>, v: View, inum: nat, ino: Inode)
    requires Inv(d, v) && inum < NUM_INODES
    requires ino.blocks == v.table[inum].blocks && ino.type_ == v.table[inum].type_ != UNUSED
    ensures Inv(d, Touch(v, inum, ino)) && OthersKept(d, v, d, Touch(v, inum, ino), inum)
    ensures Img(d, ino) == Img(d, v.table[inum])
  {
    hide SbOf, ToWords, FreeOnDisk;
    OthersKeptFromBlocks(d, v, d, Touch(v, inum, ino), inum);
  }

  /** An inode that ends up as it was need not be written back. */
  lemma Untouch(d: seq<Block>, v: View, d': seq<Block>, v': View)
    requires Inv(d, v) && Inv(d', v') && TableKept(d, d') && v'.table == v.table
    ensures Inv(d', v'.(dirty := v.dirty))
  {
    hide SbOf, ToWords, FreeOnDisk, InodeOf;
    forall i | 0 <= i < NUM_INODES ensures InodeAt(d', i) == InodeAt(d, i) {
      assert d'[1 + i] == d[1 + i];
    }
  }

  /** The state after a write that leaves inode `inum` as `ino` in memory; it has to be written back
      only if it has changed. */
  ghost function Written(v: View, v1: View, inum: nat, ino: Inode): View
    requires inum < NUM_INODES
  {
    v1.(table := v1.table[inum := ino], dirty := v.dirty + if ino == v.table[inum] then {} else {inum})
  }

  lemma WrittenBack(d: seq<Block>, v: View, d1: seq<Block>, v1: View, inum: nat, ino: Inode)
    requires Inv(d, v) && Inv(d1, v1) && inum < NUM_INODES && TableKept(d, d1) && OthersKept(d, v, d1, v1, inum)
    requires v1.dirty == v.dirty + {inum} && v.table[inum].type_ != UNUSED
    requires ino.blocks == v1.table[inum].blocks && ino.type_ == v1.table[inum].type_ != UNUSED
    ensures var v' := Written(v, v1, inum, ino);
            Inv(d1, v') && OthersKept(d, v, d1, v', inum) && Img(d1, ino) == Img(d1, v1.table[inum])
  {
    hide Inv, OthersKept, TableKept;
    var v2 := Touch(v1, inum, ino);
    TouchKeeps(d1, v1, inum, ino);
    OthersKeptTrans(d, v, d1, v1, d1, v2, inum);
    var v' := Written(v, v1, inum, ino);
    if ino == v.table[inum] {
      SameTable(d, v, d1, v2, inum);
      Untouch(d, v, d1, v2);
      assert v' == v2.(dirty := v.dirty);
      SameTableOthers(d, v, d1, v2, v', inum);
    } else {
      assert v' == v2;
    }
  }

  lemma SameTable(d: seq<Block>, v: View, d1: seq<Block>, v1: View, inum: nat)
    requires OthersKept(d, v, d1, v1, inum) && inum < NUM_INODES && v1.table[inum] == v.table[inum]
    ensures v1.table == v.table
  {
    forall i | 0 <= i < NUM_INODES ensures v1.table[i] == v.table[i] {
    }
  }

  lemma SameTableOthers(d: seq<Block>, v: View, d1: seq<Block>, v1: View, v2: View, inum: nat)
    requires OthersKept(d, v, d1, v1, inum) && v2.table == v1.table
    ensures OthersKept(d, v, d1, v2, inum)
  {
  }

  lemma MappedBlock(d: seq<Block>, v: View, inum: nat, q: nat)
    requires Inv(d, v) && inum < NUM_INODES && q < NDIRECT
    ensures v.table[inum].blocks[q] < |d|
  {
    hide SbOf, ToWords, FreeOnDisk, TableOnDisk;
  }

  // ----- the inode table as an array -----

  /** Inode `i` written back: disk and memory agree on it again. */
  ghost function Sync(v: View, i: nat, ino: Inode): View
    requires i < NUM_INODES
  {
    v.(table := v.table[i := ino], dirty := v.dirty - {i})
  }

  /** The table on disk is an array of 256 inodes: an update is read back, and changes no other entry. */
  lemma InodeArray(d: seq<Block>, i: nat, ino: Inode, j: nat)
    requires |d| == FS_SIZE && i < NUM_INODES && j < NUM_INODES
    ensures InodeAt(d[1 + i := PutInode(d[1 + i], ino)], j) == if i == j then ino else InodeAt(d, j)
  {
    hide PutInode, InodeOf;
    PutInodeRoundTrip(d[1 + i], ino);
  }

  lemma SyncKeeps(d: seq<Block>, v: View, i: nat, ino: Inode)
    requires Inv(d, v) && i < NUM_INODES && Slots(Sync(v, i, ino))
    ensures var d' := d[1 + i := PutInode(d[1 + i], ino)];
            Inv(d', Sync(v, i, ino)) && OthersKept(d, v, d', Sync(v, i, ino), i)
            && Img(d', v.table[i]) == Img(d, v.table[i])
  {
    hide SbOf, InodeAt, PutInode, FreeOnDisk, Slots, TableOnDisk;
    var d', v' := d[1 + i := PutInode(d[1 + i], ino)], Sync(v, i, ino);
    FreeOnDiskFrame(d, d', v.free);
    OthersKeptFromBlocks(d, v, d', v', i);
    SyncTable(d, v, i, ino);
    TableNotMapped(d, v, i, PutInode(d[1 + i], ino));
  }

  /** Writing a block of the inode table changes no file image. */
  lemma TableNotMapped(d: seq<Block>, v: View, i: nat, blk: Block)
    requires Inv(d, v) && i < NUM_INODES
    ensures |d| == FS_SIZE && Img(d[1 + i := blk], v.table[i]) == Img(d, v.table[i])
  {
    hide SbOf, FreeOnDisk, TableOnDisk;
    forall q | 0 <= q < NDIRECT && 0 < v.table[i].blocks[q] ensures v.table[i].blocks[q] != 1 + i {
      NoSharing(d, v, i, q, i, q);
    }
    ImgFrame(d, d[1 + i := blk], v.table[i]);
  }

  lemma SyncTable(d: seq<Block>, v: View, i: nat, ino: Inode)
    requires |d| == FS_SIZE && TableOnDisk(d, v) && i < NUM_INODES
    ensures TableOnDisk(d[1 + i := PutInode(d[1 + i], ino)], Sync(v, i, ino))
  {
    hide InodeAt, PutInode;
    var d', v' := d[1 + i := PutInode(d[1 + i], ino)], Sync(v, i, ino);
    forall j | 0 <= j < NUM_INODES
      ensures if j in v'.dirty then InodeAt(d', j).type_ != UNUSED && v'.table[j].type_ != UNUSED
              else InodeAt(d', j) == v'.table[j]
    {
      InodeArray(d, i, ino, j);
    }
  }

  /** The blocks of a file hold its image, and nothing else does. */
  lemma ImgFrame(d: seq<Block>, d': seq<Block>, ino: Inode)
    requires |d'| == |d| && forall q :: 0 <= q < NDIRECT && 0 < ino.blocks[q] < |d| ==> d'[ino.blocks[q]] == d[ino.blocks[q]]
    ensures Img(d', ino) == Img(d, ino)
  {
  }

  /** An unused entry of the table is claimed for an inode that maps nothing yet. */
  lemma ClaimSlots(v: View, i: nat, ino: Inode)
    requires Slots(v) && i < NUM_INODES && v.table[i].type_ == UNUSED
    requires ino.blocks == ZeroWords(NDIRECT)
    ensures Slots(Sync(v, i, ino))
  {
  }

  lemma SameSlots(v: View, i: nat)
    requires Slots(v) && i < NUM_INODES
    ensures Slots(Sync(v, i, v.table[i]))
  {
    assert v.table[i := v.table[i]] == v.table;
  }

  /** A table entry is unused on disk exactly when it is unused. */
  lemma TableEntries(d: seq<Block>, v: View)
    requires Inv(d, v)
    ensures |d| == FS_SIZE && SbOf(d[0]).inode_start == INODE_START && Slots(v)
    ensures forall i :: 0 <= i < NUM_INODES ==> (InodeAt(d, i).type_ == UNUSED <==> v.table[i].type_ == UNUSED)
    ensures forall i :: i in v.dirty && 0 <= i < NUM_INODES ==> v.table[i].type_ != UNUSED
  {
    hide InodeAt, SbOf, Slots, FreeOnDisk;
  }

  lemma DirInRange(d: seq<Block>, v: View, inum: nat)
    requires Inv(d, v) && inum < NUM_INODES
    ensures forall q :: 0 <= q < NDIRECT ==> v.table[inum].blocks[q] < |d|
  {
    forall q | 0 <= q < NDIRECT ensures v.table[inum].blocks[q] < |d| {
      MappedBlock(d, v, inum, q);
    }
  }
}
